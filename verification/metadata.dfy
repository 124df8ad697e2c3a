/** `get_file_metadata` (its cleaning loop) and `get_earliest_date_and_dimensions`:
    the shell's columns for one file become a record holding the earliest of
    its date columns and its height and width.  The shell query itself is an
    input: a map from column name to the non-empty text the shell shows. */
module Metadata {
  import opened Wrappers
  import opened PyStr
  import opened PyPath
  import opened DateTimes
  import opened DateCleaning

  /** The date columns, in the order they are read. */
  const DateFields: seq<string> := ["Date modified", "Date created", "Date taken", "Date accessed", "Media created"]

  datatype Dims = Dims(height: int, width: int)

  /** The dictionary `get_earliest_date_and_dimensions` returns. */
  datatype MediaRecord = MediaRecord(filename: string, datetime: DateTime, height: int, width: int)

  /** Why a file yields no record: a date column `clean_date_string` cannot
      handle, a cleaned date `strptime` rejects, or no date at all (`min` of
      an empty list). */
  datatype MetaError = MalformedDate(field: string, cause: CleanError) | UnparsableDate(field: string) | NoDates

  /** What is known about one file: its path, the shell's columns, and what
      OpenCV would decode from it (a video capture or an image read), if anything. */
  datatype FileFacts = FileFacts(path: string, shell: map<string, string>, decoded: Option<Dims>)

  /** `d.get(k)`. */
  function Get(m: map<string, string>, k: string): (r: Option<string>)
    ensures r.Some? <==> k in m
    ensures r.Some? ==> r.value == m[k]
  {
    if k in m then Some(m[k]) else None
  }

  predicate Distinct(fields: seq<string>)
  {
    forall i, j :: 0 <= i < j < |fields| ==> fields[i] != fields[j]
  }

  // ---------------------------------------------------------------------
  // The cleaning loop of get_file_metadata

  /** The metadata after the cleaning loop has run over `fields`: each field
      in turn is replaced by the cleaned form of its value (or "NA"); the
      first one `clean_date_string` raises on ends the loop. */
  function Normalized(meta: map<string, string>, fields: seq<string>): Result<map<string, string>, MetaError>
    decreases |fields|
  {
    if fields == [] then Ok(meta)
    else
      match Normalized(meta, fields[..|fields| - 1])
      case Err(e) => Err(e)
      case Ok(m) =>
        var f := fields[|fields| - 1];
        match Clean(Get(m, f))
        case Err(c) => Err(MalformedDate(f, c))
        case Ok(v) => Ok(m[f := v])
  }

  /** The cleaning loop succeeds exactly when every field cleans; then every
      field holds its cleaned value, and every other column is untouched. */
  lemma {:induction false} NormalizedFields(meta: map<string, string>, fields: seq<string>)
    requires Distinct(fields)
    ensures Normalized(meta, fields).Ok? <==> forall i :: 0 <= i < |fields| ==> Clean(Get(meta, fields[i])).Ok?
    ensures Normalized(meta, fields).Ok? ==>
      var m := Normalized(meta, fields).value;
      && (forall k :: k in m <==> k in meta || k in fields)
      && (forall i :: 0 <= i < |fields| ==> Clean(Get(meta, fields[i])) == Ok(m[fields[i]]))
      && (forall k :: k in meta && k !in fields ==> m[k] == meta[k])
    decreases |fields|
  {
    if fields != [] {
      var init, f := fields[..|fields| - 1], fields[|fields| - 1];
      DistinctLast(fields);
      NormalizedFields(meta, init);
      match Normalized(meta, init)
      case Err(_) =>
        assert forall i :: 0 <= i < |init| ==> init[i] == fields[i];
      case Ok(m) =>
        assert Get(m, f) == Get(meta, f);
        match Clean(Get(meta, f))
        case Err(_) =>
        case Ok(v) =>
          NormalizedGrow(meta, fields, m, v);
    }
  }

  /** The last of distinct fields is not among the others, which are distinct. */
  lemma DistinctLast(fields: seq<string>)
    requires Distinct(fields) && fields != []
    ensures Distinct(fields[..|fields| - 1])
    ensures fields[|fields| - 1] !in fields[..|fields| - 1]
  {
  }

  /** Cleaning one more field keeps the facts `NormalizedFields` states. */
  lemma NormalizedGrow(meta: map<string, string>, fields: seq<string>, m: map<string, string>, v: string)
    requires fields != []
    requires fields[|fields| - 1] !in fields[..|fields| - 1]
    requires Clean(Get(meta, fields[|fields| - 1])) == Ok(v)
    requires forall k :: k in m <==> k in meta || k in fields[..|fields| - 1]
    requires forall i :: 0 <= i < |fields| - 1 ==> Clean(Get(meta, fields[i])) == Ok(m[fields[i]])
    requires forall k :: k in meta && k !in fields[..|fields| - 1] ==> m[k] == meta[k]
    ensures var m' := m[fields[|fields| - 1] := v];
      && (forall k :: k in m' <==> k in meta || k in fields)
      && (forall i :: 0 <= i < |fields| ==> Clean(Get(meta, fields[i])) == Ok(m'[fields[i]]))
      && (forall k :: k in meta && k !in fields ==> m'[k] == meta[k])
  {
    var init := fields[..|fields| - 1];
    assert fields == init + [fields[|fields| - 1]];
    assert forall i :: 0 <= i < |init| ==> init[i] == fields[i];
  }

  /** `get_file_metadata`'s loop over the date columns, proved to compute `Normalized`. */
  method NormalizeDateFields(shell: map<string, string>) returns (r: Result<map<string, string>, MetaError>)
    ensures r == Normalized(shell, DateFields)
  {
    var m := shell;
    for i := 0 to |DateFields|
      invariant Normalized(shell, DateFields[..i]) == Ok(m)
    {
      var field := DateFields[i];
      var cleaned := Clean(Get(m, field));
      if cleaned.Err? {
        NormalizedFailsAt(shell, DateFields, i, m);
        return Err(MalformedDate(field, cleaned.error));
      }
      NormalizedPrefix(shell, DateFields, i, m);
      m := m[field := cleaned.value];
    }
    assert DateFields[..|DateFields|] == DateFields;
    r := Ok(m);
  }

  /** One more field is one more step of the cleaning loop. */
  lemma NormalizedPrefix(meta: map<string, string>, fields: seq<string>, i: nat, m: map<string, string>)
    requires i < |fields| && Normalized(meta, fields[..i]) == Ok(m)
    ensures Normalized(meta, fields[..i + 1]) ==
      match Clean(Get(m, fields[i]))
      case Err(c) => Err(MalformedDate(fields[i], c))
      case Ok(v) => Ok(m[fields[i] := v])
  {
    assert fields[..i + 1][..i] == fields[..i];
  }

  /** A field that does not clean ends the loop with its error. */
  lemma NormalizedFailsAt(meta: map<string, string>, fields: seq<string>, i: nat, m: map<string, string>)
    requires i < |fields| && Normalized(meta, fields[..i]) == Ok(m) && Clean(Get(m, fields[i])).Err?
    ensures Normalized(meta, fields) == Err(MalformedDate(fields[i], Clean(Get(m, fields[i])).error))
  {
    NormalizedPrefix(meta, fields, i, m);
    NormalizedStops(meta, fields, i + 1);
  }

  /** Once the cleaning loop has failed on a prefix, it fails the same way on the whole. */
  lemma {:induction false} NormalizedStops(meta: map<string, string>, fields: seq<string>, n: nat)
    requires n <= |fields| && Normalized(meta, fields[..n]).Err?
    ensures Normalized(meta, fields) == Normalized(meta, fields[..n])
    decreases |fields| - n
  {
    if n < |fields| {
      assert fields[..n + 1][..n] == fields[..n];
      NormalizedStops(meta, fields, n + 1);
    } else {
      assert fields[..n] == fields;
    }
  }

  // ---------------------------------------------------------------------
  // Collecting the candidate dates

  /** The datetimes of the fields that are not "NA", parsed in field order;
      a field `strptime` rejects ends the collection. */
  function ParsedDates(meta: map<string, string>, fields: seq<string>): Result<seq<DateTime>, MetaError>
    requires forall i :: 0 <= i < |fields| ==> fields[i] in meta
    decreases |fields|
  {
    if fields == [] then Ok([])
    else
      match ParsedDates(meta, fields[..|fields| - 1])
      case Err(e) => Err(e)
      case Ok(ds) =>
        var f := fields[|fields| - 1];
        if meta[f] == NotAvailable then Ok(ds)
        else
          match Parse(meta[f])
          case None => Err(UnparsableDate(f))
          case Some(dt) => Ok(ds + [dt])
  }

  /** The collection succeeds exactly when every field is "NA" or parses; then
      it holds the parse of every such field and nothing else. */
  lemma {:induction false} ParsedDatesSpec(meta: map<string, string>, fields: seq<string>)
    requires forall i :: 0 <= i < |fields| ==> fields[i] in meta
    ensures ParsedDates(meta, fields).Ok? <==>
      forall i :: 0 <= i < |fields| ==> meta[fields[i]] == NotAvailable || Parse(meta[fields[i]]).Some?
    ensures ParsedDates(meta, fields).Ok? ==>
      var ds := ParsedDates(meta, fields).value;
      && (forall d :: d in ds ==> exists i :: 0 <= i < |fields| && meta[fields[i]] != NotAvailable && Parse(meta[fields[i]]) == Some(d))
      && (forall i :: 0 <= i < |fields| && meta[fields[i]] != NotAvailable ==> Parse(meta[fields[i]]).value in ds)
    decreases |fields|
  {
    ParsedDatesUpTo(meta, fields, |fields|);
    assert fields[..|fields|] == fields;
  }

  /** What `ParsedDatesSpec` states, for the first `n` fields. */
  ghost predicate CollectedUpTo(meta: map<string, string>, fields: seq<string>, n: nat)
    requires forall i :: 0 <= i < |fields| ==> fields[i] in meta
    requires n <= |fields|
  {
    && (ParsedDates(meta, fields[..n]).Ok? <==>
          forall i :: 0 <= i < n ==> meta[fields[i]] == NotAvailable || Parse(meta[fields[i]]).Some?)
    && (ParsedDates(meta, fields[..n]).Ok? ==>
          var ds := ParsedDates(meta, fields[..n]).value;
          && (forall d :: d in ds ==> exists i :: 0 <= i < n && meta[fields[i]] != NotAvailable && Parse(meta[fields[i]]) == Some(d))
          && (forall i :: 0 <= i < n && meta[fields[i]] != NotAvailable ==> Parse(meta[fields[i]]).value in ds))
  }

  lemma {:induction false} ParsedDatesUpTo(meta: map<string, string>, fields: seq<string>, n: nat)
    requires forall i :: 0 <= i < |fields| ==> fields[i] in meta
    requires n <= |fields|
    ensures CollectedUpTo(meta, fields, n)
  {
    if n > 0 {
      ParsedDatesUpTo(meta, fields, n - 1);
      match ParsedDates(meta, fields[..n - 1])
      case Err(_) => CollectedAfterErr(meta, fields, n - 1);
      case Ok(ds) => CollectedAfterOk(meta, fields, n - 1, ds);
    }
  }

  lemma CollectedAfterErr(meta: map<string, string>, fields: seq<string>, n: nat)
    requires forall i :: 0 <= i < |fields| ==> fields[i] in meta
    requires n < |fields| && ParsedDates(meta, fields[..n]).Err? && CollectedUpTo(meta, fields, n)
    ensures CollectedUpTo(meta, fields, n + 1)
  {
    assert fields[..n + 1][..n] == fields[..n];
  }

  lemma CollectedAfterOk(meta: map<string, string>, fields: seq<string>, n: nat, ds: seq<DateTime>)
    requires forall i :: 0 <= i < |fields| ==> fields[i] in meta
    requires n < |fields| && ParsedDates(meta, fields[..n]) == Ok(ds) && CollectedUpTo(meta, fields, n)
    ensures CollectedUpTo(meta, fields, n + 1)
  {
    ParsedDatesPrefix(meta, fields, n, ds);
    if meta[fields[n]] != NotAvailable && Parse(meta[fields[n]]).Some? {
      ParsedDatesGrow(meta, fields, n, ds);
    }
  }

  /** Parsing one more field keeps every collected datetime traceable to a field. */
  lemma ParsedDatesGrow(meta: map<string, string>, fields: seq<string>, n: nat, ds: seq<DateTime>)
    requires forall i :: 0 <= i < |fields| ==> fields[i] in meta
    requires n < |fields|
    requires meta[fields[n]] != NotAvailable && Parse(meta[fields[n]]).Some?
    requires forall d :: d in ds ==> exists i :: 0 <= i < n && meta[fields[i]] != NotAvailable && Parse(meta[fields[i]]) == Some(d)
    ensures var all := ds + [Parse(meta[fields[n]]).value];
      forall d :: d in all ==> exists i :: 0 <= i < n + 1 && meta[fields[i]] != NotAvailable && Parse(meta[fields[i]]) == Some(d)
  {
    var all := ds + [Parse(meta[fields[n]]).value];
    forall d | d in all
      ensures exists i :: 0 <= i < n + 1 && meta[fields[i]] != NotAvailable && Parse(meta[fields[i]]) == Some(d)
    {
      if d in ds {
        var i :| 0 <= i < n && meta[fields[i]] != NotAvailable && Parse(meta[fields[i]]) == Some(d);
      } else {
        assert d == all[|ds|];
      }
    }
  }

  /** The loop of `get_earliest_date_and_dimensions` that gathers the
      candidate datetimes, proved to compute `ParsedDates`. */
  method CollectDates(meta: map<string, string>) returns (r: Result<seq<DateTime>, MetaError>)
    requires forall i :: 0 <= i < |DateFields| ==> DateFields[i] in meta
    ensures r == ParsedDates(meta, DateFields)
  {
    var dates: seq<DateTime> := [];
    for i := 0 to |DateFields|
      invariant ParsedDates(meta, DateFields[..i]) == Ok(dates)
    {
      var field := DateFields[i];
      ParsedDatesPrefix(meta, DateFields, i, dates);
      if meta[field] != NotAvailable {
        var parsed := Parse(meta[field]);
        if parsed.None? {
          ParsedDatesStops(meta, DateFields, i + 1);
          return Err(UnparsableDate(field));
        }
        dates := dates + [parsed.value];
      }
    }
    assert DateFields[..|DateFields|] == DateFields;
    r := Ok(dates);
  }

  /** One more field is one more step of the collection. */
  lemma ParsedDatesPrefix(meta: map<string, string>, fields: seq<string>, i: nat, ds: seq<DateTime>)
    requires forall k :: 0 <= k < |fields| ==> fields[k] in meta
    requires i < |fields| && ParsedDates(meta, fields[..i]) == Ok(ds)
    ensures ParsedDates(meta, fields[..i + 1]) ==
      if meta[fields[i]] == NotAvailable then Ok(ds)
      else match Parse(meta[fields[i]])
        case None => Err(UnparsableDate(fields[i]))
        case Some(dt) => Ok(ds + [dt])
  {
    assert fields[..i + 1][..i] == fields[..i];
  }

  lemma {:induction false} ParsedDatesStops(meta: map<string, string>, fields: seq<string>, n: nat)
    requires forall i :: 0 <= i < |fields| ==> fields[i] in meta
    requires n <= |fields| && ParsedDates(meta, fields[..n]).Err?
    ensures ParsedDates(meta, fields) == ParsedDates(meta, fields[..n])
    decreases |fields| - n
  {
    if n < |fields| {
      assert fields[..n + 1][..n] == fields[..n];
      ParsedDatesStops(meta, fields, n + 1);
    } else {
      assert fields[..n] == fields;
    }
  }

  /** `min(datetimes)`: the first datetime that no other precedes. */
  function MinDate(ds: seq<DateTime>): (r: DateTime)
    requires |ds| > 0
    ensures r in ds
    ensures forall d :: d in ds ==> !Before(d, r)
    decreases |ds|
  {
    if |ds| == 1 then ds[0]
    else
      var best := MinDate(ds[..|ds| - 1]);
      var last := ds[|ds| - 1];
      assert ds == ds[..|ds| - 1] + [last];
      if Before(last, best) then
        assert forall d :: d in ds[..|ds| - 1] ==> !Before(d, last) by {
          forall d | d in ds[..|ds| - 1] ensures !Before(d, last) {
            BeforeStrict(d, last, best);
          }
        }
        last
      else best
  }

  // ---------------------------------------------------------------------
  // Dimensions

  /** `int(meta[key])`, `None` where that raises (a missing key or a value
      that is not an integer). */
  function FieldInt(meta: map<string, string>, key: string): (r: Option<int>)
    ensures r.Some? ==> key in meta
    ensures r.Some? ==>
      (|meta[key]| >= 1 && AllDigits(meta[key])) || (|meta[key]| >= 2 && (meta[key][0] == '-' || meta[key][0] == '+') && AllDigits(meta[key][1..]))
    ensures key in meta && |meta[key]| >= 1 && AllDigits(meta[key]) ==> r == Some(DigitsValue(meta[key]) as int)
    ensures key in meta && |meta[key]| >= 2 && (meta[key][0] == '-' || meta[key][0] == '+') && AllDigits(meta[key][1..]) ==>
      r == Some(if meta[key][0] == '-' then -(DigitsValue(meta[key][1..]) as int) else DigitsValue(meta[key][1..]) as int)
  {
    if key in meta then ParseInt(meta[key]) else None
  }

  /** The length of the run of ASCII digits that starts at `i`. */
  function DigitRun(s: string, i: nat): (n: nat)
    requires i <= |s|
    ensures i + n <= |s|
    ensures forall k :: i <= k < i + n ==> IsDigit(s[k])
    ensures i + n == |s| || !IsDigit(s[i + n])
    decreases |s| - i
  {
    if i < |s| && IsDigit(s[i]) then 1 + DigitRun(s, i + 1) else 0
  }

  /** A match of `(\d+) x (\d+)` starting exactly at `i`: (group 1, group 2). */
  function MatchAt(s: string, i: nat): Option<(nat, nat)>
    requires i <= |s|
  {
    var a := DigitRun(s, i);
    var j := i + a;
    if a > 0 && j + 3 <= |s| && s[j] == ' ' && s[j + 1] == 'x' && s[j + 2] == ' ' then
      var b := DigitRun(s, j + 3);
      if b > 0 then
        assert AllDigits(s[i..j]) && AllDigits(s[j + 3..j + 3 + b]);
        Some((DigitsValue(s[i..j]), DigitsValue(s[j + 3..j + 3 + b])))
      else None
    else None
  }

  function SearchFrom(s: string, i: nat): Option<(nat, nat)>
    requires i <= |s|
    decreases |s| - i
  {
    if i == |s| then None
    else match MatchAt(s, i)
      case Some(groups) => Some(groups)
      case None => SearchFrom(s, i + 1)
  }

  /** `re.search(r"(\d+) x (\d+)", s)`: the groups of the leftmost match. */
  function SearchDims(s: string): Option<(nat, nat)>
  {
    SearchFrom(s, 0)
  }

  /** A `Dimensions` text `<w> x <h>`, with no digits before it and no digit
      right after it, yields `(w, h)`. */
  lemma SearchDimsText(p: string, w: nat, h: nat, q: string)
    requires forall k :: 0 <= k < |p| ==> !IsDigit(p[k])
    requires q == [] || !IsDigit(q[0])
    ensures SearchDims(p + Decimal(w) + " x " + Decimal(h) + q) == Some((w, h))
  {
    var dw, dh := Decimal(w), Decimal(h);
    var s := p + dw + " x " + dh + q;
    TextSlices(p, dw, dh, q);
    PrefixNoDigits(s, p);
    SuffixNoLeadingDigit(s, |p| + |dw| + 3 + |dh|, q);
    MatchAtText(s, |p|, dw, dh);
    SkipNonDigits(s, 0, |p|);
    DecimalValue(w);
    DecimalValue(h);
  }

  lemma PrefixNoDigits(s: string, p: string)
    requires |p| <= |s| && s[..|p|] == p
    requires forall k :: 0 <= k < |p| ==> !IsDigit(p[k])
    ensures forall k :: 0 <= k < |p| ==> !IsDigit(s[k])
  {
    forall k | 0 <= k < |p|
      ensures !IsDigit(s[k])
    {
      assert s[..|p|][k] == s[k];
    }
  }

  lemma SuffixNoLeadingDigit(s: string, e: nat, q: string)
    requires e <= |s| && s[e..] == q
    requires q == [] || !IsDigit(q[0])
    ensures e == |s| || !IsDigit(s[e])
  {
    if e < |s| {
      assert s[e..][0] == s[e];
    }
  }

  lemma TextSlices(p: string, dw: string, dh: string, q: string)
    ensures var s := p + dw + " x " + dh + q;
      var j := |p| + |dw|;
      && j + 3 + |dh| <= |s|
      && s[..|p|] == p
      && s[|p|..j] == dw
      && s[j..j + 3] == " x "
      && s[j + 3..j + 3 + |dh|] == dh
      && s[j + 3 + |dh|..] == q
  {
  }

  /** Digits, ` x `, digits, and then no digit: a match at that position. */
  lemma MatchAtText(s: string, i: nat, dw: string, dh: string)
    requires |dw| > 0 && |dh| > 0 && AllDigits(dw) && AllDigits(dh)
    requires i + |dw| + 3 + |dh| <= |s|
    requires s[i..i + |dw|] == dw && s[i + |dw|..i + |dw| + 3] == " x "
    requires s[i + |dw| + 3..i + |dw| + 3 + |dh|] == dh
    requires i + |dw| + 3 + |dh| == |s| || !IsDigit(s[i + |dw| + 3 + |dh|])
    ensures MatchAt(s, i) == Some((DigitsValue(dw), DigitsValue(dh)))
  {
    GroupRuns(s, i, dw, dh);
    MatchAtGroups(s, i, dw, dh);
  }

  /** The two groups are maximal digit runs around the separator. */
  lemma GroupRuns(s: string, i: nat, dw: string, dh: string)
    requires AllDigits(dw) && AllDigits(dh)
    requires i + |dw| + 3 + |dh| <= |s|
    requires s[i..i + |dw|] == dw && s[i + |dw|..i + |dw| + 3] == " x "
    requires s[i + |dw| + 3..i + |dw| + 3 + |dh|] == dh
    requires i + |dw| + 3 + |dh| == |s| || !IsDigit(s[i + |dw| + 3 + |dh|])
    ensures s[i + |dw|] == ' ' && s[i + |dw| + 1] == 'x' && s[i + |dw| + 2] == ' '
    ensures DigitRun(s, i) == |dw| && DigitRun(s, i + |dw| + 3) == |dh|
  {
    SeparatorChars(s, i + |dw|);
    DigitRunOf(s, i, |dw|);
    DigitRunOf(s, i + |dw| + 3, |dh|);
  }

  lemma SeparatorChars(s: string, j: nat)
    requires j + 3 <= |s| && s[j..j + 3] == " x "
    ensures s[j] == ' ' && s[j + 1] == 'x' && s[j + 2] == ' '
  {
    assert s[j..j + 3][0] == s[j] && s[j..j + 3][1] == s[j + 1] && s[j..j + 3][2] == s[j + 2];
  }

  /** Two digit runs around the separator are the match's two groups. */
  lemma MatchAtGroups(s: string, i: nat, dw: string, dh: string)
    requires |dw| > 0 && |dh| > 0 && AllDigits(dw) && AllDigits(dh)
    requires i + |dw| + 3 + |dh| <= |s|
    requires DigitRun(s, i) == |dw| && DigitRun(s, i + |dw| + 3) == |dh|
    requires s[i + |dw|] == ' ' && s[i + |dw| + 1] == 'x' && s[i + |dw| + 2] == ' '
    requires s[i..i + |dw|] == dw && s[i + |dw| + 3..i + |dw| + 3 + |dh|] == dh
    ensures MatchAt(s, i) == Some((DigitsValue(dw), DigitsValue(dh)))
  {
  }

  lemma {:induction false} DigitRunOf(s: string, i: nat, n: nat)
    requires i + n <= |s| && AllDigits(s[i..i + n])
    requires i + n == |s| || !IsDigit(s[i + n])
    ensures DigitRun(s, i) == n
    decreases n
  {
    if n > 0 {
      assert s[i..i + n][0] == s[i];
      var run, rest := s[i..i + n], s[i + 1..i + n];
      forall k | 0 <= k < |rest|
        ensures IsDigit(rest[k])
      {
        assert rest[k] == run[k + 1];
      }
      DigitRunOf(s, i + 1, n - 1);
    }
  }

  /** Positions that hold no digit start no match. */
  lemma {:induction false} SkipNonDigits(s: string, i: nat, j: nat)
    requires i <= j <= |s|
    requires forall k :: i <= k < j ==> !IsDigit(s[k])
    ensures SearchFrom(s, i) == SearchFrom(s, j)
    decreases j - i
  {
    if i < j {
      assert DigitRun(s, i) == 0;
      SkipNonDigits(s, i + 1, j);
    }
  }

  /** What OpenCV decodes, if it decodes anything; otherwise the height found
      so far with a width of 0. */
  function Decoded(decoded: Option<Dims>, height: int): Dims
  {
    if decoded.Some? then decoded.value else Dims(height, 0)
  }

  /** The dimension fallback of `get_earliest_date_and_dimensions`.  As in the
      script, a height parsed before the width failed survives when no later
      strategy assigns both. */
  function ResolveDimensions(path: string, meta: map<string, string>, decoded: Option<Dims>): Dims
  {
    if IsVideoPath(path) then
      match FieldInt(meta, "Frame height")
      case None => Decoded(decoded, 0)
      case Some(h) =>
        match FieldInt(meta, "Frame width")
        case Some(w) => Dims(h, w)
        case None => Decoded(decoded, h)
    else
      var height := FieldInt(meta, "Height");
      var width := FieldInt(meta, "Width");
      if height.Some? && width.Some? then Dims(height.value, width.value)
      else
        var partial := if height.Some? then height.value else 0;
        match (if "Dimensions" in meta then SearchDims(meta["Dimensions"]) else None)
        case Some((w, h)) => Dims(h, w)
        case None => Decoded(decoded, partial)
  }

  /** The order of the fallbacks: the frame or pixel columns first, for
      photos the `Dimensions` text next, OpenCV last, and 0 for whatever
      none of them supplies; every branch of the script is listed. */
  lemma DimensionFallback(path: string, meta: map<string, string>, decoded: Option<Dims>, h: int, w: int)
    ensures IsVideoPath(path) && FieldInt(meta, "Frame height") == Some(h) && FieldInt(meta, "Frame width") == Some(w)
      ==> ResolveDimensions(path, meta, decoded) == Dims(h, w)
    ensures IsVideoPath(path) && FieldInt(meta, "Frame height").None?
      ==> ResolveDimensions(path, meta, decoded) == if decoded.Some? then decoded.value else Dims(0, 0)
    ensures IsVideoPath(path) && FieldInt(meta, "Frame height") == Some(h) && FieldInt(meta, "Frame width").None?
      ==> ResolveDimensions(path, meta, decoded) == if decoded.Some? then decoded.value else Dims(h, 0)
    ensures !IsVideoPath(path) && FieldInt(meta, "Height") == Some(h) && FieldInt(meta, "Width") == Some(w)
      ==> ResolveDimensions(path, meta, decoded) == Dims(h, w)
    ensures !IsVideoPath(path) && (FieldInt(meta, "Height").None? || FieldInt(meta, "Width").None?)
      && "Dimensions" in meta && SearchDims(meta["Dimensions"]) == Some((w, h))
      ==> ResolveDimensions(path, meta, decoded) == Dims(h, w)
    ensures !IsVideoPath(path) && (FieldInt(meta, "Height").None? || FieldInt(meta, "Width").None?)
      && ("Dimensions" !in meta || SearchDims(meta["Dimensions"]).None?)
      ==> ResolveDimensions(path, meta, decoded) == (if decoded.Some? then decoded.value
            else Dims(if FieldInt(meta, "Height").Some? then FieldInt(meta, "Height").value else 0, 0))
  {
  }

  /** A photo without pixel columns takes width and height, in that order,
      from a `Dimensions` text such as `4032 x 3024`. */
  lemma DimensionsText(path: string, meta: map<string, string>, decoded: Option<Dims>, p: string, w: nat, h: nat, q: string)
    requires !IsVideoPath(path) && "Height" !in meta
    requires forall k :: 0 <= k < |p| ==> !IsDigit(p[k])
    requires q == [] || !IsDigit(q[0])
    requires "Dimensions" in meta && meta["Dimensions"] == p + Decimal(w) + " x " + Decimal(h) + q
    ensures ResolveDimensions(path, meta, decoded) == Dims(h, w)
  {
    SearchDimsText(p, w, h, q);
  }

  /** A photo whose height parses but whose width does not keeps that height
      when neither the `Dimensions` text nor OpenCV helps. */
  lemma PartialHeight(path: string, meta: map<string, string>, h: int)
    requires !IsVideoPath(path) && FieldInt(meta, "Height") == Some(h) && FieldInt(meta, "Width").None?
    requires "Dimensions" !in meta
    ensures ResolveDimensions(path, meta, None) == Dims(h, 0)
  {
  }

  // ---------------------------------------------------------------------
  // The whole record

  /** `get_earliest_date_and_dimensions(filepath)` as a value. */
  function Resolve(facts: FileFacts): Result<MediaRecord, MetaError>
  {
    match Normalized(facts.shell, DateFields)
    case Err(e) => Err(e)
    case Ok(meta) =>
      DateFieldsDistinct();
      NormalizedFields(facts.shell, DateFields);
      assert forall i :: 0 <= i < |DateFields| ==> DateFields[i] in meta;
      match ParsedDates(meta, DateFields)
      case Err(e) => Err(e)
      case Ok(dates) =>
        var dims := ResolveDimensions(facts.path, meta, facts.decoded);
        if dates == [] then Err(NoDates)
        else Ok(MediaRecord(facts.path, MinDate(dates), dims.height, dims.width))
  }

  lemma DateFieldsDistinct()
    ensures Distinct(DateFields)
  {
  }

  /** The datetime a date column contributes: its cleaned text parsed, unless
      it cleans to "NA" (the column is missing) or does not clean or parse. */
  function Candidate(shell: map<string, string>, field: string): Option<DateTime>
  {
    match Clean(Get(shell, field))
    case Err(_) => None
    case Ok(v) => if v == NotAvailable then None else Parse(v)
  }

  /** The record names the file, and its datetime is the candidate of one of
      the date columns and no candidate is earlier. */
  lemma ResolveEarliest(facts: FileFacts)
    requires Resolve(facts).Ok?
    ensures Resolve(facts).value.filename == facts.path
    ensures exists i :: 0 <= i < |DateFields| && Candidate(facts.shell, DateFields[i]) == Some(Resolve(facts).value.datetime)
    ensures forall i :: 0 <= i < |DateFields| && Candidate(facts.shell, DateFields[i]).Some? ==>
      !Before(Candidate(facts.shell, DateFields[i]).value, Resolve(facts).value.datetime)
    ensures Dims(Resolve(facts).value.height, Resolve(facts).value.width) == ResolveDimensions(facts.path, facts.shell, facts.decoded)
  {
    ResolveNormalizes(facts);
    var meta := Normalized(facts.shell, DateFields).value;
    MetaCandidates(facts.shell, meta);
    ResolveParts(facts, meta);
    ParsedDatesSpec(meta, DateFields);
    ResolveSize(facts, meta);
  }

  /** The record's size is the dimension fallback of the shell's own columns. */
  lemma ResolveSize(facts: FileFacts, meta: map<string, string>)
    requires Normalized(facts.shell, DateFields) == Ok(meta)
    ensures Resolve(facts).Ok? ==>
      Dims(Resolve(facts).value.height, Resolve(facts).value.width) == ResolveDimensions(facts.path, facts.shell, facts.decoded)
  {
    NormalizedKeepsSizes(facts.shell, meta);
    SameDimensionColumns(facts.path, meta, facts.shell, facts.decoded);
  }

  /** Cleaning the date columns leaves the size columns as the shell gave them. */
  lemma NormalizedKeepsSizes(shell: map<string, string>, meta: map<string, string>)
    requires Normalized(shell, DateFields) == Ok(meta)
    ensures SameColumn(meta, shell, "Frame height") && SameColumn(meta, shell, "Frame width")
    ensures SameColumn(meta, shell, "Height") && SameColumn(meta, shell, "Width") && SameColumn(meta, shell, "Dimensions")
  {
    NotDateField("Frame height");
    NormalizedKeeps(shell, DateFields, "Frame height");
    NotDateField("Frame width");
    NormalizedKeeps(shell, DateFields, "Frame width");
    NotDateField("Height");
    NormalizedKeeps(shell, DateFields, "Height");
    NotDateField("Width");
    NormalizedKeeps(shell, DateFields, "Width");
    NotDateField("Dimensions");
    NormalizedKeeps(shell, DateFields, "Dimensions");
  }

  /** Every date column starts with "Da" or "M", so no other name is one. */
  lemma NotDateField(key: string)
    requires |key| >= 2 && key[0] != 'M' && (key[0] != 'D' || key[1] != 'a')
    ensures key !in DateFields
  {
    forall i | 0 <= i < |DateFields|
      ensures DateFields[i] != key
    {
      assert DateFields[i][0] == 'M' || DateFields[i][..2] == "Da";
    }
  }

  /** A column that is not cleaned keeps its value, or stays absent. */
  lemma {:induction false} NormalizedKeeps(meta: map<string, string>, fields: seq<string>, key: string)
    requires key !in fields
    ensures Normalized(meta, fields).Ok? ==> SameColumn(Normalized(meta, fields).value, meta, key)
    decreases |fields|
  {
    if fields != [] {
      NormalizedKeeps(meta, fields[..|fields| - 1], key);
    }
  }

  /** A column holds the same value, or is absent, in both maps. */
  predicate SameColumn(a: map<string, string>, b: map<string, string>, key: string)
  {
    (key in a <==> key in b) && (key in a ==> a[key] == b[key])
  }

  /** The dimensions read only the size columns, so cleaning the date columns
      does not change them. */
  lemma SameDimensionColumns(path: string, a: map<string, string>, b: map<string, string>, decoded: Option<Dims>)
    requires SameColumn(a, b, "Frame height") && SameColumn(a, b, "Frame width")
    requires SameColumn(a, b, "Height") && SameColumn(a, b, "Width") && SameColumn(a, b, "Dimensions")
    ensures ResolveDimensions(path, a, decoded) == ResolveDimensions(path, b, decoded)
  {
    SameColumnInt(a, b, "Frame height");
    SameColumnInt(a, b, "Frame width");
    SameColumnInt(a, b, "Height");
    SameColumnInt(a, b, "Width");
    assert (if "Dimensions" in a then SearchDims(a["Dimensions"]) else None)
        == (if "Dimensions" in b then SearchDims(b["Dimensions"]) else None);
  }

  /** `int()` of a column that agrees in both maps agrees. */
  lemma SameColumnInt(a: map<string, string>, b: map<string, string>, key: string)
    requires SameColumn(a, b, key)
    ensures FieldInt(a, key) == FieldInt(b, key)
  {
  }

  /** A file whose date columns do not all clean gets no record. */
  lemma ResolveNormalizes(facts: FileFacts)
    ensures Normalized(facts.shell, DateFields).Err? ==> Resolve(facts).Err?
  {
  }

  /** Once the date columns are normalised to `meta`, each holds its cleaned
      value, and its candidate is the parse of that value unless it is "NA". */
  lemma MetaCandidates(shell: map<string, string>, meta: map<string, string>)
    requires Normalized(shell, DateFields) == Ok(meta)
    ensures forall i :: 0 <= i < |DateFields| ==> DateFields[i] in meta
    ensures forall i :: 0 <= i < |DateFields| ==> Clean(Get(shell, DateFields[i])) == Ok(meta[DateFields[i]])
    ensures forall i :: 0 <= i < |DateFields| ==>
      Candidate(shell, DateFields[i]) == if meta[DateFields[i]] == NotAvailable then None else Parse(meta[DateFields[i]])
  {
    DateFieldsDistinct();
    NormalizedFields(shell, DateFields);
  }

  /** Once the date columns are normalised to `meta`, a record is made exactly
      when the dates are collected and there is at least one, and it then holds
      the path and the earliest date. */
  lemma ResolveParts(facts: FileFacts, meta: map<string, string>)
    requires Normalized(facts.shell, DateFields) == Ok(meta)
    requires forall i :: 0 <= i < |DateFields| ==> DateFields[i] in meta
    ensures Resolve(facts).Ok? <==> ParsedDates(meta, DateFields).Ok? && ParsedDates(meta, DateFields).value != []
    ensures Resolve(facts).Ok? ==>
      Resolve(facts).value.filename == facts.path && Resolve(facts).value.datetime == MinDate(ParsedDates(meta, DateFields).value)
  {
  }

  /** A file gets no record exactly when a date column does not clean, a
      cleaned date does not parse, or every date column is missing. */
  lemma ResolveFails(facts: FileFacts)
    ensures Resolve(facts).Err? <==>
      || (exists i :: 0 <= i < |DateFields| && Clean(Get(facts.shell, DateFields[i])).Err?)
      || (exists i :: 0 <= i < |DateFields| && Clean(Get(facts.shell, DateFields[i])).Ok? &&
            Clean(Get(facts.shell, DateFields[i])).value != NotAvailable && Candidate(facts.shell, DateFields[i]).None?)
      || (forall i :: 0 <= i < |DateFields| ==> Clean(Get(facts.shell, DateFields[i])) == Ok(NotAvailable))
  {
    ResolveNormalizes(facts);
    match Normalized(facts.shell, DateFields)
    case Err(_) =>
      DateFieldsDistinct();
      NormalizedFields(facts.shell, DateFields);
    case Ok(meta) =>
      ResolveFailsNormalized(facts, meta);
  }

  /** The case of `ResolveFails` where every date column cleans. */
  lemma ResolveFailsNormalized(facts: FileFacts, meta: map<string, string>)
    requires Normalized(facts.shell, DateFields) == Ok(meta)
    ensures forall i :: 0 <= i < |DateFields| ==> Clean(Get(facts.shell, DateFields[i])).Ok?
    ensures Resolve(facts).Err? <==>
      || (exists i :: 0 <= i < |DateFields| && Clean(Get(facts.shell, DateFields[i])).Ok? &&
            Clean(Get(facts.shell, DateFields[i])).value != NotAvailable && Candidate(facts.shell, DateFields[i]).None?)
      || (forall i :: 0 <= i < |DateFields| ==> Clean(Get(facts.shell, DateFields[i])) == Ok(NotAvailable))
  {
    MetaCandidates(facts.shell, meta);
    ResolveParts(facts, meta);
    DatesOutcome(meta, DateFields);
    CandidateForms(facts.shell, meta);
  }

  /** The conditions on the cleaned columns, read off the shell's columns. */
  lemma CandidateForms(shell: map<string, string>, meta: map<string, string>)
    requires forall i :: 0 <= i < |DateFields| ==> DateFields[i] in meta
    requires forall i :: 0 <= i < |DateFields| ==> Clean(Get(shell, DateFields[i])) == Ok(meta[DateFields[i]])
    requires forall i :: 0 <= i < |DateFields| ==>
      Candidate(shell, DateFields[i]) == if meta[DateFields[i]] == NotAvailable then None else Parse(meta[DateFields[i]])
    ensures (exists i :: 0 <= i < |DateFields| && meta[DateFields[i]] != NotAvailable && Parse(meta[DateFields[i]]).None?) <==>
      (exists i :: 0 <= i < |DateFields| && Clean(Get(shell, DateFields[i])).Ok? &&
         Clean(Get(shell, DateFields[i])).value != NotAvailable && Candidate(shell, DateFields[i]).None?)
    ensures (forall i :: 0 <= i < |DateFields| ==> meta[DateFields[i]] == NotAvailable) <==>
      (forall i :: 0 <= i < |DateFields| ==> Clean(Get(shell, DateFields[i])) == Ok(NotAvailable))
  {
  }

  /** Collecting fails exactly when a non-"NA" value does not parse, and
      collects nothing exactly when every value is "NA". */
  lemma DatesOutcome(meta: map<string, string>, fields: seq<string>)
    requires forall i :: 0 <= i < |fields| ==> fields[i] in meta
    ensures ParsedDates(meta, fields).Err? <==>
      exists i :: 0 <= i < |fields| && meta[fields[i]] != NotAvailable && Parse(meta[fields[i]]).None?
    ensures ParsedDates(meta, fields).Ok? ==>
      (ParsedDates(meta, fields).value == [] <==> forall i :: 0 <= i < |fields| ==> meta[fields[i]] == NotAvailable)
  {
    ParsedDatesSpec(meta, fields);
    if ParsedDates(meta, fields).Ok? {
      var dates := ParsedDates(meta, fields).value;
      if dates != [] {
        var d := dates[0];
        assert d in dates;
      }
    }
  }

  /** `get_earliest_date_and_dimensions`, step by step, proved to compute `Resolve`. */
  method GetEarliestDateAndDimensions(facts: FileFacts) returns (r: Result<MediaRecord, MetaError>)
    ensures r == Resolve(facts)
  {
    var normalized := NormalizeDateFields(facts.shell);
    if normalized.Err? {
      return Err(normalized.error);
    }
    var meta := normalized.value;
    DateFieldsDistinct();
    NormalizedFields(facts.shell, DateFields);
    var collected := CollectDates(meta);
    if collected.Err? {
      return Err(collected.error);
    }
    var dims := ResolveDimensions(facts.path, meta, facts.decoded);
    if collected.value == [] {
      return Err(NoDates);
    }
    r := Ok(MediaRecord(facts.path, MinDate(collected.value), dims.height, dims.width));
  }
}
