/** `sort_files`: every discovered file is resolved to a record, in discovery
    order, and the records are sorted by datetime with Python's stable sort. */
module Chronology {
  import opened Wrappers
  import opened DateTimes
  import opened Metadata
  import opened PyStr

  /** The outcome for each file, in discovery order. */
  function Outcomes(files: seq<FileFacts>): (r: seq<Result<MediaRecord, MetaError>>)
    ensures |r| == |files|
    ensures forall i :: 0 <= i < |files| ==> r[i] == Resolve(files[i])
  {
    seq(|files|, i requires 0 <= i < |files| => Resolve(files[i]))
  }

  /** All the records, or the first failure. */
  function Collect(outcomes: seq<Result<MediaRecord, MetaError>>): Result<seq<MediaRecord>, MetaError>
    decreases |outcomes|
  {
    if outcomes == [] then Ok([])
    else
      match Collect(outcomes[..|outcomes| - 1])
      case Err(e) => Err(e)
      case Ok(records) =>
        match outcomes[|outcomes| - 1]
        case Err(e) => Err(e)
        case Ok(r) => Ok(records + [r])
  }

  /** Collecting succeeds exactly when every outcome is a record, and then
      keeps them all, in order. */
  lemma {:induction false} CollectSpec(outcomes: seq<Result<MediaRecord, MetaError>>)
    ensures Collect(outcomes).Ok? <==> forall i :: 0 <= i < |outcomes| ==> outcomes[i].Ok?
    ensures Collect(outcomes).Ok? ==>
      |Collect(outcomes).value| == |outcomes| &&
      forall i :: 0 <= i < |outcomes| ==> Collect(outcomes).value[i] == outcomes[i].value
    decreases |outcomes|
  {
    if outcomes != [] {
      var init, last := outcomes[..|outcomes| - 1], outcomes[|outcomes| - 1];
      assert forall i :: 0 <= i < |init| ==> init[i] == outcomes[i];
      CollectSpec(init);
      var prev := Collect(init);
      if prev.Ok? && last.Ok? {
        var all := prev.value + [last.value];
        assert Collect(outcomes) == Ok(all);
        assert forall i :: 0 <= i < |init| ==> all[i] == prev.value[i];
      }
    }
  }

  /** Neither datetime is before the other: the two sort as equal. */
  predicate SameTime(a: DateTime, b: DateTime)
  {
    !Before(a, b) && !Before(b, a)
  }

  predicate SortedByTime(s: seq<MediaRecord>)
  {
    forall i, j :: 0 <= i < j < |s| ==> !Before(s[j].datetime, s[i].datetime)
  }

  /** `x` placed before the first record that is strictly later than it. */
  function Insert(s: seq<MediaRecord>, x: MediaRecord): (r: seq<MediaRecord>)
    ensures |r| == |s| + 1
    ensures multiset(r) == multiset(s) + multiset{x}
  {
    if s == [] then [x]
    else if Before(x.datetime, s[0].datetime) then [x] + s
    else
      assert s == [s[0]] + s[1..];
      [s[0]] + Insert(s[1..], x)
  }

  /** `sorted(records, key=lambda x: x['datetime'])`, as an insertion sort:
      each record in turn goes after every record not later than it. */
  function SortByTime(records: seq<MediaRecord>): (r: seq<MediaRecord>)
    ensures multiset(r) == multiset(records)
    decreases |records|
  {
    if records == [] then []
    else
      assert records == records[..|records| - 1] + [records[|records| - 1]];
      Insert(SortByTime(records[..|records| - 1]), records[|records| - 1])
  }

  /** A record strictly later than `x`, and every record sorted after it, is later than `x`. */
  lemma LaterThanFirst(s: seq<MediaRecord>, x: DateTime)
    requires SortedByTime(s) && |s| > 0 && Before(x, s[0].datetime)
    ensures forall k :: 0 <= k < |s| ==> Before(x, s[k].datetime)
  {
    forall k | 0 <= k < |s|
      ensures Before(x, s[k].datetime)
    {
      BeforeStrict(x, s[k].datetime, s[0].datetime);
    }
  }

  lemma {:induction false} InsertSorted(s: seq<MediaRecord>, x: MediaRecord)
    requires SortedByTime(s)
    ensures SortedByTime(Insert(s, x))
  {
    if s != [] {
      if Before(x.datetime, s[0].datetime) {
        LaterThanFirst(s, x.datetime);
      } else {
        var rest := Insert(s[1..], x);
        InsertSorted(s[1..], x);
        var r := [s[0]] + rest;
        forall j | 0 < j < |r|
          ensures !Before(r[j].datetime, s[0].datetime)
        {
          assert r[j] in multiset(rest);
          assert r[j] in s[1..] || r[j] == x;
        }
      }
    }
  }

  /** The result is sorted by datetime and holds exactly the input records. */
  lemma {:induction false} SortByTimeSorted(records: seq<MediaRecord>)
    ensures SortedByTime(SortByTime(records))
    ensures multiset(SortByTime(records)) == multiset(records)
    decreases |records|
  {
    if records != [] {
      SortByTimeSorted(records[..|records| - 1]);
      InsertSorted(SortByTime(records[..|records| - 1]), records[|records| - 1]);
    }
  }

  /** The records that sort as equal to `d`, in their order in `s`. */
  function WithTime(s: seq<MediaRecord>, d: DateTime): seq<MediaRecord>
  {
    if s == [] then []
    else (if SameTime(s[0].datetime, d) then [s[0]] else []) + WithTime(s[1..], d)
  }

  lemma {:induction false} WithTimeAppend(a: seq<MediaRecord>, b: seq<MediaRecord>, d: DateTime)
    ensures WithTime(a + b, d) == WithTime(a, d) + WithTime(b, d)
  {
    if a == [] {
      assert a + b == b;
    } else {
      assert (a + b)[1..] == a[1..] + b;
      WithTimeAppend(a[1..], b, d);
    }
  }

  lemma {:induction false} WithTimeNone(s: seq<MediaRecord>, x: DateTime, d: DateTime)
    requires SameTime(x, d)
    requires forall k :: 0 <= k < |s| ==> Before(x, s[k].datetime)
    ensures WithTime(s, d) == []
  {
    if s != [] {
      BeforeStrict(s[0].datetime, x, d);
      WithTimeNone(s[1..], x, d);
    }
  }

  /** Inserting `x` only appends `x` to the records that sort as equal to it. */
  lemma {:induction false} InsertWithTime(s: seq<MediaRecord>, x: MediaRecord, d: DateTime)
    requires SortedByTime(s)
    ensures WithTime(Insert(s, x), d) == WithTime(s, d) + (if SameTime(x.datetime, d) then [x] else [])
  {
    if s == [] {
    } else if Before(x.datetime, s[0].datetime) {
      InsertFrontWithTime(s, x, d);
    } else {
      InsertWithTime(s[1..], x, d);
      InsertLaterWithTime(s, x, d);
    }
  }

  /** `x` goes in front of a sorted `s` whose first record is later: no record
      of `s` sorts as equal to a time `x` sorts as equal to. */
  lemma InsertFrontWithTime(s: seq<MediaRecord>, x: MediaRecord, d: DateTime)
    requires SortedByTime(s) && s != [] && Before(x.datetime, s[0].datetime)
    ensures WithTime(Insert(s, x), d) == WithTime(s, d) + (if SameTime(x.datetime, d) then [x] else [])
  {
    WithTimeCons(x, s, d);
    if SameTime(x.datetime, d) {
      LaterThanFirst(s, x.datetime);
      WithTimeNone(s, x.datetime, d);
    }
  }

  /** `x` goes past the first record of `s`, which keeps its place. */
  lemma InsertLaterWithTime(s: seq<MediaRecord>, x: MediaRecord, d: DateTime)
    requires s != [] && !Before(x.datetime, s[0].datetime)
    requires WithTime(Insert(s[1..], x), d) == WithTime(s[1..], d) + (if SameTime(x.datetime, d) then [x] else [])
    ensures WithTime(Insert(s, x), d) == WithTime(s, d) + (if SameTime(x.datetime, d) then [x] else [])
  {
    var head := if SameTime(s[0].datetime, d) then [s[0]] else [];
    var tail := if SameTime(x.datetime, d) then [x] else [];
    assert Insert(s, x) == [s[0]] + Insert(s[1..], x);
    WithTimeCons(s[0], Insert(s[1..], x), d);
    assert WithTime(s, d) == head + WithTime(s[1..], d);
    ConcatAssoc(head, WithTime(s[1..], d), tail);
  }

  lemma WithTimeCons(head: MediaRecord, rest: seq<MediaRecord>, d: DateTime)
    ensures WithTime([head] + rest, d) == (if SameTime(head.datetime, d) then [head] else []) + WithTime(rest, d)
  {
    assert ([head] + rest)[1..] == rest;
  }

  /** The sort is stable: records that sort as equal keep their discovery order. */
  lemma {:induction false} SortByTimeStable(records: seq<MediaRecord>, d: DateTime)
    ensures WithTime(SortByTime(records), d) == WithTime(records, d)
    decreases |records|
  {
    if records != [] {
      var init, last := records[..|records| - 1], records[|records| - 1];
      SortByTimeSorted(init);
      SortByTimeStable(init, d);
      InsertWithTime(SortByTime(init), last, d);
      WithTimeLast(records, d);
    }
  }

  /** The records of `s` that sort as equal to `d` are those of all but its
      last record, followed by the last one if it does. */
  lemma WithTimeLast(s: seq<MediaRecord>, d: DateTime)
    requires |s| > 0
    ensures WithTime(s, d) == WithTime(s[..|s| - 1], d) + (if SameTime(s[|s| - 1].datetime, d) then [s[|s| - 1]] else [])
  {
    var last := s[|s| - 1];
    LastSplit(s);
    WithTimeAppend(s[..|s| - 1], [last], d);
    assert WithTime([last], d) == (if SameTime(last.datetime, d) then [last] else []) + WithTime([], d);
  }

  lemma LastSplit(s: seq<MediaRecord>)
    requires |s| > 0
    ensures s == s[..|s| - 1] + [s[|s| - 1]]
  {
  }

  /** Two photos of one day found as (2:41 PM, 9:05 AM) come out as (9:05 AM, 2:41 PM). */
  lemma MorningFirst(afternoon: MediaRecord, morning: MediaRecord)
    requires afternoon.datetime == DateTime(2022, 1, 2, 2, 41, PM)
    requires morning.datetime == DateTime(2022, 1, 2, 9, 5, AM)
    ensures SortByTime([afternoon, morning]) == [morning, afternoon]
  {
    ClockOrder(morning.datetime, afternoon.datetime);
    assert [afternoon, morning][..1] == [afternoon];
  }

  /** What `sort_files` returns. */
  function SortedRecords(files: seq<FileFacts>): Result<seq<MediaRecord>, MetaError>
  {
    match Collect(Outcomes(files))
    case Err(e) => Err(e)
    case Ok(records) => Ok(SortByTime(records))
  }

  /** `sort_files` past the directory walk: resolve each file, then sort;
      proved to compute `SortedRecords`. */
  method SortFiles(files: seq<FileFacts>) returns (r: Result<seq<MediaRecord>, MetaError>)
    ensures r == SortedRecords(files)
  {
    ghost var outcomes := Outcomes(files);
    var records: seq<MediaRecord> := [];
    for i := 0 to |files|
      invariant Collect(outcomes[..i]) == Ok(records)
    {
      CollectPrefix(outcomes, i, records);
      var record := GetEarliestDateAndDimensions(files[i]);
      assert outcomes[i] == record;
      if record.Err? {
        CollectStops(outcomes, i + 1);
        return Err(record.error);
      }
      records := records + [record.value];
    }
    assert outcomes[..|files|] == outcomes;
    r := Ok(SortByTime(records));
  }

  /** One more outcome is one more step of the collection. */
  lemma CollectPrefix(outcomes: seq<Result<MediaRecord, MetaError>>, i: nat, records: seq<MediaRecord>)
    requires i < |outcomes| && Collect(outcomes[..i]) == Ok(records)
    ensures Collect(outcomes[..i + 1]) == match outcomes[i] case Err(e) => Err(e) case Ok(r) => Ok(records + [r])
  {
    assert outcomes[..i + 1][..i] == outcomes[..i];
  }

  lemma {:induction false} CollectStops(outcomes: seq<Result<MediaRecord, MetaError>>, n: nat)
    requires n <= |outcomes| && Collect(outcomes[..n]).Err?
    ensures Collect(outcomes) == Collect(outcomes[..n])
    decreases |outcomes| - n
  {
    if n < |outcomes| {
      assert outcomes[..n + 1][..n] == outcomes[..n];
      CollectStops(outcomes, n + 1);
    } else {
      assert outcomes[..n] == outcomes;
    }
  }
}
