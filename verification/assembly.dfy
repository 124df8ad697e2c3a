/** `add_clips_to_sequence`: the sorted records are placed one after the other
    on the first video track of the new sequence, at a cursor that starts at 0;
    each clip gets the Motion settings of the nearest profile of its kind. */
module Assembly {
  import opened Wrappers
  import opened PyPath
  import opened Metadata
  import opened ProjectPaths
  import opened Profiles

  /** A keyframe of the Motion scale: its time, and the value set at it (none
      when the value was never set). */
  datatype ScaleKey = ScaleKey(time: int, value: Option<real>)

  /** The Motion settings of a placed clip: left as inserted, a fixed scale
      (videos), or time-varying scale and position keyframes (photos). */
  datatype Motion = Untouched | FixedScale(scale: real) | Keyframed(scaleKeys: seq<ScaleKey>, positionKeys: seq<int>)

  /** A clip on the track: its item, where it starts and ends, and its Motion. */
  datatype PlacedClip = PlacedClip(item: MediaItem, start: int, end: int, motion: Motion)

  /** The cursor, the clips of the track, and whether an uncaught exception
      has ended the run. */
  datatype RunState = RunState(cursor: int, clips: seq<PlacedClip>, stopped: bool)

  /** What the placement reads: the path-to-item catalogue and the profile
      tables.  `main` passes the whole (dict, count) pair that `memoize_bins`
      returns; the model passes the dict, as evidently intended. */
  datatype Env = Env(bins: map<string, MediaItem>, profiles: Profiles)

  ghost predicate ValidEnv(env: Env)
  {
    ValidTable(env.profiles.photo) && ValidTable(env.profiles.video)
  }

  const Start: RunState := RunState(0, [], false)

  /** One iteration of the placement loop.  A record whose file is not in the
      catalogue is skipped (the KeyError is caught).  Otherwise the item is
      inserted at the cursor; a video keeps its own duration and gets the
      scale of the nearest video profile; a photo ends at the cursor plus the
      nearest photo profile's duration, with scale keys (start, in value) and
      (end, out value) and position keys at both ends; the cursor moves to the
      clip's end.  An empty table for the clip's kind raises an IndexError that
      nothing catches: the inserted clip keeps no Motion and the run ends. */
  function Step(st: RunState, record: MediaRecord, env: Env): RunState
    requires ValidEnv(env)
  {
    if st.stopped || record.filename !in env.bins then st
    else Placed(st, env.bins[record.filename], record.height, IsVideoPath(record.filename), env)
  }

  /** The catalogued `item` of a file of height `height` placed at the cursor,
      as a video when `video` holds and as a photo otherwise.  The script sets
      a video's scale with `SetValue` where the binding's method is `setValue`;
      the model takes the evident intent, that the scale is set. */
  function Placed(st: RunState, item: MediaItem, height: int, video: bool, env: Env): RunState
    requires ValidEnv(env)
  {
    var start := st.cursor;
    var inserted := PlacedClip(item, start, start + item.duration, Untouched);
    if video then
      match CalculateClosestDimensions(height, env.profiles.video)
      case Err(_) => RunState(start, st.clips + [inserted], true)
      case Ok(dims) =>
        var scale := env.profiles.video.entries[dims].scale;
        RunState(start + item.duration, st.clips + [inserted.(motion := FixedScale(scale))], false)
    else
      match CalculateClosestDimensions(height, env.profiles.photo)
      case Err(_) => RunState(start, st.clips + [inserted], true)
      case Ok(dims) =>
        var profile := env.profiles.photo.entries[dims];
        var end := start + profile.duration;
        var keys := [ScaleKey(start, Some(profile.scaleInKey)), ScaleKey(end, Some(profile.scaleOutKey))];
        RunState(end, st.clips + [PlacedClip(item, start, end, Keyframed(keys, [start, end]))], false)
  }

  /** The state after the placement loop has seen `records`. */
  function Run(records: seq<MediaRecord>, env: Env): RunState
    requires ValidEnv(env)
    decreases |records|
  {
    if records == [] then Start
    else Step(Run(records[..|records| - 1], env), records[|records| - 1], env)
  }

  /** The clips lie end to end from 0, none runs backwards, and the cursor
      stands at the end of the last one (at its start, if the run ended while
      placing it). */
  predicate Contiguous(st: RunState)
  {
    && (forall k :: 0 <= k < |st.clips| ==> st.clips[k].start <= st.clips[k].end)
    && (forall k :: 0 <= k < |st.clips| - 1 ==> st.clips[k].end == st.clips[k + 1].start)
    && (|st.clips| == 0 ==> st.cursor == 0 && !st.stopped)
    && (|st.clips| > 0 ==>
          st.clips[0].start == 0 &&
          st.cursor == if st.stopped then st.clips[|st.clips| - 1].start else st.clips[|st.clips| - 1].end)
  }

  /** A clip laid at the cursor of a contiguous, running state keeps it contiguous. */
  lemma ContiguousAppend(st: RunState, c: PlacedClip, cursor: int, stopped: bool)
    requires Contiguous(st) && !st.stopped
    requires c.start == st.cursor && c.start <= c.end
    requires cursor == if stopped then c.start else c.end
    ensures Contiguous(RunState(cursor, st.clips + [c], stopped))
  {
    var clips := st.clips + [c];
    assert forall k :: 0 <= k < |st.clips| ==> clips[k] == st.clips[k];
  }

  /** Placing adds exactly one clip, for `item`, at the cursor and not
      running backwards; the cursor moves to its end, or stays at its start
      when the run ends there. */
  lemma PlacedSpec(st: RunState, item: MediaItem, height: int, video: bool, env: Env)
    requires ValidEnv(env)
    ensures var next := Placed(st, item, height, video, env);
      && |next.clips| == |st.clips| + 1
      && next.clips[..|st.clips|] == st.clips
      && next.clips[|st.clips|].item == item
      && next.clips[|st.clips|].start == st.cursor <= next.clips[|st.clips|].end
      && next.cursor == if next.stopped then st.cursor else next.clips[|st.clips|].end
  {
    var next := Placed(st, item, height, video, env);
    assert next.clips[..|st.clips|] == st.clips;
  }

  /** One step keeps the clips contiguous, never moves the cursor back, and
      leaves the state alone for a record whose file is not catalogued. */
  lemma StepSpec(st: RunState, record: MediaRecord, env: Env)
    requires ValidEnv(env) && Contiguous(st)
    ensures Contiguous(Step(st, record, env))
    ensures Step(st, record, env).cursor >= st.cursor
    ensures record.filename !in env.bins ==> Step(st, record, env) == st
  {
    if !st.stopped && record.filename in env.bins {
      var item := env.bins[record.filename];
      var next := Placed(st, item, record.height, IsVideoPath(record.filename), env);
      PlacedSpec(st, item, record.height, IsVideoPath(record.filename), env);
      var c := next.clips[|st.clips|];
      assert next.clips == st.clips + [c];
      ContiguousAppend(st, c, next.cursor, next.stopped);
    }
  }

  /** Whatever the records, the placed clips are contiguous from 0 and the
      cursor never goes below 0. */
  lemma {:induction false} RunContiguous(records: seq<MediaRecord>, env: Env)
    requires ValidEnv(env)
    ensures Contiguous(Run(records, env))
    ensures Run(records, env).cursor >= 0
    decreases |records|
  {
    if records != [] {
      var prev := Run(records[..|records| - 1], env);
      RunContiguous(records[..|records| - 1], env);
      StepSpec(prev, records[|records| - 1], env);
    }
  }

  /** The cursor never decreases as more records are placed. */
  lemma {:induction false} CursorMonotone(records: seq<MediaRecord>, env: Env, n: nat)
    requires ValidEnv(env) && n <= |records|
    ensures Run(records[..n], env).cursor <= Run(records, env).cursor
    decreases |records| - n
  {
    if n < |records| {
      CursorMonotone(records, env, n + 1);
      assert records[..n + 1][..n] == records[..n];
      RunContiguous(records[..n], env);
      StepSpec(Run(records[..n], env), records[n], env);
    } else {
      assert records[..n] == records;
    }
  }

  /** The items of the catalogued records, in record order. */
  function Found(records: seq<MediaRecord>, bins: map<string, MediaItem>): seq<MediaItem>
    decreases |records|
  {
    if records == [] then []
    else
      var last := records[|records| - 1];
      Found(records[..|records| - 1], bins) + (if last.filename in bins then [bins[last.filename]] else [])
  }

  function Items(clips: seq<PlacedClip>): seq<MediaItem>
  {
    seq(|clips|, k requires 0 <= k < |clips| => clips[k].item)
  }

  lemma ItemsAppend(clips: seq<PlacedClip>, c: PlacedClip)
    ensures Items(clips + [c]) == Items(clips) + [c.item]
  {
  }

  /** A run that was not ended by an exception has placed, in order, exactly
      the catalogued items of the records: the skipped ones leave no clip. */
  lemma {:induction false} RunPlacesFound(records: seq<MediaRecord>, env: Env)
    requires ValidEnv(env)
    ensures !Run(records, env).stopped ==> Items(Run(records, env).clips) == Found(records, env.bins)
    decreases |records|
  {
    if records != [] {
      var init, last := records[..|records| - 1], records[|records| - 1];
      var prev := Run(init, env);
      RunPlacesFound(init, env);
      if !prev.stopped && last.filename in env.bins {
        var item := env.bins[last.filename];
        var next := Placed(prev, item, last.height, IsVideoPath(last.filename), env);
        PlacedSpec(prev, item, last.height, IsVideoPath(last.filename), env);
        var c := next.clips[|prev.clips|];
        assert next.clips == prev.clips + [c];
        ItemsAppend(prev.clips, c);
      }
    }
  }

  /** A photo placed at the cursor ends at the cursor plus the duration of the
      photo profile nearest its height, has its scale keys (in value, out
      value) and its position keys at that start and that end, and moves the
      cursor to that end. */
  lemma PhotoPlacement(st: RunState, record: MediaRecord, env: Env, dims: Dims)
    requires ValidEnv(env) && !st.stopped && record.filename in env.bins && !IsVideoPath(record.filename)
    requires CalculateClosestDimensions(record.height, env.profiles.photo) == Ok(dims)
    ensures var profile := env.profiles.photo.entries[dims];
      var end := st.cursor + profile.duration;
      Step(st, record, env) == RunState(end, st.clips + [PlacedClip(env.bins[record.filename], st.cursor, end,
        Keyframed([ScaleKey(st.cursor, Some(profile.scaleInKey)), ScaleKey(end, Some(profile.scaleOutKey))], [st.cursor, end]))], false)
  {
    assert Step(st, record, env) == Placed(st, env.bins[record.filename], record.height, false, env);
    PhotoPlaced(st, env.bins[record.filename], record.height, env, dims);
  }

  lemma PhotoPlaced(st: RunState, item: MediaItem, height: int, env: Env, dims: Dims)
    requires ValidEnv(env) && CalculateClosestDimensions(height, env.profiles.photo) == Ok(dims)
    ensures var profile := env.profiles.photo.entries[dims];
      var end := st.cursor + profile.duration;
      Placed(st, item, height, false, env) == RunState(end, st.clips + [PlacedClip(item, st.cursor, end,
        Keyframed([ScaleKey(st.cursor, Some(profile.scaleInKey)), ScaleKey(end, Some(profile.scaleOutKey))], [st.cursor, end]))], false)
  {
  }

  /** A placed video keeps its item's duration, gets the scale of the video
      profile nearest its height, and moves the cursor to its end. */
  lemma VideoPlacement(st: RunState, record: MediaRecord, env: Env, dims: Dims)
    requires ValidEnv(env) && !st.stopped && record.filename in env.bins && IsVideoPath(record.filename)
    requires CalculateClosestDimensions(record.height, env.profiles.video) == Ok(dims)
    ensures var item := env.bins[record.filename];
      Step(st, record, env) == RunState(st.cursor + item.duration,
        st.clips + [PlacedClip(item, st.cursor, st.cursor + item.duration, FixedScale(env.profiles.video.entries[dims].scale))], false)
  {
    assert Step(st, record, env) == Placed(st, env.bins[record.filename], record.height, true, env);
    VideoPlaced(st, env.bins[record.filename], record.height, env, dims);
  }

  lemma VideoPlaced(st: RunState, item: MediaItem, height: int, env: Env, dims: Dims)
    requires ValidEnv(env) && CalculateClosestDimensions(height, env.profiles.video) == Ok(dims)
    ensures Placed(st, item, height, true, env) == RunState(st.cursor + item.duration,
      st.clips + [PlacedClip(item, st.cursor, st.cursor + item.duration, FixedScale(env.profiles.video.entries[dims].scale))], false)
  {
  }

  /** The sequence being filled: the cursor (`seq_time`), the clips of its
      first video track, and whether the run has ended. */
  class Timeline {
    var cursor: int
    var clips: seq<PlacedClip>
    var stopped: bool

    function State(): RunState
      reads this
    {
      RunState(cursor, clips, stopped)
    }

    constructor()
      ensures State() == Start
    {
      cursor := 0;
      clips := [];
      stopped := false;
    }

    /** The body of the placement loop for one record: a record whose file
        is not catalogued is skipped; otherwise its item is placed.  The new
        clip is the one just inserted (the script looks it up at the loop
        index, see `StepAsWritten`). */
    method Place(record: MediaRecord, env: Env)
      requires ValidEnv(env)
      modifies this
      ensures State() == Step(old(State()), record, env)
    {
      if stopped || record.filename !in env.bins {
        return;
      }
      var item := env.bins[record.filename];
      if IsVideoPath(record.filename) {
        PlaceVideo(item, record.height, env);
      } else {
        PlacePhoto(item, record.height, env);
      }
    }

    /** Insert a video at the cursor, give it the scale of the nearest video
        profile, and advance the cursor by its duration. */
    method PlaceVideo(item: MediaItem, height: int, env: Env)
      requires ValidEnv(env) && !stopped
      modifies this
      ensures State() == Placed(old(State()), item, height, true, env)
    {
      var start := cursor;
      var before := clips;
      var inserted := PlacedClip(item, start, start + item.duration, Untouched);
      clips := before + [inserted];
      var dims := CalculateClosestDimensions(height, env.profiles.video);
      if dims.Err? {
        stopped := true;
        return;
      }
      var scale := env.profiles.video.entries[dims.value].scale;
      inserted := inserted.(motion := FixedScale(scale));
      clips := before + [inserted];
      cursor := cursor + (inserted.end - inserted.start);
    }

    /** Insert a photo at the cursor, give it the duration and the scale and
        position keyframes of the nearest photo profile, and advance the
        cursor by its new duration. */
    method PlacePhoto(item: MediaItem, height: int, env: Env)
      requires ValidEnv(env) && !stopped
      modifies this
      ensures State() == Placed(old(State()), item, height, false, env)
    {
      var start := cursor;
      var before := clips;
      var inserted := PlacedClip(item, start, start + item.duration, Untouched);
      clips := before + [inserted];
      var dims := CalculateClosestDimensions(height, env.profiles.photo);
      if dims.Err? {
        stopped := true;
        return;
      }
      var profile := env.profiles.photo.entries[dims.value];
      var end := start + profile.duration;
      var keys := [ScaleKey(start, Some(profile.scaleInKey)), ScaleKey(end, Some(profile.scaleOutKey))];
      inserted := PlacedClip(item, start, end, Keyframed(keys, [start, end]));
      clips := before + [inserted];
      cursor := cursor + (inserted.end - inserted.start);
    }
  }

  /** `add_clips_to_sequence` with the corrections described in the README:
      the new clip is the one just inserted, and a photo's keyframes read the
      matched profile; proved to compute `Run`. */
  method AddClipsToSequence(records: seq<MediaRecord>, env: Env) returns (timeline: Timeline)
    requires ValidEnv(env)
    ensures fresh(timeline)
    ensures timeline.State() == Run(records, env)
  {
    timeline := new Timeline();
    for i := 0 to |records|
      invariant timeline.State() == Run(records[..i], env)
    {
      assert records[..i + 1][..i] == records[..i];
      if timeline.stopped {
        RunStops(records, env, i);
        return;
      }
      timeline.Place(records[i], env);
    }
    assert records[..|records|] == records;
  }

  /** Once the run has ended, later records change nothing. */
  lemma {:induction false} RunStops(records: seq<MediaRecord>, env: Env, n: nat)
    requires ValidEnv(env) && n <= |records| && Run(records[..n], env).stopped
    ensures Run(records, env) == Run(records[..n], env)
    decreases |records| - n
  {
    if n < |records| {
      assert records[..n + 1][..n] == records[..n];
      RunStops(records, env, n + 1);
    } else {
      assert records[..n] == records;
    }
  }

  // ---------------------------------------------------------------------
  // The loop as written
  //
  // These members keep the three evident-intent readings the corrected run
  // also makes: the keys of the profile table are iterated (line 254), the
  // item map is the dict that `memoize_bins` returns (line 333), and a video's
  // scale is set (line 276).  Only the two defects shown below are kept.

  /** One iteration of the loop as the script writes it, at loop index `i`.
      The new clip is looked up as `track.clips[i]`: every earlier iteration
      added at most one clip, so that index holds the clip just inserted only
      when no record was skipped before; otherwise it is past the end of the
      track, the lookup raises, and nothing catches it. */
  function StepAsWritten(st: RunState, i: nat, record: MediaRecord, env: Env): RunState
    requires ValidEnv(env)
  {
    if st.stopped || record.filename !in env.bins then st
    else
      var item := env.bins[record.filename];
      if i != |st.clips| then RunState(st.cursor, st.clips + [PlacedClip(item, st.cursor, st.cursor + item.duration, Untouched)], true)
      else PlacedAsWritten(st, item, record.height, IsVideoPath(record.filename), env)
  }

  /** Placing as written: a video as in `Placed`; for a photo, the end is set
      and the scale key at the start is added, then the in and out values are
      read from the photo table under the name of the value instead of under
      the matched (height, width).  That KeyError is caught: the clip keeps
      one scale key with no value and no position keys, and the cursor is not
      advanced. */
  function PlacedAsWritten(st: RunState, item: MediaItem, height: int, video: bool, env: Env): RunState
    requires ValidEnv(env)
  {
    if video then Placed(st, item, height, true, env)
    else
      var start := st.cursor;
      match CalculateClosestDimensions(height, env.profiles.photo)
      case Err(_) => RunState(start, st.clips + [PlacedClip(item, start, start + item.duration, Untouched)], true)
      case Ok(dims) =>
        var end := start + env.profiles.photo.entries[dims].duration;
        RunState(start, st.clips + [PlacedClip(item, start, end, Keyframed([ScaleKey(start, None)], []))], false)
  }

  function RunAsWritten(records: seq<MediaRecord>, env: Env): RunState
    requires ValidEnv(env)
    decreases |records|
  {
    if records == [] then Start
    else StepAsWritten(RunAsWritten(records[..|records| - 1], env), |records| - 1, records[|records| - 1], env)
  }

  /** As written, a record whose file is missing ends the run at the next
      catalogued record, which is inserted without Motion; the corrected loop
      places it with its profile. */
  lemma SkipBreaksClipLookup(missing: MediaRecord, photo: MediaRecord, env: Env)
    requires ValidEnv(env)
    requires missing.filename !in env.bins && photo.filename in env.bins && !IsVideoPath(photo.filename)
    requires |env.profiles.photo.keys| > 0
    ensures var written := RunAsWritten([missing, photo], env);
      written.stopped && |written.clips| == 1 && written.clips[0].motion == Untouched
    ensures var run := Run([missing, photo], env);
      !run.stopped && |run.clips| == 1 && run.clips[0].motion.Keyframed?
  {
    TwoRecordsAsWritten(missing, photo, env);
    TwoRecords(missing, photo, env);
  }

  /** As written, the cursor is not advanced after a catalogued photo, so the
      second photo is inserted at the same time as the first.  Corrected, the
      second starts where the first ends. */
  lemma PhotoCursorStallsAsWritten(first: MediaRecord, second: MediaRecord, env: Env)
    requires ValidEnv(env)
    requires first.filename in env.bins && !IsVideoPath(first.filename)
    requires second.filename in env.bins && !IsVideoPath(second.filename)
    requires |env.profiles.photo.keys| > 0
    ensures var written := RunAsWritten([first, second], env);
      |written.clips| == 2 && written.clips[0].start == 0 && written.clips[1].start == 0 && written.cursor == 0
    ensures var run := Run([first, second], env);
      |run.clips| == 2 && run.clips[0].start == 0 && run.clips[1].start == run.clips[0].end
  {
    TwoRecordsAsWritten(first, second, env);
    var item1, item2 := env.bins[first.filename], env.bins[second.filename];
    var w1 := PlacedAsWritten(Start, item1, first.height, false, env);
    assert |w1.clips| == 1 && w1.cursor == 0 && !w1.stopped;
    TwoRecords(first, second, env);
    var r1 := Placed(Start, item1, first.height, false, env);
    PlacedSpec(Start, item1, first.height, false, env);
    PlacedSpec(r1, item2, second.height, false, env);
  }

  /** The loop as written over two records: two steps from the start. */
  lemma TwoRecordsAsWritten(first: MediaRecord, second: MediaRecord, env: Env)
    requires ValidEnv(env)
    ensures RunAsWritten([first, second], env) == StepAsWritten(StepAsWritten(Start, 0, first, env), 1, second, env)
  {
    assert [first, second][..1] == [first] && [first][..0] == [];
    assert RunAsWritten([first], env) == StepAsWritten(Start, 0, first, env);
  }

  /** The corrected loop over two records: two steps from the start. */
  lemma TwoRecords(first: MediaRecord, second: MediaRecord, env: Env)
    requires ValidEnv(env)
    ensures Run([first, second], env) == Step(Step(Start, first, env), second, env)
  {
    assert [first, second][..1] == [first] && [first][..0] == [];
    assert Run([first], env) == Step(Start, first, env);
  }

}
