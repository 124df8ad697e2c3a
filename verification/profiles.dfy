/** `read_config_sequence` and `calculate_closest_dimensions`: the clips of a
    template sequence teach the script, per (height, width), the scale of a
    video and the duration and scale keyframes of a photo; a file is later
    matched to the profile whose height is nearest its own. */
module Profiles {
  import opened Wrappers
  import opened PyPath
  import opened Metadata
  import opened ProjectPaths

  /** A clip of the template's first video track, with what the script reads
      of it through the host: its item's tree path, its name, its duration,
      and the Motion scale (its value, and its values at the in and out points). */
  datatype TemplateClip = TemplateClip(treePath: string, name: string, duration: nat, scale: real, scaleAtIn: real, scaleAtOut: real)

  datatype TemplateSequence = TemplateSequence(name: string, clips: seq<TemplateClip>)

  datatype PhotoProfile = PhotoProfile(duration: nat, scaleInKey: real, scaleOutKey: real)

  datatype VideoProfile = VideoProfile(scale: real)

  /** A Python dict keyed by (height, width): its keys in insertion order, and
      what is stored under each. */
  datatype Table<V> = Table(keys: seq<Dims>, entries: map<Dims, V>)

  ghost predicate ValidTable<V>(t: Table<V>)
  {
    && (forall i, j :: 0 <= i < j < |t.keys| ==> t.keys[i] != t.keys[j])
    && (forall k :: k in t.entries <==> k in t.keys)
  }

  /** `d[k] = v`: a new key goes last, an existing key keeps its place. */
  function Put<V>(t: Table<V>, k: Dims, v: V): Table<V>
  {
    Table(if k in t.entries then t.keys else t.keys + [k], t.entries[k := v])
  }

  /** Storing keeps the table well formed, stores `v` under `k`, leaves every
      other entry alone, and appends `k` to the order only if it is new. */
  lemma PutSpec<V>(t: Table<V>, k: Dims, v: V)
    requires ValidTable(t)
    ensures ValidTable(Put(t, k, v))
    ensures Put(t, k, v).entries[k] == v
    ensures forall k' :: k' != k ==> (k' in Put(t, k, v).entries <==> k' in t.entries)
    ensures forall k' :: k' != k && k' in t.entries ==> Put(t, k, v).entries[k'] == t.entries[k']
    ensures k in t.entries ==> Put(t, k, v).keys == t.keys
    ensures k !in t.entries ==> Put(t, k, v).keys == t.keys + [k]
  {
  }

  /** `prop_dict`: one table for photos and one for videos. */
  datatype Profiles = Profiles(photo: Table<PhotoProfile>, video: Table<VideoProfile>)

  /** Why no profiles can be read: the project has no sequence of that name. */
  datatype ConfigError = TemplateNotFound

  /** Sequence `i` is the first one called `name`. */
  predicate FirstNamed(sequences: seq<TemplateSequence>, i: int, name: string)
  {
    0 <= i < |sequences| && sequences[i].name == name && forall j :: 0 <= j < i ==> sequences[j].name != name
  }

  /** `next((x for x in project.sequences if x.name == name), None)`. */
  function FindSequence(sequences: seq<TemplateSequence>, name: string): (r: Option<TemplateSequence>)
    ensures r.None? <==> forall i :: 0 <= i < |sequences| ==> sequences[i].name != name
    ensures r.Some? ==> exists i :: FirstNamed(sequences, i, name) && sequences[i] == r.value
  {
    if sequences == [] then None
    else if sequences[0].name == name then Some(sequences[0])
    else
      var r := FindSequence(sequences[1..], name);
      if r.Some? then
        var i :| FirstNamed(sequences[1..], i, name) && sequences[1..][i] == r.value;
        assert FirstNamed(sequences, i + 1, name) && sequences[i + 1] == r.value;
        r
      else r
  }

  /** One iteration of the template loop: a clip whose file has no record is
      passed over; otherwise the clip's profile is stored under the record's
      (height, width), in the video table when the clip's name has a video
      extension and in the photo table otherwise. */
  function ProfileStep(p: Profiles, root: string, records: seq<MediaRecord>, clip: TemplateClip): Profiles
  {
    match GetClipFilesysInfo(root, records, clip.treePath)
    case None => p
    case Some(info) =>
      var key := Dims(info.height, info.width);
      if IsVideoPath(clip.name) then p.(video := Put(p.video, key, VideoProfile(clip.scale)))
      else p.(photo := Put(p.photo, key, PhotoProfile(clip.duration, clip.scaleAtIn, clip.scaleAtOut)))
  }

  /** The tables after the template loop has seen `clips`. */
  function ProfilesOf(root: string, records: seq<MediaRecord>, clips: seq<TemplateClip>): Profiles
    decreases |clips|
  {
    if clips == [] then Profiles(Table([], map[]), Table([], map[]))
    else ProfileStep(ProfilesOf(root, records, clips[..|clips| - 1]), root, records, clips[|clips| - 1])
  }

  /** What one template clip does to the tables: nothing without a record; a
      video stores only its scale, in the video table; a photo stores its
      duration and scale keys, in the photo table; a clip with a known
      (height, width) overwrites that entry in place. */
  lemma ProfileStepSpec(p: Profiles, root: string, records: seq<MediaRecord>, clip: TemplateClip)
    requires ValidTable(p.photo) && ValidTable(p.video)
    ensures var q := ProfileStep(p, root, records, clip);
      var info := GetClipFilesysInfo(root, records, clip.treePath);
      && ValidTable(q.photo) && ValidTable(q.video)
      && (info.None? ==> q == p)
      && (info.Some? && IsVideoPath(clip.name) ==>
            q.photo == p.photo && q.video == Put(p.video, Dims(info.value.height, info.value.width), VideoProfile(clip.scale)))
      && (info.Some? && !IsVideoPath(clip.name) ==>
            q.video == p.video &&
            q.photo == Put(p.photo, Dims(info.value.height, info.value.width), PhotoProfile(clip.duration, clip.scaleAtIn, clip.scaleAtOut)))
  {
    var info := GetClipFilesysInfo(root, records, clip.treePath);
    if info.Some? {
      var key := Dims(info.value.height, info.value.width);
      PutSpec(p.video, key, VideoProfile(clip.scale));
      PutSpec(p.photo, key, PhotoProfile(clip.duration, clip.scaleAtIn, clip.scaleAtOut));
    }
  }

  /** The tables the loop builds are well formed. */
  lemma {:induction false} ProfilesOfValid(root: string, records: seq<MediaRecord>, clips: seq<TemplateClip>)
    ensures ValidTable(ProfilesOf(root, records, clips).photo) && ValidTable(ProfilesOf(root, records, clips).video)
    decreases |clips|
  {
    if clips != [] {
      ProfilesOfValid(root, records, clips[..|clips| - 1]);
      ProfileStepSpec(ProfilesOf(root, records, clips[..|clips| - 1]), root, records, clips[|clips| - 1]);
    }
  }

  /** The template clip seen last decides the entry under its (height,
      width), whatever earlier clips stored there. */
  lemma LastClipWins(root: string, records: seq<MediaRecord>, clips: seq<TemplateClip>, clip: TemplateClip, info: MediaRecord)
    requires GetClipFilesysInfo(root, records, clip.treePath) == Some(info)
    ensures !IsVideoPath(clip.name) ==>
      ProfilesOf(root, records, clips + [clip]).photo.entries[Dims(info.height, info.width)]
        == PhotoProfile(clip.duration, clip.scaleAtIn, clip.scaleAtOut)
    ensures IsVideoPath(clip.name) ==>
      ProfilesOf(root, records, clips + [clip]).video.entries[Dims(info.height, info.width)] == VideoProfile(clip.scale)
  {
    assert (clips + [clip])[..|clips|] == clips;
  }

  /** What `read_config_sequence` produces (past the sequence settings). */
  function ConfigProfiles(root: string, sequences: seq<TemplateSequence>, name: string, records: seq<MediaRecord>): Result<Profiles, ConfigError>
  {
    match FindSequence(sequences, name)
    case None => Err(TemplateNotFound)
    case Some(template) => Ok(ProfilesOf(root, records, template.clips))
  }

  /** `read_config_sequence`: find the template, then fill the two tables
      clip by clip; proved to compute `ConfigProfiles`. */
  method ReadConfigSequence(root: string, sequences: seq<TemplateSequence>, name: string, records: seq<MediaRecord>)
    returns (r: Result<Profiles, ConfigError>)
    ensures r == ConfigProfiles(root, sequences, name, records)
    ensures r.Ok? ==> ValidTable(r.value.photo) && ValidTable(r.value.video)
  {
    var template := FindSequence(sequences, name);
    if template.None? {
      return Err(TemplateNotFound);
    }
    var clips := template.value.clips;
    var photo: Table<PhotoProfile> := Table([], map[]);
    var video: Table<VideoProfile> := Table([], map[]);
    for i := 0 to |clips|
      invariant ProfilesOf(root, records, clips[..i]) == Profiles(photo, video)
    {
      ProfilesOfPrefix(root, records, clips, i);
      var clip := clips[i];
      var info := GetClipFilesysInfo(root, records, clip.treePath);
      if info.Some? {
        var key := Dims(info.value.height, info.value.width);
        if IsVideoPath(clip.name) {
          video := Put(video, key, VideoProfile(clip.scale));
        } else {
          photo := Put(photo, key, PhotoProfile(clip.duration, clip.scaleAtIn, clip.scaleAtOut));
        }
      }
    }
    assert clips[..|clips|] == clips;
    ProfilesOfValid(root, records, clips);
    r := Ok(Profiles(photo, video));
  }

  /** One more clip of the template is one more step of the loop. */
  lemma ProfilesOfPrefix(root: string, records: seq<MediaRecord>, clips: seq<TemplateClip>, i: nat)
    requires i < |clips|
    ensures ProfilesOf(root, records, clips[..i + 1]) == ProfileStep(ProfilesOf(root, records, clips[..i]), root, records, clips[i])
  {
    assert clips[..i + 1][..i] == clips[..i];
  }

  // ---------------------------------------------------------------------
  // calculate_closest_dimensions

  /** `abs(height - key[0])`. */
  function Distance(height: int, key: Dims): nat
  {
    if height >= key.height then height - key.height else key.height - height
  }

  /** The position of the first key whose height is nearest `height`. */
  function ClosestIndex(height: int, keys: seq<Dims>): (i: nat)
    requires |keys| > 0
    ensures i < |keys|
    ensures forall j :: 0 <= j < |keys| ==> Distance(height, keys[i]) <= Distance(height, keys[j])
    ensures forall j :: 0 <= j < i ==> Distance(height, keys[j]) > Distance(height, keys[i])
    decreases |keys|
  {
    if |keys| == 1 then 0
    else
      var best := ClosestIndex(height, keys[..|keys| - 1]);
      assert forall j :: 0 <= j < |keys| - 1 ==> keys[..|keys| - 1][j] == keys[j];
      if Distance(height, keys[|keys| - 1]) < Distance(height, keys[best]) then |keys| - 1 else best
  }

  /** Why no profile can be picked: the table is empty (an IndexError). */
  datatype MatchError = NoProfiles

  /** `calculate_closest_dimensions(file_info, table)`: the keys sorted by
      distance of height, stably, and the first one taken.  The script
      iterates `keys` without calling it, which would raise a TypeError; the
      model iterates the keys, as evidently intended. */
  function CalculateClosestDimensions<V>(height: int, table: Table<V>): (r: Result<Dims, MatchError>)
    ensures r.Err? <==> |table.keys| == 0
    ensures r.Ok? ==> r.value in table.keys
    ensures r.Ok? ==> forall k :: k in table.keys ==> Distance(height, r.value) <= Distance(height, k)
    ensures r.Ok? ==>
      exists i :: (0 <= i < |table.keys| && table.keys[i] == r.value
        && forall j :: 0 <= j < i ==> Distance(height, table.keys[j]) > Distance(height, r.value))
  {
    if |table.keys| == 0 then Err(NoProfiles) else Ok(table.keys[ClosestIndex(height, table.keys)])
  }

  /** Only heights matter: two tables whose keys have the same heights, in
      the same order, are matched at the same position. */
  lemma {:induction false} WidthIgnored(height: int, keys: seq<Dims>, others: seq<Dims>)
    requires |keys| == |others| > 0
    requires forall i :: 0 <= i < |keys| ==> keys[i].height == others[i].height
    ensures ClosestIndex(height, keys) == ClosestIndex(height, others)
    decreases |keys|
  {
    if |keys| > 1 {
      WidthIgnored(height, keys[..|keys| - 1], others[..|others| - 1]);
    }
  }
}
