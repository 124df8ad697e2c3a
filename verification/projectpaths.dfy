/** The link between the Premiere project and the files on disk:
    `bin_tree_path_to_filepath`, `memoize_bins` and `get_clip_filesys_info`.
    A clip's tree path inside the project, `\<project>\<parent bin>\<dirs>\<file>`,
    names the file `<search root>\<dirs>\<file>`. */
module ProjectPaths {
  import opened Wrappers
  import opened PyStr
  import opened PyPath
  import opened Metadata

  /** A media item of the project: its tree path and its native duration. */
  datatype MediaItem = MediaItem(treePath: string, duration: nat)

  /** An item of the project panel: a bin holding further items, or a media item. */
  datatype ProjectItem = Bin(treePath: string, children: seq<ProjectItem>) | Media(item: MediaItem)

  /** `parts[n:]`: clamped to the length. */
  function DropParts(parts: seq<string>, n: nat): (r: seq<string>)
    ensures n <= |parts| ==> r == parts[n..]
    ensures n > |parts| ==> r == []
  {
    if n <= |parts| then parts[n..] else []
  }

  /** `bin_tree_path_to_filepath`: the tree path split on `\`, its first three
      segments (the empty one before the leading `\`, the project and the
      parent bin) dropped, and the rest joined under `root` (the script's
      first argument). */
  function BinTreePathToFilepath(root: string, treePath: string): string
  {
    Join(root, DropParts(Split(treePath, '\\'), 3))
  }

  /** `\<project>\<parent>\<d1>\...\<dn>` becomes `<root>\<d1>\...\<dn>`. */
  lemma TreePathToFilepath(root: string, project: string, parent: string, segments: seq<string>)
    requires |root| > 0 && !IsSep(root[|root| - 1])
    requires '\\' !in project && '\\' !in parent
    requires |segments| > 0 && forall i :: 0 <= i < |segments| ==> PlainComponent(segments[i])
    ensures BinTreePathToFilepath(root, "\\" + project + "\\" + parent + "\\" + JoinWith(segments, '\\'))
      == root + "\\" + JoinWith(segments, '\\')
  {
    TreePathSegments(project, parent, segments);
    JoinPlain(root, segments);
  }

  lemma TreePathSegments(project: string, parent: string, segments: seq<string>)
    requires '\\' !in project && '\\' !in parent
    requires |segments| > 0 && forall i :: 0 <= i < |segments| ==> PlainComponent(segments[i])
    ensures DropParts(Split("\\" + project + "\\" + parent + "\\" + JoinWith(segments, '\\'), '\\'), 3) == segments
  {
    var parts := ["", project, parent] + segments;
    TreePathJoin(project, parent, segments);
    TreePartsPlain(project, parent, segments);
    SplitJoinWith(parts, '\\');
    assert parts[3..] == segments;
  }

  lemma TreePartsPlain(project: string, parent: string, segments: seq<string>)
    requires '\\' !in project && '\\' !in parent
    requires forall i :: 0 <= i < |segments| ==> PlainComponent(segments[i])
    ensures var parts := ["", project, parent] + segments;
      forall i :: 0 <= i < |parts| ==> '\\' !in parts[i]
  {
    var parts := ["", project, parent] + segments;
    forall i | 0 <= i < |parts|
      ensures '\\' !in parts[i]
    {
      if i >= 3 {
        assert parts[i] == segments[i - 3];
      }
    }
  }

  lemma TreePathJoin(project: string, parent: string, segments: seq<string>)
    requires |segments| > 0
    ensures JoinWith(["", project, parent] + segments, '\\')
      == "\\" + project + "\\" + parent + "\\" + JoinWith(segments, '\\')
  {
    var rest := JoinWith(segments, '\\');
    JoinWithCons(parent, segments, '\\');
    JoinWithCons2(project, parent, segments);
    JoinWithCons3(project, parent, segments);
    RegroupTreePath(project, parent, rest);
  }

  lemma JoinWithCons2(project: string, parent: string, segments: seq<string>)
    requires |segments| > 0
    ensures JoinWith([project, parent] + segments, '\\') == project + "\\" + JoinWith([parent] + segments, '\\')
  {
    ConsRegroup2(project, parent, segments);
    JoinWithCons(project, [parent] + segments, '\\');
  }

  lemma JoinWithCons3(project: string, parent: string, segments: seq<string>)
    requires |segments| > 0
    ensures JoinWith(["", project, parent] + segments, '\\') == "" + "\\" + JoinWith([project, parent] + segments, '\\')
  {
    ConsRegroup3("", project, parent, segments);
    JoinWithCons("", [project, parent] + segments, '\\');
  }

  lemma ConsRegroup2<T>(x: T, y: T, s: seq<T>)
    ensures [x, y] + s == [x] + ([y] + s)
  {
  }

  lemma ConsRegroup3<T>(x: T, y: T, z: T, s: seq<T>)
    ensures [x, y, z] + s == [x] + ([y, z] + s)
  {
  }

  lemma RegroupTreePath(a: string, b: string, c: string)
    ensures "" + "\\" + (a + "\\" + (b + "\\" + c)) == "\\" + a + "\\" + b + "\\" + c
  {
  }

  /** The example of the script's comment, under the search root `..`:
      `\winter tripe.prproj\West Trip Jan 2022\Tim's Photos\IMG_7079.mov`
      names `..\Tim's Photos\IMG_7079.mov`. */
  lemma TreePathExample()
    ensures BinTreePathToFilepath("..", "\\" + "winter tripe.prproj" + "\\" + "West Trip Jan 2022" + "\\" + "Tim's Photos\\IMG_7079.mov")
      == ".." + "\\" + "Tim's Photos\\IMG_7079.mov"
  {
    var segments := ExampleSegments();
    TreePathToFilepath("..", "winter tripe.prproj", "West Trip Jan 2022", segments);
  }

  function ExampleSegments(): (segments: seq<string>)
    ensures |segments| > 0 && forall i :: 0 <= i < |segments| ==> PlainComponent(segments[i])
    ensures JoinWith(segments, '\\') == "Tim's Photos\\IMG_7079.mov"
  {
    var segments := ["Tim's Photos", "IMG_7079.mov"];
    assert JoinWith(segments[1..], '\\') == "IMG_7079.mov";
    segments
  }

  /** The path a media item is looked up under. */
  function FilePathOf(root: string, item: MediaItem): string
  {
    BinTreePathToFilepath(root, item.treePath)
  }

  /** The media items under `items`, depth first, in panel order. */
  function Leaves(items: seq<ProjectItem>): seq<MediaItem>
    decreases items
  {
    if items == [] then []
    else
      var first := match items[0]
        case Bin(_, children) => Leaves(children)
        case Media(m) => [m];
      first + Leaves(items[1..])
  }

  lemma {:induction false} LeavesAppend(a: seq<ProjectItem>, b: seq<ProjectItem>)
    ensures Leaves(a + b) == Leaves(a) + Leaves(b)
    decreases |a|
  {
    if a == [] {
      assert a + b == b;
    } else {
      assert (a + b)[0] == a[0];
      assert (a + b)[1..] == a[1..] + b;
      LeavesAppend(a[1..], b);
    }
  }

  /** The catalogue after entering `leaves`, one after the other, into `m`;
      a later item with the same path replaces an earlier one. */
  function CatalogueOnto(m: map<string, MediaItem>, root: string, leaves: seq<MediaItem>): map<string, MediaItem>
    decreases |leaves|
  {
    if leaves == [] then m
    else CatalogueOnto(m[FilePathOf(root, leaves[0]) := leaves[0]], root, leaves[1..])
  }

  lemma {:induction false} CatalogueOntoAppend(m: map<string, MediaItem>, root: string, a: seq<MediaItem>, b: seq<MediaItem>)
    ensures CatalogueOnto(m, root, a + b) == CatalogueOnto(CatalogueOnto(m, root, a), root, b)
    decreases |a|
  {
    if a == [] {
      assert a + b == b;
    } else {
      assert (a + b)[0] == a[0];
      assert (a + b)[1..] == a[1..] + b;
      CatalogueOntoAppend(m[FilePathOf(root, a[0]) := a[0]], root, a[1..], b);
    }
  }

  /** Item `i` is the last of `leaves` filed under path `k`. */
  predicate LastWithPath(root: string, leaves: seq<MediaItem>, i: int, k: string)
  {
    0 <= i < |leaves| && FilePathOf(root, leaves[i]) == k && forall j :: i < j < |leaves| ==> FilePathOf(root, leaves[j]) != k
  }

  /** The catalogue holds a path exactly when the starting map or some item
      has it, and under it the last item with that path (the starting entry
      when no item has it). */
  lemma {:induction false} CatalogueOntoSpec(m: map<string, MediaItem>, root: string, leaves: seq<MediaItem>, k: string)
    ensures k in CatalogueOnto(m, root, leaves) <==> k in m || exists i :: 0 <= i < |leaves| && FilePathOf(root, leaves[i]) == k
    ensures k in CatalogueOnto(m, root, leaves) ==>
      || (exists i :: LastWithPath(root, leaves, i, k) && CatalogueOnto(m, root, leaves)[k] == leaves[i])
      || ((forall i :: 0 <= i < |leaves| ==> FilePathOf(root, leaves[i]) != k) && CatalogueOnto(m, root, leaves)[k] == m[k])
    decreases |leaves|
  {
    if leaves != [] {
      var m' := m[FilePathOf(root, leaves[0]) := leaves[0]];
      CatalogueOntoSpec(m', root, leaves[1..], k);
      CatalogueKeysStep(m, root, leaves, k);
      CatalogueValueStep(m, root, leaves, k);
    }
  }

  /** The membership half of `CatalogueOntoSpec`, one leaf further. */
  lemma CatalogueKeysStep(m: map<string, MediaItem>, root: string, leaves: seq<MediaItem>, k: string)
    requires leaves != []
    requires var m' := m[FilePathOf(root, leaves[0]) := leaves[0]];
      k in CatalogueOnto(m', root, leaves[1..]) <==> k in m' || exists i :: 0 <= i < |leaves[1..]| && FilePathOf(root, leaves[1..][i]) == k
    ensures k in CatalogueOnto(m, root, leaves) <==> k in m || exists i :: 0 <= i < |leaves| && FilePathOf(root, leaves[i]) == k
  {
    var rest := leaves[1..];
    if exists i :: 0 <= i < |leaves| && FilePathOf(root, leaves[i]) == k {
      var i :| 0 <= i < |leaves| && FilePathOf(root, leaves[i]) == k;
      if i > 0 {
        assert FilePathOf(root, rest[i - 1]) == k;
      }
    }
  }

  /** The value half of `CatalogueOntoSpec`, one leaf further. */
  lemma CatalogueValueStep(m: map<string, MediaItem>, root: string, leaves: seq<MediaItem>, k: string)
    requires leaves != []
    requires k in CatalogueOnto(m, root, leaves) <==> k in m || exists i :: 0 <= i < |leaves| && FilePathOf(root, leaves[i]) == k
    requires var m' := m[FilePathOf(root, leaves[0]) := leaves[0]];
      var c := CatalogueOnto(m', root, leaves[1..]);
      k in c ==>
        || (exists i :: LastWithPath(root, leaves[1..], i, k) && c[k] == leaves[1..][i])
        || ((forall i :: 0 <= i < |leaves[1..]| ==> FilePathOf(root, leaves[1..][i]) != k) && c[k] == m'[k])
    ensures k in CatalogueOnto(m, root, leaves) ==>
      || (exists i :: LastWithPath(root, leaves, i, k) && CatalogueOnto(m, root, leaves)[k] == leaves[i])
      || ((forall i :: 0 <= i < |leaves| ==> FilePathOf(root, leaves[i]) != k) && CatalogueOnto(m, root, leaves)[k] == m[k])
  {
    var rest := leaves[1..];
    var c := CatalogueOnto(m, root, leaves);
    if k in c {
      if exists i :: LastWithPath(root, rest, i, k) && c[k] == rest[i] {
        var i :| LastWithPath(root, rest, i, k) && c[k] == rest[i];
        LastWithPathShift(root, leaves, i, k);
      } else if FilePathOf(root, leaves[0]) == k {
        LastWithPathFirst(root, leaves, k);
      } else {
        NoLeafWithPath(root, leaves, k);
      }
    }
  }

  lemma LastWithPathShift(root: string, leaves: seq<MediaItem>, i: int, k: string)
    requires leaves != [] && LastWithPath(root, leaves[1..], i, k)
    ensures LastWithPath(root, leaves, i + 1, k) && leaves[1..][i] == leaves[i + 1]
  {
    assert forall j :: i + 1 < j < |leaves| ==> leaves[j] == leaves[1..][j - 1];
  }

  lemma LastWithPathFirst(root: string, leaves: seq<MediaItem>, k: string)
    requires leaves != [] && FilePathOf(root, leaves[0]) == k
    requires forall i :: 0 <= i < |leaves[1..]| ==> FilePathOf(root, leaves[1..][i]) != k
    ensures LastWithPath(root, leaves, 0, k)
  {
    assert forall j :: 0 < j < |leaves| ==> leaves[j] == leaves[1..][j - 1];
  }

  lemma NoLeafWithPath(root: string, leaves: seq<MediaItem>, k: string)
    requires leaves != [] && FilePathOf(root, leaves[0]) != k
    requires forall i :: 0 <= i < |leaves[1..]| ==> FilePathOf(root, leaves[1..][i]) != k
    ensures forall i :: 0 <= i < |leaves| ==> FilePathOf(root, leaves[i]) != k
  {
    assert forall j :: 0 < j < |leaves| ==> leaves[j] == leaves[1..][j - 1];
  }

  /** The catalogue never has more entries than the starting map plus the items. */
  lemma {:induction false} CatalogueOntoSize(m: map<string, MediaItem>, root: string, leaves: seq<MediaItem>)
    ensures |CatalogueOnto(m, root, leaves)| <= |m| + |leaves|
    decreases |leaves|
  {
    if leaves != [] {
      var k := FilePathOf(root, leaves[0]);
      var m' := m[k := leaves[0]];
      assert m'.Keys == m.Keys + {k};
      assert |m'| <= |m| + 1;
      CatalogueOntoSize(m', root, leaves[1..]);
    }
  }

  /** The result of `memoize_bins`: the path-to-item dictionary and the count
      of items catalogued.  `Walk` is `memoize_bins_rec`; its dictionary is
      shared by every level of the recursion, as in the script. */
  class BinCatalogue {
    const root: string
    var entries: map<string, MediaItem>
    var total: nat

    constructor(root: string)
      ensures this.root == root && entries == map[] && total == 0
    {
      this.root := root;
      entries := map[];
      total := 0;
    }

    /** Catalogue every media item under `children`, descending into bins. */
    method Walk(children: seq<ProjectItem>)
      modifies this
      ensures entries == CatalogueOnto(old(entries), root, Leaves(children))
      ensures total == old(total) + |Leaves(children)|
      decreases children
    {
      for i := 0 to |children|
        invariant entries == CatalogueOnto(old(entries), root, Leaves(children[..i]))
        invariant total == old(total) + |Leaves(children[..i])|
      {
        assert children[..i + 1] == children[..i] + [children[i]];
        LeavesAppend(children[..i], [children[i]]);
        ghost var before := Leaves(children[..i]);
        ghost var added := Leaves([children[i]]);
        CatalogueOntoAppend(old(entries), root, before, added);
        match children[i]
        case Bin(_, grandchildren) =>
          assert children[i] in children;
          assert added == Leaves(grandchildren);
          Walk(grandchildren);
        case Media(m) =>
          assert added == [m];
          entries := entries[FilePathOf(root, m) := m];
          total := total + 1;
      }
      assert children[..|children|] == children;
    }
  }

  /** `memoize_bins(parent_bin, {})`: a fresh catalogue of every media item
      under the parent bin. */
  method MemoizeBins(root: string, parent: ProjectItem) returns (catalogue: BinCatalogue)
    requires parent.Bin?
    ensures fresh(catalogue) && catalogue.root == root
    ensures catalogue.entries == CatalogueOnto(map[], root, Leaves(parent.children))
    ensures catalogue.total == |Leaves(parent.children)|
  {
    catalogue := new BinCatalogue(root);
    catalogue.Walk(parent.children);
  }

  /** What `memoize_bins` produces, as a function of the bin tree: every media
      item's path is a key, under it the last item with that path, and the
      count is the number of media items visited, never fewer than the keys. */
  lemma MemoizedCatalogue(root: string, parent: ProjectItem, k: string)
    requires parent.Bin?
    ensures var leaves := Leaves(parent.children);
      var c := CatalogueOnto(map[], root, leaves);
      && (k in c <==> exists i :: 0 <= i < |leaves| && FilePathOf(root, leaves[i]) == k)
      && (k in c ==> exists i :: LastWithPath(root, leaves, i, k) && c[k] == leaves[i])
      && |c| <= |leaves|
  {
    CatalogueOntoSpec(map[], root, Leaves(parent.children), k);
    CatalogueOntoSize(map[], root, Leaves(parent.children));
  }

  /** Record `i` is the first of `records` for the file `path`. */
  predicate FirstWithPath(records: seq<MediaRecord>, i: int, path: string)
  {
    0 <= i < |records| && records[i].filename == path && forall j :: 0 <= j < i ==> records[j].filename != path
  }

  /** `next((x for x in sorted_files if x["filename"] == path), None)`. */
  function FindRecord(records: seq<MediaRecord>, path: string): (r: Option<MediaRecord>)
    ensures r.None? <==> forall i :: 0 <= i < |records| ==> records[i].filename != path
    ensures r.Some? ==> exists i :: FirstWithPath(records, i, path) && records[i] == r.value
  {
    if records == [] then None
    else if records[0].filename == path then Some(records[0])
    else
      var r := FindRecord(records[1..], path);
      if r.Some? then
        var i :| FirstWithPath(records[1..], i, path) && records[1..][i] == r.value;
        assert FirstWithPath(records, i + 1, path) && records[i + 1] == r.value;
        r
      else r
  }

  /** `get_clip_filesys_info`: the first record whose file is the clip's. */
  function GetClipFilesysInfo(root: string, records: seq<MediaRecord>, treePath: string): Option<MediaRecord>
  {
    FindRecord(records, BinTreePathToFilepath(root, treePath))
  }
}
