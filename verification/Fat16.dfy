/** The directory scan of kernel/fs/fat16.c. */
module Fat16 {
  import opened CString
  import opened DirectoryTree
  import opened Tables

  // The pages behind those of the two tables of rows hold nothing else, and `fs_filenames`,
  // `fs_directories`, `fs_filenames_dirinfo` and what is behind each stand one after the other.
  const TABLE := 8192
  const INFO_ROWS := 910
  const FILE_ROWS := 819

  function CellsOf(rows: seq<FileRow>): (cells: seq<seq<byte>>)
    ensures |cells| == |rows|
  {
    seq(|rows|, i requires 0 <= i < |rows| => rows[i].cell)
  }

  function NamesFound(ss: seq<Subdir>): (names: seq<seq<byte>>)
    ensures |names| == |ss|
  {
    seq(|ss|, i requires 0 <= i < |ss| => ss[i].name)
  }

  predicate IsNameCell(a: seq<byte>, b: nat, name: seq<byte>) {
    |name| <= 8 && 9 * b + 9 <= |a| && a[9 * b..9 * b + 8] == Cell(name, 8)
  }

  /** Cell 0 of the list starts with the name ROOT; the names found are in the cells after it. */
  ghost predicate IsNameList(a: seq<byte>, found: seq<Subdir>) {
    && 9 * (|found| + 1) <= |a| && ROOT + [0] <= a
    && forall i :: 0 <= i < |found| ==> IsNameCell(a, i + 1, found[i].name)
  }

  /** Writing a name into the cell after the last one found extends the list. */
  lemma NameListed(a: seq<byte>, found: seq<Subdir>, s: Subdir, cell: seq<byte>)
    requires IsNameList(a, found) && 9 * (|found| + 1) + 9 <= |a|
    requires |cell| == 9 && |s.name| <= 8 && cell[..8] == Cell(s.name, 8)
    ensures IsNameList(Splice(a, 9 * (|found| + 1), cell), found + [s])
  {
    var at, found' := 9 * (|found| + 1), found + [s];
    var a' := Splice(a, at, cell);
    forall i | 0 <= i < |found'| ensures IsNameCell(a', i + 1, found'[i].name) {
      if i < |found| {
        assert IsNameCell(a, i + 1, found[i].name);
        assert a'[9 * (i + 1)..9 * (i + 1) + 8] == a[9 * (i + 1)..9 * (i + 1) + 8];
      } else {
        assert a'[at..at + 8] == cell[..8];
      }
    }
  }

  lemma ClusterListed(a: seq<nat>, found: seq<Subdir>, s: Subdir)
    requires IsClusterList(a, found) && |found| < |a|
    ensures IsClusterList(a[|found| := s.cluster], found + [s])
  {}

  ghost predicate IsClusterList(a: seq<nat>, found: seq<Subdir>) {
    && |found| <= |a|
    && (forall i :: 0 <= i < |found| ==> a[i] == found[i].cluster)
    && (forall i :: |found| <= i < |a| ==> a[i] == 0)
  }

  ghost predicate AreUsable(ss: seq<Subdir>) {
    forall i :: 0 <= i < |ss| ==> ss[i].cluster != 0 && ss[i].name != [] && ss[i].name[0] != 0
  }

  /** The scan of the directory `d`, stored from sector `base` on, has read `m` entries with
      `ends` end marks among them; `found` and `rows` have grown by what they hold. */
  ghost predicate ReadSoFar(v: Volume, base: nat, d: Dir, m: nat, ends: nat,
                            found0: seq<Subdir>, rows0: seq<FileRow>, found: seq<Subdir>, rows: seq<FileRow>) {
    && v.Stores(base, d) && |found0| + |d.subs| <= 454 && |rows0| + |d.files| <= FILE_ROWS
    && m <= 64 && ends <= 4 && ends == v.Ends(base, m) && v.Stop(base, m, ends) == v.Stop(base, 0, 0)
    && found == found0 + v.SubdirsAt(base, m)
    && rows == rows0 + RowsOfFiles(v.FilesAt(base, m))
  }

  lemma {:induction false} EntryCounts(v: Volume, base: nat, m: nat, ends: nat)
    requires m < 64 && ends < 4 && ends == v.Ends(base, m) && v.Stop(base, m, ends) == v.Stop(base, 0, 0)
    ensures var e := v.EntryAt(base, m); var ends' := if IsEnd(e) then ends + 1 else ends;
      && ends' == v.Ends(base, m + 1) && v.Stop(base, m + 1, ends') == v.Stop(base, 0, 0) > m
      && v.SubdirsAt(base, m + 1) == v.SubdirsAt(base, m) + (if IsDir(e) then [Subdir(NameOf(e), ClusterOf(e))] else [])
      && v.FilesAt(base, m + 1) == v.FilesAt(base, m) + (if IsFile(e) then [FileOf(e)] else [])
      && |v.SubdirsAt(base, m + 1)| <= |v.SubdirsAt(base, v.Stop(base, 0, 0))|
      && |v.FilesAt(base, m + 1)| <= |v.FilesAt(base, v.Stop(base, 0, 0))|
  {
    hide NameOf, FileOf, IsListed, IsDir, IsFile, IsEnd, v.EntryAt, v.SubdirsAt, v.FilesAt;
    ReadStep(v, base, m);
    v.CountsGrow(base, m + 1, v.Stop(base, m, ends));
  }

  lemma {:induction false} ReadStep(v: Volume, base: nat, m: nat)
    ensures var e := v.EntryAt(base, m);
      && v.SubdirsAt(base, m + 1) == v.SubdirsAt(base, m) + (if IsDir(e) then [Subdir(NameOf(e), ClusterOf(e))] else [])
      && v.FilesAt(base, m + 1) == v.FilesAt(base, m) + (if IsFile(e) then [FileOf(e)] else [])
  {
    hide NameOf, FileOf, IsDir, IsFile;
  }

  /** Reading one more entry, short of the fourth end mark: the entry is well formed and
      there is room for what it adds. */
  lemma {:induction false} ReadOneMore(v: Volume, base: nat, d: Dir, m: nat, ends: nat,
                    found0: seq<Subdir>, rows0: seq<FileRow>, found: seq<Subdir>, rows: seq<FileRow>)
    requires ReadSoFar(v, base, d, m, ends, found0, rows0, found, rows) && m < 64 && ends < 4
    ensures var e := v.EntryAt(base, m);
      && (IsListed(e) ==> IsPadded(e))
      && (IsDir(e) ==> |found| < 454) && (IsFile(e) ==> |rows| < FILE_ROWS)
      && ReadSoFar(v, base, d, m + 1, if IsEnd(e) then ends + 1 else ends, found0, rows0,
           found + (if IsDir(e) then [Subdir(NameOf(e), ClusterOf(e))] else []),
           rows + (if IsFile(e) then RowsOfFiles([FileOf(e)]) else []))
  {
    hide NameOf, FileOf, IsPadded, IsListed, IsDir, IsFile, IsEnd, v.Stores, v.SubdirsAt, v.FilesAt, v.Stop, v.Ends, RowsOfFiles;
    var e := v.EntryAt(base, m);
    StoredCounts(v, base, d);
    EntryCounts(v, base, m, ends);
    RowsAppend(v.FilesAt(base, m), [FileOf(e)]);
    assert found + [Subdir(NameOf(e), ClusterOf(e))] == found0 + (v.SubdirsAt(base, m) + [Subdir(NameOf(e), ClusterOf(e))]);
    assert found + [] == found;
    assert rows + RowsOfFiles([FileOf(e)]) == rows0 + (RowsOfFiles(v.FilesAt(base, m)) + RowsOfFiles([FileOf(e)]));
    assert v.SubdirsAt(base, m) + [] == v.SubdirsAt(base, m) && v.FilesAt(base, m) + [] == v.FilesAt(base, m);
    assert rows + [] == rows;
  }

  lemma ReadNothing(v: Volume, base: nat, d: Dir, found: seq<Subdir>, rows: seq<FileRow>)
    requires v.Stores(base, d) && |found| + |d.subs| <= 454 && |rows| + |d.files| <= FILE_ROWS
    ensures ReadSoFar(v, base, d, 0, 0, found, rows, found, rows)
  {
    hide v.Stores;
    assert found + [] == found;
    assert rows + RowsOfFiles([]) == rows;
  }

  lemma ReadFits(v: Volume, base: nat, d: Dir, m: nat, ends: nat,
                 found0: seq<Subdir>, rows0: seq<FileRow>, found: seq<Subdir>, rows: seq<FileRow>)
    requires ReadSoFar(v, base, d, m, ends, found0, rows0, found, rows)
    ensures |found| <= 454
  {
    hide v.Stores;
    assert m <= v.Stop(base, 0, 0);
    v.CountsGrow(base, m, v.Stop(base, 0, 0));
    StoredCounts(v, base, d);
  }

  lemma StoredCounts(v: Volume, base: nat, d: Dir)
    requires v.Stores(base, d)
    ensures var n := v.Stop(base, 0, 0); |v.SubdirsAt(base, n)| == |d.subs| && v.FilesAt(base, n) == d.files
    ensures forall i :: 0 <= i < v.Stop(base, 0, 0) && IsListed(v.EntryAt(base, i)) ==> IsPadded(v.EntryAt(base, i))
  {}

  /** The fourth end mark comes within the first 64 entries. */
  lemma NotPastTheEnd(v: Volume, base: nat, d: Dir, ends: nat,
                      found0: seq<Subdir>, rows0: seq<FileRow>, found: seq<Subdir>, rows: seq<FileRow>)
    requires ReadSoFar(v, base, d, 64, ends, found0, rows0, found, rows)
    ensures ends == 4
  {}

  lemma {:induction false} SubdirNames(v: Volume, base: nat, m: nat)
    ensures forall i :: 0 <= i < |v.SubdirsAt(base, m)| ==> 1 <= |v.SubdirsAt(base, m)[i].name| <= 8
  {
    if m > 0 { SubdirNames(v, base, m - 1); }
  }

  lemma StoredSubdirs(v: Volume, base: nat, d: Dir)
    requires v.Stores(base, d)
    ensures var ss := v.SubdirsAt(base, v.Stop(base, 0, 0)); AreUsable(ss) && NamesFound(ss) == Names(d.subs)
  {
    SubdirNames(v, base, v.Stop(base, 0, 0));
  }

  /** At the fourth end mark the scan has read what the directory holds. */
  lemma ReadAll(v: Volume, base: nat, d: Dir, m: nat,
                found0: seq<Subdir>, rows0: seq<FileRow>, found: seq<Subdir>, rows: seq<FileRow>)
    requires ReadSoFar(v, base, d, m, 4, found0, rows0, found, rows) && AreUsable(found0)
    ensures found == found0 + v.SubdirsAt(base, v.Stop(base, 0, 0)) && |found| == |found0| + |d.subs|
    ensures AreUsable(found) && NamesFound(found[|found0|..]) == Names(d.subs)
    ensures rows == rows0 + RowsOfFiles(d.files)
  {
    hide v.Stores;
    StoredCounts(v, base, d);
    StoredSubdirs(v, base, d);
    assert found[|found0|..] == v.SubdirsAt(base, m);
  }

  lemma RowsAppend(a: seq<File>, b: seq<File>)
    ensures RowsOfFiles(a + b) == RowsOfFiles(a) + RowsOfFiles(b)
  {}

  lemma LastCluster(a: seq<nat>, found: seq<Subdir>, k: nat)
    requires IsClusterList(a, found) && k <= |found| < |a|
    requires AreUsable(found)
    ensures a[k] == 0 <==> k == |found|
  {}

  lemma TxtIsText(ext: seq<byte>)
    requires |ext| == 3
    ensures Text(ext + [0, 0]) == TXT <==> ext == TXT
    ensures Text(TXT + [0]) == TXT
  {
    TextIs(TXT + [0], TXT);
    if ext == TXT { TextIs(ext + [0, 0], TXT); }
    assert (ext + [0, 0])[..3] == ext;
  }

  /** The walk has listed `done`, is at `queue[0]`, and knows where the rest of the queue is
      stored: from cell `k` of the found directories on. */
  ghost predicate Walking(v: Volume, root: Dir, done: seq<Dir>, queue: seq<Dir>, found: seq<Subdir>, k: nat) {
    && queue != [] && |done| == k <= |found|
    && done + BreadthFirst(queue) == BreadthFirst([root])
    && Located(v, queue[1..], found[k..])
  }

  /** The directories of the queue are stored where the found list says. */
  ghost predicate Located(v: Volume, ds: seq<Dir>, ss: seq<Subdir>) {
    |ds| == |ss| && forall i :: 0 <= i < |ds| ==> IsAt(v, ds[i], ss[i])
  }

  ghost predicate IsAt(v: Volume, d: Dir, s: Subdir) {
    d.name == s.name && v.Stores(v.SectorOf(s.cluster), d)
  }

  lemma SubdirsLocated(v: Volume, base: nat, d: Dir)
    requires v.Stores(base, d)
    ensures Located(v, d.subs, v.SubdirsAt(base, v.Stop(base, 0, 0)))
  {}

  lemma LocatedAppend(v: Volume, ds: seq<Dir>, ss: seq<Subdir>, ds': seq<Dir>, ss': seq<Subdir>)
    requires Located(v, ds, ss) && Located(v, ds', ss')
    ensures Located(v, ds + ds', ss + ss')
  {
    hide IsAt;
  }

  /** Reading `queue[0]` moves it to `done` and puts its subdirectories at the end of the queue. */
  lemma WalkAdvances(v: Volume, root: Dir, done: seq<Dir>, queue: seq<Dir>, found: seq<Subdir>, k: nat, base: nat)
    requires Walking(v, root, done, queue, found, k) && v.Stores(base, queue[0])
    ensures var found' := found + v.SubdirsAt(base, v.Stop(base, 0, 0));
      && Located(v, Advanced(queue), found'[k..])
      && done + [queue[0]] + BreadthFirst(Advanced(queue)) == BreadthFirst([root])
  {
    hide BreadthFirst, v.Stores, Located;
    var ss := v.SubdirsAt(base, v.Stop(base, 0, 0));
    SubdirsLocated(v, base, queue[0]);
    LocatedAppend(v, queue[1..], found[k..], queue[0].subs, ss);
    assert (found + ss)[k..] == found[k..] + ss;
    QueueStep(queue);
    assert done + ([queue[0]] + BreadthFirst(Advanced(queue))) == done + [queue[0]] + BreadthFirst(Advanced(queue));
  }

  lemma WalkStarts(v: Volume, root: Dir)
    ensures Walking(v, root, [], [root], [], 0)
  {}

  lemma WalkCounts(v: Volume, queue: seq<Dir>, found: seq<Subdir>, k: nat)
    requires queue != [] && k <= |found| && Located(v, queue[1..], found[k..])
    ensures |queue| == |found| - k + 1
  {}

  lemma WalkGoesOn(v: Volume, root: Dir, done: seq<Dir>, queue: seq<Dir>, found: seq<Subdir>, k: nat)
    requires k < |found| && |done| == k + 1 && Located(v, queue, found[k..])
    requires done + BreadthFirst(queue) == BreadthFirst([root])
    ensures Walking(v, root, done, queue, found, k + 1)
    ensures queue[0].name == found[k].name && v.Stores(v.SectorOf(found[k].cluster), queue[0])
  {
    hide BreadthFirst, v.Stores;
    assert found[k..][1..] == found[k + 1..];
    assert IsAt(v, queue[0], found[k..][0]);
  }

  lemma WalkEnds(v: Volume, queue: seq<Dir>, ss: seq<Subdir>, done: seq<Dir>)
    requires Located(v, queue, ss) && ss == []
    ensures queue == [] && done + BreadthFirst(queue) == done
  {}

  /** A header, the children and an end mark make a section. */
  lemma SectionDone(done: seq<Dir>, d: Dir)
    ensures InfoRows(done + [d]) ==
      InfoRows(done) + [Cell(d.name, 8), PERCENT] + NamePieces(Names(d.subs)) + [EOD + [0]]
    ensures FileRows(done + [d]) ==
      FileRows(done) + [FileRow(Cell(d.name, 10), 0, 0)] + RowsOfFiles(d.files) + [FileRow(Cell(EOD, 10), 0, 0)]
  {
    hide Cell, NamePieces, Names, RowsOfFiles;
    assert (done + [d])[..|done|] == done;
  }

  /** There is room in the tables for `queue[0]`, and for the header after it if there is one. */
  lemma {:induction false} WalkFits(root: Dir, done: seq<Dir>, queue: seq<Dir>)
    requires queue != [] && done + BreadthFirst(queue) == BreadthFirst([root])
    ensures |done| + 1 + |Advanced(queue)| <= Size(root)
    ensures |InfoRows(done)| + |queue[0].subs| + (if Advanced(queue) != [] then 6 else 3) <= 4 * Size(root) - 1
    ensures |FileRows(done)| + |queue[0].files| + (if Advanced(queue) != [] then 4 else 2) <= 2 * Size(root) + FileCount(root)
  {
    var queue' := Advanced(queue);
    RowCounts([root]);
    RowCounts(queue);
    InfoRowsAppend(done, BreadthFirst(queue));
    FileRowsAppend(done, BreadthFirst(queue));
    RowCounts(queue');
    QueueStep(queue);
    InfoRowsAppend([queue[0]], BreadthFirst(queue'));
    FileRowsAppend([queue[0]], BreadthFirst(queue'));
    OneSection(queue[0]);
  }

  lemma TreeSize(root: Dir)
    ensures |BreadthFirst([root])| == Size(root)
  {
    RowCounts([root]);
  }

  lemma NothingFound(names: seq<byte>, clusters: seq<nat>)
    requires |names| >= 9 && ROOT + [0] <= names && forall i :: 0 <= i < |clusters| ==> clusters[i] == 0
    ensures IsNameList(names, []) && IsClusterList(clusters, [])
  {}

  predicate IsBlank(a: seq<byte>) {
    forall i :: 0 <= i < |a| ==> a[i] == 0
  }

  lemma BlankArray(a: array<byte>)
    requires forall i :: 0 <= i < a.Length ==> a[i] == 0
    ensures IsBlank(a[..])
  {}

  lemma RootFirst(was: seq<byte>, now: seq<byte>)
    requires |was| >= 5 && now == Splice(was, 0, ROOT + [0])
    ensures ROOT + [0] <= now
  {
    assert now[..5] == ROOT + [0];
  }

  lemma ZeroAfter(a: seq<byte>, w: nat, rows: seq<seq<byte>>, p: nat)
    requires IsTable(a, w, rows) && w * |rows| <= p < |a|
    ensures a[p] == 0
  {}

  lemma TextMark(was: seq<byte>, at: nat, name: seq<byte>)
    requires at + 10 <= |was| && |name| <= 8
    ensures Splice(was, at, Cell(name, 8) + [0])[at + 8 := 0x74][at + 9 := 0] == Splice(was, at, FileCell(name, true))
  {}

  lemma FileCellStarts(name: seq<byte>)
    requires |name| <= 8
    ensures Cell(name, 8) + [0] <= FileCell(name, false) && FileCell(name, false)[9] == 0
    ensures |FileCell(name, false)| == 10 == |FileCell(name, true)| && |Cell(name, 8)| == 8
  {}

  /** What the page of the directory table and the one behind it hold before the root is written. */
  function Untouched(n: nat): seq<byte> {
    seq(n, p requires 0 <= p < n => LeftAt(p))
  }

  /** The tables the scan starts with. */
  lemma RootTables(info: seq<byte>, files: seq<byte>)
    requires |info| == |files| == TABLE
    requires info == Splice(Splice(Splice(Zeros(TABLE), 0, ROOT + [0]), 9, PERCENT), 4096, ROOT + [0])
    requires files == Splice(Zeros(TABLE), 0, ROOT + [0])
    ensures IsInfo(info, [Cell(ROOT, 8), PERCENT]) && IsTable(files, 10, [Cell(ROOT, 10)])
  {
    var none := Untouched(TABLE);
    assert info == Splice(Splice(none, 0, Cell(ROOT, 8)), 9, PERCENT);
    AppendInfo(none, [], Cell(ROOT, 8));
    assert [] + [Cell(ROOT, 8)] == [Cell(ROOT, 8)];
    AppendInfo(Splice(none, 0, Cell(ROOT, 8)), [Cell(ROOT, 8)], PERCENT);
    assert [Cell(ROOT, 8)] + [PERCENT] == [Cell(ROOT, 8), PERCENT];
    AppendRow(Zeros(TABLE), 10, [], ROOT + [0], Cell(ROOT, 10));
    assert [] + [Cell(ROOT, 10)] == [Cell(ROOT, 10)];
  }

  class Scanner {
    const volume: Volume
    const maxEntries: nat             // maximum_root_directory_entries
    const directories: array<byte>    // fs_directories, cells of 9
    const filenames: array<byte>      // fs_filenames, cells of 10
    const dirInfo: array<byte>        // fs_filenames_dirinfo, cells of 9
    const dirCluster: array<nat>      // fs_directorylocation_cluster_ptr
    const fileCluster: array<nat>     // fs_filelocation_cluster_ptr
    const fileLength: array<nat>      // fs_filelength
    var rootFileCounter: nat
    var rootDirCounter2: nat
    var rootDirInfoCounter: nat
    var haveReadDirCounter: nat
    var dirClusterCounter: nat
    var dirCounterTemp: nat
    var tempDirPtrCounter: nat
    var haveReadDir: bool
    var noMoreDirectories: bool
    ghost var found: seq<Subdir>
    ghost var infoRows: seq<seq<byte>>
    ghost var fileRows: seq<FileRow>

    /** set_fs_clusters and init_fs_variables. `page` is the page given for
        fs_directories, the one table that is not filled with zeroes. */
    constructor (v: Volume, maxEntries: nat, page: array<byte>)
      requires 4 <= maxEntries <= 512 && page.Length == 4096
      modifies page
      ensures Ready() && volume == v && directories == page
      ensures fresh(filenames) && fresh(dirInfo) && fresh(dirCluster) && fresh(fileCluster) && fresh(fileLength)
      ensures found == [] && tempDirPtrCounter == 0
      ensures infoRows == [Cell(ROOT, 8), PERCENT] && fileRows == [FileRow(Cell(ROOT, 10), 0, 0)]
    {
      volume, this.maxEntries, directories := v, maxEntries, page;
      filenames := new byte[TABLE](_ => 0);
      dirInfo := new byte[TABLE](_ => 0);
      dirCluster := new nat[1024](_ => 0);
      fileCluster := new nat[1024](_ => 0);
      fileLength := new nat[1024](_ => 0);
      rootFileCounter, rootDirCounter2, rootDirInfoCounter, haveReadDirCounter := 0, 0, 1, 0;
      dirClusterCounter, dirCounterTemp, tempDirPtrCounter := 0, 0, 0;
      haveReadDir, noMoreDirectories := false, false;
      found := [];
      infoRows := [Cell(ROOT, 8), PERCENT];
      fileRows := [FileRow(Cell(ROOT, 10), 0, 0)];
      new;
      hide IsTable, IsInfo, Cell;
      BlankArray(filenames);
      BlankArray(dirInfo);
      PutRoots();
      Started();
    }

    /** What the scan starts with is nothing found and the two first headers. */
    lemma Started()
      requires Tables() && found == [] && infoRows == [Cell(ROOT, 8), PERCENT] && fileRows == [FileRow(Cell(ROOT, 10), 0, 0)]
      requires IsInfo(dirInfo[..], infoRows) && IsTable(filenames[..], 10, [Cell(ROOT, 10)]) && ROOT + [0] <= directories[..]
      requires fileCluster[0] == fileLength[0] == 0 && forall i :: 0 <= i < dirCluster.Length ==> dirCluster[i] == 0
      requires rootDirCounter2 == haveReadDirCounter == 0
      ensures Valid()
    {
      hide IsTable, IsInfo, Cell, IsNameList, IsClusterList;
      NothingFound(directories[..], dirCluster[..]);
      assert CellsOf(fileRows) == [Cell(ROOT, 10)];
    }

    /** The first header of each table. */
    method PutRoots()
      requires Tables() && IsBlank(filenames[..]) && IsBlank(dirInfo[..])
      modifies filenames, dirInfo, directories
      ensures IsInfo(dirInfo[..], [Cell(ROOT, 8), PERCENT]) && IsTable(filenames[..], 10, [Cell(ROOT, 10)])
      ensures ROOT + [0] <= directories[..]
    {
      hide IsTable, IsInfo, Cell, Splice;
      assert filenames[..] == Zeros(TABLE) && dirInfo[..] == Zeros(TABLE);
      PutRoot(filenames, 0);
      PutRoot(dirInfo, 0);
      PutPercent(dirInfo, 9);
      PutRoot(dirInfo, 4096);
      ghost var was := directories[..];
      PutRoot(directories, 0);
      RootTables(dirInfo[..], filenames[..]);
      RootFirst(was, directories[..]);
    }

    static method PutRoot(dst: array<byte>, at: nat)
      requires at + 5 <= dst.Length
      modifies dst
      ensures dst[..] == Splice(old(dst[..]), at, ROOT + [0])
    {
      dst[at] := 0x52;
      dst[at + 1] := 0x4f;
      dst[at + 2] := 0x4f;
      dst[at + 3] := 0x54;
      dst[at + 4] := 0;
    }

    ghost predicate Tables() {
      && directories.Length == 4096 && filenames.Length == dirInfo.Length == TABLE
      && dirCluster.Length == fileCluster.Length == fileLength.Length == 1024
      && directories != filenames && directories != dirInfo && filenames != dirInfo
      && dirCluster != fileCluster && dirCluster != fileLength && fileCluster != fileLength
    }

    ghost predicate FoundValid()
      reads this`rootDirCounter2, this`haveReadDirCounter, this`found, directories, dirCluster
    {
      && rootDirCounter2 == haveReadDirCounter == |found|
      && IsNameList(directories[..], found) && IsClusterList(dirCluster[..], found)
    }

    ghost predicate InfoValid()
      reads this`infoRows, dirInfo
    {
      IsInfo(dirInfo[..], infoRows)
    }

    ghost predicate FilesValid()
      reads this`fileRows, filenames, fileCluster, fileLength
    {
      && IsTable(filenames[..], 10, CellsOf(fileRows))
      && |fileRows| <= fileCluster.Length == fileLength.Length
      && forall i :: 0 <= i < |fileRows| ==>
        fileCluster[i] == fileRows[i].cluster && fileLength[i] == fileRows[i].length
    }

    ghost predicate Valid()
      reads this, directories, filenames, dirInfo, dirCluster, fileCluster, fileLength
    {
      Tables() && FoundValid() && InfoValid() && FilesValid()
    }

    /** Lines 353-392: the scan has met a subdirectory. */
    method RecordDirectory(e: Entry, dirClusterCounter2: nat)
      requires Tables() && FoundValid() && IsPadded(e)
      requires dirClusterCounter + dirClusterCounter2 == |found| < 454
      modifies this`haveReadDirCounter, this`haveReadDir, this`rootDirCounter2, this`found, directories, dirCluster
      ensures FoundValid() && haveReadDir && found == old(found) + [Subdir(NameOf(e), ClusterOf(e))]
    {
      hide Cell, NameOf, IsNameCell, IsPadded, IsNameList, IsClusterList;
      ghost var s := Subdir(NameOf(e), ClusterOf(e));
      haveReadDirCounter := haveReadDirCounter + 1;
      haveReadDir := true;
      rootDirCounter2 := rootDirCounter2 + 1;
      ClusterListed(dirCluster[..], found, s);
      dirCluster[dirClusterCounter + dirClusterCounter2] := ClusterOf(e);
      var at := rootDirCounter2 * 9;
      ghost var was := directories[..];
      CellExtends(NameOf(e), 8);
      NameListed(was, found, s, Cell(NameOf(e), 8) + [if NameLength(e, 0) == 8 then 0 else was[at + 8]]);
      CopyName(directories, at, e);
      found := found + [s];
    }

    method WriteFileName(e: Entry)
      requires Tables() && FilesValid() && IsPadded(e) && rootFileCounter == |fileRows| < FILE_ROWS
      modifies filenames
      ensures IsTable(filenames[..], 10, CellsOf(fileRows) + [FileCell(NameOf(e), e[8..11] == TXT)])
    {
      hide IsTable, Cell, FileCell, Splice, NameOf, IsPadded;
      var at := rootFileCounter * 10;
      ghost var was, name := filenames[..], NameOf(e);
      ghost var cell := FileCell(name, e[8..11] == TXT);
      FileCellStarts(name);
      ZeroAfter(was, 10, CellsOf(fileRows), at + 8);
      CopyName(filenames, at, e);
      var fat16TempChar1 := e[8..11] + [0, 0];
      assert fat16TempChar1[3] == 0 && (TXT + [0])[3] == 0;
      TxtIsText(e[8..11]);
      var isText := StrEql(fat16TempChar1, TXT + [0]);
      if isText {
        filenames[at + 8] := 0x74;
        filenames[at + 9] := 0;
        TextMark(was, at, name);
        AppendRow(was, 10, CellsOf(fileRows), cell, cell);
      } else {
        AppendRow(was, 10, CellsOf(fileRows), Cell(name, 8) + [0], cell);
      }
    }

    /** Lines 395-449: the scan has met a file. */
    method RecordFile(e: Entry)
      requires Tables() && FilesValid() && IsPadded(e)
      requires rootFileCounter + 1 == |fileRows| < FILE_ROWS
      modifies this`rootFileCounter, this`fileRows, filenames, fileCluster, fileLength
      ensures FilesValid() && rootFileCounter + 1 == |fileRows|
      ensures fileRows == old(fileRows) + RowsOfFiles([FileOf(e)])
    {
      rootFileCounter := rootFileCounter + 1;
      fileCluster[rootFileCounter] := ClusterOf(e);
      fileLength[rootFileCounter] := LengthOf(e);
      WriteFileName(e);
      AddFileRow(RowsOfFiles([FileOf(e)])[0]);
    }

    ghost method AddFileRow(row: FileRow)
      requires Tables() && rootFileCounter == |fileRows| < 1024
      requires IsTable(filenames[..], 10, CellsOf(fileRows) + [row.cell])
      requires forall i :: 0 <= i < |fileRows| ==>
        fileCluster[i] == fileRows[i].cluster && fileLength[i] == fileRows[i].length
      requires fileCluster[rootFileCounter] == row.cluster && fileLength[rootFileCounter] == row.length
      modifies this`fileRows
      ensures FilesValid() && fileRows == old(fileRows) + [row]
    {
      assert CellsOf(fileRows + [row]) == CellsOf(fileRows) + [row.cell];
      fileRows := fileRows + [row];
    }

    /** The five kinds of row that closing a directory writes. */
    method InfoName(b: nat)
      requires Tables() && FoundValid() && InfoValid()
      requires rootDirInfoCounter == |infoRows| < INFO_ROWS && 1 <= b <= |found|
      modifies this`infoRows, dirInfo
      ensures InfoValid() && infoRows == old(infoRows) + [Cell(found[b - 1].name, 8)]
    {
      hide Cell, IsInfo, Formed;
      ghost var was := dirInfo[..];
      assert IsNameCell(directories[..], b, found[b - 1].name);
      CellExtends(found[b - 1].name, 9);
      CopyCell(dirInfo, rootDirInfoCounter * 9, directories, b * 9);
      AppendInfo(was, infoRows, Cell(found[b - 1].name, 8));
      infoRows := infoRows + [Cell(found[b - 1].name, 8)];
    }

    static lemma EodStarts(w: nat)
      requires w >= 4
      ensures EOD + [0] <= Cell(EOD, w) && |Cell(EOD, w)| == w && forall i :: 4 <= i < w ==> Cell(EOD, w)[i] == 0
    {}

    method InfoEod()
      requires Tables() && InfoValid() && rootDirInfoCounter == |infoRows| < INFO_ROWS
      modifies this`infoRows, dirInfo
      ensures InfoValid() && infoRows == old(infoRows) + [EOD + [0]]
    {
      ghost var was := dirInfo[..];
      PutEod(dirInfo, rootDirInfoCounter * 9);
      AppendInfo(was, infoRows, EOD + [0]);
      infoRows := infoRows + [EOD + [0]];
    }

    method InfoPercent()
      requires Tables() && InfoValid() && rootDirInfoCounter == |infoRows| < INFO_ROWS
      modifies this`infoRows, dirInfo
      ensures InfoValid() && infoRows == old(infoRows) + [PERCENT]
    {
      ghost var was := dirInfo[..];
      PutPercent(dirInfo, rootDirInfoCounter * 9);
      AppendInfo(was, infoRows, PERCENT);
      infoRows := infoRows + [PERCENT];
    }

    method FileHeader(b: nat)
      requires Tables() && FoundValid() && FilesValid()
      requires rootFileCounter == |fileRows| < FILE_ROWS && 1 <= b <= |found|
      modifies this`fileRows, filenames, fileCluster, fileLength
      ensures FilesValid() && fileRows == old(fileRows) + [FileRow(Cell(found[b - 1].name, 10), 0, 0)]
    {
      hide Cell, Splice, IsTable, IsClusterList;
      ghost var was, name := filenames[..], found[b - 1].name;
      assert IsNameCell(directories[..], b, name);
      CellExtends(name, 8);
      CellExtends(name, 10);
      CopyCell(filenames, rootFileCounter * 10, directories, b * 9);
      AppendRow(was, 10, CellsOf(fileRows), Cell(name, 8), Cell(name, 10));
      fileCluster[rootFileCounter] := 0;
      fileLength[rootFileCounter] := 0;
      AddFileRow(FileRow(Cell(name, 10), 0, 0));
    }

    method FileEod()
      requires Tables() && FilesValid() && rootFileCounter == |fileRows| < FILE_ROWS
      modifies this`fileRows, filenames, fileCluster, fileLength
      ensures FilesValid() && fileRows == old(fileRows) + [FileRow(Cell(EOD, 10), 0, 0)]
    {
      hide Splice, IsTable;
      ghost var was := filenames[..];
      EodStarts(10);
      PutEod(filenames, rootFileCounter * 10);
      AppendRow(was, 10, CellsOf(fileRows), EOD + [0], Cell(EOD, 10));
      fileCluster[rootFileCounter] := 0;
      fileLength[rootFileCounter] := 0;
      AddFileRow(FileRow(Cell(EOD, 10), 0, 0));
    }

    /** The names and the end mark of a directory just read (lines 488-516). */
    method PutChildren(haveReadDirCounter2: nat)
      requires Valid() && rootDirInfoCounter + 1 == |infoRows| && rootFileCounter + 1 == |fileRows| < FILE_ROWS
      requires haveReadDirCounter2 <= |found| && (haveReadDir <==> haveReadDirCounter2 < |found|)
      requires |infoRows| + |found| - haveReadDirCounter2 + 1 <= INFO_ROWS
      modifies this`rootFileCounter, this`rootDirInfoCounter, this`infoRows, this`fileRows
      modifies dirInfo, filenames, fileCluster, fileLength
      ensures Valid() && rootDirInfoCounter == |infoRows| && rootFileCounter + 1 == |fileRows|
      ensures infoRows == old(infoRows) + NamePieces(NamesFound(found[haveReadDirCounter2..])) + [EOD + [0]]
      ensures fileRows == old(fileRows) + [FileRow(Cell(EOD, 10), 0, 0)]
    {
      hide IsTable, IsInfo, IsNameList, IsClusterList;
      rootFileCounter := rootFileCounter + 1;
      rootDirInfoCounter := rootDirInfoCounter + 1;
      ghost var names := NamePieces(NamesFound(found[haveReadDirCounter2..]));
      if haveReadDir {
        var b := haveReadDirCounter2 + 1;
        while b <= haveReadDirCounter
          invariant haveReadDirCounter2 < b <= haveReadDirCounter + 1
          invariant InfoValid() && rootDirInfoCounter == |infoRows| == |old(infoRows)| + b - haveReadDirCounter2 - 1
          invariant infoRows == old(infoRows) + names[..b - haveReadDirCounter2 - 1]
          modifies this`rootDirInfoCounter, this`infoRows, dirInfo
        {
          InfoName(b);
          assert names[b - haveReadDirCounter2 - 1] == Cell(found[b - 1].name, 8);
          rootDirInfoCounter := rootDirInfoCounter + 1;
          b := b + 1;
        }
      }
      assert infoRows == old(infoRows) + names;
      InfoEod();
      rootDirInfoCounter := rootDirInfoCounter + 1;
      FileEod();
    }

    /** The header of the next directory of the queue in both tables. */
    method PutHeader()
      requires Valid() && rootDirInfoCounter == |infoRows| <= INFO_ROWS - 2 && rootFileCounter == |fileRows| < FILE_ROWS
      requires 1 <= dirCounterTemp <= |found|
      modifies this`rootDirInfoCounter, this`infoRows, this`fileRows, dirInfo, filenames, fileCluster, fileLength
      ensures Valid() && rootDirInfoCounter + 1 == |infoRows|
      ensures var name := found[dirCounterTemp - 1].name;
        && infoRows == old(infoRows) + [Cell(name, 8), PERCENT]
        && fileRows == old(fileRows) + [FileRow(Cell(name, 10), 0, 0)]
    {
      FileHeader(dirCounterTemp);
      InfoName(dirCounterTemp);
      rootDirInfoCounter := rootDirInfoCounter + 1;
      InfoPercent();
    }

    /** Lines 529-533: the search for a name that is not empty, which never moves far. */
    method SkipEmptyNames() returns (tempDirPtrCounter2: nat)
      requires Valid() && tempDirPtrCounter <= |found| < 454
      requires AreUsable(found)
      ensures tempDirPtrCounter2 == tempDirPtrCounter || tempDirPtrCounter2 == 1
    {
      hide IsTable, IsInfo;
      tempDirPtrCounter2 := tempDirPtrCounter;
      while tempDirPtrCounter2 != 456
        invariant tempDirPtrCounter2 == tempDirPtrCounter || tempDirPtrCounter2 == 1
        decreases 456 - tempDirPtrCounter2
      {
        var name := if tempDirPtrCounter2 == 0 then filenames[TABLE - 9] else directories[(tempDirPtrCounter2 - 1) * 9];
        if name != 0 { break; }
        if tempDirPtrCounter2 > 0 { FirstByte(tempDirPtrCounter2); }
        tempDirPtrCounter2 := tempDirPtrCounter2 + 1;
      }
    }

    /** Lines 525-548: whether the queue has come to its end. */
    method QueueEnds() returns (ends: bool)
      requires Valid() && tempDirPtrCounter <= |found| < 454 && AreUsable(found)
      modifies this`noMoreDirectories
      ensures ends <==> tempDirPtrCounter == |found|
      ensures noMoreDirectories == (old(noMoreDirectories) || ends)
    {
      hide IsTable, IsInfo, IsNameList, IsClusterList, AreUsable;
      LastCluster(dirCluster[..], found, tempDirPtrCounter);
      var tempDirPtrCounter2 := SkipEmptyNames();
      assert tempDirPtrCounter2 < 455;
      if dirCluster[tempDirPtrCounter] == 0 {
        noMoreDirectories := true;
        return true;
      }
      ends := false;
    }

    /** Lines 465-606: after the fourth end mark. `haveReadDirCounter2` and
        `dirClusterCounter2` tell what this directory added to the counters. Returns
        where the cluster of the next directory is kept, if there is one. */
    method CloseDirectory(haveReadDirCounter2: nat, dirClusterCounter2: nat) returns (more: bool, ptr: nat)
      requires Valid() && rootDirInfoCounter + 1 == |infoRows| && rootFileCounter + 1 == |fileRows|
      requires haveReadDirCounter2 + dirClusterCounter2 == |found| < 454 && (haveReadDir <==> dirClusterCounter2 > 0)
      requires dirClusterCounter == haveReadDirCounter2
      requires |infoRows| + dirClusterCounter2 + (if tempDirPtrCounter < |found| then 3 else 1) <= INFO_ROWS
      requires |fileRows| + (if tempDirPtrCounter < |found| then 2 else 1) <= FILE_ROWS
      requires tempDirPtrCounter == dirCounterTemp <= haveReadDirCounter2
      requires AreUsable(found)
      modifies this, dirInfo, filenames, fileCluster, fileLength
      ensures Valid() && found == old(found) && !haveReadDir
      ensures tempDirPtrCounter == ptr == old(tempDirPtrCounter) && dirCounterTemp == ptr + 1
      ensures dirClusterCounter == |found|
      ensures more <==> ptr < |found|
      ensures noMoreDirectories == (old(noMoreDirectories) || !more)
      ensures more ==> rootDirInfoCounter + 1 == |infoRows| && rootFileCounter + 1 == |fileRows|
      ensures infoRows == old(infoRows) + NamePieces(NamesFound(found[haveReadDirCounter2..])) + [EOD + [0]]
        + if more then [Cell(found[ptr].name, 8), PERCENT] else []
      ensures fileRows == old(fileRows) + [FileRow(Cell(EOD, 10), 0, 0)]
        + if more then [FileRow(Cell(found[ptr].name, 10), 0, 0)] else []
    {
      hide IsTable, IsInfo, IsNameList, IsClusterList, NamesFound, Cell, NamePieces, AreUsable, InfoValid, FilesValid;
      ptr := tempDirPtrCounter;
      dirCounterTemp := dirCounterTemp + 1;
      PutChildren(haveReadDirCounter2);
      dirClusterCounter := dirClusterCounter + dirClusterCounter2;
      rootFileCounter := rootFileCounter + 1;
      more := OpenNext();
    }

    /** Lines 524-606: the header of the next directory, if the queue has one. */
    method OpenNext() returns (more: bool)
      requires Valid() && rootDirInfoCounter == |infoRows| && rootFileCounter == |fileRows|
      requires |found| < 454 && tempDirPtrCounter + 1 == dirCounterTemp <= |found| + 1 && AreUsable(found)
      requires haveReadDir ==> tempDirPtrCounter < |found|
      requires tempDirPtrCounter < |found| ==> |infoRows| <= INFO_ROWS - 2 && |fileRows| < FILE_ROWS
      modifies this`rootDirInfoCounter, this`haveReadDir, this`noMoreDirectories, this`infoRows, this`fileRows
      modifies dirInfo, filenames, fileCluster, fileLength
      ensures Valid() && !haveReadDir
      ensures more <==> tempDirPtrCounter < |found|
      ensures noMoreDirectories == (old(noMoreDirectories) || !more)
      ensures more ==> rootDirInfoCounter + 1 == |infoRows| && rootFileCounter + 1 == |fileRows|
      ensures infoRows == old(infoRows) + if more then [Cell(found[tempDirPtrCounter].name, 8), PERCENT] else []
      ensures fileRows == old(fileRows) + if more then [FileRow(Cell(found[tempDirPtrCounter].name, 10), 0, 0)] else []
    {
      hide IsTable, IsInfo, IsNameList, IsClusterList, Cell, AreUsable, InfoValid, FilesValid;
      if !haveReadDir {
        var ends := QueueEnds();
        if ends { return false; }
      }
      PutHeader();
      haveReadDir := false;
      more := true;
    }

    lemma FirstByte(b: nat)
      requires Tables() && IsNameList(directories[..], found) && 1 <= b <= |found| + 1
      requires AreUsable(found)
      ensures directories[(b - 1) * 9] != 0
    {
      if b > 1 {
        var name := found[b - 2].name;
        assert IsNameCell(directories[..], b - 1, name);
        assert directories[..][9 * (b - 1)..9 * (b - 1) + 8][0] == Cell(name, 8)[0] == name[0];
      } else {
        assert directories[..][0] == ROOT[0];
      }
    }

    /** Between two directories: the queue of found directories is at `tempDirPtrCounter`,
        and both tables end in the header of the directory to be scanned. */
    ghost predicate Ready()
      reads this, directories, filenames, dirInfo, dirCluster, fileCluster, fileLength
    {
      && Valid() && 4 <= maxEntries <= 512
      && rootDirInfoCounter + 1 == |infoRows| && rootFileCounter + 1 == |fileRows|
      && dirClusterCounter == |found| && tempDirPtrCounter == dirCounterTemp <= |found|
      && !haveReadDir && !noMoreDirectories
      && AreUsable(found)
    }

    /** Lines 342-462 for one entry. */
    method ScanEntry(e: Entry, dirClusterCounter2: nat) returns (counter2: nat)
      requires Valid() && (IsListed(e) ==> IsPadded(e))
      requires dirClusterCounter + dirClusterCounter2 == |found|
      requires IsDir(e) ==> |found| < 454
      requires rootFileCounter + 1 == |fileRows| && (IsFile(e) ==> |fileRows| < FILE_ROWS)
      modifies this`haveReadDirCounter, this`haveReadDir, this`rootDirCounter2, this`found, directories, dirCluster
      modifies this`rootFileCounter, this`fileRows, filenames, fileCluster, fileLength
      ensures Valid() && rootFileCounter + 1 == |fileRows|
      ensures found == old(found) + if IsDir(e) then [Subdir(NameOf(e), ClusterOf(e))] else []
      ensures fileRows == old(fileRows) + if IsFile(e) then RowsOfFiles([FileOf(e)]) else []
      ensures haveReadDir == (old(haveReadDir) || IsDir(e))
      ensures counter2 == dirClusterCounter2 + if IsDir(e) then 1 else 0
    {
      hide IsTable, IsInfo, IsNameList, IsClusterList, NameOf;
      counter2 := dirClusterCounter2;
      if e[0] != 0 && e[0] != 0x20 && e[0] != 0x2e && (e[11] / 32 % 2 == 1 || e[11] / 16 % 2 == 1) {
        if e[11] / 16 % 2 == 1 {
          RecordDirectory(e, dirClusterCounter2);
          counter2 := dirClusterCounter2 + 1;
        } else if e[11] / 32 % 2 == 1 {
          RecordFile(e);
        }
      }
    }

    ghost predicate Reading(base: nat, d: Dir, m: nat, ends: nat, counter2: nat, found0: seq<Subdir>, rows0: seq<FileRow>)
      reads this, directories, filenames, dirInfo, dirCluster, fileCluster, fileLength
    {
      && Valid() && rootFileCounter + 1 == |fileRows|
      && |found0| <= |found| && dirClusterCounter == |found0| && counter2 == |found| - |found0|
      && (haveReadDir <==> counter2 > 0)
      && ReadSoFar(volume, base, d, m, ends, found0, rows0, found, fileRows)
    }

    /** Lines 331-462: one sector of a directory. */
    method ScanSector(base: nat, sector: nat, ends0: nat, counter0: nat, ghost d: Dir,
                      ghost found0: seq<Subdir>, ghost rows0: seq<FileRow>)
      returns (rootDirectoryEnd: nat, rootDirCounter: nat, counter2: nat)
      requires sector < 4 && ends0 < 4 && Reading(base, d, 16 * sector, ends0, counter0, found0, rows0)
      modifies this`haveReadDirCounter, this`haveReadDir, this`rootDirCounter2, this`found, directories, dirCluster
      modifies this`rootFileCounter, this`fileRows, filenames, fileCluster, fileLength
      ensures rootDirCounter <= 16 && rootDirectoryEnd <= 4 && (rootDirectoryEnd == 4 || rootDirCounter == 16)
      ensures rootDirCounter2 < 455
      ensures Reading(base, d, 16 * sector + rootDirCounter, rootDirectoryEnd, counter2, found0, rows0)
    {
      hide IsTable, IsInfo, IsNameList, IsClusterList, IsListed, IsDir, IsFile, IsPadded, ReadSoFar, FileOf, NameOf;
      rootDirectoryEnd, rootDirCounter, counter2 := ends0, 0, counter0;
      ReadFits(volume, base, d, 16 * sector, ends0, found0, rows0, found, fileRows);
      while rootDirectoryEnd < 4 && rootDirCounter < 16 && rootDirCounter2 < 455
        invariant rootDirCounter <= 16 && rootDirectoryEnd <= 4 && rootDirCounter2 < 455
        invariant Reading(base, d, 16 * sector + rootDirCounter, rootDirectoryEnd, counter2, found0, rows0)
        decreases 16 - rootDirCounter
      {
        var e := volume.disk(base + sector)[rootDirCounter];
        assert e == volume.EntryAt(base, 16 * sector + rootDirCounter);
        ReadOneMore(volume, base, d, 16 * sector + rootDirCounter, rootDirectoryEnd, found0, rows0, found, fileRows);
        counter2 := ScanEntry(e, counter2);
        if e[0] == 0 {
          rootDirectoryEnd := rootDirectoryEnd + 1;
        }
        rootDirCounter := rootDirCounter + 1;
        ReadFits(volume, base, d, 16 * sector + rootDirCounter, rootDirectoryEnd, found0, rows0, found, fileRows);
      }
    }

    /** Lines 325-462: all sectors of the directory `d`. */
    method ReadDirectory(base: nat, ghost d: Dir) returns (counter2: nat)
      requires Ready() && volume.Stores(base, d)
      requires |found| + |d.subs| < 454 && |fileRows| + |d.files| < FILE_ROWS
      modifies this`haveReadDirCounter, this`haveReadDir, this`rootDirCounter2, this`found, directories, dirCluster
      modifies this`rootFileCounter, this`fileRows, filenames, fileCluster, fileLength
      ensures Valid() && rootFileCounter + 1 == |fileRows| && AreUsable(found)
      ensures counter2 == |found| - |old(found)| == |d.subs| && (haveReadDir <==> counter2 > 0)
      ensures found == old(found) + volume.SubdirsAt(base, volume.Stop(base, 0, 0))
      ensures NamesFound(found[|old(found)|..]) == Names(d.subs)
      ensures fileRows == old(fileRows) + RowsOfFiles(d.files)
    {
      hide IsTable, IsInfo, IsNameList, IsClusterList, ReadSoFar, AreUsable, volume.Stores, NamesFound, Names, RowsOfFiles;
      ghost var found0, rows0 := found, fileRows;
      var directoryEntries, dataArea := maxEntries, base;
      var rootDirectoryEnd, sectorRead := 0, 0;
      counter2 := 0;
      ReadNothing(volume, base, d, found0, rows0);
      while rootDirectoryEnd < 4 && directoryEntries > 0 && rootDirCounter2 < 455
        invariant sectorRead < 4 && dataArea == base + sectorRead && directoryEntries == maxEntries - sectorRead
        invariant rootDirCounter2 < 455 && rootDirectoryEnd < 4
        invariant Reading(base, d, 16 * sectorRead, rootDirectoryEnd, counter2, found0, rows0)
        decreases directoryEntries
      {
        var rootDirCounter;
        rootDirectoryEnd, rootDirCounter, counter2 := ScanSector(base, sectorRead, rootDirectoryEnd, counter2, d, found0, rows0);
        if rootDirectoryEnd > 3 {
          ReadAll(volume, base, d, 16 * sectorRead + rootDirCounter, found0, rows0, found, fileRows);
          return;
        }
        directoryEntries := directoryEntries - 1;
        if rootDirCounter > 15 {
          dataArea := dataArea + 1;
          sectorRead := sectorRead + 1;
        }
        if sectorRead == 4 {
          NotPastTheEnd(volume, base, d, rootDirectoryEnd, found0, rows0, found, fileRows);
          assert false;
        }
      }
      assert false;
    }

    /** scan_directories, on the directory `d`. */
    method ScanDirectories(cluster: nat, ghost d: Dir) returns (more: bool, ptr: nat)
      requires Ready() && volume.Stores(volume.SectorOf(cluster), d)
      requires |found| + |d.subs| < 454
      requires |infoRows| + |d.subs| + (if tempDirPtrCounter < |found| + |d.subs| then 3 else 1) <= INFO_ROWS
      requires |fileRows| + |d.files| + (if tempDirPtrCounter < |found| + |d.subs| then 2 else 1) <= FILE_ROWS
      modifies this, directories, filenames, dirInfo, dirCluster, fileCluster, fileLength
      ensures Valid() && !haveReadDir && AreUsable(found)
      ensures tempDirPtrCounter == ptr == old(tempDirPtrCounter) && dirCounterTemp == ptr + 1 && dirClusterCounter == |found|
      ensures found == old(found) + volume.SubdirsAt(volume.SectorOf(cluster), volume.Stop(volume.SectorOf(cluster), 0, 0))
      ensures |found| == |old(found)| + |d.subs|
      ensures (more <==> ptr < |found|) && noMoreDirectories == !more
      ensures more ==> rootDirInfoCounter + 1 == |infoRows| && rootFileCounter + 1 == |fileRows|
      ensures infoRows == old(infoRows) + NamePieces(Names(d.subs)) + [EOD + [0]]
        + if more then [Cell(found[ptr].name, 8), PERCENT] else []
      ensures fileRows == old(fileRows) + RowsOfFiles(d.files) + [FileRow(Cell(EOD, 10), 0, 0)]
        + if more then [FileRow(Cell(found[ptr].name, 10), 0, 0)] else []
    {
      hide IsTable, IsInfo, IsNameList, IsClusterList, AreUsable, volume.Stores, NamePieces, NamesFound, Names, RowsOfFiles, Cell;
      var haveReadDirCounter2 := haveReadDirCounter;
      var counter2 := ReadDirectory(volume.SectorOf(cluster), d);
      more, ptr := CloseDirectory(haveReadDirCounter2, counter2);
    }

    /** The tables hold the sections of the directories `ds`. */
    ghost predicate Indexes(ds: seq<Dir>)
      reads this, directories, filenames, dirInfo, dirCluster, fileCluster, fileLength
    {
      Valid() && infoRows == InfoRows(ds) && fileRows == FileRows(ds)
    }

    /** Everything before `next` is indexed, and the headers of `next` are written. */
    ghost predicate IndexesUpTo(done: seq<Dir>, next: Dir)
      reads this, directories, filenames, dirInfo, dirCluster, fileCluster, fileLength
    {
      && Ready()
      && infoRows == InfoRows(done) + [Cell(next.name, 8), PERCENT]
      && fileRows == FileRows(done) + [FileRow(Cell(next.name, 10), 0, 0)]
    }

    /** scan_directories and the count of it: the section of `d` is complete, and the
        headers of the next directory of the queue follow if there is one. */
    method ScanOne(cluster: nat, ghost done: seq<Dir>, ghost d: Dir) returns (more: bool, ptr: nat)
      requires IndexesUpTo(done, d) && volume.Stores(volume.SectorOf(cluster), d)
      requires |found| + |d.subs| < 454
      requires |infoRows| + |d.subs| + (if tempDirPtrCounter < |found| + |d.subs| then 3 else 1) <= INFO_ROWS
      requires |fileRows| + |d.files| + (if tempDirPtrCounter < |found| + |d.subs| then 2 else 1) <= FILE_ROWS
      modifies this, directories, filenames, dirInfo, dirCluster, fileCluster, fileLength
      ensures ptr == old(tempDirPtrCounter) && tempDirPtrCounter == ptr + 1
      ensures found == old(found) + volume.SubdirsAt(volume.SectorOf(cluster), volume.Stop(volume.SectorOf(cluster), 0, 0))
      ensures (more <==> ptr < |found|) && noMoreDirectories == !more
      ensures !more ==> Indexes(done + [d])
      ensures more ==> forall next: Dir :: next.name == found[ptr].name ==> IndexesUpTo(done + [d], next)
    {
      hide IsTable, IsInfo, IsNameList, IsClusterList, AreUsable, volume.Stores, Cell, InfoRows, FileRows;
      hide NamePieces, RowsOfFiles, Names, volume.SubdirsAt, volume.Stop;
      SectionDone(done, d);
      more, ptr := ScanDirectories(cluster, d);
      tempDirPtrCounter := tempDirPtrCounter + 1;
    }

    /** One turn of the loop of scan_all_directories. */
    method ScanNext(cluster: nat, ghost root: Dir, ghost done: seq<Dir>, ghost queue: seq<Dir>) returns (next: nat)
      requires Walking(volume, root, done, queue, found, tempDirPtrCounter)
      requires IndexesUpTo(done, queue[0]) && volume.Stores(volume.SectorOf(cluster), queue[0])
      requires 4 * Size(root) - 1 <= INFO_ROWS && 2 * Size(root) + FileCount(root) <= FILE_ROWS
      modifies this, directories, filenames, dirInfo, dirCluster, fileCluster, fileLength
      ensures noMoreDirectories ==> Indexes(BreadthFirst([root])) && tempDirPtrCounter == |BreadthFirst([root])|
      ensures !noMoreDirectories ==>
        && Walking(volume, root, done + [queue[0]], Advanced(queue), found, tempDirPtrCounter)
        && IndexesUpTo(done + [queue[0]], Advanced(queue)[0])
        && volume.Stores(volume.SectorOf(next), Advanced(queue)[0])
    {
      hide IsTable, IsInfo, IsNameList, AreUsable, volume.Stores, Located, Cell, InfoRows, FileRows, BreadthFirst, Indexes;
      hide Size, FileCount;
      ghost var d := queue[0];
      WalkFits(root, done, queue);
      WalkAdvances(volume, root, done, queue, found, tempDirPtrCounter, volume.SectorOf(cluster));
      WalkCounts(volume, queue, found, tempDirPtrCounter);
      var more, ptr := ScanOne(cluster, done, d);
      if more {
        next := dirCluster[ptr];
        WalkGoesOn(volume, root, done + [d], Advanced(queue), found, ptr);
      } else {
        next := 0;
        WalkEnds(volume, Advanced(queue), found[ptr..], done + [d]);
      }
    }

    /** scan_all_directories: for every directory tree stored on the volume that the tables
        have room for, the tables end up holding its directories level by level. */
    method ScanAllDirectories(ghost root: Dir)
      requires volume.Stores(volume.SectorOf(0), root) && root.name == ROOT
      requires IndexesUpTo([], root) && found == [] && tempDirPtrCounter == 0
      requires 4 * (Size(root) - 1) + 3 <= INFO_ROWS && 2 * Size(root) + FileCount(root) <= FILE_ROWS
      modifies this, directories, filenames, dirInfo, dirCluster, fileCluster, fileLength
      ensures Indexes(Levels([root])) && noMoreDirectories && tempDirPtrCounter == Size(root)
    {
      hide IsTable, IsInfo, IsNameList, IsClusterList, AreUsable, volume.Stores, Located, Cell, InfoRows, FileRows, BreadthFirst;
      hide Size, FileCount, Levels, Indexes;
      ghost var done: seq<Dir>, queue := [], [root];
      var cluster := 0;
      WalkStarts(volume, root);
      BreadthFirstIsByLevels([root]);
      TreeSize(root);
      while !noMoreDirectories
        invariant !noMoreDirectories ==>
          && Walking(volume, root, done, queue, found, tempDirPtrCounter)
          && IndexesUpTo(done, queue[0]) && volume.Stores(volume.SectorOf(cluster), queue[0])
        invariant noMoreDirectories ==> Indexes(BreadthFirst([root])) && tempDirPtrCounter == |BreadthFirst([root])|
        decreases Size(root) - |done|, !noMoreDirectories
      {
        WalkFits(root, done, queue);
        cluster := ScanNext(cluster, root, done, queue);
        done, queue := done + [queue[0]], Advanced(queue);
      }
    }
  }
  /** From the start variables to the complete index: for every volume that stores a tree the
      tables have room for. */
  method ScanVolume(volume: Volume, maxEntries: nat, page: array<byte>, ghost root: Dir) returns (scan: Scanner)
    requires 4 <= maxEntries <= 512 && page.Length == 4096
    requires volume.Stores(volume.SectorOf(0), root) && root.name == ROOT
    requires 4 * (Size(root) - 1) + 3 <= INFO_ROWS && 2 * Size(root) + FileCount(root) <= FILE_ROWS
    modifies page
    ensures scan.Indexes(Levels([root])) && scan.noMoreDirectories && scan.tempDirPtrCounter == Size(root)
    ensures fresh(scan) && scan.directories == page
    ensures fresh({scan.filenames, scan.dirInfo}) && fresh({scan.dirCluster, scan.fileCluster, scan.fileLength})
  {
    hide Cell, Scanner.Indexes, Levels, Size, FileCount, volume.Stores;
    scan := new Scanner(volume, maxEntries, page);
    assert scan.infoRows == InfoRows([]) + [Cell(ROOT, 8), PERCENT];
    assert scan.fileRows == FileRows([]) + [FileRow(Cell(ROOT, 10), 0, 0)];
    scan.ScanAllDirectories(root);
  }
}
