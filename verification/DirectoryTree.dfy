/** The directory tree of a FAT16 volume, the 32-byte entries that store it (Microsoft "FAT:
    General Overview of On-Disk Format" 1.03, section "FAT Directory Structure"), and its
    flattening into rows of cells. */
module DirectoryTree {
  import opened CString

  // ---- the tree ----

  datatype File = File(name: seq<byte>, text: bool, cluster: nat, length: nat)
  datatype Dir = Dir(name: seq<byte>, files: seq<File>, subs: seq<Dir>)

  function Size(d: Dir): (n: nat)
    ensures n > 0
    decreases d
  {
    1 + Sizes(d.subs)
  }

  function Sizes(ds: seq<Dir>): (n: nat)
    ensures n >= |ds|
    decreases ds
  {
    if ds == [] then 0 else Size(ds[0]) + Sizes(ds[1..])
  }

  lemma {:induction false} SizesAppend(a: seq<Dir>, b: seq<Dir>)
    ensures Sizes(a + b) == Sizes(a) + Sizes(b)
    decreases a
  {
    if a == [] {
      assert a + b == b;
    } else {
      SizesAppend(a[1..], b);
      assert (a + b)[1..] == a[1..] + b;
    }
  }

  /** All directories below and in `queue`, breadth first. */
  function BreadthFirst(queue: seq<Dir>): seq<Dir>
    decreases Sizes(queue)
  {
    if queue == [] then [] else
      SizesAppend(queue[1..], queue[0].subs);
      assert Sizes(queue) == 1 + Sizes(queue[0].subs) + Sizes(queue[1..]);
      [queue[0]] + BreadthFirst(queue[1..] + queue[0].subs)
  }

  function Children(ds: seq<Dir>): seq<Dir> {
    if ds == [] then [] else ds[0].subs + Children(ds[1..])
  }

  lemma {:induction false} SizesOfChildren(ds: seq<Dir>)
    ensures Sizes(ds) == |ds| + Sizes(Children(ds))
  {
    if ds != [] {
      SizesOfChildren(ds[1..]);
      SizesAppend(ds[0].subs, Children(ds[1..]));
    }
  }

  /** The directories level by level: `ds`, then all their children, and so on. */
  function Levels(ds: seq<Dir>): seq<Dir>
    decreases Sizes(ds)
  {
    if ds == [] then [] else
      SizesOfChildren(ds);
      ds + Levels(Children(ds))
  }

  /** The queue after its head is served. */
  function Advanced(queue: seq<Dir>): seq<Dir>
    requires queue != []
  {
    queue[1..] + queue[0].subs
  }

  lemma {:induction false} QueueStep(queue: seq<Dir>)
    requires queue != []
    ensures BreadthFirst(queue) == [queue[0]] + BreadthFirst(Advanced(queue))
  {}

  lemma ChildrenStep(ds: seq<Dir>)
    requires ds != []
    ensures Children(ds) == ds[0].subs + Children(ds[1..])
  {}

  lemma Regroup<T>(a: seq<T>, b: seq<T>, c: seq<T>, tail: seq<T>)
    requires a != []
    ensures (a + b)[0] == a[0] && (a + b)[1..] + c == a[1..] + (b + c)
    ensures [a[0]] + (a[1..] + tail) == a + tail
    ensures b + c + tail == b + (c + tail)
  {}

  lemma {:induction false} QueueAdvances(a: seq<Dir>, b: seq<Dir>)
    ensures BreadthFirst(a + b) == a + BreadthFirst(b + Children(a))
    decreases a
  {
    if a == [] {
      assert Children(a) == [];
      hide BreadthFirst, Children;
      assert a + b == b && b + Children(a) == b;
      assert a + BreadthFirst(b) == BreadthFirst(b);
    } else {
      hide BreadthFirst, Children, Sizes;
      QueueStep(a + b);
      ChildrenStep(a);
      Regroup(a, b, a[0].subs, BreadthFirst(b + Children(a)));
      Regroup(a, b, a[0].subs, Children(a[1..]));
      QueueAdvances(a[1..], b + a[0].subs);
    }
  }

  /** The queue order is the level order. */
  lemma {:induction false} BreadthFirstIsByLevels(ds: seq<Dir>)
    ensures BreadthFirst(ds) == Levels(ds)
    decreases Sizes(ds)
  {
    if ds != [] {
      SizesOfChildren(ds);
      QueueAdvances(ds, []);
      assert ds + [] == ds && [] + Children(ds) == Children(ds);
      BreadthFirstIsByLevels(Children(ds));
    }
  }

  // ---- rows ----

  const ROOT: seq<byte> := [0x52, 0x4f, 0x4f, 0x54]
  const PERCENT: seq<byte> := [0x25]
  const EOD: seq<byte> := [0x65, 0x6f, 0x64]
  const TXT: seq<byte> := [0x54, 0x58, 0x54]

  function Zeros(n: nat): seq<byte> {
    seq(n, _ => 0)
  }

  /** `text` in a cell of `w` bytes. */
  function Cell(text: seq<byte>, w: nat): seq<byte> {
    if |text| <= w then text + Zeros(w - |text|) else text[..w]
  }

  /** One row of the file table with its entries in the two tables beside it. */
  datatype FileRow = FileRow(cell: seq<byte>, cluster: nat, length: nat)

  function FileCell(name: seq<byte>, text: bool): seq<byte> {
    Cell(name, 8) + [if text then 0x74 else 0, 0]
  }

  function NameRows(names: seq<seq<byte>>): (rows: seq<seq<byte>>)
    ensures |rows| == |names|
  {
    seq(|names|, i requires 0 <= i < |names| => Cell(names[i], 9))
  }

  function Names(ds: seq<Dir>): (names: seq<seq<byte>>)
    ensures |names| == |ds|
  {
    seq(|ds|, i requires 0 <= i < |ds| => ds[i].name)
  }

  /** What is written for names in the directory table: eight bytes of each cell of nine. */
  function NamePieces(names: seq<seq<byte>>): (pieces: seq<seq<byte>>)
    ensures |pieces| == |names|
  {
    seq(|names|, i requires 0 <= i < |names| => Cell(names[i], 8))
  }

  /** What is written to the directory table for one directory, row by row: its name, one byte
      for the mark, its children, and four bytes for the end mark. */
  function InfoSection(d: Dir): seq<seq<byte>> {
    [Cell(d.name, 8), PERCENT] + NamePieces(Names(d.subs)) + [EOD + [0]]
  }

  function InfoRows(ds: seq<Dir>): seq<seq<byte>> {
    if ds == [] then [] else InfoRows(ds[..|ds| - 1]) + InfoSection(ds[|ds| - 1])
  }

  function RowsOfFiles(fs: seq<File>): (rows: seq<FileRow>)
    ensures |rows| == |fs|
  {
    seq(|fs|, i requires 0 <= i < |fs| => FileRow(FileCell(fs[i].name, fs[i].text), fs[i].cluster, fs[i].length))
  }

  /** What the file table holds for one directory: its name and its files. */
  function FileSection(d: Dir): seq<FileRow> {
    [FileRow(Cell(d.name, 10), 0, 0)] + RowsOfFiles(d.files) + [FileRow(Cell(EOD, 10), 0, 0)]
  }

  function FileRows(ds: seq<Dir>): seq<FileRow> {
    if ds == [] then [] else FileRows(ds[..|ds| - 1]) + FileSection(ds[|ds| - 1])
  }

  lemma {:induction false} InfoRowsAppend(a: seq<Dir>, b: seq<Dir>)
    ensures InfoRows(a + b) == InfoRows(a) + InfoRows(b)
    decreases |b|
  {
    if b == [] {
      assert a + b == a;
    } else {
      var b', last := b[..|b| - 1], b[|b| - 1];
      InfoRowsAppend(a, b');
      assert (a + b)[..|a + b| - 1] == a + b';
      assert InfoRows(a + b) == InfoRows(a + b') + InfoSection(last);
      assert InfoRows(b) == InfoRows(b') + InfoSection(last);
    }
  }

  lemma {:induction false} FileRowsAppend(a: seq<Dir>, b: seq<Dir>)
    ensures FileRows(a + b) == FileRows(a) + FileRows(b)
    decreases |b|
  {
    if b == [] {
      assert a + b == a;
    } else {
      var b', last := b[..|b| - 1], b[|b| - 1];
      FileRowsAppend(a, b');
      assert (a + b)[..|a + b| - 1] == a + b';
      var r, s, t := FileRows(a), FileRows(b'), FileSection(last);
      assert FileRows(a + b) == FileRows(a + b') + t == r + s + t;
      assert FileRows(b) == s + t;
      hide FileRows;
      assert r + s + t == r + (s + t);
    }
  }

  function FileCount(d: Dir): nat
    decreases d
  {
    |d.files| + FileCounts(d.subs)
  }

  function FileCounts(ds: seq<Dir>): nat
    decreases ds
  {
    if ds == [] then 0 else FileCount(ds[0]) + FileCounts(ds[1..])
  }

  lemma {:induction false} FileCountsAppend(a: seq<Dir>, b: seq<Dir>)
    ensures FileCounts(a + b) == FileCounts(a) + FileCounts(b)
    decreases a
  {
    if a == [] {
      assert a + b == b;
    } else {
      FileCountsAppend(a[1..], b);
      assert (a + b)[1..] == a[1..] + b;
    }
  }

  /** Every directory is listed once, takes three rows and one in its parent's section in
      one table, and two rows and one for each file in the other. */
  lemma {:induction false} RowCounts(queue: seq<Dir>)
    ensures var ds := BreadthFirst(queue);
      && |ds| == Sizes(queue)
      && |InfoRows(ds)| == 4 * Sizes(queue) - |queue|
      && |FileRows(ds)| == 2 * Sizes(queue) + FileCounts(queue)
    decreases Sizes(queue)
  {
    if queue != [] {
      var d, rest := queue[0], queue[1..] + queue[0].subs;
      SizesAppend(queue[1..], d.subs);
      assert Sizes(queue) == 1 + Sizes(d.subs) + Sizes(queue[1..]);
      FileCountsAppend(queue[1..], d.subs);
      RowCounts(rest);
      InfoRowsAppend([d], BreadthFirst(rest));
      FileRowsAppend([d], BreadthFirst(rest));
      OneSection(d);
    }
  }

  lemma OneSection(d: Dir)
    ensures InfoRows([d]) == InfoSection(d) && |InfoSection(d)| == |d.subs| + 3
    ensures FileRows([d]) == FileSection(d) && |FileSection(d)| == |d.files| + 2
  {
    assert [d][..0] == [];
  }

  // ---- directory entries ----

  type Entry = e: seq<byte> | |e| == 32 witness seq(32, _ => 0)
  const BLANK: Entry := seq(32, _ => 0)
  type Sector = s: seq<Entry> | |s| == 16 witness seq<Entry>(16, _ => BLANK)
  type Disk = nat -> Sector

  predicate IsEnd(e: Entry) {
    e[0] == 0
  }

  /** The entry is one the scan looks at: in use by its first byte, directory or archive by its attributes. */
  predicate IsListed(e: Entry) {
    e[0] != 0 && e[0] != 0x20 && e[0] != 0x2e && (e[11] / 32 % 2 == 1 || e[11] / 16 % 2 == 1)
  }

  predicate IsDir(e: Entry) {
    IsListed(e) && e[11] / 16 % 2 == 1
  }

  predicate IsFile(e: Entry) {
    IsListed(e) && e[11] / 16 % 2 == 0
  }

  function ClusterOf(e: Entry): nat {
    e[26] as nat + e[27] as nat * 0x100
  }

  function LengthOf(e: Entry): nat {
    e[28] as nat + e[29] as nat * 0x100 + e[30] as nat * 0x1_0000 + e[31] as nat * 0x100_0000
  }

  /** The number of bytes before the first space of the name field. */
  function NameLength(e: Entry, c: nat): (n: nat)
    requires c <= 8
    ensures c <= n <= 8 && (forall i :: c <= i < n ==> e[i] != 0x20) && (n < 8 ==> e[n] == 0x20)
    decreases 8 - c
  {
    if c == 8 || e[c] == 0x20 then c else NameLength(e, c + 1)
  }

  /** The name as the kernel keeps it: a byte above 127 becomes zero. */
  function NameOf(e: Entry): (name: seq<byte>)
    ensures |name| == NameLength(e, 0)
  {
    seq(NameLength(e, 0), i requires 0 <= i < NameLength(e, 0) => if e[i] > 127 then 0 else e[i])
  }

  /** The name field has spaces at its end only, and no zero. */
  predicate IsPadded(e: Entry) {
    var n := NameLength(e, 0);
    (forall i :: 0 <= i < n ==> e[i] != 0) && (forall i :: n <= i < 8 ==> e[i] == 0x20)
  }

  function FileOf(e: Entry): File {
    File(NameOf(e), e[8..11] == TXT, ClusterOf(e), LengthOf(e))
  }

  // ---- the tree on disk ----

  /** What the scan keeps of a subdirectory entry: a name and where the directory is. */
  datatype Subdir = Subdir(name: seq<byte>, cluster: nat)

  /** Where things are on the volume, from its BIOS parameter block. */
  datatype Volume = Volume(disk: Disk, rootArea: nat, dataStart: nat, sectorsPerCluster: nat) {
    function SectorOf(cluster: nat): nat {
      if cluster == 0 then rootArea else dataStart + sectorsPerCluster * cluster
    }

    function EntryAt(base: nat, i: nat): Entry {
      disk(base + i / 16)[i % 16]
    }

    /** How many of the entries from `base` the scan reads: it stops after the fourth
        entry whose first byte is zero. */
    function Stop(base: nat, i: nat, ends: nat): (n: nat)
      requires i <= 64 && ends <= 4
      ensures i <= n <= 64
      decreases 64 - i
    {
      if i == 64 || ends == 4 then i
      else Stop(base, i + 1, if IsEnd(EntryAt(base, i)) then ends + 1 else ends)
    }

    function Ends(base: nat, n: nat): nat {
      if n == 0 then 0 else Ends(base, n - 1) + if IsEnd(EntryAt(base, n - 1)) then 1 else 0
    }

    /** The subdirectories among the first `n` entries from `base`, in disk order. */
    function SubdirsAt(base: nat, n: nat): seq<Subdir> {
      if n == 0 then [] else
        var e := EntryAt(base, n - 1);
        SubdirsAt(base, n - 1) + if IsDir(e) then [Subdir(NameOf(e), ClusterOf(e))] else []
    }

    function FilesAt(base: nat, n: nat): seq<File> {
      if n == 0 then [] else
        FilesAt(base, n - 1) + if IsFile(EntryAt(base, n - 1)) then [FileOf(EntryAt(base, n - 1))] else []
    }

    /** The directory stored from sector `base` on is `d`, with everything below it. */
    ghost predicate Stores(base: nat, d: Dir)
      decreases d
    {
      var n := Stop(base, 0, 0);
      var ss := SubdirsAt(base, n);
      && Ends(base, n) == 4
      && (forall i :: 0 <= i < n && IsListed(EntryAt(base, i)) ==> IsPadded(EntryAt(base, i)))
      && d.files == FilesAt(base, n)
      && |d.subs| == |ss|
      && (forall i :: 0 <= i < |ss| ==> ss[i].cluster != 0 && 0 !in ss[i].name && d.subs[i].name == ss[i].name)
      && (forall i :: 0 <= i < |ss| ==> Stores(SectorOf(ss[i].cluster), d.subs[i]))
    }

    lemma {:induction false} CountsGrow(base: nat, m: nat, n: nat)
      requires m <= n
      ensures |SubdirsAt(base, m)| <= |SubdirsAt(base, n)| && |FilesAt(base, m)| <= |FilesAt(base, n)|
    {
      if m < n { CountsGrow(base, m, n - 1); }
    }
  }
}
