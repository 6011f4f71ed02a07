/** A disk for a tree: every tree whose names and numbers fit their fields, and whose directories
    have at most 60 entries, lies on some disk, wherever the root area, the clusters and the
    directories are. So what is said of stored trees is said of all of these. */
module DiskImage {
  import opened CString
  import opened DirectoryTree
  import opened Places
  import opened Layout
  import opened Fat16

  /** A name the scan keeps as it is: one to eight characters above the space, no dot in front. */
  predicate IsStorableName(name: seq<byte>) {
    1 <= |name| <= 8 && name[0] != 0x2e && forall i :: 0 <= i < |name| ==> 0x20 < name[i] <= 0x7f
  }

  predicate IsStorable(d: Dir) {
    && |d.subs| + |d.files| <= 60
    && (forall i :: 0 <= i < |d.subs| ==> IsStorableName(d.subs[i].name))
    && (forall i :: 0 <= i < |d.files| ==>
      IsStorableName(d.files[i].name) && d.files[i].cluster < 0x1_0000 && d.files[i].length < 0x1_0000_0000)
  }

  const NO_EXTENSION: seq<byte> := [0x20, 0x20, 0x20]

  function Padded(name: seq<byte>): (r: seq<byte>)
    ensures |r| == 8
  {
    seq(8, i requires 0 <= i < 8 => if i < |name| then name[i] else 0x20)
  }

  /** The last 21 bytes of an entry. */
  function Tail(attributes: byte, cluster: nat, length: nat): (r: seq<byte>)
    ensures |r| == 21 && r[0] == attributes
    ensures r[15] == cluster % 0x100 && r[16] == cluster / 0x100 % 0x100
    ensures r[17] == length % 0x100 && r[18] == length / 0x100 % 0x100
    ensures r[19] == length / 0x1_0000 % 0x100 && r[20] == length / 0x100_0000 % 0x100
  {
    [attributes] + Zeros(14) + [cluster % 0x100, cluster / 0x100 % 0x100]
      + [length % 0x100, length / 0x100 % 0x100, length / 0x1_0000 % 0x100, length / 0x100_0000 % 0x100]
  }

  function MakeEntry(name: seq<byte>, ext: seq<byte>, attributes: byte, cluster: nat, length: nat): Entry
    requires |ext| == 3
  {
    Padded(name) + ext + Tail(attributes, cluster, length)
  }

  lemma FieldsOf(name: seq<byte>, ext: seq<byte>, attributes: byte, cluster: nat, length: nat)
    requires |ext| == 3
    ensures var e := MakeEntry(name, ext, attributes, cluster, length);
      && (forall i :: 0 <= i < 8 ==> e[i] == if i < |name| then name[i] else 0x20)
      && e[8..11] == ext && forall i :: 0 <= i < 21 ==> e[11 + i] == Tail(attributes, cluster, length)[i]
  {
    hide Tail;
  }

  function DirEntry(name: seq<byte>, cluster: nat): Entry {
    MakeEntry(name, NO_EXTENSION, 0x10, cluster, 0)
  }

  function FileEntry(f: File): Entry {
    MakeEntry(f.name, if f.text then TXT else NO_EXTENSION, 0x20, f.cluster, f.length)
  }

  function Blank(): (e: Entry)
    ensures IsEnd(e) && !IsListed(e)
  {
    Zeros(32)
  }

  /** Entry `k` of the directory at position `i`: first the subdirectories, then the files. */
  function SlotOf(list: seq<Dir>, clusters: seq<nat>, i: nat, k: nat): Slot {
    if i >= |list| then EndMark
    else if k < |list[i].subs| then
      var j := ChildAt(list, i, k);
      Child(Subdir(list[i].subs[k].name, if j < |clusters| then clusters[j] else 0))
    else if k < |list[i].subs| + |list[i].files| then Document(list[i].files[k - |list[i].subs|])
    else EndMark
  }

  /** The entry written for a slot. */
  function EntryFor(slot: Slot): Entry {
    match slot
    case Child(sub) => DirEntry(sub.name, sub.cluster)
    case Document(file) => FileEntry(file)
    case _ => Blank()
  }

  function EntryOf(list: seq<Dir>, clusters: seq<nat>, i: nat, k: nat): Entry {
    EntryFor(SlotOf(list, clusters, i, k))
  }

  /** A slot that `EntryFor` can write. */
  predicate CanWrite(slot: Slot) {
    match slot
    case EndMark => true
    case Passed => false
    case Child(sub) => IsStorableName(sub.name) && sub.cluster < 0x1_0000
    case Document(file) => IsStorableName(file.name) && file.cluster < 0x1_0000 && file.length < 0x1_0000_0000
  }

  lemma NamedAs(e: Entry, name: seq<byte>)
    requires IsStorableName(name)
    requires forall i :: 0 <= i < 8 ==> e[i] == if i < |name| then name[i] else 0x20
    ensures IsNamed(e, name) && 0 !in name
  {
    assert e[0] == name[0];
  }

  /** The entry says what it was made of. */
  lemma EntryHolds(slot: Slot)
    requires CanWrite(slot)
    ensures Holds(EntryFor(slot), slot)
  {
    hide MakeEntry, Tail, IsNamed;
    if slot != EndMark {
      var child := slot.Child?;
      var name := if child then slot.sub.name else slot.file.name;
      var ext := if !child && slot.file.text then TXT else NO_EXTENSION;
      var attributes := if child then 0x10 else 0x20;
      var cluster := if child then slot.sub.cluster else slot.file.cluster;
      var length := if child then 0 else slot.file.length;
      var e, t := MakeEntry(name, ext, attributes, cluster, length), Tail(attributes, cluster, length);
      assert e == EntryFor(slot);
      FieldsOf(name, ext, attributes, cluster, length);
      NamedAs(e, name);
      assert e[8] == e[8..11][0] && e[9] == e[8..11][1] && e[10] == e[8..11][2];
      assert e[11 + 0] == t[0] && e[11 + 15] == t[15] && e[11 + 16] == t[16];
      assert e[11 + 17] == t[17] && e[11 + 18] == t[18] && e[11 + 19] == t[19] && e[11 + 20] == t[20];
    }
  }

  function EntriesFrom(list: seq<Dir>, clusters: seq<nat>, i: nat, k: nat, n: nat): (r: seq<Entry>)
    ensures |r| == n && forall j :: 0 <= j < n ==> r[j] == EntryOf(list, clusters, i, k + j)
  {
    if n == 0 then [] else EntriesFrom(list, clusters, i, k, n - 1) + [EntryOf(list, clusters, i, k + n - 1)]
  }

  /** Where things are on the disk. */
  datatype Areas = Areas(rootArea: nat, dataStart: nat, sectorsPerCluster: nat)

  function StartOf(areas: Areas, clusters: seq<nat>, i: nat): nat
    requires i < |clusters|
  {
    if i == 0 then areas.rootArea else areas.dataStart + areas.sectorsPerCluster * clusters[i]
  }

  function Starts(areas: Areas, clusters: seq<nat>): (starts: seq<nat>)
    ensures |starts| == |clusters| && forall i :: 0 <= i < |starts| ==> starts[i] == StartOf(areas, clusters, i)
  {
    seq(|clusters|, i requires 0 <= i < |clusters| => StartOf(areas, clusters, i))
  }

  /** The directory that sector `s` belongs to. */
  function OwnerOf(starts: seq<nat>, i: nat, s: nat): (r: nat)
    requires i <= |starts|
    ensures i <= r <= |starts| && (r < |starts| ==> starts[r] <= s < starts[r] + 4)
    ensures forall j :: i <= j < r ==> !(starts[j] <= s < starts[j] + 4)
    decreases |starts| - i
  {
    if i == |starts| || starts[i] <= s < starts[i] + 4 then i else OwnerOf(starts, i + 1, s)
  }

  function SectorIn(list: seq<Dir>, clusters: seq<nat>, starts: seq<nat>, s: nat): Sector {
    var i := OwnerOf(starts, 0, s);
    EntriesFrom(list, clusters, i, if i < |starts| then 16 * (s - starts[i]) else 0, 16)
  }

  /** The volume with the directories of the list in these clusters, the first one in the root area. */
  function VolumeOf(list: seq<Dir>, clusters: seq<nat>, areas: Areas): Volume {
    var starts := Starts(areas, clusters);
    Volume(s => SectorIn(list, clusters, starts, s), areas.rootArea, areas.dataStart, areas.sectorsPerCluster)
  }

  /** Four sectors for the root, and a cluster of four sectors at least for each of the others, none twice. */
  ghost predicate AreApart(areas: Areas, clusters: seq<nat>) {
    && areas.sectorsPerCluster >= 4
    && (forall i :: 1 <= i < |clusters| ==> 0 < clusters[i] < 0x1_0000)
    && (forall i, j :: 1 <= i < j < |clusters| ==> clusters[i] != clusters[j])
    && forall i :: 1 <= i < |clusters| ==>
      var start := areas.dataStart + areas.sectorsPerCluster * clusters[i];
      areas.rootArea + 4 <= start || start + 4 <= areas.rootArea
  }

  lemma {:induction false} ProductGrows(s: nat, c: nat, d: nat)
    requires c < d
    ensures s * c + s <= s * d
  {
    assert s * d == s * (d - 1) + s;
    if c < d - 1 { ProductGrows(s, c, d - 1); }
  }

  lemma StartsApart(areas: Areas, clusters: seq<nat>, i: nat, j: nat)
    requires AreApart(areas, clusters) && i < |clusters| && j < |clusters| && i != j
    ensures var a, b := StartOf(areas, clusters, i), StartOf(areas, clusters, j); a + 4 <= b || b + 4 <= a
  {
    if i > 0 && j > 0 {
      assert clusters[i] != clusters[j];
      var s, c, d := areas.sectorsPerCluster, clusters[i], clusters[j];
      if c < d { ProductGrows(s, c, d); } else { ProductGrows(s, d, c); }
    }
  }

  lemma OwnerIs(areas: Areas, clusters: seq<nat>, i: nat, s: nat)
    requires AreApart(areas, clusters) && i < |clusters|
    requires StartOf(areas, clusters, i) <= s < StartOf(areas, clusters, i) + 4
    ensures OwnerOf(Starts(areas, clusters), 0, s) == i
  {
    hide AreApart, StartOf;
    var starts := Starts(areas, clusters);
    var r := OwnerOf(starts, 0, s);
    if r != i { StartsApart(areas, clusters, r, i); }
  }

  lemma EntryIn(list: seq<Dir>, clusters: seq<nat>, areas: Areas, i: nat, k: nat)
    requires AreApart(areas, clusters) && i < |clusters| && k < 64
    ensures VolumeOf(list, clusters, areas).disk(StartOf(areas, clusters, i) + k / 16)[k % 16] == EntryOf(list, clusters, i, k)
  {
    hide EntryOf, AreApart, StartOf;
    var starts := Starts(areas, clusters);
    OwnerIs(areas, clusters, i, starts[i] + k / 16);
    assert SectorIn(list, clusters, starts, starts[i] + k / 16)[k % 16] == EntryOf(list, clusters, i, 16 * (k / 16) + k % 16);
  }

  function SlotsOf(list: seq<Dir>, clusters: seq<nat>, i: nat): (slots: seq<Slot>)
    requires i < |list|
    ensures |slots| == |list[i].subs| + |list[i].files| + 4
  {
    seq(|list[i].subs| + |list[i].files| + 4, k requires 0 <= k => SlotOf(list, clusters, i, k))
  }

  ghost predicate IsStorableList(list: seq<Dir>) {
    |list| < 0x1_0000 && IsListing(list) && forall i :: 0 <= i < |list| ==> IsStorable(list[i])
  }

  function Least(a: int, b: nat): (r: nat)
    ensures r <= b
  {
    if a < 0 then 0 else if a < b then a else b
  }

  lemma OneMore<T>(s: seq<T>, a: int)
    ensures s[..Least(a, |s|)] == s[..Least(a - 1, |s|)] + if 0 < a <= |s| then [s[a - 1]] else []
  {}

  function SubdirsOf(list: seq<Dir>, clusters: seq<nat>, i: nat): (ss: seq<Subdir>)
    requires i < |list|
    ensures |ss| == |list[i].subs|
  {
    seq(|list[i].subs|, x requires 0 <= x < |list[i].subs| =>
      var j := ChildAt(list, i, x); Subdir(list[i].subs[x].name, if j < |clusters| then clusters[j] else 0))
  }

  /** What the first `n` slots are. */
  lemma {:induction false} SlotsAre(list: seq<Dir>, clusters: seq<nat>, i: nat, n: nat)
    requires i < |list| && n <= |SlotsOf(list, clusters, i)|
    ensures var d, slots := list[i], SlotsOf(list, clusters, i);
      && Kids(slots[..n]) == SubdirsOf(list, clusters, i)[..Least(n, |d.subs|)]
      && Documents(slots[..n]) == d.files[..Least(n - |d.subs|, |d.files|)]
      && multiset(slots[..n])[EndMark] == Least(n - |d.subs| - |d.files|, 4)
  {
    hide ChildAt;
    var d, slots := list[i], SlotsOf(list, clusters, i);
    if n == 0 {
      assert slots[..0] == [];
    } else {
      SlotsAre(list, clusters, i, n - 1);
      OneSlotMore(slots, n - 1);
      OneMore(SubdirsOf(list, clusters, i), n);
      OneMore(d.files, n - |d.subs|);
    }
  }

  lemma CanWriteAll(list: seq<Dir>, clusters: seq<nat>, i: nat, k: nat)
    requires IsStorableList(list) && i < |list| == |clusters| && forall j :: 1 <= j < |clusters| ==> 0 < clusters[j] < 0x1_0000
    ensures CanWrite(SlotOf(list, clusters, i, k))
  {
    hide IsStorableName, ChildAt;
    assert IsStorable(list[i]);
    if k < |list[i].subs| { ChildInList(list, i, k); }
  }

  /** The directory at position `i` lies in its sectors. */
  lemma DirectoryLies(list: seq<Dir>, clusters: seq<nat>, areas: Areas, i: nat)
    requires IsStorableList(list) && i < |list| == |clusters| && AreApart(areas, clusters)
    ensures IsDirectoryAt(VolumeOf(list, clusters, areas).disk, StartOf(areas, clusters, i), SlotsOf(list, clusters, i))
    ensures HasEntries(list, clusters, i, SlotsOf(list, clusters, i))
  {
    hide Holds, EntryFor, VolumeOf, Kids, Documents, ChildAt, IsListing, StartOf;
    var d, slots := list[i], SlotsOf(list, clusters, i);
    var v, start := VolumeOf(list, clusters, areas), StartOf(areas, clusters, i);
    assert IsStorable(d);
    SlotsAre(list, clusters, i, |slots|);
    assert slots[..|slots|] == slots;
    forall k | 0 <= k < |slots| ensures Holds(v.disk(start + k / 16)[k % 16], slots[k]) {
      EntryIn(list, clusters, areas, i, k);
      CanWriteAll(list, clusters, i, k);
      EntryHolds(slots[k]);
    }
    forall x | 0 <= x < |d.subs| ensures ChildAt(list, i, x) < |clusters| {
      ChildInList(list, i, x);
    }
  }

  function AllSlots(list: seq<Dir>, clusters: seq<nat>): (slots: seq<seq<Slot>>)
    ensures |slots| == |list| && forall i :: 0 <= i < |list| ==> slots[i] == SlotsOf(list, clusters, i)
  {
    seq(|list|, i requires 0 <= i < |list| => SlotsOf(list, clusters, i))
  }

  /** For any root area, data area and clusters that do not overlap, every storable tree lies on a disk. */
  lemma TreeLies(list: seq<Dir>, clusters: seq<nat>, areas: Areas)
    requires IsStorableList(list) && |list| == |clusters| && AreApart(areas, clusters)
    ensures IsLaidOut(VolumeOf(list, clusters, areas), list, clusters, AllSlots(list, clusters))
  {
    hide IsDirectoryAt, HasEntries, AllSlots, SlotsOf, IsStorable;
    forall i | 0 <= i < |list|
      ensures IsDirectoryAt(VolumeOf(list, clusters, areas).disk, StartOf(areas, clusters, i), SlotsOf(list, clusters, i))
      ensures HasEntries(list, clusters, i, SlotsOf(list, clusters, i))
    {
      DirectoryLies(list, clusters, areas, i);
    }
  }

  /** The scan of every disk that a tree lies on: the root directory in the root area, and each other one
      in its cluster, sector `k` of cluster `c` being number `dataStart + sectorsPerCluster * c + k`. */
  method ScanDisk(volume: Volume, maxEntries: nat, page: array<byte>, ghost root: Dir, ghost clusters: seq<nat>,
      ghost slots: seq<seq<Slot>>) returns (scan: Scanner)
    requires 4 <= maxEntries <= 512 && page.Length == 4096
    requires IsLaidOut(volume, Levels([root]), clusters, slots) && root.name == ROOT
    requires 4 * (Size(root) - 1) + 3 <= INFO_ROWS && 2 * Size(root) + FileCount(root) <= FILE_ROWS
    modifies page
    ensures scan.Indexes(Levels([root])) && scan.noMoreDirectories && scan.tempDirPtrCounter == Size(root)
    ensures fresh(scan) && scan.directories == page
  {
    hide Scanner.Indexes, Levels, Size, FileCount, Volume.Stores, IsLaidOut;
    LevelsAreListing(root);
    LaidOutIsStored(volume, Levels([root]), clusters, slots);
    scan := ScanVolume(volume, maxEntries, page, root);
  }

  /** Every storable tree that the tables have room for is scanned to its complete index, wherever the
      root area, the data area and the directories are. */
  method ScanTree(ghost root: Dir, ghost clusters: seq<nat>, ghost areas: Areas, volume: Volume, maxEntries: nat, page: array<byte>)
      returns (scan: Scanner)
    requires 4 <= maxEntries <= 512 && page.Length == 4096
    requires IsStorableList(Levels([root])) && |clusters| == Size(root) && AreApart(areas, clusters) && root.name == ROOT
    requires volume == VolumeOf(Levels([root]), clusters, areas)
    requires 4 * (Size(root) - 1) + 3 <= INFO_ROWS && 2 * Size(root) + FileCount(root) <= FILE_ROWS
    modifies page
    ensures scan.Indexes(Levels([root])) && scan.noMoreDirectories && scan.tempDirPtrCounter == Size(root)
  {
    hide Scanner.Indexes, Levels, Size, FileCount, IsLaidOut, VolumeOf, AreApart, IsStorableList;
    RowCounts([root]);
    BreadthFirstIsByLevels([root]);
    TreeLies(Levels([root]), clusters, areas);
    scan := ScanDisk(volume, maxEntries, page, root, clusters, AllSlots(Levels([root]), clusters));
  }

  /** Four sectors to a cluster; the directory at position `i` is in cluster `i`. */
  function Numbered(n: nat): (clusters: seq<nat>)
    ensures |clusters| == n && forall i :: 0 <= i < n ==> clusters[i] == i
  {
    seq(n, i => i)
  }

  function Image(list: seq<Dir>): Volume {
    VolumeOf(list, Numbered(|list|), Areas(0, 0, 4))
  }

  /** Every storable tree is stored on some volume. */
  lemma TreeIsStored(root: Dir)
    requires var list := Levels([root]); |list| < 0x1_0000 && forall i :: 0 <= i < |list| ==> IsStorable(list[i])
    ensures var v := Image(Levels([root])); v.Stores(v.SectorOf(0), root)
  {
    hide IsLaidOut, IsStorable, IsListing, VolumeOf, Volume.Stores, Levels;
    var list := Levels([root]);
    LevelsAreListing(root);
    TreeLies(list, Numbered(|list|), Areas(0, 0, 4));
    LaidOutIsStored(Image(list), list, Numbered(|list|), AllSlots(list, Numbered(|list|)));
  }

  /** What entry `k` of the directory in cluster `i` of the image is. */
  lemma EntryIs(list: seq<Dir>, i: nat, k: nat)
    requires IsStorableList(list) && i < |list| && k < 64
    ensures var e, slot := Image(list).disk(4 * i + k / 16)[k % 16], SlotOf(list, Numbered(|list|), i, k);
      && (IsEnd(e) <==> slot.EndMark?) && (IsDir(e) <==> slot.Child?)
      && (slot.Child? ==> Subdir(NameOf(e), ClusterOf(e)) == slot.sub)
  {
    hide Holds, EntryFor, VolumeOf, IsListing, IsStorable;
    var clusters := Numbered(|list|);
    EntryIn(list, clusters, Areas(0, 0, 4), i, k);
    CanWriteAll(list, clusters, i, k);
    EntryHolds(SlotOf(list, clusters, i, k));
    EntryRead(EntryOf(list, clusters, i, k), SlotOf(list, clusters, i, k));
  }
}
