/** How a tree lies on a disk, by absolute sectors and the bytes of the entries. The scan's own
    reading of a volume is not used here: that it comes to the same is what is proved. */
module Layout {
  import opened CString
  import opened DirectoryTree
  import opened Places

  /** What an entry of a directory is for the scan: one of the end marks, an entry it passes over,
      a subdirectory, or a file. */
  datatype Slot = EndMark | Passed | Child(sub: Subdir) | Document(file: File)

  /** The name field holds `name` and then spaces; the kernel keeps a byte above 127 as zero. */
  ghost predicate IsNamed(e: Entry, name: seq<byte>) {
    && e[0] != 0x2e && 1 <= |name| <= 8
    && (forall i :: 0 <= i < |name| ==> e[i] != 0 && e[i] != 0x20 && name[i] == if e[i] <= 127 then e[i] else 0)
    && (forall i :: |name| <= i < 8 ==> e[i] == 0x20)
  }

  /** The bytes of the entry: attribute 0x10 is a directory, 0x20 the archive bit of a file. */
  ghost predicate Holds(e: Entry, slot: Slot) {
    match slot
    case EndMark => e[0] == 0
    case Passed => e[0] == 0x20 || e[0] == 0x2e || (e[0] != 0 && e[11] / 0x10 % 4 == 0)
    case Child(sub) =>
      && IsNamed(e, sub.name) && 0 !in sub.name && (e[11] / 0x10 % 4 == 1 || e[11] / 0x10 % 4 == 3)
      && e[26] == sub.cluster % 0x100 && e[27] == sub.cluster / 0x100
    case Document(file) =>
      && IsNamed(e, file.name) && e[11] / 0x10 % 4 == 2
      && (file.text <==> e[8] == 'T' as int && e[9] == 'X' as int && e[10] == 'T' as int)
      && e[26] == file.cluster % 0x100 && e[27] == file.cluster / 0x100
      && e[28] == file.length % 0x100 && e[29] == file.length / 0x100 % 0x100
      && e[30] == file.length / 0x1_0000 % 0x100 && e[31] == file.length / 0x100_0000
  }

  function Kids(slots: seq<Slot>): seq<Subdir> {
    if slots == [] then [] else
      var last := slots[|slots| - 1];
      Kids(slots[..|slots| - 1]) + if last.Child? then [last.sub] else []
  }

  function Documents(slots: seq<Slot>): seq<File> {
    if slots == [] then [] else
      var last := slots[|slots| - 1];
      Documents(slots[..|slots| - 1]) + if last.Document? then [last.file] else []
  }

  /** The entries of the sectors from `base` on are these, up to the fourth end mark: 16 to a sector. */
  ghost predicate IsDirectoryAt(disk: Disk, base: nat, slots: seq<Slot>) {
    && 0 < |slots| <= 64 && slots[|slots| - 1] == EndMark && multiset(slots)[EndMark] == 4
    && forall k :: 0 <= k < |slots| ==> Holds(disk(base + k / 16)[k % 16], slots[k])
  }

  /** The directory at position `i` of the list has its entries, and they are its files and its
      subdirectories, each with the cluster that it is in. */
  ghost predicate HasEntries(list: seq<Dir>, clusters: seq<nat>, i: nat, slots: seq<Slot>)
    requires i < |list|
  {
    && Documents(slots) == list[i].files && |Kids(slots)| == |list[i].subs|
    && forall x :: 0 <= x < |Kids(slots)| ==>
      ChildAt(list, i, x) < |clusters| && Kids(slots)[x] == Subdir(list[i].subs[x].name, clusters[ChildAt(list, i, x)])
  }

  /** The root directory is in the root area, and each other directory in the sectors of its cluster:
      sector `k` of cluster `c` is number `dataStart + sectorsPerCluster * c + k`. */
  ghost predicate IsLaidOut(v: Volume, list: seq<Dir>, clusters: seq<nat>, slots: seq<seq<Slot>>) {
    && IsListing(list) && |list| == |clusters| == |slots|
    && IsDirectoryAt(v.disk, v.rootArea, slots[0])
    && (forall i :: 1 <= i < |list| ==>
      clusters[i] != 0 && IsDirectoryAt(v.disk, v.dataStart + v.sectorsPerCluster * clusters[i], slots[i]))
    && forall i :: 0 <= i < |list| ==> HasEntries(list, clusters, i, slots[i])
  }

  lemma NameRead(e: Entry, name: seq<byte>)
    requires IsNamed(e, name)
    ensures NameOf(e) == name && IsPadded(e) && e[0] != 0 && e[0] != 0x20 && e[0] != 0x2e
  {
    var n := NameLength(e, 0);
    assert e[0] == e[0 + 0];
    assert forall i :: 0 <= i < |name| ==> e[i] != 0x20;
    assert n == |name|;
  }

  lemma FourBytes(n: nat)
    ensures n % 0x100 + n / 0x100 % 0x100 * 0x100 + n / 0x1_0000 % 0x100 * 0x1_0000 + n / 0x100_0000 * 0x100_0000 == n
  {
    assert n / 0x1_0000 == n / 0x100 / 0x100 && n / 0x100_0000 == n / 0x100 / 0x100 / 0x100;
  }

  lemma FileRead(e: Entry, file: File)
    requires Holds(e, Document(file))
    ensures FileOf(e) == file && IsFile(e) && IsPadded(e)
  {
    hide IsPadded, NameOf, IsNamed;
    NameRead(e, file.name);
    FourBytes(file.length);
    assert TXT == ['T' as int, 'X' as int, 'T' as int];
    assert e[8..11] == [e[8], e[9], e[10]];
  }

  /** The scan takes an entry for what it is. */
  lemma EntryRead(e: Entry, slot: Slot)
    requires Holds(e, slot)
    ensures (IsEnd(e) <==> slot.EndMark?) && (IsDir(e) <==> slot.Child?) && (IsFile(e) <==> slot.Document?)
    ensures IsListed(e) ==> IsPadded(e)
    ensures slot.Child? ==> Subdir(NameOf(e), ClusterOf(e)) == slot.sub && 0 !in slot.sub.name
    ensures slot.Document? ==> FileOf(e) == slot.file
  {
    hide IsPadded, NameOf, IsNamed, FileOf, LengthOf;
    if slot.Child? { NameRead(e, slot.sub.name); }
    if slot.Document? { FileRead(e, slot.file); }
  }

  lemma OneSlotMore(slots: seq<Slot>, n: nat)
    requires n < |slots|
    ensures slots[..n + 1] == slots[..n] + [slots[n]]
    ensures multiset(slots[..n + 1])[EndMark] == multiset(slots[..n])[EndMark] + if slots[n] == EndMark then 1 else 0
    ensures multiset(slots[..n])[EndMark] <= multiset(slots)[EndMark]
    ensures Kids(slots[..n + 1]) == Kids(slots[..n]) + if slots[n].Child? then [slots[n].sub] else []
    ensures Documents(slots[..n + 1]) == Documents(slots[..n]) + if slots[n].Document? then [slots[n].file] else []
  {
    assert slots[..n + 1] == slots[..n] + [slots[n]];
    assert slots[..n + 1][..n] == slots[..n];
    assert slots == slots[..n] + slots[n..];
  }

  /** What the scan has read of the first `n` entries. */
  lemma {:induction false} SlotsRead(v: Volume, base: nat, slots: seq<Slot>, n: nat)
    requires n <= |slots| && forall k :: 0 <= k < |slots| ==> Holds(v.disk(base + k / 16)[k % 16], slots[k])
    ensures v.Ends(base, n) == multiset(slots[..n])[EndMark]
    ensures v.SubdirsAt(base, n) == Kids(slots[..n]) && v.FilesAt(base, n) == Documents(slots[..n])
  {
    hide Holds, IsEnd, IsDir, IsFile, NameOf, ClusterOf, FileOf;
    if n > 0 {
      SlotsRead(v, base, slots, n - 1);
      OneSlotMore(slots, n - 1);
      assert Holds(v.EntryAt(base, n - 1), slots[n - 1]);
      EntryRead(v.EntryAt(base, n - 1), slots[n - 1]);
    }
  }

  lemma MarksSoFar(slots: seq<Slot>, n: nat)
    requires n < |slots| && slots[|slots| - 1] == EndMark && multiset(slots)[EndMark] == 4
    ensures multiset(slots[..n])[EndMark] < 4
  {
    var last := |slots| - 1;
    OneSlotMore(slots, last);
    assert slots[..last + 1] == slots;
    if n < last {
      OneSlotMore(slots[..last], n);
      assert slots[..last][..n] == slots[..n];
    }
  }

  /** It stops after the fourth end mark. */
  lemma {:induction false} StopsAfter(v: Volume, base: nat, slots: seq<Slot>, n: nat)
    requires IsDirectoryAt(v.disk, base, slots) && n <= |slots|
    ensures multiset(slots[..n])[EndMark] <= 4
    ensures v.Stop(base, n, multiset(slots[..n])[EndMark]) == |slots|
    decreases |slots| - n
  {
    hide Holds, IsEnd, Kids, Documents;
    if n == |slots| {
      assert slots[..|slots|] == slots;
    } else {
      MarksSoFar(slots, n);
      OneSlotMore(slots, n);
      StopsAfter(v, base, slots, n + 1);
      assert Holds(v.EntryAt(base, n), slots[n]);
      EntryRead(v.EntryAt(base, n), slots[n]);
    }
  }

  /** What the scan reads of a directory that lies on the disk. */
  lemma DirectoryRead(v: Volume, base: nat, slots: seq<Slot>)
    requires IsDirectoryAt(v.disk, base, slots)
    ensures var n := v.Stop(base, 0, 0);
      && v.Ends(base, n) == 4 && v.SubdirsAt(base, n) == Kids(slots) && v.FilesAt(base, n) == Documents(slots)
      && (forall k :: 0 <= k < n && IsListed(v.EntryAt(base, k)) ==> IsPadded(v.EntryAt(base, k)))
  {
    hide Holds, IsListed, IsPadded, Kids, Documents, Volume.Stop, Volume.Ends, Volume.SubdirsAt, Volume.FilesAt;
    StopsAfter(v, base, slots, 0);
    SlotsRead(v, base, slots, |slots|);
    assert slots[..0] == [] && slots[..|slots|] == slots;
    forall k | 0 <= k < |slots| && IsListed(v.EntryAt(base, k)) ensures IsPadded(v.EntryAt(base, k)) {
      assert Holds(v.EntryAt(base, k), slots[k]);
      EntryRead(v.EntryAt(base, k), slots[k]);
    }
  }

  lemma {:induction false} NoZeroes(disk: Disk, base: nat, slots: seq<Slot>, n: nat)
    requires n <= |slots| && forall k :: 0 <= k < |slots| ==> Holds(disk(base + k / 16)[k % 16], slots[k])
    ensures forall x :: 0 <= x < |Kids(slots[..n])| ==> 0 !in Kids(slots[..n])[x].name
  {
    hide Holds;
    if n > 0 {
      NoZeroes(disk, base, slots, n - 1);
      OneSlotMore(slots, n - 1);
      EntryRead(disk(base + (n - 1) / 16)[(n - 1) % 16], slots[n - 1]);
    }
  }

  lemma StoresThese(v: Volume, base: nat, d: Dir, n: nat, ss: seq<Subdir>)
    requires n == v.Stop(base, 0, 0) && v.Ends(base, n) == 4 && v.FilesAt(base, n) == d.files
    requires ss == v.SubdirsAt(base, n) && |ss| == |d.subs|
    requires forall i :: 0 <= i < n && IsListed(v.EntryAt(base, i)) ==> IsPadded(v.EntryAt(base, i))
    requires forall i :: 0 <= i < |ss| ==> ss[i].cluster != 0 && 0 !in ss[i].name && d.subs[i].name == ss[i].name
    requires forall i :: 0 <= i < |ss| ==> v.Stores(v.SectorOf(ss[i].cluster), d.subs[i])
    ensures v.Stores(base, d)
  {
    hide IsListed, IsPadded, Volume.EntryAt, Volume.SectorOf, Volume.Stop, Volume.Ends, Volume.SubdirsAt, Volume.FilesAt;
  }

  lemma StoredIfChildrenAre(v: Volume, list: seq<Dir>, clusters: seq<nat>, slots: seq<Slot>, i: nat, base: nat)
    requires IsListing(list) && i < |list| == |clusters| && IsDirectoryAt(v.disk, base, slots)
    requires HasEntries(list, clusters, i, slots)
    requires forall j :: i < j < |list| ==> clusters[j] != 0 && v.Stores(v.SectorOf(clusters[j]), list[j])
    ensures v.Stores(base, list[i])
  {
    hide IsListed, IsPadded, IsListing, Holds, Kids, Documents, ChildAt, Volume.Stores, Volume.EntryAt, Volume.SectorOf, Volume.Stop,
      Volume.Ends, Volume.SubdirsAt, Volume.FilesAt;
    var d, ss := list[i], Kids(slots);
    DirectoryRead(v, base, slots);
    NoZeroes(v.disk, base, slots, |slots|);
    assert slots[..|slots|] == slots;
    forall x | 0 <= x < |ss|
      ensures ss[x].cluster != 0 && d.subs[x].name == ss[x].name && v.Stores(v.SectorOf(ss[x].cluster), d.subs[x])
    {
      ChildInList(list, i, x);
    }
    StoresThese(v, base, d, v.Stop(base, 0, 0), ss);
  }

  /** Of the directories from position `i` on, each is stored where it lies. */
  lemma {:induction false} LaidOutFrom(v: Volume, list: seq<Dir>, clusters: seq<nat>, slots: seq<seq<Slot>>, i: nat)
    requires IsLaidOut(v, list, clusters, slots) && 1 <= i <= |list|
    ensures forall j :: i <= j < |list| ==> v.Stores(v.SectorOf(clusters[j]), list[j])
    decreases |list| - i
  {
    hide IsListing, IsDirectoryAt, HasEntries, Volume.Stores;
    if i < |list| {
      LaidOutFrom(v, list, clusters, slots, i + 1);
      StoredIfChildrenAre(v, list, clusters, slots[i], i, v.SectorOf(clusters[i]));
    }
  }

  /** A tree that lies on the disk is stored on the volume. */
  lemma LaidOutIsStored(v: Volume, list: seq<Dir>, clusters: seq<nat>, slots: seq<seq<Slot>>)
    requires IsLaidOut(v, list, clusters, slots)
    ensures v.Stores(v.SectorOf(0), list[0])
  {
    hide IsDirectoryAt, HasEntries, Volume.Stores;
    LaidOutFrom(v, list, clusters, slots, 1);
    StoredIfChildrenAre(v, list, clusters, slots[0], 0, v.SectorOf(0));
  }
}
