/** A tree whose scan runs past the end of its queue: 256 directories in each other. */
module QueueLimits {
  import opened CString
  import opened DirectoryTree
  import opened Places
  import opened DirectoryTable
  import opened DiskImage
  import opened TableLimits
  import opened AnyDisk
  import opened Words

  lemma ChainTurn(n: nat, i: nat)
    requires i <= n <= MOST
    ensures ChildAt(ChainList(0, n), i, 0) == i + 1
  {
    ChainTurns(n, i);
  }

  /** The sector of the `i`-th directory, as the scan reads it: an entry for the next one, and end marks. */
  lemma ChainEntry(n: nat, i: nat, k: nat)
    requires i <= n <= MOST && k < 16
    ensures var e := Image(ChainList(0, n)).disk(4 * i)[k];
      && (IsEnd(e) <==> i == n || k > 0)
      && (i < n && k == 0 ==> IsDir(e) && NameOf(e) == ChainName(i + 1) && ClusterOf(e) == i + 1)
  {
    hide IsDir, IsFile, IsEnd, IsListed, IsPadded, NameOf, ClusterOf, IsStorableList, ChainList, EntryOf, ChildAt, Image, Levels,
      FileOf, Chain, Volume.Stores, HasGoodNames, HasGoodFiles, IsListing, IsStorable, ChainName;
    var list := ChainList(0, n);
    ChainIsStored(n);
    ChainIs(n, i);
    ChainTurn(n, i);
    EntryIs(list, i, k);
    assert k / 16 == 0 && k % 16 == k;
  }

  lemma ChainSector(n: nat, i: nat)
    requires i <= n <= MOST
    ensures var v := Image(ChainList(0, n)); var s := v.disk(v.SectorOf(i));
      && (i < n ==> HasOneDirectory(s) && ClusterOf(s[0]) == i + 1 && NameByte(s[0]) != 0)
      && (i == n ==> IsEmpty(s))
  {
    hide IsDir, IsEnd, NameOf, ClusterOf, NameByte, ChainList, LetterName;
    var s := Image(ChainList(0, n)).disk(4 * i);
    assert Image(ChainList(0, n)).SectorOf(i) == 4 * i;
    forall k | 0 <= k < 16
      ensures IsEnd(s[k]) <==> i == n || k > 0
      ensures i < n && k == 0 ==> IsDir(s[k]) && NameOf(s[k]) == ChainName(i + 1) && ClusterOf(s[k]) == i + 1
    {
      ChainEntry(n, i, k);
    }
    if i < n { FirstOfName(s[0], ChainName(i + 1)); }
  }

  lemma FirstOfName(e: Entry, name: seq<byte>)
    requires NameOf(e) == name && |name| == 2 && 0 !in name
    ensures NameByte(e) != 0
  {
    assert NameOf(e)[0] == name[0];
  }

  /** What is read is what the volume holds. */
  ghost predicate IsStick(w: Walk, v: Volume) {
    forall t, k, i :: w.readable(t, k, i) && w.entryAt(t, k, i) == v.disk(v.SectorOf(k) + i)
  }

  /** The first 256 scans of a stick with 256 directories in each other: each finds the next one, and
      reads the right cluster. */
  method ChainScans(elsewhere: (nat, nat) -> byte, page: seq<byte>, ghost nonzero: nat) returns (w: Walk, cluster: nat)
    requires |page| == 0x1000 && 1000 <= nonzero < WORD_LIMIT && Walk.NameAddress(nonzero) >= MEMORY
    requires forall t :: elsewhere(t, Walk.NameAddress(nonzero)) != 0
    ensures fresh(w) && fresh(w.mem) && w.Ready() && w.tempDirPtrCounter == w.rootDirCounter2 == cluster == 256
    ensures w.rootFileCounter == 512 && w.lastName != 0 && w.IsBare(256, 256)
    ensures w.HeaderIs(w.lastName) && IsStick(w, Image(ChainList(0, 256)))
  {
    hide NameByte, HasOneDirectory, IsEmpty, ClusterOf, IsSpared, Walk.HeaderIs, Image, ChainList, LeadsOn, WordAt;
    hide Walk.Counted, Walk.Kept, Walk.HasNonzero, Walk.EndsAtRows, Volume.SectorOf;
    var v := Image(ChainList(0, 256));
    w := new Walk((t, k, i) => v.disk(v.SectorOf(k) + i), (t, k, i) => true, elsewhere, 512, page, nonzero);
    cluster := 0;
    for t := 0 to 256
      invariant w.Ready() && w.tempDirPtrCounter == w.rootDirCounter2 == cluster == t && w.rootFileCounter == 2 * t
      invariant w.maxEntries == 512 && IsStick(w, v)
      invariant t > 0 ==> w.lastName != 0 && w.HeaderIs(w.lastName)
      invariant fresh(w) && fresh(w.mem)
    {
      ChainSector(256, t);
      assert w.IsSingle(t, cluster);
      LoopSpares(t);
      w.CountedHas(t);
      var more;
      more, cluster := w.Turn(cluster);
    }
    ChainSector(256, 256);
  }

  /** After the last of them, with the head of the queue at its end, the row that lies over the
      queue's next cell makes the scan go on. */
  method ChainGoesOn(elsewhere: (nat, nat) -> byte, page: seq<byte>, ghost nonzero: nat) returns (w: Walk, more: bool)
    requires |page| == 0x1000 && 1000 <= nonzero < WORD_LIMIT && Walk.NameAddress(nonzero) >= MEMORY
    requires forall t :: elsewhere(t, Walk.NameAddress(nonzero)) != 0
    ensures var v := Image(Levels([Chain(0, 256)])); IsStick(w, v) && v.Stores(v.SectorOf(0), Chain(0, 256))
    ensures more && w.tempDirPtrCounter == 257 && w.rootDirCounter2 == 256
  {
    hide LeadsOn, IsEmpty, Levels, Image, Volume.Stores, Chain, ChainList, IsStick;
    hide HasGoodNames, HasGoodFiles, IsListing, IsStorableList;
    ChainIsStored(256);
    var cluster, next;
    w, cluster := ChainScans(elsewhere, page, nonzero);
    assert w.rootDirInfoCounter == 1025;
    LeadsOver(w.mem[..], w.lastName);
    more, next := w.Turn(cluster);
  }

  /** With 1025 rows the next header lies over cell 256. */
  lemma LeadsOver(m: seq<byte>, name: byte)
    requires |m| == MEMORY && name != 0 && m[INFO + 9 * 1024] != 0
    ensures LeadsOn(m, 256, name, 512, 1025, 256)
  {}
}
