/** What the directory table of a complete scan reads as, for every tree stored on a volume. */
module Index {
  import opened CString
  import opened DirectoryTree
  import opened Tables
  import opened Places
  import opened DirectoryTable
  import opened Fat16

  ghost predicate IsStored(v: Volume, d: Dir) {
    exists base :: v.Stores(base, d)
  }

  ghost predicate AreStored(v: Volume, ds: seq<Dir>) {
    forall i :: 0 <= i < |ds| ==> IsShort(ds[i].name) && IsStored(v, ds[i])
  }

  lemma SubStored(v: Volume, base: nat, d: Dir, i: nat)
    requires v.Stores(base, d) && i < |d.subs|
    ensures IsShort(d.subs[i].name) && IsStored(v, d.subs[i])
  {
    SubdirNames(v, base, v.Stop(base, 0, 0));
    StoredSub(v, base, d, i);
  }

  lemma StoredSub(v: Volume, base: nat, d: Dir, i: nat)
    requires v.Stores(base, d) && i < |d.subs|
    ensures var ss := v.SubdirsAt(base, v.Stop(base, 0, 0));
      i < |ss| && d.subs[i].name == ss[i].name && 0 !in ss[i].name && v.Stores(v.SectorOf(ss[i].cluster), d.subs[i])
  {}

  lemma SubsStored(v: Volume, d: Dir)
    requires IsStored(v, d)
    ensures AreStored(v, d.subs)
  {
    hide Volume.Stores, IsShort;
    var base :| v.Stores(base, d);
    forall i | 0 <= i < |d.subs| ensures IsShort(d.subs[i].name) && IsStored(v, d.subs[i]) { SubStored(v, base, d, i); }
  }

  lemma RootStored(v: Volume, root: Dir)
    requires v.Stores(v.SectorOf(0), root) && root.name == ROOT
    ensures AreStored(v, [root])
  {
    hide Volume.Stores;
  }

  lemma {:induction false} ChildrenStored(v: Volume, ds: seq<Dir>)
    requires AreStored(v, ds)
    ensures AreStored(v, Children(ds))
  {
    hide IsStored;
    if ds != [] {
      SubsStored(v, ds[0]);
      ChildrenStored(v, ds[1..]);
    }
  }

  lemma {:induction false} LevelsStored(v: Volume, ds: seq<Dir>)
    requires AreStored(v, ds)
    ensures AreStored(v, Levels(ds))
    decreases Sizes(ds)
  {
    hide IsStored;
    if ds != [] {
      SizesOfChildren(ds);
      ChildrenStored(v, ds);
      LevelsStored(v, Children(ds));
    }
  }

  /** A scan keeps names of eight bytes at most, and no zero in them. */
  lemma StoredAreShort(v: Volume, ds: seq<Dir>)
    requires AreStored(v, ds)
    ensures HasShortNames(ds)
  {
    hide IsStored, IsShort;
    forall i | 0 <= i < |ds| ensures forall x :: 0 <= x < |ds[i].subs| ==> IsShort(ds[i].subs[x].name) {
      SubsStored(v, ds[i]);
    }
  }

  /** For every tree that is stored and fits the two pages, the directory table of its scan reads as it
      is meant exactly when no directory has its row at 454. */
  lemma ScannedReads(scan: Scanner, v: Volume, root: Dir)
    requires v.Stores(v.SectorOf(0), root) && root.name == ROOT && scan.Indexes(Levels([root]))
    ensures var list := Levels([root]);
      ReadsAs(scan.dirInfo[..], InfoTexts(list)) <==> !exists i :: 0 <= i < |list| && Start(list, i) + 1 == 455
  {
    hide Volume.Stores, AreStored, Levels, Start, InfoTexts, InfoRows, ReadsAs;
    RootStored(v, root);
    LevelsStored(v, [root]);
    StoredAreShort(v, Levels([root]));
    IndexReads(scan.dirInfo[..], Levels([root]));
  }
}
