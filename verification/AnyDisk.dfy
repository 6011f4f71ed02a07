/** The scan of kernel/fs/fat16.c on any disk at all: damaged, cyclic, or with sectors that cannot
    be read. Its tables are pages one after the other, and no row is checked against the end of
    its table: with enough rows the tables run over the pages behind them, the queue among them. */
module AnyDisk {
  import opened CString
  import opened DirectoryTree
  import opened Words

  // Where the pages are, from fs_filenames on; the second page and the one before the queue
  // are not used. The model has the megabyte from fs_filenames on.
  const FILES := 0
  const DIRECTORIES := 0x2000
  const INFO := 0x3000
  const QUEUE := 0x5000
  const FILE_CLUSTER := 0x6000
  const FILE_LENGTH := 0x7000
  const MEMORY := 0x10_0000

  /** How many of the first `n` entries of a sector are end marks, directories, files. */
  function EndsIn(s: Sector, n: nat): (r: nat)
    requires n <= 16
    ensures r <= n
  {
    if n == 0 then 0 else EndsIn(s, n - 1) + if IsEnd(s[n - 1]) then 1 else 0
  }

  function DirsIn(s: Sector, n: nat): (r: nat)
    requires n <= 16
    ensures r <= n
  {
    if n == 0 then 0 else DirsIn(s, n - 1) + if IsDir(s[n - 1]) then 1 else 0
  }

  function FilesIn(s: Sector, n: nat): (r: nat)
    requires n <= 16
    ensures r <= n
  {
    if n == 0 then 0 else FilesIn(s, n - 1) + if IsFile(s[n - 1]) then 1 else 0
  }

  /** Which of the first `n` entries are of a kind. */
  ghost function Those(s: Sector, n: nat, kind: Entry -> bool): set<nat>
    requires n <= 16
  {
    set k: nat | k < n && kind(s[k])
  }

  lemma OneMoreOf(s: Sector, n: nat, kind: Entry -> bool)
    requires n < 16
    ensures |Those(s, n + 1, kind)| == |Those(s, n, kind)| + if kind(s[n]) then 1 else 0
  {
    assert Those(s, n + 1, kind) == Those(s, n, kind) + if kind(s[n]) then {n} else {};
  }

  /** Each entry counts once. */
  lemma {:induction false} CountsAre(s: Sector, n: nat)
    requires n <= 16
    ensures EndsIn(s, n) == |Those(s, n, IsEnd)| && DirsIn(s, n) == |Those(s, n, IsDir)| && FilesIn(s, n) == |Those(s, n, IsFile)|
  {
    hide IsEnd, IsDir, IsFile;
    if n > 0 {
      hide Those;
      CountsAre(s, n - 1);
      OneMoreOf(s, n - 1, IsEnd);
      OneMoreOf(s, n - 1, IsDir);
      OneMoreOf(s, n - 1, IsFile);
    }
  }

  /** One subdirectory and then end marks. */
  predicate HasOneDirectory(s: Sector) {
    IsDir(s[0]) && forall i :: 1 <= i < 16 ==> IsEnd(s[i])
  }

  lemma {:induction false} OneDirectoryCounts(s: Sector, n: nat)
    requires HasOneDirectory(s) && 1 <= n <= 16
    ensures EndsIn(s, n) == n - 1 && DirsIn(s, n) == 1 && FilesIn(s, n) == 0
  {
    if n > 1 {
      OneDirectoryCounts(s, n - 1);
    } else {
      assert EndsIn(s, 0) == DirsIn(s, 0) == FilesIn(s, 0) == 0;
    }
  }

  /** End marks only. */
  predicate IsEmpty(s: Sector) {
    forall i :: 0 <= i < 16 ==> IsEnd(s[i])
  }

  lemma EndIsNothing(e: Entry)
    ensures IsEnd(e) ==> !IsDir(e) && !IsFile(e)
  {}

  lemma {:induction false} EmptyCounts(s: Sector, n: nat)
    requires IsEmpty(s) && n <= 16
    ensures EndsIn(s, n) == n && DirsIn(s, n) == 0 && FilesIn(s, n) == 0
  {
    if n > 0 { EmptyCounts(s, n - 1); }
  }

  /** The first byte kept of a name. */
  function NameByte(e: Entry): byte {
    if e[0] > 127 then 0 else e[0]
  }

  /** From cell `n` on the queue's page is zero. */
  ghost predicate IsZeroFrom(m: seq<byte>, n: nat) {
    |m| == MEMORY && forall i :: QUEUE + 4 * n <= i < FILE_CLUSTER ==> m[i] == 0
  }

  /** Nothing has changed but from `lo` up to `hi`. */
  ghost predicate IsChangedIn(m: seq<byte>, m': seq<byte>, lo: nat, hi: nat) {
    |m| == |m'| && forall i :: 0 <= i < |m| && !(lo <= i < hi) ==> m'[i] == m[i]
  }

  /** What the memory starts with: zeroes but for a page that is not cleared, the name of the root
      in four pages, and a mark. */
  function FirstByte(page: seq<byte>, i: nat): byte
    requires |page| == 0x1000
  {
    if FILES <= i < FILES + 4 then ROOT[i - FILES]
    else if DIRECTORIES <= i < DIRECTORIES + 5 then (ROOT + [0])[i - DIRECTORIES]
    else if DIRECTORIES <= i < INFO then page[i - DIRECTORIES]
    else if INFO <= i < INFO + 4 then ROOT[i - INFO]
    else if i == INFO + 9 then 0x25
    else if INFO + 0x1000 <= i < INFO + 0x1004 then ROOT[i - INFO - 0x1000]
    else 0
  }

  /** Four bytes read as a word. */
  function WordAt(m: seq<byte>, at: nat): nat
    requires at + 4 <= |m|
  {
    m[at] as nat + m[at + 1] as nat * 0x100 + m[at + 2] as nat * 0x1_0000 + m[at + 3] as nat * 0x100_0000
  }

  /** The page holds these clusters and then zeroes. */
  ghost predicate IsQueue(queue: seq<byte>, clusters: seq<nat>) {
    && |queue| == 0x1000 && 4 * |clusters| <= |queue|
    && (forall k :: 0 <= k < |clusters| ==> WordAt(queue, 4 * k) == clusters[k])
    && (forall i :: 4 * |clusters| <= i < |queue| ==> queue[i] == 0)
  }

  /** The page with one more cluster. */
  function Queued(queue: seq<byte>, at: nat, v: nat): seq<byte>
    requires at + 4 <= |queue|
  {
    queue[..at] + [v % 0x100, v / 0x100 % 0x100, v / 0x1_0000 % 0x100, v / 0x100_0000 % 0x100] + queue[at + 4..]
  }

  lemma OneMoreQueued(queue: seq<byte>, clusters: seq<nat>, v: nat)
    requires IsQueue(queue, clusters) && 4 * |clusters| + 4 <= |queue| && v < 0x1_0000
    ensures IsQueue(Queued(queue, 4 * |clusters|, v), clusters + [v])
  {
    var queue' := Queued(queue, 4 * |clusters|, v);
    forall k | 0 <= k < |clusters| ensures WordAt(queue', 4 * k) == WordAt(queue, 4 * k) {}
  }

  /** The byte at `i` is written when a section with `n` children, from info row `r` on, is closed. */
  predicate IsInSection(r: nat, n: nat, i: nat) {
    || INFO + 9 * r <= i < INFO + 9 * (r + n)                          // the children
    || INFO + 9 * (r + n) <= i < INFO + 9 * (r + n) + 4                // the end mark
    || INFO + 9 * (r + n + 1) <= i < INFO + 9 * (r + n + 1) + 8        // the next header
    || i == INFO + 9 * (r + n + 2)                                     // its mark
  }

  /** Nothing from `lo` up to the arrays behind the queue has changed but in such a section. */
  ghost predicate IsChangedInSection(m: seq<byte>, m': seq<byte>, r: nat, n: nat, lo: nat) {
    |m| == |m'| == MEMORY && forall i :: lo <= i < FILE_CLUSTER && !IsInSection(r, n, i) ==> m'[i] == m[i]
  }

  /** The same for the header in row `r` and the mark after it. */
  ghost predicate IsChangedInHeader(m: seq<byte>, m': seq<byte>, r: nat, lo: nat) {
    && |m| == |m'| == MEMORY
    && forall i :: lo <= i < FILE_CLUSTER && !(INFO + 9 * r <= i < INFO + 9 * r + 8) && i != INFO + 9 * (r + 1) ==> m'[i] == m[i]
  }

  lemma SectionAndHeader(m: seq<byte>, m': seq<byte>, m'': seq<byte>, r: nat, n: nat, lo: nat, lo': nat)
    requires IsChangedInSection(m, m', r, n, lo) && IsChangedInHeader(m', m'', r + n + 1, lo') && lo <= lo'
    ensures IsChangedInSection(m, m'', r, n, lo')
  {}

  /** The cell `k` of the queue is not written then. */
  ghost predicate IsSpared(r: nat, n: nat, k: nat) {
    forall i :: QUEUE + 4 * k <= i < QUEUE + 4 * k + 4 ==> !IsInSection(r, n, i)
  }

  lemma SparedCell(m: seq<byte>, m': seq<byte>, r: nat, n: nat, k: nat, lo: nat)
    requires IsChangedInSection(m, m', r, n, lo) && IsSpared(r, n, k) && k < 1024 && lo <= QUEUE
    ensures WordAt(m', QUEUE + 4 * k) == WordAt(m, QUEUE + 4 * k)
  {}

  /** With `n` directories found, the last name not empty, `files` and `info` the last rows: the
      queue's cell `t` is not zero, and closing a section without children does not write it. */
  ghost predicate LeadsOn(m: seq<byte>, n: nat, name: byte, files: nat, info: nat, t: nat) {
    && |m| == MEMORY && 1 <= n <= 453 && name != 0 && 10 * (files + 3) <= DIRECTORIES
    && t <= n + 1 && WordAt(m, QUEUE + 4 * t) != 0 && IsSpared(info + 1, 0, t)
  }

  lemma Leads(m: seq<byte>, n: nat, name: byte, files: nat, info: nat, t: nat)
    requires LeadsOn(m, n, name, files, info, t)
    ensures |m| == MEMORY && 1 <= n <= 453 && name != 0 && 10 * (files + 3) <= DIRECTORIES
    ensures t <= n + 1 && WordAt(m, QUEUE + 4 * t) != 0 && IsSpared(info + 1, 0, t)
  {}

  function Max(a: nat, b: nat): nat {
    if a < b then b else a
  }

  class Walk {
    const entryAt: (nat, nat, nat) -> Sector   // what is read in a scan, of a cluster, as sector
    const readable: (nat, nat, nat) -> bool    // whether the read gives an address in range
    const elsewhere: (nat, nat) -> byte        // the rest of the memory, in each scan
    ghost const nonzero: nat                   // where some of it is not zero
    const maxEntries: nat                      // maximum_root_directory_entries
    const mem: array<byte>
    var rootFileCounter: nat
    var rootDirCounter2: nat
    var rootDirInfoCounter: nat
    var haveReadDirCounter: nat
    var dirClusterCounter: nat
    var dirCounterTemp: nat
    var tempDirPtrCounter: nat
    var haveReadDir: bool
    var noMoreDirectories: bool
    ghost var end: nat                         // the end of the highest row written to the tables
    ghost var fourSectors: bool                // whether a scan has left after four sectors
    ghost var lastName: byte                   // the first byte of the last name found
    ghost var clusters: seq<nat>               // the clusters of the directories found
    ghost var queue: seq<byte>                 // what the queue's page would be without rows over it
    ghost var intact: bool                     // whether no row had reached any cell when it was read

    /** The names are read at every ninth byte, over the whole memory if need be. */
    static function NameAddress(x: nat): nat {
      (DIRECTORIES + 9 * (x - 1)) % WORD_LIMIT
    }

    constructor (entryAt: (nat, nat, nat) -> Sector, readable: (nat, nat, nat) -> bool, elsewhere: (nat, nat) -> byte,
                 maxEntries: nat, page: seq<byte>, ghost nonzero: nat)
      requires |page| == 0x1000
      requires 1000 <= nonzero < WORD_LIMIT && NameAddress(nonzero) >= MEMORY && forall t :: elsewhere(t, NameAddress(nonzero)) != 0
      ensures Ready() && fresh(mem) && tempDirPtrCounter == 0
      ensures this.entryAt == entryAt && this.readable == readable && this.maxEntries == maxEntries
      ensures end <= QUEUE && rootDirCounter2 == 0 && rootFileCounter == 0 && !fourSectors && intact
    {
      this.entryAt, this.readable, this.elsewhere, this.nonzero, this.maxEntries := entryAt, readable, elsewhere, nonzero, maxEntries;
      mem := new byte[MEMORY](i requires 0 <= i < MEMORY => FirstByte(page, i));
      rootFileCounter, rootDirCounter2, rootDirInfoCounter, haveReadDirCounter := 0, 0, 1, 0;
      dirClusterCounter, dirCounterTemp, tempDirPtrCounter := 0, 0, 0;
      haveReadDir, noMoreDirectories := false, false;
      end, lastName, fourSectors := INFO + 18, 0, false;
      clusters, queue, intact := [], seq(0x1000, _ => 0), true;
    }

    /** Past the highest row the queue's page is as if there were no rows. */
    ghost predicate QueueKept()
      reads this`end, this`clusters, this`queue, mem
    {
      && mem.Length == MEMORY && IsQueue(queue, clusters)
      && forall i :: QUEUE <= i < FILE_CLUSTER && end <= i ==> mem[i] == queue[i - QUEUE]
    }

    /** Besides, while no file row has reached the names, the last one found is where it was written. */
    ghost predicate Kept()
      reads this`rootDirCounter2, this`rootFileCounter, this`end, this`lastName, this`clusters, this`queue, mem
    {
      && mem.Length == MEMORY && rootDirCounter2 <= 455 && |clusters| == rootDirCounter2 && QueueKept()
      && (10 * rootFileCounter + 10 <= DIRECTORIES && rootDirCounter2 >= 1 ==> mem[DIRECTORIES + 9 * rootDirCounter2] == lastName)
    }

    /** A row of one of the two tables. */
    ghost predicate IsRow(at: nat)
      reads this`rootFileCounter
    {
      (INFO <= at || at == FILES + 10 * rootFileCounter) && at + 10 <= MEMORY
    }

    method PutByte(at: nat, b: byte)
      requires Kept() && IsRow(at)
      modifies this`end, mem
      ensures Kept() && end == Max(old(end), at + 9) && mem[at] == b && IsChangedIn(old(mem[..]), mem[..], at, at + 1)
    {
      mem[at] := b;
      end := Max(end, at + 9);
    }

    method PutEod(at: nat, ghost width: nat)
      requires Kept() && IsRow(at) && 9 <= width <= 10
      modifies this`end, mem
      ensures Kept() && end == Max(old(end), at + width) && IsChangedIn(old(mem[..]), mem[..], at, at + 4)
    {
      mem[at] := 0x65;
      mem[at + 1] := 0x6f;
      mem[at + 2] := 0x64;
      mem[at + 3] := 0;
      end := Max(end, at + width);
    }

    /** The eight-byte copy of a name to a row. */
    method CopyCell(at: nat, from: nat)
      requires Kept() && IsRow(at) && from + 8 <= MEMORY
      modifies this`end, mem
      ensures Kept() && end == Max(old(end), at + 9) && mem[at] == old(mem[from])
      ensures IsChangedIn(old(mem[..]), mem[..], at, at + 8)
    {
      for b := 0 to 8
        invariant b > 0 ==> mem[at] == old(mem[from])
        invariant b == 0 ==> mem[..] == old(mem[..])
        invariant IsChangedIn(old(mem[..]), mem[..], at, at + 8)
        modifies mem
      {
        mem[at + b] := mem[from + b];
      }
      end := Max(end, at + 9);
    }

    /** The same to a row of each table, byte by byte in turn. */
    method CopyHeader(file: nat, info: nat, from: nat)
      requires Kept() && IsRow(file) && IsRow(info) && info >= INFO && from + 8 <= MEMORY
      modifies this`end, mem
      ensures Kept() && end == Max(Max(old(end), file + 10), info + 9)
      ensures file + 8 <= info ==> mem[info] == old(mem[from])
      ensures forall i :: 0 <= i < MEMORY && !(file <= i < file + 8) && !(info <= i < info + 8) ==> mem[i] == old(mem[i])
    {
      for b := 0 to 8
        invariant b == 0 ==> mem[..] == old(mem[..])
        invariant b > 0 && file + 8 <= info ==> mem[info] == old(mem[from])
        invariant forall i :: 0 <= i < MEMORY && !(file <= i < file + 8) && !(info <= i < info + 8) ==> mem[i] == old(mem[i])
        modifies mem
      {
        mem[file + b] := mem[from + b];
        mem[info + b] := mem[from + b];
      }
      end := Max(Max(end, file + 10), info + 9);
    }

    /** A word of the queue or of one of the arrays behind it. */
    method PutWord(at: nat, v: nat)
      requires mem.Length == MEMORY && at + 4 <= MEMORY
      modifies mem
      ensures IsChangedIn(old(mem[..]), mem[..], at, at + 4) && mem[at] == v % 0x100 && mem[at + 1] == v / 0x100 % 0x100
      ensures mem[at + 2] == v / 0x1_0000 % 0x100 && mem[at + 3] == v / 0x100_0000 % 0x100
    {
      mem[at] := v % 0x100;
      mem[at + 1] := v / 0x100 % 0x100;
      mem[at + 2] := v / 0x1_0000 % 0x100;
      mem[at + 3] := v / 0x100_0000 % 0x100;
    }

    /** The name field of any entry, however it is filled. */
    method CopyName(at: nat, e: Entry)
      requires mem.Length == MEMORY && at + 9 <= MEMORY
      modifies mem
      ensures IsChangedIn(old(mem[..]), mem[..], at, at + 9)
      ensures e[0] != 0 && e[0] != 0x20 ==> mem[at] == NameByte(e)
    {
      var length := 8;
      var c := 0;
      while c < 8
        invariant c <= 8 && length <= 8 && (c > 0 && e[0] != 0x20 ==> length > 8 - c) && (c == 0 ==> length == 8)
        invariant IsChangedIn(old(mem[..]), mem[..], at, at + 9)
      {
        if e[c] == 0x20 {
          if length > 0 { length := length - 1; }
          mem[at + c] := 0;
        }
        c := c + 1;
      }
      c := 0;
      while e[c] != 0 && c < length
        invariant c <= length && IsChangedIn(old(mem[..]), mem[..], at, at + 9)
        invariant c > 0 ==> mem[at] == NameByte(e)
        decreases length - c
      {
        mem[at + c] := if e[c] > 127 then 0 else e[c];
        c := c + 1;
      }
      mem[at + c] := 0;
    }

    /** The cluster in cell `k` of the queue, read as a word. */
    function QueueCell(k: nat): nat
      requires mem.Length == MEMORY && k < 1024
      reads mem
    {
      WordAt(mem[..], QUEUE + 4 * k)
    }

    method RecordDirectory(e: Entry, counter2: nat)
      requires Kept() && IsDir(e) && dirClusterCounter + counter2 == rootDirCounter2 <= 454
      modifies this`haveReadDirCounter, this`haveReadDir, this`rootDirCounter2, this`lastName, this`clusters, this`queue, mem
      ensures Kept() && haveReadDir && haveReadDirCounter == old(haveReadDirCounter) + 1
      ensures rootDirCounter2 == old(rootDirCounter2) + 1 && lastName == NameByte(e)
      ensures clusters == old(clusters) + [ClusterOf(e)] && QueueCell(old(rootDirCounter2)) == ClusterOf(e)
    {
      hide NameByte, WordAt, IsQueue, ClusterOf, IsDir;
      ghost var n := rootDirCounter2;
      ListedStarts(e);
      haveReadDirCounter := haveReadDirCounter + 1;
      haveReadDir := true;
      rootDirCounter2 := rootDirCounter2 + 1;
      PutCluster(dirClusterCounter + counter2, e);
      ghost var now := mem[..];
      CopyName(DIRECTORIES + 9 * rootDirCounter2, e);
      StillQueued(now, n);
      lastName := NameByte(e);
    }

    method PutCluster(at: nat, e: Entry)
      requires QueueKept() && at == |clusters| <= 454
      modifies this`clusters, this`queue, mem
      ensures QueueKept() && clusters == old(clusters) + [ClusterOf(e)] && QueueCell(at) == ClusterOf(e)
    {
      hide WordAt, IsQueue, ClusterOf;
      var v := ClusterOf(e);
      ClusterIsShort(e);
      QueueFits(queue, clusters);
      PutWord(QUEUE + 4 * at, v);
      OneMoreQueued(queue, clusters, v);
      WordBack(mem[..], QUEUE + 4 * at, v);
      queue, clusters := Queued(queue, 4 * at, v), clusters + [v];
    }

    /** A name leaves the queue as it was. */
    lemma StillQueued(was: seq<byte>, k: nat)
      requires k <= 454 && |was| == MEMORY == mem.Length && IsQueue(queue, clusters)
      requires forall i :: QUEUE <= i < FILE_CLUSTER ==> mem[i] == was[i]
      requires forall i :: QUEUE <= i < FILE_CLUSTER && end <= i ==> was[i] == queue[i - QUEUE]
      ensures QueueKept() && QueueCell(k) == WordAt(was, QUEUE + 4 * k)
    {}

    static lemma ClusterIsShort(e: Entry)
      ensures ClusterOf(e) < 0x1_0000
    {}

    static lemma ListedStarts(e: Entry)
      requires IsDir(e)
      ensures e[0] != 0 && e[0] != 0x20
    {}

    static lemma QueueFits(queue: seq<byte>, clusters: seq<nat>)
      requires IsQueue(queue, clusters)
      ensures |queue| == 0x1000
    {}

    static lemma WordBack(m: seq<byte>, at: nat, v: nat)
      requires at + 4 <= |m| && v < 0x1_0000 && m[at] == v % 0x100 && m[at + 1] == v / 0x100 % 0x100
      requires m[at + 2] == v / 0x1_0000 % 0x100 && m[at + 3] == v / 0x100_0000 % 0x100
      ensures WordAt(m, at) == v
    {}

    /** The name of a file, and the mark of a text. */
    method PutFileName(at: nat, e: Entry)
      requires mem.Length == MEMORY && at + 10 <= MEMORY
      modifies mem
      ensures IsChangedIn(old(mem[..]), mem[..], at, at + 10)
    {
      CopyName(at, e);
      if e[8..11] == TXT {
        mem[at + 8] := 0x74;
        mem[at + 9] := 0;
      }
    }

    method RecordFile(e: Entry)
      requires Kept() && rootFileCounter <= 60_500
      modifies this`rootFileCounter, this`end, mem
      ensures Kept() && rootFileCounter == old(rootFileCounter) + 1 && end == Max(old(end), 10 * rootFileCounter + 10)
    {
      hide ClusterOf, LengthOf, IsQueue;
      rootFileCounter := rootFileCounter + 1;
      PutWord(FILE_CLUSTER + 4 * rootFileCounter, ClusterOf(e));
      PutWord(FILE_LENGTH + 4 * rootFileCounter, LengthOf(e));
      var at := FILES + rootFileCounter * 10;
      PutFileName(at, e);
      end := Max(end, at + 10);
    }

    /** The rest of the memory does not change while names are looked for, and has a byte that is not zero. */
    ghost predicate HasNonzero() {
      1000 <= nonzero < WORD_LIMIT && NameAddress(nonzero) >= MEMORY && forall t :: elsewhere(t, NameAddress(nonzero)) != 0
    }

    /** While no scan has left after four sectors, the highest rows are those of the counters. */
    ghost predicate EndsAtRows()
      reads this`fourSectors, this`end, this`rootDirInfoCounter, this`rootFileCounter
    {
      !fourSectors ==> end == Max(INFO + 9 * (rootDirInfoCounter + 1), FILES + 10 * (rootFileCounter + 1))
    }

    /** Where the counters are between scan `t - 1` and what scan `t` writes. */
    ghost predicate Counted(t: nat)
      reads this`rootDirCounter2, this`rootFileCounter, this`end, this`lastName, this`clusters, this`queue, this`intact
      reads this`dirClusterCounter, this`rootDirInfoCounter, this`dirCounterTemp, this`noMoreDirectories, mem
    {
      && Kept() && HasNonzero() && t <= 909 && !noMoreDirectories && dirCounterTemp == t
      && (intact ==> t <= dirClusterCounter) && (end <= QUEUE ==> intact)
      && t <= 455 + dirClusterCounter && dirClusterCounter <= 454
      && rootDirInfoCounter == 1 + 3 * t + dirClusterCounter
      && end >= FILES + 10 * (rootFileCounter + 1)
    }

    /** In scan `t`, `counter2` directories have been found. */
    ghost predicate Scanning(t: nat, counter2: nat)
      reads this, mem
    {
      && Counted(t) && tempDirPtrCounter == t
      && rootDirCounter2 == haveReadDirCounter == dirClusterCounter + counter2 && (haveReadDir <==> counter2 > 0)
    }

    /** Between two scans. */
    ghost predicate Ready()
      reads this, mem
    {
      Scanning(tempDirPtrCounter, 0) && rootFileCounter <= 66 * tempDirPtrCounter && EndsAtRows()
    }

    /** Lines 342-456: one entry. */
    method ScanEntry(e: Entry, counter0: nat, ghost t: nat) returns (counter2: nat)
      requires Scanning(t, counter0) && rootDirCounter2 <= 454 && rootFileCounter <= 60_500 && EndsAtRows()
      modifies this`rootDirCounter2, this`haveReadDir, this`haveReadDirCounter, this`lastName, this`rootFileCounter, this`end, mem
      modifies this`clusters, this`queue
      ensures Scanning(t, counter2) && EndsAtRows() && end >= old(end)
      ensures clusters == old(clusters) + (if IsDir(e) then [ClusterOf(e)] else [])
      ensures IsDir(e) ==> QueueCell(old(rootDirCounter2)) == ClusterOf(e)
      ensures !IsFile(e) ==> end == old(end)
      ensures !IsDir(e) && !IsFile(e) ==> mem[..] == old(mem[..])
      ensures rootDirCounter2 == old(rootDirCounter2) + (if IsDir(e) then 1 else 0)
      ensures rootFileCounter == old(rootFileCounter) + (if IsFile(e) then 1 else 0)
      ensures lastName == if IsDir(e) then NameByte(e) else old(lastName)
    {
      hide Kept, HasNonzero, NameByte, IsListed;
      counter2 := counter0;
      if IsDir(e) {
        RecordDirectory(e, counter2);
        counter2 := counter2 + 1;
      } else if IsFile(e) {
        RecordFile(e);
      }
    }

    /** Lines 331-462: one sector. */
    method ScanSector(s: Sector, ends0: nat, counter0: nat, ghost t: nat)
      returns (rootDirectoryEnd: nat, rootDirCounter: nat, counter2: nat)
      requires Scanning(t, counter0) && ends0 < 4 && rootFileCounter <= 60_400 && EndsAtRows()
      modifies this`rootDirCounter2, this`haveReadDir, this`haveReadDirCounter, this`lastName, this`rootFileCounter, this`end, mem
      modifies this`clusters, this`queue
      ensures Scanning(t, counter2) && rootDirectoryEnd <= 4 && rootDirCounter <= 16 && EndsAtRows() && end >= old(end)
      ensures rootDirectoryEnd == 4 || rootDirCounter == 16 || rootDirCounter2 == 455
      ensures rootDirectoryEnd == ends0 + EndsIn(s, rootDirCounter)
      ensures rootDirCounter2 == old(rootDirCounter2) + DirsIn(s, rootDirCounter)
      ensures rootFileCounter == old(rootFileCounter) + FilesIn(s, rootDirCounter)
      ensures HasOneDirectory(s) && rootDirCounter >= 1 ==> lastName == NameByte(s[0])
      ensures HasOneDirectory(s) && rootDirCounter >= 1 ==>
        end == old(end) && clusters == old(clusters) + [ClusterOf(s[0])] && QueueCell(old(rootDirCounter2)) == ClusterOf(s[0])
      ensures IsEmpty(s) ==> mem[..] == old(mem[..]) && end == old(end) && clusters == old(clusters) && lastName == old(lastName)
    {
      assert rootDirCounter2 <= 455;
      hide Kept, HasNonzero, NameByte, ClusterOf, WordAt, Counted, IsDir, IsFile;
      rootDirectoryEnd, rootDirCounter, counter2 := ends0, 0, counter0;
      while rootDirectoryEnd < 4 && rootDirCounter < 16 && rootDirCounter2 < 455
        invariant Scanning(t, counter2) && EndsAtRows() && end >= old(end)
        invariant rootDirectoryEnd <= 4 && rootDirCounter <= 16 && rootDirCounter2 <= 455
        invariant rootDirectoryEnd == ends0 + EndsIn(s, rootDirCounter)
        invariant rootDirCounter2 == old(rootDirCounter2) + DirsIn(s, rootDirCounter)
        invariant rootFileCounter == old(rootFileCounter) + FilesIn(s, rootDirCounter)
        invariant HasOneDirectory(s) && rootDirCounter >= 1 ==> lastName == NameByte(s[0])
        invariant HasOneDirectory(s) && rootDirCounter >= 1 ==>
          end == old(end) && clusters == old(clusters) + [ClusterOf(s[0])] && QueueCell(old(rootDirCounter2)) == ClusterOf(s[0])
        invariant rootDirCounter == 0 || IsEmpty(s) ==>
          mem[..] == old(mem[..]) && end == old(end) && clusters == old(clusters) && lastName == old(lastName)
        decreases 16 - rootDirCounter
      {
        var e := s[rootDirCounter];
        EndIsNothing(e);
        counter2 := ScanEntry(e, counter2, t);
        if IsEnd(e) { rootDirectoryEnd := rootDirectoryEnd + 1; }
        rootDirCounter := rootDirCounter + 1;
      }
    }

    function ByteAt(at: nat): byte
      requires mem.Length == MEMORY
      reads this`tempDirPtrCounter, mem
    {
      if at < MEMORY then mem[at] else elsewhere(tempDirPtrCounter, at)
    }

    /** Lines 529-533: from the counter on to a name that is not empty, or to 456. The counter can
        be past 456 already; then the walk goes on to a byte that is not zero. */
    method SkipEmptyNames() returns (tempDirPtrCounter2: nat)
      requires mem.Length == MEMORY && HasNonzero() && tempDirPtrCounter <= 909
      ensures tempDirPtrCounter2 >= tempDirPtrCounter
      ensures tempDirPtrCounter >= 455 ==> tempDirPtrCounter2 >= 455
      ensures tempDirPtrCounter <= rootDirCounter2 + 1 <= 455 && mem[DIRECTORIES + 9 * rootDirCounter2] != 0 ==>
        tempDirPtrCounter2 <= rootDirCounter2 + 1
    {
      var start := tempDirPtrCounter;
      tempDirPtrCounter2 := start;
      while ByteAt(NameAddress(tempDirPtrCounter2)) == 0 && tempDirPtrCounter2 != 456
        invariant start <= tempDirPtrCounter2 <= if start <= 456 then 456 else nonzero
        invariant start <= rootDirCounter2 + 1 <= 455 && mem[DIRECTORIES + 9 * rootDirCounter2] != 0 ==>
          tempDirPtrCounter2 <= rootDirCounter2 + 1
        decreases nonzero - tempDirPtrCounter2
      {
        tempDirPtrCounter2 := (tempDirPtrCounter2 + 1) % WORD_LIMIT;
      }
    }

    method NextFileRow()
      requires Kept()
      modifies this`rootFileCounter
      ensures Kept() && rootFileCounter == old(rootFileCounter) + 1
    {
      rootFileCounter := rootFileCounter + 1;
    }

    /** The children of a directory and the end marks (lines 484-516 and 661-691). After four
        sectors the copy of a name has a counter that is not set back, so only the first is copied. */
    method PutChildren(four: bool, counter2: nat)
      requires Kept() && rootDirCounter2 == haveReadDirCounter == dirClusterCounter + counter2 <= 454
      requires haveReadDir <==> counter2 > 0
      requires rootFileCounter <= 60_500 && rootDirInfoCounter <= 3500
      modifies this`rootFileCounter, this`rootDirInfoCounter, this`end, mem
      ensures Kept() && rootFileCounter == old(rootFileCounter) + 1 && rootDirInfoCounter == old(rootDirInfoCounter) + counter2 + 2
      ensures end == Max(Max(old(end), INFO + 9 * rootDirInfoCounter), FILES + 10 * (rootFileCounter + 1))
      ensures IsChangedInSection(old(mem[..]), mem[..], old(rootDirInfoCounter) + 1, counter2, FILES + 10 * (rootFileCounter + 1))
    {
      hide Kept;
      NextFileRow();
      rootDirInfoCounter := rootDirInfoCounter + 1;
      if haveReadDir { PutNames(four, counter2); }
      PutEod(INFO + 9 * rootDirInfoCounter, 9);
      rootDirInfoCounter := rootDirInfoCounter + 1;
      PutEod(FILES + 10 * rootFileCounter, 10);
      PutZeroWords();
    }

    method PutNames(four: bool, ghost counter2: nat)
      requires Kept() && haveReadDirCounter == dirClusterCounter + counter2 <= 454 && rootDirInfoCounter <= 3600
      modifies this`rootDirInfoCounter, this`end, mem
      ensures Kept() && rootDirInfoCounter == old(rootDirInfoCounter) + counter2
      ensures old(end) <= end <= Max(old(end), INFO + 9 * rootDirInfoCounter)
      ensures IsChangedIn(old(mem[..]), mem[..], INFO + 9 * old(rootDirInfoCounter), INFO + 9 * rootDirInfoCounter)
    {
      hide Kept;
      var b := dirClusterCounter + 1;
      while b <= haveReadDirCounter
        invariant dirClusterCounter + 1 <= b <= haveReadDirCounter + 1
        invariant rootDirInfoCounter == old(rootDirInfoCounter) + b - dirClusterCounter - 1
        invariant Kept() && old(end) <= end <= Max(old(end), INFO + 9 * rootDirInfoCounter)
        invariant IsChangedIn(old(mem[..]), mem[..], INFO + 9 * old(rootDirInfoCounter), INFO + 9 * rootDirInfoCounter)
        modifies this`rootDirInfoCounter, this`end, mem
      {
        if !four || b == dirClusterCounter + 1 {
          CopyCell(INFO + 9 * rootDirInfoCounter, DIRECTORIES + 9 * b);
        }
        rootDirInfoCounter := rootDirInfoCounter + 1;
        b := b + 1;
      }
    }

    /** The cluster and the length beside a row that is no file's. */
    method PutZeroWords()
      requires Kept() && rootFileCounter <= 60_600
      modifies mem
      ensures Kept() && IsChangedIn(old(mem[..]), mem[..], FILE_CLUSTER, MEMORY)
    {
      PutWord(FILE_CLUSTER + 4 * rootFileCounter, 0);
      PutWord(FILE_LENGTH + 4 * rootFileCounter, 0);
    }

    /** The file rows have not reached the names, nor the others the arrays behind the queue. */
    ghost predicate IsApart()
      reads this`rootFileCounter, this`rootDirInfoCounter, this`dirCounterTemp
    {
      FILES + 10 * (rootFileCounter + 1) <= DIRECTORIES && INFO + 9 * rootDirInfoCounter <= FILE_CLUSTER && dirCounterTemp <= 455
    }

    /** The header of the next directory. After four sectors and with directories found the mark
        goes where a tenth byte a row would put it. */
    method PutHeader(wide: bool)
      requires Kept() && rootFileCounter <= 60_600 && rootDirInfoCounter <= 4000 && dirCounterTemp <= 1000
      modifies this`rootDirInfoCounter, this`end, mem
      ensures Kept() && rootDirInfoCounter == old(rootDirInfoCounter) + 1
      ensures end >= Max(Max(old(end), FILES + 10 * (rootFileCounter + 1)), INFO + 9 * rootDirInfoCounter)
      ensures !wide ==> end == Max(Max(old(end), FILES + 10 * (rootFileCounter + 1)), INFO + 9 * (rootDirInfoCounter + 1))
      ensures !wide && IsApart() ==>
        mem[INFO + 9 * old(rootDirInfoCounter)] == mem[DIRECTORIES + 9 * dirCounterTemp] == old(mem[DIRECTORIES + 9 * dirCounterTemp])
      ensures !wide ==> IsChangedInHeader(old(mem[..]), mem[..], old(rootDirInfoCounter), FILES + 10 * (rootFileCounter + 1))
    {
      hide Kept;
      CopyHeader(FILES + 10 * rootFileCounter, INFO + 9 * rootDirInfoCounter, DIRECTORIES + 9 * dirCounterTemp);
      PutZeroWords();
      rootDirInfoCounter := rootDirInfoCounter + 1;
      PutByte(INFO + (if wide then 10 else 9) * rootDirInfoCounter, 0x25);
    }

    /** A cell past the highest row. */
    lemma CellRead(k: nat)
      requires Kept() && k < 1024 && end <= QUEUE + 4 * k
      ensures QueueCell(k) == if k < |clusters| then clusters[k] else 0
    {
      assert QueueCell(k) == WordAt(queue, 4 * k);
    }

    /** The rest of a section and the header of the next one, if the scan is to go on. */
    method CloseSection(four: bool, counter2: nat) returns (more: bool)
      requires Kept() && rootDirCounter2 == haveReadDirCounter == dirClusterCounter + counter2 <= 454
      requires haveReadDir <==> counter2 > 0
      requires rootFileCounter <= 60_500 && rootDirInfoCounter <= 3500 && HasNonzero()
      requires tempDirPtrCounter <= 909 && dirCounterTemp <= 1000
      modifies this`rootFileCounter, this`rootDirInfoCounter, this`dirClusterCounter
      modifies this`haveReadDir, this`noMoreDirectories, this`end, this`intact, mem
      ensures Kept() && dirClusterCounter == old(dirClusterCounter) + counter2 && (counter2 > 0 ==> more)
      ensures noMoreDirectories == (old(noMoreDirectories) || !more) && end >= old(end)
      ensures more ==> !haveReadDir && rootFileCounter == old(rootFileCounter) + 2
      ensures more ==> rootDirInfoCounter == old(rootDirInfoCounter) + counter2 + 3
      ensures more && counter2 == 0 ==> tempDirPtrCounter <= 454
      ensures more && counter2 == 0 && end <= QUEUE + 4 * tempDirPtrCounter ==> tempDirPtrCounter < rootDirCounter2
      ensures intact == (old(intact) && (more ==> end <= QUEUE + 4 * tempDirPtrCounter))
      ensures more && !four ==>
        IsChangedInSection(old(mem[..]), mem[..], old(rootDirInfoCounter) + 1, counter2, FILES + 10 * (rootFileCounter + 1))
      ensures !four && counter2 == 0 && old(IsLeading()) ==> more
      ensures more ==> end >= Max(old(end), FILES + 10 * (rootFileCounter + 1))
      ensures more && !four ==> end == Max(Max(old(end), FILES + 10 * (rootFileCounter + 1)), INFO + 9 * (rootDirInfoCounter + 1))
      ensures more && !four && IsApart() ==> mem[INFO + 9 * (rootDirInfoCounter - 1)] == mem[DIRECTORIES + 9 * dirCounterTemp]
    {
      hide Kept, HasNonzero, IsApart, IsChangedInSection, IsChangedInHeader, LeadsOn, QueueCell;
      ghost var was := mem[..];
      EndSection(four, counter2);
      ghost var now := mem[..];
      more := OpenNext(four);
      if !four && more {
        ghost var lo := FILES + 10 * rootFileCounter;
        SectionAndHeader(was, now, mem[..], old(rootDirInfoCounter) + 1, counter2, lo, lo + 10);
      }
      intact := intact && (more ==> end <= QUEUE + 4 * tempDirPtrCounter);
    }

    /** The rest of a section. */
    method EndSection(four: bool, counter2: nat)
      requires Kept() && rootDirCounter2 == haveReadDirCounter == dirClusterCounter + counter2 <= 454
      requires haveReadDir <==> counter2 > 0
      requires rootFileCounter <= 60_500 && rootDirInfoCounter <= 3500
      modifies this`rootFileCounter, this`rootDirInfoCounter, this`dirClusterCounter, this`end, mem
      ensures Kept() && dirClusterCounter == old(dirClusterCounter) + counter2
      ensures rootFileCounter == old(rootFileCounter) + 2 && rootDirInfoCounter == old(rootDirInfoCounter) + counter2 + 2
      ensures end == Max(Max(old(end), INFO + 9 * rootDirInfoCounter), FILES + 10 * rootFileCounter)
      ensures IsChangedInSection(old(mem[..]), mem[..], old(rootDirInfoCounter) + 1, counter2, FILES + 10 * rootFileCounter)
      ensures counter2 == 0 && old(IsLeading()) ==> tempDirPtrCounter <= rootDirCounter2 + 1 <= 454
      ensures counter2 == 0 && old(IsLeading()) ==> mem[DIRECTORIES + 9 * rootDirCounter2] != 0 && QueueCell(tempDirPtrCounter) != 0
    {
      hide Kept, IsChangedInSection, IsSpared, WordAt, LeadsOn;
      ghost var leads, was := counter2 == 0 && IsLeading(), mem[..];
      if leads { Leads(was, rootDirCounter2, lastName, rootFileCounter, rootDirInfoCounter, tempDirPtrCounter); }
      PutChildren(four, counter2);
      if leads {
        SparedCell(was, mem[..], old(rootDirInfoCounter) + 1, 0, tempDirPtrCounter, FILES + 10 * (rootFileCounter + 1));
        NameIsKept();
      }
      dirClusterCounter := dirClusterCounter + counter2;
      NextFileRow();
    }

    /** The header of the next directory, if the scan is to go on. */
    method OpenNext(four: bool) returns (more: bool)
      requires Kept() && HasNonzero() && rootDirCounter2 <= 454 && tempDirPtrCounter <= 909 && dirCounterTemp <= 1000
      requires rootFileCounter <= 60_600 && rootDirInfoCounter <= 4000
      modifies this`rootDirInfoCounter, this`haveReadDir, this`noMoreDirectories, this`end, mem
      ensures Kept() && (old(haveReadDir) ==> more) && noMoreDirectories == (old(noMoreDirectories) || !more) && end >= old(end)
      ensures more ==> !haveReadDir && rootDirInfoCounter == old(rootDirInfoCounter) + 1
      ensures more ==> end >= Max(old(end), FILES + 10 * (rootFileCounter + 1))
      ensures more && !four ==> end == Max(Max(old(end), FILES + 10 * (rootFileCounter + 1)), INFO + 9 * (rootDirInfoCounter + 1))
      ensures more && !four && IsApart() ==> mem[INFO + 9 * (rootDirInfoCounter - 1)] == mem[DIRECTORIES + 9 * dirCounterTemp]
      ensures more && !four ==> IsChangedInHeader(old(mem[..]), mem[..], old(rootDirInfoCounter), FILES + 10 * (rootFileCounter + 1))
      ensures more && !old(haveReadDir) ==> tempDirPtrCounter <= 454
      ensures more && !old(haveReadDir) && end <= QUEUE + 4 * tempDirPtrCounter ==> tempDirPtrCounter < rootDirCounter2
      ensures !four && !old(haveReadDir) && tempDirPtrCounter <= rootDirCounter2 + 1 <= 454 ==>
        old(mem[DIRECTORIES + 9 * rootDirCounter2]) != 0 && old(QueueCell(tempDirPtrCounter)) != 0 ==> more
    {
      hide Kept, HasNonzero, IsApart, IsChangedInHeader, QueueCell;
      if !haveReadDir {
        more := FindNext(four);
        if !more {
          noMoreDirectories := true;
          return;
        }
        PutHeader(false);
      } else {
        PutHeader(four);
        haveReadDir := false;
        more := true;
      }
    }

    lemma NameIsKept()
      requires Kept() && rootDirCounter2 >= 1 && 10 * rootFileCounter + 10 <= DIRECTORIES
      ensures mem[DIRECTORIES + 9 * rootDirCounter2] == lastName
    {}

    ghost predicate IsLeading()
      reads this`rootDirCounter2, this`lastName, this`rootFileCounter, this`tempDirPtrCounter, this`rootDirInfoCounter, mem
    {
      LeadsOn(mem[..], rootDirCounter2, lastName, rootFileCounter, rootDirInfoCounter, tempDirPtrCounter)
    }

    /** Lines 465-606, or 648-775 after four sectors. */
    method Close(four: bool, counter2: nat, ghost t: nat) returns (more: bool)
      requires Scanning(t, counter2) && rootFileCounter <= 66 * t + 64 && EndsAtRows()
      modifies this, mem
      ensures tempDirPtrCounter == t && rootDirCounter2 == old(rootDirCounter2) && lastName == old(lastName) && end >= old(end)
      ensures !four ==> fourSectors == old(fourSectors)
      ensures Kept() && (end <= QUEUE ==> intact) && if more then IsClosed(t, old(rootFileCounter)) else noMoreDirectories
      ensures counter2 > 0 && old(rootDirCounter2) <= 454 ==> more
      ensures !four && more && IsApart() ==> mem[INFO + 9 * (rootDirInfoCounter - 1)] == mem[DIRECTORIES + 9 * (t + 1)]
      ensures clusters == old(clusters) && intact == (old(intact) && (more ==> end <= QUEUE + 4 * t))
      ensures more && intact ==> t < rootDirCounter2
      ensures more && !four ==>
        IsChangedInSection(old(mem[..]), mem[..], old(rootDirInfoCounter) + 1, counter2, FILES + 10 * (rootFileCounter + 1))
      ensures !four && counter2 == 0 && old(IsLeading()) ==> more
    {
      hide Kept, HasNonzero, IsApart, LeadsOn, IsChangedInSection;
      dirCounterTemp := dirCounterTemp + 1;
      if rootDirCounter2 > 454 {
        noMoreDirectories := true;
        return false;
      }
      fourSectors := fourSectors || four;
      more := CloseSection(four, counter2);
    }

    /** Lines 525-548 and 699-727: the search for a name that is not empty, and the cell of the queue. */
    method FindNext(four: bool) returns (goesOn: bool)
      requires Kept() && HasNonzero() && tempDirPtrCounter <= 909 && rootFileCounter <= 60_600 && dirCounterTemp <= 1000
      modifies this`end, mem
      ensures Kept() && end >= old(end) && (!four ==> end == old(end))
      ensures goesOn ==> tempDirPtrCounter <= 454 && (end <= QUEUE + 4 * tempDirPtrCounter ==> tempDirPtrCounter < rootDirCounter2)
      ensures !four ==> mem[..] == old(mem[..])
      ensures tempDirPtrCounter <= rootDirCounter2 + 1 <= 454 && mem[DIRECTORIES + 9 * rootDirCounter2] != 0 && !four ==>
        (goesOn <==> old(QueueCell(tempDirPtrCounter)) != 0)
    {
      var tempDirPtrCounter2 := SkipEmptyNames();
      if tempDirPtrCounter2 > 455 { return false; }
      if tempDirPtrCounter2 == 455 { return false; }
      if four {
        PutByte(INFO + 9 * rootFileCounter, mem[DIRECTORIES + 9 * dirCounterTemp]);
      }
      if end <= QUEUE + 4 * tempDirPtrCounter && tempDirPtrCounter >= rootDirCounter2 { CellRead(tempDirPtrCounter); }
      goesOn := QueueCell(tempDirPtrCounter) != 0;
    }

    /** What a scan that is to go on leaves. */
    ghost predicate IsClosed(t: nat, files: nat)
      reads this, mem
    {
      && Counted(t + 1) && rootDirCounter2 == haveReadDirCounter == dirClusterCounter && !haveReadDir
      && rootFileCounter == files + 2 && EndsAtRows()
    }

    /** A first sector with one subdirectory and then end marks. */
    ghost predicate IsSingle(t: nat, cluster: nat) {
      1 <= maxEntries <= 512 && readable(t, cluster, 0) && HasOneDirectory(entryAt(t, cluster, 0))
    }

    /** The last header in the directory table starts with that byte. */
    ghost predicate HeaderIs(b: byte)
      reads this`rootFileCounter, this`rootDirInfoCounter, this`dirCounterTemp, mem
    {
      IsApart() && rootDirInfoCounter >= 1 && mem.Length == MEMORY ==> mem[INFO + 9 * (rootDirInfoCounter - 1)] == b
    }

    /** What such a sector leaves, with `n` directories found before and `files` as row of files. */
    ghost predicate IsSingleDone(t: nat, cluster: nat, n: nat, files: nat)
      reads this`rootDirCounter2, this`rootFileCounter, this`rootDirInfoCounter, this`dirCounterTemp, this`lastName, mem
    {
      && rootDirCounter2 == n + 1 && rootFileCounter == files + 2 && lastName == NameByte(entryAt(t, cluster, 0)[0])
      && (n == t ==> HeaderIs(NameByte(entryAt(t, cluster, 0)[0])))
    }

    ghost predicate IsBare(t: nat, cluster: nat) {
      1 <= maxEntries <= 512 && readable(t, cluster, 0) && IsEmpty(entryAt(t, cluster, 0))
    }

    lemma EmptyEnds(s: Sector, n: nat, before: nat)
      requires IsEmpty(s) && n <= 16 && before <= 454
      requires EndsIn(s, n) <= 4 && (EndsIn(s, n) == 4 || n == 16 || before + DirsIn(s, n) == 455)
      ensures n == 4 && DirsIn(s, n) == 0 && FilesIn(s, n) == 0
    {
      EmptyCounts(s, n);
    }

    /** Lines 325-462 on such a sector. */
    lemma SingleEnds(s: Sector, n: nat, before: nat)
      requires HasOneDirectory(s) && n <= 16 && before <= 454
      requires EndsIn(s, n) <= 4 && (EndsIn(s, n) == 4 || n == 16 || before + DirsIn(s, n) == 455)
      ensures DirsIn(s, n) == 1 && FilesIn(s, n) == 0 && (before <= 453 ==> n == 5)
    {
      if n >= 1 { OneDirectoryCounts(s, n); }
    }

    /** The cluster it names is queued, and the cell is not written when the section is closed. */
    ghost predicate IsQueuedNext(t: nat, cluster: nat, n: nat, info: nat, files: nat)
      reads this`clusters, mem
    {
      var c := ClusterOf(entryAt(t, cluster, 0)[0]);
      && clusters != [] && clusters[|clusters| - 1] == c
      && (IsSpared(info + 1, 1, n) && FILES + 10 * (files + 3) <= QUEUE && n < 1024 && mem.Length == MEMORY ==> QueueCell(n) == c)
    }

    lemma NamedLast(t: nat)
      requires Kept() && rootDirCounter2 == t + 1 && IsApart()
      ensures mem[DIRECTORIES + 9 * (t + 1)] == lastName
    {}

    /** Closing after the fourth end mark; cell `k` of the queue is the one looked after. */
    method CloseAfterMarks(counter2: nat, ghost t: nat, ghost k: nat) returns (more: bool)
      requires Scanning(t, counter2) && rootFileCounter <= 66 * t + 64 && EndsAtRows() && k < 1024
      modifies this, mem
      ensures tempDirPtrCounter == t && end >= old(end) && Kept() && fourSectors == old(fourSectors) && lastName == old(lastName)
      ensures rootDirCounter2 == old(rootDirCounter2) && (more ==> IsClosed(t, old(rootFileCounter)))
      ensures clusters == old(clusters) && (end <= QUEUE ==> intact) && intact == (old(intact) && (more ==> end <= QUEUE + 4 * t))
      ensures more && intact ==> t < rootDirCounter2
      ensures more && IsSpared(old(rootDirInfoCounter) + 1, counter2, k) && FILES + 10 * (rootFileCounter + 1) <= QUEUE ==>
        QueueCell(k) == old(QueueCell(k))
      ensures counter2 == 0 && old(IsLeading()) ==> more
      ensures counter2 > 0 && rootDirCounter2 <= 454 ==> more
      ensures more && rootDirCounter2 == t + 1 && IsApart() ==> mem[INFO + 9 * (rootDirInfoCounter - 1)] == old(lastName)
    {
      hide HasNonzero, EndsAtRows, IsApart, IsZeroFrom, IsChangedInSection, LeadsOn, IsSpared, WordAt, IsQueue;
      ghost var was := mem[..];
      more := Close(false, counter2, t);
      if more && rootDirCounter2 == t + 1 && IsApart() { NamedLast(t); }
      if more && IsSpared(old(rootDirInfoCounter) + 1, counter2, k) && FILES + 10 * (rootFileCounter + 1) <= QUEUE {
        SparedCell(was, mem[..], old(rootDirInfoCounter) + 1, counter2, k, FILES + 10 * (rootFileCounter + 1));
      }
    }

    /** One sector of a directory; what is special about the two kinds of first sector is told of them. */
    method ReadSector(s: Sector, ends0: nat, counter0: nat, ghost t: nat)
      returns (rootDirectoryEnd: nat, rootDirCounter: nat, counter2: nat)
      requires Scanning(t, counter0) && ends0 < 4 && rootFileCounter <= 60_400 && EndsAtRows() && rootDirCounter2 <= 454
      modifies this`rootDirCounter2, this`haveReadDir, this`haveReadDirCounter, this`lastName, this`rootFileCounter, this`end, mem
      modifies this`clusters, this`queue
      ensures Scanning(t, counter2) && rootDirectoryEnd <= 4 && rootDirCounter <= 16 && EndsAtRows() && end >= old(end)
      ensures rootFileCounter <= old(rootFileCounter) + 16 && rootDirCounter2 >= old(rootDirCounter2)
      ensures rootDirectoryEnd == 4 || rootDirCounter == 16 || rootDirCounter2 == 455
      ensures ends0 == counter0 == 0 && HasOneDirectory(s) ==>
        && counter2 == 1 && rootDirCounter2 == old(rootDirCounter2) + 1 && (rootDirCounter2 <= 454 ==> rootDirectoryEnd == 4)
        && rootFileCounter == old(rootFileCounter) && lastName == NameByte(s[0])
        && clusters == old(clusters) + [ClusterOf(s[0])] && QueueCell(old(rootDirCounter2)) == ClusterOf(s[0])
      ensures ends0 == counter0 == 0 && IsEmpty(s) ==>
        && counter2 == 0 && rootDirectoryEnd == 4 && rootDirCounter2 == old(rootDirCounter2) && rootFileCounter == old(rootFileCounter)
        && mem[..] == old(mem[..]) && lastName == old(lastName)
    {
      hide Kept, HasNonzero, NameByte, EndsAtRows, HasOneDirectory, EndsIn, DirsIn, FilesIn, IsEmpty, ClusterOf, WordAt, Counted;
      rootDirectoryEnd, rootDirCounter, counter2 := ScanSector(s, ends0, counter0, t);
      if ends0 == counter0 == 0 && HasOneDirectory(s) { SingleEnds(s, rootDirCounter, old(rootDirCounter2)); }
      if ends0 == counter0 == 0 && IsEmpty(s) { EmptyEnds(s, rootDirCounter, old(rootDirCounter2)); }
    }

    lemma CountedHas(t: nat)
      requires Counted(t)
      ensures Kept() && (end <= QUEUE ==> intact) && rootDirInfoCounter == 1 + 3 * t + dirClusterCounter && HasNonzero()
      ensures t <= 909 && dirClusterCounter <= 454
    {}

    /** One turn of the loop over the sectors, up to the count of them; `over` when the scan ends with it. */
    method SectorTurn(cluster: nat, dataArea: nat, ends0: nat, counter0: nat, ghost t: nat)
      returns (over: bool, more: bool, rootDirectoryEnd: nat, rootDirCounter: nat, counter2: nat)
      requires Scanning(t, counter0) && ends0 < 4 && rootFileCounter <= 66 * t + 48 && EndsAtRows() && rootDirCounter2 <= 454
      modifies this, mem
      ensures tempDirPtrCounter == t && end >= old(end) && Kept() && (end <= QUEUE ==> intact)
      ensures over ==> intact == (old(intact) && (more ==> end <= QUEUE + 4 * t)) && (more ==> IsReadyFor(t + 1))
      ensures over && more && intact ==> t < rootDirCounter2
      ensures !over ==>
        && !more && Scanning(t, counter2) && rootDirectoryEnd < 4 && rootDirCounter == 16 && EndsAtRows() && rootDirCounter2 <= 455
        && rootFileCounter <= old(rootFileCounter) + 16 && fourSectors == old(fourSectors) && intact == old(intact)
      ensures dataArea == ends0 == counter0 == 0 && IsSingle(t, cluster) ==> over && (old(rootDirCounter2) == 454 ==> !more)
      ensures dataArea == ends0 == counter0 == 0 && IsSingle(t, cluster) && old(rootDirCounter2) <= 453 ==>
        && more && fourSectors == old(fourSectors)
        && IsSingleDone(t, cluster, old(rootDirCounter2), old(rootFileCounter))
        && IsQueuedNext(t, cluster, old(rootDirCounter2), old(rootDirInfoCounter), old(rootFileCounter))
      ensures dataArea == ends0 == counter0 == 0 && IsBare(t, cluster) && old(IsLeading()) ==>
        over && more && rootDirCounter2 == old(rootDirCounter2)
    {
      hide Kept, HasNonzero, IsApart, NameByte, EndsAtRows, HasOneDirectory, Max, IsEmpty, ClusterOf, Counted;
      hide LeadsOn, IsChangedInSection, IsSpared, WordAt;
      ghost var n, leads := rootDirCounter2, IsLeading();
      CountedHas(t);
      over, more := true, false;
      rootDirectoryEnd, rootDirCounter, counter2 := ends0, 0, counter0;
      if !readable(tempDirPtrCounter, cluster, dataArea) {
        noMoreDirectories := true;
        return;
      }
      rootDirectoryEnd, rootDirCounter, counter2 :=
        ReadSector(entryAt(tempDirPtrCounter, cluster, dataArea), rootDirectoryEnd, counter2, t);
      CountedHas(t);
      if rootDirectoryEnd > 3 {
        more := CloseAfterMarks(counter2, t, n);
        if more { CountedHas(t + 1); }
        return;
      }
      if rootDirCounter2 > 454 {
        noMoreDirectories := true;
        return;
      }
      over := false;
    }

    /** scan_directories: every way out. */
    method ScanDirectories(cluster: nat) returns (more: bool)
      requires Ready()
      modifies this, mem
      ensures tempDirPtrCounter == old(tempDirPtrCounter) && end >= old(end) && Kept()
      ensures more ==> IsReadyFor(tempDirPtrCounter + 1)
      ensures (end <= QUEUE ==> intact) && intact == (old(intact) && (more ==> end <= QUEUE + 4 * tempDirPtrCounter))
      ensures more && intact ==> tempDirPtrCounter < rootDirCounter2
      ensures IsSingle(tempDirPtrCounter, cluster) && old(rootDirCounter2) <= 453 ==>
        && more && fourSectors == old(fourSectors)
        && IsSingleDone(tempDirPtrCounter, cluster, old(rootDirCounter2), old(rootFileCounter))
        && IsQueuedNext(tempDirPtrCounter, cluster, old(rootDirCounter2), old(rootDirInfoCounter), old(rootFileCounter))
      ensures IsSingle(tempDirPtrCounter, cluster) && old(rootDirCounter2) == 454 ==> !more
      ensures IsBare(tempDirPtrCounter, cluster) && old(IsLeading()) ==> more && rootDirCounter2 == old(rootDirCounter2)
    {
      hide Kept, HasNonzero, IsApart, EndsAtRows, Max, Counted, IsSingleDone, IsQueuedNext, LeadsOn, HasOneDirectory, IsEmpty;
      ghost var t := tempDirPtrCounter;
      ghost var first := IsSingle(t, cluster) || (IsBare(t, cluster) && IsLeading());
      more := false;
      CountedHas(t);
      if maxEntries > 512 { return; }
      var directoryEntries, dataArea := maxEntries, 0;
      var rootDirectoryEnd, sectorRead, counter2 := 0, 0, 0;
      while rootDirectoryEnd < 4 && directoryEntries > 0 && rootDirCounter2 < 455
        invariant rootDirectoryEnd < 4 && sectorRead < 4 && dataArea == sectorRead && Scanning(t, counter2) && EndsAtRows()
        invariant end >= old(end) && rootFileCounter <= 66 * t + 16 * sectorRead && rootDirCounter2 <= 455
        invariant !more && fourSectors == old(fourSectors) && intact == old(intact)
        invariant directoryEntries == maxEntries - sectorRead && (sectorRead == 0 ==> counter2 == 0 && rootDirectoryEnd == 0)
        invariant first ==> sectorRead == 0
        invariant sectorRead == 0 ==> rootDirCounter2 == old(rootDirCounter2) && rootFileCounter == old(rootFileCounter)
        invariant sectorRead == 0 ==> rootDirInfoCounter == old(rootDirInfoCounter) && lastName == old(lastName)
        invariant sectorRead == 0 ==> mem[..] == old(mem[..])
        decreases directoryEntries
      {
        var over, rootDirCounter;
        over, more, rootDirectoryEnd, rootDirCounter, counter2 := SectorTurn(cluster, dataArea, rootDirectoryEnd, counter2, t);
        if over { return; }
        directoryEntries := directoryEntries - 1;
        if rootDirCounter > 15 {
          dataArea := dataArea + 1;
          sectorRead := sectorRead + 1;
        }
        if sectorRead == 4 {
          more := Close(true, counter2, t);
          return;
        }
      }
      CountedHas(t);
      if rootDirCounter2 > 454 {
        noMoreDirectories := true;
        return;
      }
      PutLastMarks();
    }

    /** Lines 787-798: the entries of the directory have run out; the scan ends after this one. */
    method PutLastMarks()
      requires Kept() && rootFileCounter <= 60_500 && rootDirCounter2 <= 454
      modifies this`end, this`lastName, mem
      ensures Kept() && end >= old(end)
    {
      var at := DIRECTORIES + 9 * rootDirCounter2;
      mem[at] := 0x65;
      mem[at + 1] := 0x6f;
      mem[at + 2] := 0x64;
      mem[at + 3] := 0;
      lastName := 0x65;
      at := FILES + 10 * (rootFileCounter + 1);
      mem[at] := 0x65;
      mem[at + 1] := 0x6f;
      mem[at + 2] := 0x64;
      mem[at + 3] := 0;
      end := Max(end, at + 10);
      PutZeroWords();
    }

    /** After a scan that is to go on, but for the count of it. */
    ghost predicate IsReadyFor(t: nat)
      reads this, mem
    {
      && Counted(t) && rootDirCounter2 == haveReadDirCounter == dirClusterCounter && !haveReadDir
      && rootFileCounter <= 66 * t && EndsAtRows()
    }

    /** Without a scan that left after four sectors, no row has reached the queue's page exactly
        while there are at most 910 rows of directories and 2048 of files. */
    lemma RowsThatFit()
      requires Ready()
      ensures !fourSectors ==> (end <= QUEUE <==> rootDirInfoCounter + 1 <= 910 && rootFileCounter + 1 <= 2048)
    {}

    /** One turn of the loop of scan_all_directories: the next cluster is what the queue's cell holds then. */
    method Turn(cluster: nat) returns (more: bool, next: nat)
      requires Ready()
      modifies this, mem
      ensures tempDirPtrCounter == old(tempDirPtrCounter) + 1 && end >= old(end) && Kept() && (more ==> Ready())
      ensures (end <= QUEUE ==> intact) && intact == (old(intact) && (more ==> end <= QUEUE + 4 * old(tempDirPtrCounter)))
      ensures more && intact ==> old(tempDirPtrCounter) < |clusters| && next == clusters[old(tempDirPtrCounter)]
      ensures IsSingle(old(tempDirPtrCounter), cluster) && old(rootDirCounter2) <= 453 ==>
        && more && fourSectors == old(fourSectors)
        && IsSingleDone(old(tempDirPtrCounter), cluster, old(rootDirCounter2), old(rootFileCounter))
        && IsQueuedNext(old(tempDirPtrCounter), cluster, old(rootDirCounter2), old(rootDirInfoCounter), old(rootFileCounter))
      ensures IsSingle(old(tempDirPtrCounter), cluster) && old(rootDirCounter2) == 454 ==> !more
      ensures IsBare(old(tempDirPtrCounter), cluster) && old(IsLeading()) ==> more && rootDirCounter2 == old(rootDirCounter2)
      ensures more ==> next == QueueCell(old(tempDirPtrCounter))
    {
      hide Kept, Counted, EndsAtRows, IsSingleDone, IsQueuedNext, HasOneDirectory, IsEmpty, LeadsOn, IsSpared, WordAt;
      more := ScanDirectories(cluster);
      if more { CountedHas(tempDirPtrCounter + 1); }
      if more && intact { CellRead(tempDirPtrCounter); }
      next := if more then QueueCell(tempDirPtrCounter) else 0;
      tempDirPtrCounter := tempDirPtrCounter + 1;
    }

    lemma ZeroQueue()
      requires Kept() && end <= QUEUE
      ensures IsZeroFrom(mem[..], rootDirCounter2)
    {}

    /** scan_all_directories ends on every disk, after 910 scans at most. While no row of a table
        reaches the queue's page, it is 455 at most, and the cells past the directories found are zero. */
    method ScanAllDirectories() returns (scans: nat)
      requires Ready() && tempDirPtrCounter == 0
      modifies this, mem
      ensures scans <= 910 && Kept()
      ensures (intact ==> scans <= 455) && (end <= QUEUE ==> scans <= 455 && IsZeroFrom(mem[..], rootDirCounter2))
    {
      hide HasNonzero, IsApart, NameByte, HasOneDirectory, IsZeroFrom;
      var cluster, going := 0, true;
      scans := 0;
      while going
        invariant going ==> Ready() && scans == tempDirPtrCounter
        invariant Kept() && scans <= 910 && (intact ==> scans <= 455) && (end <= QUEUE ==> intact)
        decreases going, 910 - tempDirPtrCounter
      {
        going, cluster := Turn(cluster);
        scans := scans + 1;
      }
      if end <= QUEUE { ZeroQueue(); }
    }
  }

  /** A section with one child, from row 4t + 1 on, is below cell `t` of the queue, or beside it, or past it. */
  lemma LoopSpares(t: nat)
    requires t <= 454
    ensures IsSpared(4 * t + 2, 1, t)
  {}

  /** The first `n` scans of a disk where a directory holds one entry, itself. What other clusters
      hold does not matter: each cluster read is the directory's own. */
  method LoopScans(e: Entry, other: nat -> Sector, elsewhere: (nat, nat) -> byte, page: seq<byte>, ghost nonzero: nat, n: nat)
    returns (w: Walk, cluster: nat)
    requires IsDir(e) && ClusterOf(e) != 0 && NameByte(e) != 0 && |page| == 0x1000 && n <= 454
    requires 1000 <= nonzero < WORD_LIMIT && Walk.NameAddress(nonzero) >= MEMORY
    requires forall t :: elsewhere(t, Walk.NameAddress(nonzero)) != 0
    ensures fresh(w) && fresh(w.mem) && w.Ready() && w.tempDirPtrCounter == w.rootDirCounter2 == n && w.rootFileCounter == 2 * n
    ensures (n > 0 ==> cluster == ClusterOf(e)) && w.IsSingle(n, cluster) && !w.fourSectors
    ensures n > 0 ==> w.HeaderIs(NameByte(e))
  {
    hide NameByte, HasOneDirectory, ClusterOf, IsSpared, WordAt;
    hide Walk.HeaderIs, Walk.Counted, Walk.Kept, Walk.HasNonzero, Walk.EndsAtRows;
    var c := ClusterOf(e);
    var sector: Sector := [e] + seq(15, _ => BLANK);
    LoopSector(e, sector);
    w := new Walk((t, k, i) => if k == 0 || k == c then sector else other(k), (t, k, i) => true, elsewhere, 512, page, nonzero);
    cluster := 0;
    for t := 0 to n
      invariant w.Ready() && w.tempDirPtrCounter == w.rootDirCounter2 == t && w.rootFileCounter == 2 * t && !w.fourSectors
      invariant w.maxEntries == 512 && (forall t, k :: w.readable(t, k, 0))
      invariant forall t, k :: k == 0 || k == c ==> w.entryAt(t, k, 0) == sector
      invariant cluster == (if t == 0 then 0 else c)
      invariant t > 0 ==> w.HeaderIs(NameByte(e))
      invariant fresh(w) && fresh(w.mem)
    {
      assert w.IsSingle(t, cluster);
      LoopSpares(t);
      w.CountedHas(t);
      var more;
      more, cluster := w.Turn(cluster);
    }
  }

  lemma LoopSector(e: Entry, sector: Sector)
    requires IsDir(e) && sector == [e] + seq(15, _ => BLANK)
    ensures HasOneDirectory(sector) && sector[0] == e
  {}

  /** After 256 scans of such a disk the tables have run over the queue's page, and a cell of the
      queue past the 256 directories found is not zero. */
  method SelfLoop(e: Entry, other: nat -> Sector, elsewhere: (nat, nat) -> byte, page: seq<byte>, ghost nonzero: nat) returns (w: Walk)
    requires IsDir(e) && ClusterOf(e) != 0 && NameByte(e) != 0 && |page| == 0x1000
    requires 1000 <= nonzero < WORD_LIMIT && Walk.NameAddress(nonzero) >= MEMORY
    requires forall t :: elsewhere(t, Walk.NameAddress(nonzero)) != 0
    ensures w.Ready() && w.rootDirCounter2 == 256 && w.end > QUEUE
    ensures w.mem.Length == MEMORY && w.QueueCell(256) != 0 && !IsZeroFrom(w.mem[..], w.rootDirCounter2)
  {
    var cluster;
    w, cluster := LoopScans(e, other, elsewhere, page, nonzero, 256);
    assert w.rootDirInfoCounter == 1025;
    assert w.mem[QUEUE + 1024] != 0;
    assert w.mem[..][QUEUE + 1024] != 0;
  }

  /** And still it does no harm: the scan goes on with the right cluster every time, and
      ends with the 455th directory found. */
  method SelfLoopEnds(e: Entry, other: nat -> Sector, elsewhere: (nat, nat) -> byte, page: seq<byte>, ghost nonzero: nat)
    returns (w: Walk, more: bool)
    requires IsDir(e) && ClusterOf(e) != 0 && NameByte(e) != 0 && |page| == 0x1000
    requires 1000 <= nonzero < WORD_LIMIT && Walk.NameAddress(nonzero) >= MEMORY
    requires forall t :: elsewhere(t, Walk.NameAddress(nonzero)) != 0
    ensures !more && w.tempDirPtrCounter == 455
  {
    var cluster, next;
    w, cluster := LoopScans(e, other, elsewhere, page, nonzero, 454);
    more, next := w.Turn(cluster);
  }
}
