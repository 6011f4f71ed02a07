/** Trees that a stick can hold and the scan indexes completely, in which the commands stop short. */
module TableLimits {
  import opened CString
  import opened DirectoryTree
  import opened Tables
  import opened Places
  import opened DirectoryTable
  import opened Fat16
  import opened Navigation
  import opened DiskImage
  import opened Reach

  /** One line, typed into both buffers. */
  method Say(shell: Shell, line: seq<byte>) returns (a: Answer)
    requires shell.Valid() && shell.FilesValid() && HasGoodFiles(shell.list) && IsLine(line)
    modifies shell`at, shell.current, shell.prompt, shell.filenames
    ensures shell.Valid() && shell.FilesValid()
    ensures a == AnswerTo(shell.list, old(shell.at), line) && shell.at == AfterLine(shell.list, old(shell.at), line)
  {
    hide AnswerTo, AfterLine, HasGoodFiles, Shell.Valid, Shell.FilesValid;
    var ch, ch2 := new byte[4096], new byte[4096];
    TypeLine(ch, line);
    TypeLine(ch2, line);
    a := shell.RunLine(ch, ch2, line);
  }

  // ---- one directory in the other ----

  const MOST := 675

  /** AA, AB, and so on. */
  function LetterName(i: nat): (r: seq<byte>)
    requires i <= MOST
    ensures |r| == 2 && 0 !in r && UpperAll(r) == r && IsStorableName(r) && IsTypeable(r) && r != ROOT
  {
    [0x41 + i / 26, 0x41 + i % 26]
  }

  lemma LetterNamesDiffer(i: nat, j: nat)
    requires i <= MOST && j <= MOST && LetterName(i) == LetterName(j)
    ensures i == j
  {}

  function ChainName(i: nat): seq<byte>
    requires i <= MOST
  {
    if i == 0 then ROOT else LetterName(i)
  }

  /** Directories AB, AC and so on, each in the one before; this is the `i`-th of them. */
  function Chain(i: nat, n: nat): Dir
    requires i <= n <= MOST
    decreases n - i
  {
    Dir(ChainName(i), [], if i == n then [] else [Chain(i + 1, n)])
  }

  function ChainList(i: nat, n: nat): (r: seq<Dir>)
    requires i <= n <= MOST
    ensures |r| == n - i + 1
  {
    seq(n - i + 1, k requires 0 <= k < n - i + 1 => Chain(i + k, n))
  }

  lemma LevelsStep(ds: seq<Dir>)
    requires ds != []
    ensures Levels(ds) == ds + Levels(Children(ds)) && Levels([]) == []
  {}

  lemma LevelsOfOne(d: Dir)
    ensures Levels([d]) == [d] + Levels(d.subs) && Levels([]) == []
  {
    ChildrenOf(d, []);
    assert [d] + [] == [d] && d.subs + Children([]) == d.subs;
  }

  lemma {:induction false} ChainLevels(i: nat, n: nat)
    requires i <= n <= MOST
    ensures Levels([Chain(i, n)]) == ChainList(i, n)
    decreases n - i
  {
    hide Levels;
    LevelsOfOne(Chain(i, n));
    if i < n { ChainLevels(i + 1, n); }
  }

  lemma NoChildren()
    ensures Children([]) == []
  {}

  lemma {:induction false} ChainTurns(n: nat, j: nat)
    requires j <= n <= MOST
    ensures |Children(ChainList(0, n)[..j])| == j
  {
    hide Children;
    if j == 0 {
      NoChildren();
    } else {
      ChainTurns(n, j - 1);
      NextTurn(ChainList(0, n), j - 1);
      assert ChainList(0, n)[j - 1] == Chain(j - 1, n) && |Chain(j - 1, n).subs| == 1;
    }
  }

  lemma {:induction false} ChainSize(i: nat, n: nat)
    requires i <= n <= MOST
    ensures Size(Chain(i, n)) == n - i + 1 && FileCount(Chain(i, n)) == 0
    decreases n - i
  {
    if i < n {
      ChainSize(i + 1, n);
      assert Chain(i, n).subs == [Chain(i + 1, n)];
      assert [Chain(i + 1, n)][1..] == [];
      assert Sizes([]) == 0 && FileCounts([]) == 0;
    }
  }

  lemma ChainIs(n: nat, k: nat)
    requires k <= n <= MOST
    ensures var d := ChainList(0, n)[k]; d.name == ChainName(k) && d.files == [] && IsStorable(d)
    ensures var d := ChainList(0, n)[k]; |d.subs| == (if k < n then 1 else 0) && (k < n ==> d.subs[0].name == ChainName(k + 1))
  {
    if k < n { assert Chain(k, n).subs == [Chain(k + 1, n)]; }
  }

  lemma ChainNames(n: nat)
    requires n <= MOST
    ensures HasGoodNames(ChainList(0, n)) && HasGoodFiles(ChainList(0, n))
    ensures forall k :: 0 <= k <= n ==> IsStorable(ChainList(0, n)[k])
  {
    hide ChainList, IsStorable, LetterName;
    var list := ChainList(0, n);
    forall k | 0 <= k <= n ensures IsGoodName(list[k].name) && list[k].files == [] && IsStorable(list[k]) {
      ChainIs(n, k);
    }
    forall j, k | 0 <= j < k <= n ensures list[j].name != list[k].name {
      ChainIs(n, j);
      ChainIs(n, k);
      if j > 0 && list[j].name == list[k].name { LetterNamesDiffer(j, k); }
    }
    ChainIs(n, 0);
  }

  /** The whole chain can be stored. */
  lemma ChainIsStored(n: nat)
    requires n <= MOST
    ensures var root := Chain(0, n); var list := Levels([root]);
      && list == ChainList(0, n) && IsListing(list) && HasGoodNames(list) && HasGoodFiles(list) && IsStorableList(list)
      && root.name == ROOT && Image(list).Stores(Image(list).SectorOf(0), root)
  {
    hide HasGoodNames, HasGoodFiles, IsListing, Levels, IsStorable, Image, Volume.Stores, ChainList;
    assert Chain(0, n).name == ROOT;
    hide Chain;
    ChainLevels(0, n);
    ChainNames(n);
    LevelsAreListing(Chain(0, n));
    TreeIsStored(Chain(0, n));
  }

  /** `cd b` and `ls` work in the first twelve directories, and `cd` into the next one from the first 113. */
  lemma ChainLimit(n: nat, j: nat)
    requires j <= n <= MOST
    ensures var list := ChainList(0, n);
      && Start(list, j) == 4 * j
      && (9 * (Start(list, j) + 1) < 456 <==> j <= 12) && (9 * (Start(list, j) + 2) < 456 <==> j <= 12)
      && (j < n ==> (IsInReach(list, j) <==> j <= 113))
  {
    ChainTurns(n, j);
    StartIs(ChainList(0, n), j);
    ChainIs(n, j);
  }

  lemma ChainEnter(n: nat, j: nat)
    requires j < n <= MOST
    ensures var list, name := ChainList(0, n), ChainName(j + 1);
      HasChild(list, j, name) && (CanEnter(list, j, name) <==> j <= 113) && Enter(list, j, name) == j + 1
  {
    hide ChainList, LetterName, IsInReach, Start, IsStorable;
    ChainTurns(n, j);
    ChainLimit(n, j);
    ChainIs(n, j);
    var list, name := ChainList(0, n), ChainName(j + 1);
    assert UpperAll(name) == name;
    assert IndexOf(list[j].subs, name) == 0;
  }

  /** The line that leads into the next directory of the chain. */
  lemma ChainLine(n: nat, j: nat)
    requires j < n <= MOST
    ensures IsTypeable(ChainName(j + 1))
    ensures var list, line := ChainList(0, n), CD + KeysFor(ChainName(j + 1));
      IsLine(line) && AfterLine(list, j, line) == if j <= 113 then j + 1 else j
  {
    hide LetterName, ChainList, CanEnter, Enter, IsKey, HasChild, NamesFile, IsStorable;
    var list, name := ChainList(0, n), ChainName(j + 1);
    var typed := KeysFor(name);
    var line := CD + typed;
    assert line[3..] == typed;
    ChainEnter(n, j);
    ChainIs(n, j);
    SameEnter(list, j, name, typed);
    KeysAreNoCommand(name);
    CdIsKeys();
    NotAFile(list, j, line);
  }

  /** Capitals and small letters enter the same. */
  lemma SameEnter(list: seq<Dir>, j: nat, name: seq<byte>, typed: seq<byte>)
    requires j < |list| && UpperAll(typed) == name == UpperAll(name)
    ensures CanEnter(list, j, typed) == CanEnter(list, j, name) && Enter(list, j, typed) == Enter(list, j, name)
  {}

  /** A stick with `n` directories in each other, scanned, and the first `m` of them entered. */
  method GoDown(page: array<byte>, n: nat, m: nat) returns (shell: Shell)
    requires page.Length == 4096 && m <= 114 && m <= n <= 226
    modifies page
    ensures shell.Valid() && shell.FilesValid() && shell.list == ChainList(0, n) == Levels([Chain(0, n)]) && shell.at == m
    ensures HasGoodFiles(shell.list) && fresh({shell}) && fresh({shell.current, shell.prompt, shell.filenames})
  {
    hide HasGoodNames, HasGoodFiles, IsListing, Levels, Size, FileCount, Image, Volume.Stores, Chain, ChainList, Scanner.Indexes;
    hide Shell.Valid, Shell.FilesValid, AnswerTo, AfterLine, IsLine, ChainName, KeysFor, IsStorableList, IsTypeable;
    ChainIsStored(n);
    ChainSize(0, n);
    var scan := ScanVolume(Image(ChainList(0, n)), 512, page, Chain(0, n));
    shell := new Shell(scan, Chain(0, n));
    for i := 0 to m
      invariant shell.Valid() && shell.at == i && shell.FilesValid()
    {
      ChainLine(n, i);
      var a := Say(shell, CD + KeysFor(ChainName(i + 1)));
    }
  }

  lemma ChainStops()
    ensures var list := ChainList(0, 13);
      && IsLine(LS) && AnswerTo(list, 13, LS) == Refused && AfterLine(list, 13, LS) == 13
      && IsLine(CD + BACK) && AfterLine(list, 13, CD + BACK) == 13
  {
    hide ChainList, Start, IsStorable;
    ChainLimit(13, 13);
    ChainIs(13, 13);
    assert (CD + BACK)[3..] == BACK;
  }

  /** A stick with thirteen directories in each other: `cd` gets into all of them, and
      then neither `ls` nor `cd b` does anything. */
  method TooDeep(page: array<byte>) returns (shell: Shell, listed: Answer)
    requires page.Length == 4096
    modifies page
    ensures shell.Valid() && shell.list == Levels([Chain(0, 13)])
    ensures shell.at == 13 && listed == Refused
  {
    hide HasGoodFiles, Levels, Chain, ChainList, Shell.Valid, Shell.FilesValid, AnswerTo, AfterLine, IsLine;
    shell := GoDown(page, 13, 13);
    ChainStops();
    listed := Say(shell, LS);
    var a := Say(shell, CD + BACK);
  }

  /** A stick with 115 directories in each other: `cd` gets into 114 of them, and not into the last. */
  method TooFar(page: array<byte>) returns (shell: Shell)
    requires page.Length == 4096
    modifies page
    ensures shell.Valid() && shell.list == Levels([Chain(0, 115)])
    ensures shell.at == 114 && HasChild(shell.list, 114, ChainName(115)) && !CanGo(shell.list, 114, 115)
  {
    hide HasGoodFiles, Levels, Chain, ChainList, Shell.Valid, Shell.FilesValid, AnswerTo, AfterLine, IsLine, ChainName, KeysFor;
    hide HasChild, CanGo, IsTypeable;
    shell := GoDown(page, 115, 114);
    NoLineOn();
    ChainLine(115, 114);
    var a := Say(shell, CD + KeysFor(ChainName(115)));
  }

  lemma NoLineOn()
    ensures var list := ChainList(0, 115); HasChild(list, 114, ChainName(115)) && !CanGo(list, 114, 115)
  {
    hide HasGoodNames, HasGoodFiles, IsListing, Levels, Image, Volume.Stores, Chain, ChainList, ChainName, CanGo, IsTypeable, Start;
    hide CanEnter, Enter, HasChild, IsStorableList, IsStorable;
    ChainIsStored(115);
    ChainEnter(115, 114);
    ChainLimit(115, 114);
    ChainTurns(115, 114);
    ChainIs(115, 114);
    ReachableChild(ChainList(0, 115), 114, 0);
  }

  // ---- many directories in the root, and many files in them ----

  /** The text files FAA, FAB and so on. */
  function Papers(m: nat): (r: seq<File>)
    requires m <= 58
    ensures |r| == m && forall x :: 0 <= x < m ==> r[x] == File([0x46] + LetterName(x), true, 3, 1)
  {
    seq(m, x requires 0 <= x < m => File([0x46] + LetterName(x), true, 3, 1))
  }

  function Leaves(n: nat, m: nat): (r: seq<Dir>)
    requires n <= 60 && m <= 58
    ensures |r| == n && forall i :: 0 <= i < n ==> r[i] == Dir(LetterName(i), Papers(m), [])
  {
    seq(n, i requires 0 <= i < n => Dir(LetterName(i), Papers(m), []))
  }

  /** A root with `n` directories AA, AB, and so on, and `m` files in each. */
  function Wide(n: nat, m: nat): Dir
    requires n <= 60 && m <= 58
  {
    Dir(ROOT, [], Leaves(n, m))
  }

  function WideList(n: nat, m: nat): (r: seq<Dir>)
    requires n <= 60 && m <= 58
    ensures |r| == n + 1 && r[0] == Wide(n, m) && r[1..] == Leaves(n, m)
    ensures forall i :: 1 <= i <= n ==> r[i] == Dir(LetterName(i - 1), Papers(m), [])
  {
    [Wide(n, m)] + Leaves(n, m)
  }

  lemma CountsStep(ds: seq<Dir>)
    requires ds != []
    ensures Sizes(ds) == Size(ds[0]) + Sizes(ds[1..]) && FileCounts(ds) == FileCount(ds[0]) + FileCounts(ds[1..])
  {}

  lemma LeafCounts(d: Dir)
    requires d.subs == []
    ensures Size(d) == 1 && FileCount(d) == |d.files|
  {}

  lemma {:induction false} LeavesEnd(ds: seq<Dir>, m: nat)
    requires forall i :: 0 <= i < |ds| ==> ds[i].subs == [] && |ds[i].files| == m
    ensures Children(ds) == [] && Sizes(ds) == |ds| && FileCounts(ds) == |ds| * m
  {
    if ds != [] {
      hide Children, Sizes, Size, FileCounts, FileCount;
      ChildrenStep(ds);
      CountsStep(ds);
      LeafCounts(ds[0]);
      LeavesEnd(ds[1..], m);
      OneTimesMore(|ds|, m);
    }
  }

  lemma OneTimesMore(n: nat, m: nat)
    requires n > 0
    ensures n * m == m + (n - 1) * m
  {}

  lemma WideLevels(n: nat, m: nat)
    requires 0 < n <= 60 && m <= 58
    ensures Levels([Wide(n, m)]) == WideList(n, m)
    ensures Size(Wide(n, m)) == n + 1 && FileCount(Wide(n, m)) == n * m
  {
    hide Levels, Children, Leaves;
    LeavesEnd(Leaves(n, m), m);
    LevelsOfOne(Wide(n, m));
    LevelsStep(Leaves(n, m));
    assert Leaves(n, m) + [] == Leaves(n, m);
  }

  lemma PapersAreGood(n: nat, m: nat, x: nat)
    requires n <= 60 && x < m <= 58
    ensures IsGoodFile(WideList(n, m), Papers(m)[x])
  {
    hide WideList, LetterName;
    var name := Papers(m)[x].name;
    assert |name| == 3 && name[0] == 0x46;
  }

  lemma WideNames(n: nat, m: nat)
    requires 0 < n <= 60 && m <= 58
    ensures var list := WideList(n, m);
      HasGoodNames(list) && HasGoodFiles(list) && forall k :: 0 <= k <= n ==> IsStorable(list[k])
  {
    hide LetterName, WideList, IsGoodFile;
    var list := WideList(n, m);
    forall j, k | 0 <= j < k <= n ensures list[j].name != list[k].name {
      if j > 0 && list[j].name == list[k].name { LetterNamesDiffer(j - 1, k - 1); }
    }
    forall i, x | 0 <= i < |list| && 0 <= x < |list[i].files| ensures IsGoodFile(list, list[i].files[x]) {
      PapersAreGood(n, m, x);
    }
  }

  lemma WideIsStored(n: nat, m: nat)
    requires 0 < n <= 60 && m <= 58
    ensures var root := Wide(n, m); var list := Levels([root]);
      && list == WideList(n, m) && IsListing(list) && HasGoodNames(list) && HasGoodFiles(list)
      && root.name == ROOT && Image(list).Stores(Image(list).SectorOf(0), root)
      && Size(root) == n + 1 && FileCount(root) == n * m
  {
    hide HasGoodNames, HasGoodFiles, IsListing, Levels, Size, FileCount, IsStorable, Image, Volume.Stores, Leaves, WideList;
    assert Wide(n, m).name == ROOT;
    hide Wide;
    WideLevels(n, m);
    WideNames(n, m);
    LevelsAreListing(Wide(n, m));
    TreeIsStored(Wide(n, m));
  }

  /** Of the children of such a root some line enters the first 52, and no line another one. */
  lemma WideLimit(n: nat, m: nat, i: nat)
    requires i < n <= 60 && m <= 58
    ensures var list := WideList(n, m);
      i < |list[0].subs| && list[0].subs[i].name == LetterName(i) && (CanGo(list, 0, ChildAt(list, 0, i)) <==> i < 52)
  {
    hide HasGoodNames, HasGoodFiles, IsListing, Levels, Size, FileCount, Image, Volume.Stores, LetterName, CanGo, ChildAt, IsTypeable;
    hide WideList;
    WideIsStored(n, m);
    ReachableChild(WideList(n, m), 0, i);
  }

  /** The line for the `i`-th of them. */
  lemma WideLine(n: nat, m: nat, i: nat)
    requires i < n <= 60 && m <= 58
    ensures IsTypeable(LetterName(i)) && IsLine(CD + KeysFor(LetterName(i)))
    ensures var list := WideList(n, m);
      && HasChild(list, 0, LetterName(i)) && AfterLine(list, 0, CD + KeysFor(LetterName(i))) == if i < 52 then i + 1 else 0
  {
    hide HasGoodNames, HasGoodFiles, IsListing, Levels, Size, FileCount, Image, Volume.Stores, CanGo, IsKey, IndexOf, WideList;
    hide Leaves, IsInReach;
    var list, name := WideList(n, m), LetterName(i);
    var typed := KeysFor(name);
    var line := CD + typed;
    assert line[3..] == typed;
    CdIsKeys();
    WideIsStored(n, m);
    WideReach(n, m);
    NotAFile(list, 0, line);
    ChildIsOnly(list, 0, i);
    KeysAreNoCommand(name);
  }

  lemma WideReach(n: nat, m: nat)
    requires n <= 60 && m <= 58
    ensures var list := WideList(n, m);
      IsInReach(list, 0) && HasNoSpaces(list[0].files) && forall i :: 0 <= i < n ==> ChildAt(list, 0, i) == i + 1
  {
    var list := WideList(n, m);
    RootStart(list);
    assert list[..0] == [];
  }

  /** A stick with `n` directories in the root, scanned, and one of them named after `cd`. */
  method GoInto(page: array<byte>, n: nat, m: nat, i: nat) returns (shell: Shell)
    requires page.Length == 4096 && i < n <= 60 && m <= 58 && 2 * (n + 1) + n * m <= 819
    modifies page
    ensures shell.Valid() && shell.FilesValid() && HasGoodFiles(shell.list)
    ensures shell.list == WideList(n, m) == Levels([Wide(n, m)]) && shell.at == if i < 52 then i + 1 else 0
    ensures fresh({shell}) && fresh({shell.current, shell.prompt, shell.filenames})
  {
    hide HasGoodNames, HasGoodFiles, IsListing, Levels, Size, FileCount, Image, Volume.Stores, Wide, WideList, Scanner.Indexes;
    hide HasChild, LetterName, AnswerTo, AfterLine, IsLine, Shell.Valid, Shell.FilesValid, KeysFor, IsTypeable;
    WideIsStored(n, m);
    var scan := ScanVolume(Image(WideList(n, m)), 512, page, Wide(n, m));
    shell := new Shell(scan, Wide(n, m));
    WideLine(n, m, i);
    var a := Say(shell, CD + KeysFor(LetterName(i)));
  }

  /** A stick with 53 directories in the root: `cd` does not get into the last of them. */
  method TooWide(page: array<byte>) returns (shell: Shell)
    requires page.Length == 4096
    modifies page
    ensures shell.Valid() && shell.list == Levels([Wide(53, 0)]) && shell.at == 0
    ensures HasChild(shell.list, 0, LetterName(52)) && !CanGo(shell.list, 0, ChildAt(shell.list, 0, 52))
  {
    hide HasGoodFiles, Levels, Wide, WideList, HasChild, LetterName, CanGo, Shell.Valid, Shell.FilesValid, ChildAt, KeysFor, AfterLine;
    shell := GoInto(page, 53, 0, 52);
    WideLimit(53, 0, 52);
    WideLine(53, 0, 52);
  }

  lemma {:induction false} WideFileStart(n: nat, m: nat, j: nat)
    requires 1 <= j <= n + 1 && n <= 60 && m <= 58
    ensures FileStart(WideList(n, m), j) == 2 + (j - 1) * (m + 2)
  {
    var list := WideList(n, m);
    NextFileStart(list, j - 1);
    if j > 1 {
      WideFileStart(n, m, j - 1);
      assert (j - 1) * (m + 2) == (j - 2) * (m + 2) + m + 2;
    } else {
      assert list[..0] == [];
    }
  }

  lemma NextFileStart(list: seq<Dir>, i: nat)
    requires i < |list|
    ensures FileStart(list, i + 1) == FileStart(list, i) + |list[i].files| + 2
  {
    assert list[..i + 1][..i] == list[..i];
  }

  /** A stick with eight directories of 58 files: no line opens a file of the last one, and `ls` lists 33. */
  method TooFull(page: array<byte>) returns (shell: Shell, listed: Answer)
    requires page.Length == 4096
    modifies page
    ensures shell.Valid() && shell.list == Levels([Wide(8, 58)]) && shell.at == 8 && |shell.list[8].files| == 58
    ensures forall x :: 0 <= x < 58 ==> !CanFind(shell.list, 8, x)
    ensures listed.Listed? && |listed.files| == 33
  {
    hide HasGoodFiles, Levels, Wide, WideList, CanFind, Shell.Valid, Shell.FilesValid, AnswerTo, AfterLine, IsLine;
    shell := GoInto(page, 8, 58, 7);
    FullLimit();
    listed := Say(shell, LS);
  }

  lemma FullLimit()
    ensures var list := WideList(8, 58);
      && (forall x :: 0 <= x < 58 ==> !CanFind(list, 8, x)) && |list[8].files| == 58
      && IsLine(LS) && AfterLine(list, 8, LS) == 8 && AnswerTo(list, 8, LS).Listed? && |AnswerTo(list, 8, LS).files| == 33
  {
    hide WideList, FileStart, Start, Papers, LetterName, LabelIndex, Label, Labels;
    var list := WideList(8, 58);
    WideFileStart(8, 58, 8);
    WideStart(8, 58, 8);
    LsIsNoFile(list);
  }

  lemma LsIsNoFile(list: seq<Dir>)
    requires |list| == 9 && FileStart(list, 8) >= LAST_FILE && Start(list, 8) + 2 <= 50
    ensures IsLine(LS) && !NamesFile(list, 8, LS) && CanList(list, 8) && !(CD <= LS)
  {}

  lemma {:induction false} WideStart(n: nat, m: nat, j: nat)
    requires 1 <= j <= n + 1 && n <= 60 && m <= 58
    ensures Start(WideList(n, m), j) == n + 3 * j
  {
    var list := WideList(n, m);
    NextStart(list, j - 1);
    if j > 1 { WideStart(n, m, j - 1); } else { RootStart(list); }
  }

  // ---- a mark that ends in the page behind the table ----

  function Strand(k: nat, i: nat, n: nat): Dir
    requires k < 3 && i <= n
    decreases n - i
  {
    Dir([0x41 + k], [], if i == n then [] else [Strand(k, i + 1, n)])
  }

  function Three(i: nat, n: nat): seq<Dir>
    requires i <= n
  {
    [Strand(0, i, n), Strand(1, i, n), Strand(2, i, n)]
  }

  /** Three directories in the root, each the first of `n` in each other. */
  function Ropes(n: nat): Dir
    requires n >= 1
  {
    Dir(ROOT, [], Three(1, n))
  }

  function Below(i: nat, n: nat): (r: seq<Dir>)
    requires i <= n
    ensures |r| == 3 * (n - i + 1)
    decreases n - i
  {
    Three(i, n) + if i == n then [] else Below(i + 1, n)
  }

  lemma ChildrenOfThree(i: nat, n: nat)
    requires i <= n
    ensures Children(Three(i, n)) == if i == n then [] else Three(i + 1, n)
  {
    var a, b, c := Strand(0, i, n), Strand(1, i, n), Strand(2, i, n);
    NoChildren();
    ChildrenOf(c, []);
    ChildrenOf(b, [c]);
    ChildrenOf(a, [b, c]);
    hide Children;
    assert [c] + [] == [c] && [b] + [c] == [b, c] && [a] + [b, c] == Three(i, n);
  }

  lemma {:induction false} BelowLevels(i: nat, n: nat)
    requires i <= n
    ensures Levels(Three(i, n)) == Below(i, n)
    decreases n - i
  {
    hide Levels, Children, Three;
    ChildrenOfThree(i, n);
    NotEmpty(i, n);
    LevelsStep(Three(i, n));
    if i < n { BelowLevels(i + 1, n); }
  }

  lemma NotEmpty(i: nat, n: nat)
    requires i <= n
    ensures Three(i, n) != []
  {}

  lemma {:induction false} BelowIs(i: nat, n: nat, j: nat)
    requires i <= n && j < 3 * (n - i + 1)
    ensures var d := Below(i, n)[j]; |d.name| == 1 && 0x41 <= d.name[0] <= 0x43 && d.files == []
    ensures var d := Below(i, n)[j]; |d.subs| == (if j < 3 * (n - i) then 1 else 0)
    ensures var d := Below(i, n)[j]; forall x :: 0 <= x < |d.subs| ==> |d.subs[x].name| == 1 && 0x41 <= d.subs[x].name[0] <= 0x43
    decreases n - i
  {
    if j >= 3 { BelowIs(i + 1, n, j - 3); }
  }

  lemma RopesLevels(n: nat)
    requires n >= 1
    ensures Levels([Ropes(n)]) == [Ropes(n)] + Below(1, n)
  {
    hide Levels, Children, Three, Below;
    BelowLevels(1, n);
    LevelsOfOne(Ropes(n));
  }

  lemma {:induction false} RopesTurns(n: nat, j: nat)
    requires 1 <= j <= 3 * (n - 1) + 1
    ensures |Children(([Ropes(n)] + Below(1, n))[..j])| == j + 2
  {
    var list := [Ropes(n)] + Below(1, n);
    if j == 1 {
      assert list[..1] == [Ropes(n)] + [];
      NoChildren();
      ChildrenOf(Ropes(n), []);
    } else {
      RopesTurns(n, j - 1);
      NextTurn(list, j - 1);
      BelowIs(1, n, j - 2);
      assert list[j - 1] == Below(1, n)[j - 2];
    }
  }

  /** With 39 directories in each of the three, the 114th of all has its row at 454. */
  lemma RopesAreStored()
    ensures var root := Ropes(39); var list := Levels([root]);
      && root.name == ROOT && list == [root] + Below(1, 39) && Start(list, 113) == 454 && HasShortNames(list)
      && Image(list).Stores(Image(list).SectorOf(0), root)
      && 4 * (Size(root) - 1) + 3 <= 910 && 2 * Size(root) + FileCount(root) <= 819
  {
    hide Levels, Children, Below, Three, Ropes;
    var root, list := Ropes(39), [Ropes(39)] + Below(1, 39);
    RopesLevels(39);
    RopesTurns(39, 113);
    StartIs(list, 113);
    RopesNames(39);
    TreeIsStored(root);
    RopesSize(39);
  }

  lemma RopesNames(n: nat)
    requires n >= 1
    ensures var list := [Ropes(n)] + Below(1, n); HasShortNames(list) && forall k :: 0 <= k < |list| ==> IsStorable(list[k])
  {
    hide Below;
    var list := [Ropes(n)] + Below(1, n);
    forall k | 0 <= k < |list|
      ensures IsStorable(list[k]) && IsShort(list[k].name) && forall x :: 0 <= x < |list[k].subs| ==> IsShort(list[k].subs[x].name)
    {
      if k > 0 { BelowIs(1, n, k - 1); }
    }
  }

  lemma {:induction false} StrandSize(k: nat, i: nat, n: nat)
    requires k < 3 && i <= n
    ensures Size(Strand(k, i, n)) == n - i + 1 && FileCount(Strand(k, i, n)) == 0
    decreases n - i
  {
    if i < n {
      StrandSize(k, i + 1, n);
      SizesOfOne(Strand(k, i + 1, n));
    }
  }

  lemma SizesOfOne(d: Dir)
    ensures Sizes([d]) == Size(d) && FileCounts([d]) == FileCount(d)
  {
    assert [d][1..] == [];
  }

  lemma RopesSize(n: nat)
    requires n >= 1
    ensures Size(Ropes(n)) == 3 * n + 1 && FileCount(Ropes(n)) == 0 && Ropes(n).name == ROOT
  {
    var a, b, c := Strand(0, 1, n), Strand(1, 1, n), Strand(2, 1, n);
    StrandSize(0, 1, n);
    StrandSize(1, 1, n);
    StrandSize(2, 1, n);
    SizesOfOne(c);
    assert Three(1, n)[1..] == [b, c] && [b, c][1..] == [c];
    assert Sizes([b, c]) == Size(b) + Size(c) && FileCounts([b, c]) == 0;
  }

  /** A stick on which the scan completes its tables, and a mark reads "%ROOT". */
  method MarkRunsOn(page: array<byte>) returns (scan: Scanner)
    requires page.Length == 4096
    modifies page
    ensures scan.Indexes(Levels([Ropes(39)])) && !ReadsAs(scan.dirInfo[..], InfoTexts(Levels([Ropes(39)])))
    ensures scan.dirInfo.Length > 9 * 455 && Text(scan.dirInfo[..][9 * 455..]) == PERCENT + ROOT
  {
    hide HasShortNames, Levels, Size, FileCount, Image, Volume.Stores, Ropes, Below, Scanner.Indexes, Start, ReadsAs, CString.Text;
    RopesAreStored();
    scan := ScanVolume(Image([Ropes(39)] + Below(1, 39)), 512, page, Ropes(39));
    ghost var list := Levels([Ropes(39)]);
    InfoOf(scan, list);
    IndexReads(scan.dirInfo[..], list);
    ReadsOn(scan.dirInfo[..], list, 113);
  }

  lemma InfoOf(scan: Scanner, ds: seq<Dir>)
    requires scan.Indexes(ds)
    ensures IsInfo(scan.dirInfo[..], InfoRows(ds)) && scan.dirInfo.Length == TABLE
  {}

  lemma ReadsOn(a: seq<byte>, ds: seq<Dir>, i: nat)
    requires IsInfo(a, InfoRows(ds)) && HasShortNames(ds) && i < |ds| && Start(ds, i) == 454
    ensures |a| > 9 * 455 && Text(a[9 * 455..]) == PERCENT + ROOT
  {
    hide InfoRows, InfoTexts, Start, IsPiece, HasShortNames;
    SectionRows(ds, i);
    InfoRowsAreTexts(ds);
    MarkRows(ds, 455);
    ShortTexts(ds, 455);
    RowReads(a, InfoRows(ds), 455, InfoTexts(ds)[455]);
  }
}
