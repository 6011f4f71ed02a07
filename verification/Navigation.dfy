/** The commands of kernel/device/kb.c that move between directories, on the tables of the scan. */
module Navigation {
  import opened CString
  import opened DirectoryTree
  import opened Tables
  import opened Places
  import opened DirectoryTable
  import opened Fat16

  // The children of the root that `cd` can find: byte 456 of the list is in the last of them.
  const ROOT_REACH := 52

  // The last row of the directory table that `cd` looks at, and the last ones of the file table
  // for opening a file and for `ls`.
  const LAST_ROW := 455
  const LAST_FILE := 409
  const LAST_LISTED := 455

  /** The children of a directory are looked through to their end mark. */
  predicate IsInReach(list: seq<Dir>, j: nat)
    requires j < |list|
  {
    Start(list, j) + 2 + |list[j].subs| <= LAST_ROW
  }

  /** `cd typed` finds a child: one of any directory but the root, or of the first 52 of the root. */
  predicate CanEnter(list: seq<Dir>, j: nat, typed: seq<byte>)
    requires j < |list|
  {
    && IsInReach(list, j) && HasChild(list, j, typed)
    && (j == 0 ==> IndexOf(list[j].subs, UpperAll(typed)) < ROOT_REACH)
  }

  /** `cd b` works: below the root, with the own mark before byte 456. */
  predicate CanGoBack(list: seq<Dir>, j: nat)
    requires j < |list|
  {
    j > 0 && 9 * (Start(list, j) + 1) < 456
  }

  const CD: seq<byte> := [0x63, 0x64, 0x20]
  // What comes after "cd " to go back, and to go to the root.
  const BACK: seq<byte> := [0x62]
  const HOME: seq<byte> := [0x72]
  const HOME_IN_FULL: seq<byte> := [0x72, 0x6f, 0x6f, 0x74]

  /** What the shell takes for a command of its own after "cd ", before it looks for a child. */
  predicate IsCommand(typed: seq<byte>) {
    typed == BACK || typed == HOME || typed == HOME_IN_FULL
  }

  /** Where the line "cd " and `typed` leads. */
  function AfterCd(list: seq<Dir>, j: nat, typed: seq<byte>): nat
    requires j < |list|
  {
    if typed == BACK then if CanGoBack(list, j) then Back(list, j) else j
    else if typed == HOME || typed == HOME_IN_FULL then 0
    else if typed != [] && CanEnter(list, j, typed) then Enter(list, j, typed) else j
  }

  const LS: seq<byte> := [0x6c, 0x73]

  /** What a line gets: a file, a listing, a refusal, a change of directory, or what the other
      commands do, which do not concern directories and files. */
  datatype Answer =
    | Opened(cluster: nat, length: nat)
    | NotText
    | Listed(dirs: seq<seq<byte>>, files: seq<(seq<byte>, bool)>)
    | Refused
    | Went
    | Other

  predicate NamesFile(list: seq<Dir>, j: nat, line: seq<byte>)
    requires j < |list|
  {
    var x := LabelIndex(list[j].files, UpperAll(line));
    x < |list[j].files| && FileStart(list, j) + 1 + x <= LAST_FILE
  }

  function AtMost(a: int, b: nat): (r: nat)
    ensures r <= b && (a <= 0 ==> r == 0) && (a >= 0 ==> r <= a && (r == a || r == b))
  {
    if a < 0 then 0 else if a < b then a else b
  }

  /** The files that `ls` prints. */
  function ListedFiles(list: seq<Dir>, j: nat): seq<(seq<byte>, bool)>
    requires j < |list|
  {
    Labels(list[j].files)[..AtMost(LAST_LISTED - FileStart(list, j), |list[j].files|)]
  }

  /** Those are the files whose rows are searched for it, in order. */
  lemma ListedByRow(list: seq<Dir>, j: nat, x: nat)
    requires j < |list| && x < |list[j].files|
    ensures x < |ListedFiles(list, j)| <==> FileStart(list, j) + 1 + x <= 455
    ensures x < |ListedFiles(list, j)| ==> ListedFiles(list, j)[x] == (Label(list[j].files[x]), list[j].files[x].text)
  {}

  /** `ls` works: at the root, or with the first child before byte 456. */
  predicate CanList(list: seq<Dir>, j: nat)
    requires j < |list|
  {
    j == 0 || 9 * (Start(list, j) + 2) < 456
  }

  /** A line that is the label of a file is about that file, whatever else it says. */
  function AnswerTo(list: seq<Dir>, j: nat, line: seq<byte>): Answer
    requires j < |list|
  {
    if NamesFile(list, j, line) then
      var f := list[j].files[LabelIndex(list[j].files, UpperAll(line))];
      if f.text then Opened(f.cluster, f.length) else NotText
    else if line == LS then
      if CanList(list, j) then Listed(Names(list[j].subs), ListedFiles(list, j)) else Refused
    else if CD <= line then Went
    else Other
  }

  /** Where a line leads. */
  function AfterLine(list: seq<Dir>, j: nat, line: seq<byte>): nat
    requires j < |list|
  {
    if !NamesFile(list, j, line) && CD <= line then AfterCd(list, j, line[3..]) else j
  }

  lemma EmptyTable(a: seq<byte>)
    requires forall i :: 0 <= i < |a| ==> a[i] == 0
    ensures IsTable(a, 9, NameRows([]))
  {}

  lemma TextRow(a: seq<byte>, names: seq<seq<byte>>, name: seq<byte>, written: seq<byte>)
    requires IsTable(a, 9, NameRows(names)) && 9 * |names| + 9 <= |a| && |name| <= 8
    requires written == Cell(name, 8) || (name == EOD && written == EOD + [0])
    ensures IsTable(Splice(a, 9 * |names|, written), 9, NameRows(names + [name]))
  {
    hide IsTable;
    NameRowsAppend(names, [name]);
    assert NameRows([name]) == [Cell(name, 9)];
    AppendRow(a, 9, NameRows(names), written, Cell(name, 9));
  }

  /** The typed name is at `ch + 3`. */
  ghost predicate IsTyped(ch: seq<byte>, typed: seq<byte>) {
    3 + |typed| < |ch| && 1 <= |typed| <= 124 && Text(ch[3..]) == typed
  }

  lemma TypedBytes(ch: seq<byte>, typed: seq<byte>)
    ensures IsTyped(ch, typed) <==>
      && 3 + |typed| < |ch| && 1 <= |typed| <= 124 && ch[3 + |typed|] == 0
      && forall i :: 0 <= i < |typed| ==> ch[3 + i] == typed[i] != 0
    ensures IsTyped(ch, typed) ==> Terminated(ch[3..])
  {
    if IsTyped(ch, typed) {
      assert ch[3..][|typed|] == 0;
      assert forall i :: 0 <= i < |typed| ==> ch[3 + i] == ch[3..][i] == typed[i];
    }
    if 3 + |typed| < |ch| && ch[3 + |typed|] == 0 && forall i :: 0 <= i < |typed| ==> ch[3 + i] == typed[i] != 0 {
      assert typed <= ch[3..];
      TextIs(ch[3..], typed);
    }
  }

  method Capitalize(ch: array<byte>, ghost typed: seq<byte>)
    requires IsTyped(ch[..], typed)
    modifies ch
    ensures IsTyped(ch[..], UpperAll(typed))
  {
    hide IsTyped;
    TypedBytes(ch[..], typed);
    var b := 0;
    while ch[3 + b] != 0
      invariant b <= |typed| && ch[3 + |typed|] == 0
      invariant forall j :: 3 <= j < 3 + b ==> ch[j] == Upper(typed[j - 3]) != 0
      invariant forall j :: 3 + b <= j < 3 + |typed| ==> ch[j] == typed[j - 3] != 0
      decreases |typed| - b
    {
      if ch[3 + b] > 0x60 && ch[3 + b] < 0x7b {
        ch[3 + b] := ch[3 + b] - 0x20;
      }
      b := b + 1;
    }
    ch[3 + b] := 0;
    assert forall i :: 0 <= i < |typed| ==> ch[..][3 + i] == UpperAll(typed)[i] != 0;
    TypedBytes(ch[..], UpperAll(typed));
  }

  lemma EodText()
    ensures Terminated(EOD + [0]) && Text(EOD + [0]) == EOD
  {
    assert (EOD + [0])[3] == 0;
    TextIs(EOD + [0], EOD);
  }

  /** The first name of the list that is the one typed, if it is found before the end mark.
      The copy of the loop for the root also stops at byte 456. */
  method FindTyped(ch: array<byte>, tempDir: array<byte>, atRoot: bool, ghost typed: seq<byte>, ghost ds: seq<Dir>)
    returns (found: bool, b: nat)
    requires IsTyped(ch[..], UpperAll(typed)) && tempDir.Length == 4096
    requires IsTable(tempDir[..], 9, NameRows(Names(ds) + [EOD]))
    requires forall i :: 0 <= i < |ds| ==> IsGoodName(ds[i].name)
    ensures found <==> IndexOf(ds, UpperAll(typed)) < |ds| && (atRoot ==> IndexOf(ds, UpperAll(typed)) < ROOT_REACH)
    ensures found ==> b == 9 * IndexOf(ds, UpperAll(typed))
  {
    hide IsTable, IsTyped, Cell, CString.Text, CString.Terminated, CString.Extent;
    EodText();
    ghost var rows, upper, x := Names(ds) + [EOD], UpperAll(typed), IndexOf(ds, UpperAll(typed));
    TypedBytes(ch[..], upper);
    assert Text(ch[3..]) == upper by { TypedText(ch[..], upper); }
    assert upper != EOD by { if |upper| == 3 { assert upper[0] == Upper(typed[0]); } }
    ghost var r := 0;
    b := 0;
    while true
      invariant b == 9 * r && r <= x && (atRoot ==> r < ROOT_REACH)
      decreases x - r
    {
      RowsRead(tempDir[..], rows, r);
      found := StrEql(ch[3..], tempDir[b..]);
      if found { break; }
      var end := StrEql(tempDir[b..], EOD + [0]);
      if end || (atRoot && b >= 456) { break; }
      b := b + 9;
      r := r + 1;
    }
  }

  lemma TypedText(ch: seq<byte>, typed: seq<byte>)
    requires IsTyped(ch, typed)
    ensures Text(ch[3..]) == typed && ch[3..][0] != 0
  {
    TypedBytes(ch, typed);
  }

  lemma RowsRead(a: seq<byte>, rows: seq<seq<byte>>, r: nat)
    requires IsTable(a, 9, NameRows(rows)) && r < |rows| && 1 <= |rows[r]| <= 8 && 0 !in rows[r]
    ensures 9 * r + 9 <= |a| && Text(a[9 * r..]) == rows[r] && Terminated(a[9 * r..])
    ensures a[9 * r..9 * r + 9] == Cell(rows[r], 9)
  {
    CellText(a, 9, NameRows(rows), r, rows[r]);
  }

  /** `a` starts with the string `text` and its zero. */
  ghost predicate Holds(a: seq<byte>, text: seq<byte>) {
    |text| < |a| && a[|text|] == 0 && forall i :: 0 <= i < |text| ==> a[i] == text[i] != 0
  }

  lemma HoldsText(a: seq<byte>, text: seq<byte>)
    ensures Holds(a, text) <==> Text(a) == text && |text| < |a|
  {
    if Holds(a, text) { TextIs(a, text); }
  }

  /** Whether the line typed is `text`. */
  method LineIs(ch: array<byte>, text: seq<byte>, ghost line: seq<byte>) returns (b: bool)
    requires ch.Length >= 128 && Holds(ch[..], line) && 1 <= |text| <= 127 && 0 !in text
    ensures b <==> line == text
  {
    hide CString.Text, CString.Extent;
    HoldsText(ch[..], line);
    assert (text + [0])[|text|] == 0;
    TextIs(text + [0], text);
    b := StrEql(ch[..], text + [0]);
  }

  /** A string copied out of a table cell; it has eight bytes at most. */
  method CopyString(dst: array<byte>, src: array<byte>, from: nat, ghost text: seq<byte>)
    requires dst != src && dst.Length == 9 && from + 9 <= src.Length && 1 <= |text| <= 8 && 0 !in text
    requires src[from..from + 9] == Cell(text, 9)
    modifies dst
    ensures Holds(dst[..], text)
  {
    ghost var cell := src[from..from + 9];
    var a := 0;
    while src[from + a] != 0 && a < 8
      invariant a <= |text| && src[from + a] == cell[a]
      invariant forall i :: 0 <= i < a ==> dst[i] == text[i]
      decreases |text| - a
    {
      dst[a] := src[from + a];
      a := a + 1;
      assert src[from + a] == cell[a];
    }
    dst[a] := 0;
  }

  /** The prompt has 128 bytes; the byte after them is read when no zero is found, and never
      written. It always has two characters at least. */
  ghost predicate IsPrompt(prompt: seq<byte>) {
    |prompt| == 129 && prompt[0] != 0 && prompt[1] != 0
  }

  /** A path that fits the prompt is what it shows. */
  ghost predicate IsShown(prompt: seq<byte>, path: seq<byte>) {
    |path| < 125 ==> Holds(prompt, path + DOLLAR)
  }

  /** After the `n` bytes of a path the prompt now has a slash and the name, small letters after
      the first, and then its end. */
  ghost predicate IsExtended(was: seq<byte>, now: seq<byte>, n: nat, name: seq<byte>) {
    var m := n + 1 + |name|;
    && |was| == |now| == 129 && m < 125 && 1 <= |name| && now[..n] == was[..n]
    && now[n] == 0x2f && now[n + 1] == name[0] && now[m..m + 3] == [0x24, 0x20, 0]
    && forall i :: 1 <= i < |name| ==> !(0x41 <= now[n + 1 + i] <= 0x5a) && Upper(now[n + 1 + i]) == Upper(name[i])
  }

  /** The prompt has lost what came after the `n` bytes of a path. */
  ghost predicate IsCut(was: seq<byte>, now: seq<byte>, n: nat) {
    |was| == |now| == 129 && n < 125 && now[..n] == was[..n] && now[n..n + 3] == [0x24, 0x20, 0]
  }

  lemma HoldsPath(prompt: seq<byte>, path: seq<byte>)
    requires IsPrompt(prompt) && IsShown(prompt, path) && |path| < 125
    ensures |prompt| == 129 && prompt[..|path|] == path && prompt[|path|..|path| + 3] == [0x24, 0x20, 0]
  {
    var text := path + DOLLAR;
    assert forall i :: 0 <= i < |path| ==> prompt[i] == text[i] == path[i];
    assert prompt[|path|] == text[|path|] && prompt[|path| + 1] == text[|path| + 1];
  }

  lemma LongerPath(path: seq<byte>, name: seq<byte>)
    ensures var longer, n := path + SLASH + Shown(name), |path|;
      && |longer| == n + 1 + |name| && longer[..n] == path && longer[n] == 0x2f
      && forall i :: 0 <= i < |name| ==> longer[n + 1 + i] == Shown(name)[i]
  {}

  lemma ShownLetters(name: seq<byte>)
    ensures name != [] ==> Shown(name)[0] == name[0]
    ensures forall i :: 1 <= i < |name| ==> !(0x41 <= Shown(name)[i] <= 0x5a) && Upper(Shown(name)[i]) == Upper(name[i])
  {
    hide Shown;
    ShownIs(name);
    forall i | 1 <= i < |name| ensures Upper(Shown(name)[i]) == Upper(name[i]) {
      assert UpperAll(Shown(name))[i] == UpperAll(name)[i];
    }
  }

  lemma ExtendedIs(was: seq<byte>, now: seq<byte>, path: seq<byte>, name: seq<byte>)
    requires IsPrompt(was) && IsPrompt(now) && IsShown(was, path) && IsShown(now, path + SLASH + Shown(name))
    requires |path| + 1 + |name| < 125 && name != []
    ensures IsExtended(was, now, |path|, name)
  {
    hide IsShown, IsPrompt, Shown, Upper;
    var longer, n := path + SLASH + Shown(name), |path|;
    LongerPath(path, name);
    HoldsPath(was, path);
    HoldsPath(now, longer);
    ShownLetters(name);
    var start := now[..|longer|];
    assert now[..n] == start[..n];
    assert now[n] == start[n];
    forall i | 0 <= i < |name| ensures now[n + 1 + i] == Shown(name)[i] { assert now[n + 1 + i] == start[n + 1 + i]; }
  }

  lemma CutIs(was: seq<byte>, now: seq<byte>, path: seq<byte>, shown: seq<byte>)
    requires IsPrompt(was) && IsPrompt(now) && IsShown(was, path + SLASH + shown) && IsShown(now, path)
    requires |path| + 1 + |shown| < 125
    ensures IsCut(was, now, |path|)
  {
    hide IsShown, IsPrompt;
    HoldsPath(was, path + SLASH + shown);
    HoldsPath(now, path);
    var longer := path + SLASH + shown;
    assert was[..|path|] == was[..|longer|][..|path|] == longer[..|path|] == path;
  }

  /** The end of the prompt; `limit` is 125 or 128 in the two copies of the loop. */
  method FindEnd(prompt: array<byte>, limit: nat, ghost text: seq<byte>) returns (b: nat)
    requires IsPrompt(prompt[..]) && 2 <= limit <= 128
    ensures 2 <= b <= limit && forall i :: 0 <= i < b ==> prompt[i] != 0
    ensures Holds(prompt[..], text) && |text| <= limit ==> b == |text|
  {
    b := 0;
    while prompt[b] != 0 && b < limit
      invariant b <= limit && forall i :: 0 <= i < b ==> prompt[i] != 0
      decreases limit - b
    {
      b := b + 1;
    }
    assert prompt[b] == prompt[..][b];
  }

  /** Writes a slash and the name of the current directory over the end of the prompt. */
  method ExtendPrompt(prompt: array<byte>, current: array<byte>, limit: nat, ghost path: seq<byte>, ghost name: seq<byte>)
    requires prompt != current && IsPrompt(prompt[..]) && current.Length == 9 && 125 <= limit <= 128
    requires Holds(current[..], name) && 1 <= |name| <= 8
    modifies prompt
    ensures IsPrompt(prompt[..])
    ensures old(IsShown(prompt[..], path)) ==> IsShown(prompt[..], path + SLASH + Shown(name))
    ensures old(IsShown(prompt[..], path)) && |path| + 1 + |name| < 125 ==> IsExtended(old(prompt[..]), prompt[..], |path|, name)
  {
    hide IsExtended;
    ghost var was := prompt[..];
    ghost var longer := path + SLASH + Shown(name);
    ghost var fits := IsShown(prompt[..], path) && |longer| < 125;
    var b := FindEnd(prompt, limit, path + DOLLAR);
    b := b - 2;
    if fits {
      forall i | 0 <= i < |path| ensures prompt[i] == path[i] == longer[i] != 0 { assert prompt[i] == (path + DOLLAR)[i]; }
    }
    prompt[b] := 0x2f;
    b := b + 1;
    ghost var b0 := b;
    var a := 0;
    while current[a] != 0 && a < 9 && b < 128
      invariant a <= |name| && b == b0 + a <= 128 && current[a] == current[..][a]
      invariant forall i :: 0 <= i < b ==> prompt[i] != 0
      invariant fits ==> b == |path| + 1 + a && forall i :: 0 <= i < b ==> prompt[i] == longer[i]
      decreases |name| - a
    {
      assert a < |name|;
      prompt[b] := if current[a] > 0x40 && current[a] < 0x5b && a != 0 then current[a] + 0x20 else current[a];
      assert fits ==> prompt[b] == Shown(name)[a] == longer[b];
      b := b + 1;
      a := a + 1;
    }
    if b < 125 {
      prompt[b] := 0x24;
      prompt[b + 1] := 0x20;
      prompt[b + 2] := 0;
    }
    if fits {
      assert a == |name|;
      assert longer + DOLLAR == path + SLASH + Shown(name) + DOLLAR;
      ExtendedIs(was, prompt[..], path, name);
    }
  }

  /** Cuts the last name, of `length` bytes, off the prompt. */
  method CutPrompt(prompt: array<byte>, length: nat, ghost path: seq<byte>, ghost name: seq<byte>)
    requires IsPrompt(prompt[..])
    modifies prompt
    ensures IsPrompt(prompt[..])
    ensures old(IsShown(prompt[..], path + SLASH + name)) && length == |name| && path != [] && |path + SLASH + name| < 125 ==>
      IsShown(prompt[..], path)
  {
    ghost var text := path + SLASH + name + DOLLAR;
    ghost var fits := IsShown(prompt[..], path + SLASH + name) && length == |name| && path != [] && |path + SLASH + name| < 125;
    var b := FindEnd(prompt, 128, text);
    b := b - 2;
    if b > length {
      b := b - length;
    } else {
      return;
    }
    if b > 0 { b := b - 1; }
    if fits {
      assert b == |path|;
      assert text[..b] == path;
      forall i | 0 <= i < b ensures prompt[i] == path[i] != 0 { assert text[i] == text[..b][i]; }
    }
    if b < 125 {
      prompt[b] := 0x24;
      prompt[b + 1] := 0x20;
      prompt[b + 2] := 0;
    }
  }

  /** The whole line in capitals, as the search for a file takes it. After an empty line
      the bytes behind its zero are what is left of the lines before; some of them change. */
  method CapitalizeAll(ch: array<byte>, ghost typed: seq<byte>)
    requires ch.Length == 4096 && Holds(ch[..], typed) && |typed| <= 127
    modifies ch
    ensures Text(ch[..]) == UpperAll(typed) != EOD
  {
    hide CString.Text;
    LineExtent(ch[..], typed);
    var p := StrLength(ch[..]);
    var q := 0;
    while q < p
      invariant q <= p <= 127 && (typed != [] ==> p == |typed|)
      invariant forall j :: 0 <= j < |typed| ==> ch[j] == if j < q then Upper(typed[j]) else typed[j]
      invariant typed == [] ==> ch[0] == 0
    {
      if ch[q] > 0x60 && ch[q] < 0x7b {
        ch[q] := ch[q] - 0x20;
      }
      q := q + 1;
    }
    ch[q] := 0;
    assert UpperAll(typed) != EOD by { if |typed| == 3 { assert UpperAll(typed)[0] == Upper(typed[0]); } }
    assert Holds(ch[..], UpperAll(typed));
    HoldsText(ch[..], UpperAll(typed));
  }

  lemma LineExtent(ch: seq<byte>, typed: seq<byte>)
    requires |ch| >= 128 && Holds(ch, typed) && |typed| <= 127
    ensures typed != [] ==> Extent(ch, 1) == |typed|
  {
    if typed != [] { ExtentIs(ch, |typed|); }
  }

  /** A line, put into the buffer character by character. */
  method TypeLine(ch: array<byte>, line: seq<byte>)
    requires ch.Length >= 128 && |line| <= 127 && 0 !in line
    modifies ch
    ensures Holds(ch[..], line)
  {
    for i := 0 to |line|
      invariant forall j :: 0 <= j < i ==> ch[j] == line[j]
    {
      ch[i] := line[i];
    }
    ch[|line|] := 0;
  }

  lemma TypedAfterCd(ch: seq<byte>, typed: seq<byte>)
    requires |ch| >= 128 && Holds(ch, CD + typed) && 1 <= |typed| <= 124
    ensures IsTyped(ch, typed)
  {
    TypedBytes(ch, typed);
    forall i | 0 <= i < |typed| ensures ch[3 + i] == typed[i] != 0 { assert ch[3 + i] == (CD + typed)[3 + i]; }
    assert ch[|CD + typed|] == 0;
  }

  /** What a complete scan leaves. */
  lemma ScannedTables(scan: Scanner, ds: seq<Dir>)
    requires scan.Indexes(ds)
    ensures scan.dirInfo.Length == scan.filenames.Length == TABLE && scan.dirInfo != scan.filenames
    ensures IsInfo(scan.dirInfo[..], InfoRows(ds)) && IsTable(scan.filenames[..], 10, CellsOf(FileRows(ds)))
    ensures |InfoTexts(ds)| <= INFO_ROWS && |FileRows(ds)| <= FILE_ROWS
    ensures |FileRows(ds)| <= scan.fileCluster.Length == scan.fileLength.Length
    ensures forall i :: 0 <= i < |FileRows(ds)| ==>
      scan.fileCluster[i] == FileRows(ds)[i].cluster && scan.fileLength[i] == FileRows(ds)[i].length
  {
    InfoRowsAreTexts(ds);
  }

  /** `cd` enters each step of `path` from the line buffer, and `cd b` reaches each directory on the way. */
  ghost predicate CanReturn(list: seq<Dir>, j: nat, path: seq<seq<byte>>)
    requires IsListing(list) && CanDescend(list, j, path)
    decreases |path|
  {
    path == [] || (
      var k := Enter(list, j, path[0]);
      && CanEnter(list, j, path[0]) && !IsCommand(path[0]) && 1 <= |path[0]| <= 124 && 0 !in path[0]
      && k <= |list| && 9 * (Start(list, k) + 1) < 456 && CanReturn(list, k, path[1..]))
  }

  class Shell {
    const dirInfo: array<byte>        // fs_filenames_dirinfo
    const current: array<byte>        // fs_current_directory
    const prompt: array<byte>         // Consolestring, through csptr, and the byte after it
    const filenames: array<byte>      // fs_filenames
    const fileCluster: array<nat>     // fs_filelocation_cluster_ptr
    const fileLength: array<nat>      // fs_filelength
    ghost const list: seq<Dir>
    ghost var at: nat

    /** The shell at the root, on the tables a scan has filled. */
    constructor (scan: Scanner, ghost root: Dir)
      requires scan.Indexes(Levels([root])) && HasGoodNames(Levels([root]))
      ensures Valid() && FilesValid() && list == Levels([root]) && at == 0
      ensures dirInfo == scan.dirInfo && filenames == scan.filenames
      ensures fileCluster == scan.fileCluster && fileLength == scan.fileLength
      ensures fresh(current) && fresh(prompt)
    {
      hide IsListing, HasGoodNames, IsTable, IsInfo, InfoRows, InfoTexts, FileRows, Levels, Scanner.Indexes;
      dirInfo, filenames, fileCluster, fileLength := scan.dirInfo, scan.filenames, scan.fileCluster, scan.fileLength;
      current := new byte[9];
      prompt := new byte[129];
      list, at := Levels([root]), 0;
      new;
      LevelsAreListing(root);
      ScannedTables(scan, list);
      CdRoot();
    }

    ghost predicate TableValid()
      reads dirInfo
    {
      && dirInfo.Length == TABLE && current.Length == 9 && prompt.Length == 129
      && dirInfo != current && dirInfo != prompt && current != prompt
      && IsListing(list) && HasGoodNames(list) && |InfoTexts(list)| <= INFO_ROWS
      && IsInfo(dirInfo[..], InfoRows(list))
    }

    /** The current directory is the one at position `at`, by name, and the prompt shows its path. */
    ghost predicate Valid()
      reads this, dirInfo, current, prompt
    {
      && TableValid() && at < |list| && Holds(current[..], list[at].name)
      && IsPrompt(prompt[..]) && IsShown(prompt[..], Path(list, at))
    }

    ghost function Texts(): seq<seq<byte>> {
      InfoTexts(list)
    }

    /** A row as a string. Only the row that ends in the page behind can read other than it is meant. */
    lemma RowText(r: nat)
      requires TableValid() && r < |Texts()|
      ensures 9 * r + 9 <= dirInfo.Length && Terminated(dirInfo[9 * r..])
      ensures Text(dirInfo[9 * r..]) == if r == 455 && Texts()[r] == PERCENT then PERCENT + ROOT else Texts()[r]
      ensures 1 <= |Texts()[r]| <= 8 && 0 !in Texts()[r]
      ensures r != 455 || (Texts()[r] != PERCENT && Texts()[r] != EOD) ==> dirInfo[9 * r..9 * r + 9] == Cell(Texts()[r], 9)
    {
      hide InfoTexts, InfoRows, IsListing, Start, IsInfo, IsPiece, HasGoodNames, Formed, CString.Text, CString.Terminated;
      GoodText(r);
      InfoRowsAreTexts(list);
      MarkPiece(r);
      RowReads(dirInfo[..], InfoRows(list), r, Texts()[r]);
      assert dirInfo[9 * r..] == dirInfo[..][9 * r..];
      assert dirInfo[9 * r..9 * r + 9] == dirInfo[..][9 * r..9 * r + 9];
    }

    lemma MarkPiece(r: nat)
      requires TableValid() && r < |Texts()| == |InfoRows(list)|
      ensures InfoRows(list)[r] == PERCENT <==> Texts()[r] == PERCENT
      ensures Texts()[r] != PERCENT && Texts()[r] != EOD ==> InfoRows(list)[r] == Cell(Texts()[r], 8)
    {
      hide InfoTexts, InfoRows, IsListing, Start, IsInfo;
      InfoRowsAreTexts(list);
      MarkRows(list, r);
      var i, o := RowSection(list, r);
      SectionRows(list, i);
      GoodNameAt(i);
      if 2 <= o < 2 + |list[i].subs| {
        ChildInList(list, i, o - 2);
        GoodNameAt(ChildAt(list, i, o - 2));
      }
    }

    lemma GoodText(r: nat)
      requires TableValid() && r < |Texts()|
      ensures 1 <= |Texts()[r]| <= 8 && 0 !in Texts()[r]
    {
      hide InfoTexts, IsListing, Start, IsTable, ChildAt;
      var i, o := RowSection(list, r);
      SectionRows(list, i);
      if 2 <= o < 2 + |list[i].subs| { ChildInList(list, i, o - 2); }
    }

    /** Whether row `c` holds the name of the current directory. */
    method IsCurrent(c: nat) returns (b: bool)
      requires Valid() && c < |Texts()|
      ensures Texts()[c] == list[at].name ==> b
      ensures b && c != 455 ==> Texts()[c] == list[at].name
    {
      hide InfoTexts, InfoRows, IsListing, IsInfo, IsTable, Path, HasGoodNames, Holds, Cell, CString.Text, CString.Extent, Head;
      RowText(c);
      CurrentEnds();
      NotAMark();
      b := StrEql(dirInfo[c * 9..], current[..]);
    }

    lemma NotAMark()
      requires TableValid() && at < |list|
      ensures list[at].name != PERCENT
    {
      hide InfoTexts, InfoRows, IsListing, IsInfo;
      GoodNameAt(at);
    }

    lemma CurrentEnds()
      requires Valid()
      ensures Terminated(current[..]) && current[|list[at].name|] == 0 && |list[at].name| <= 8
      ensures Text(current[..]) == list[at].name && current[..][0] != 0
    {
      hide InfoTexts, IsListing, IsInfo, IsTable, Path;
      assert IsGoodName(list[at].name);
      HoldsText(current[..], list[at].name);
    }

    /** Whether row `c` holds one of the marks. */
    method IsMark(c: nat, mark: seq<byte>) returns (b: bool)
      requires Valid() && c < |Texts()| && (mark == PERCENT || mark == EOD)
      ensures b <==> Texts()[c] == mark && !(c == 455 && mark == PERCENT)
    {
      hide InfoTexts, InfoRows, IsListing, IsInfo, IsTable, Path, HasGoodNames, Holds, Cell, CString.Text, CString.Extent, Head;
      RowText(c);
      assert (mark + [0])[|mark|] == 0;
      TextIs(mark + [0], mark);
      b := StrEql(dirInfo[c * 9..], mark + [0]);
    }

    /** The first row from `from` on with the name of the current directory; 455 or 456 when there
        is none before row 455. */
    method FindRow(from: nat) returns (c: nat)
      requires Valid() && from <= 456
      requires exists r :: from <= r < |Texts()| && Texts()[r] == list[at].name
      ensures from <= c <= 456
      ensures forall r :: from <= r < c && r < 455 ==> r < |Texts()| && Texts()[r] != list[at].name
      ensures c < 455 ==> c < |Texts()| && Texts()[c] == list[at].name
    {
      hide InfoTexts, IsListing, IsInfo, Path;
      ghost var w :| from <= w < |Texts()| && Texts()[w] == list[at].name;
      c := from;
      while true
        invariant from <= c <= w && c <= 456
        invariant forall r :: from <= r < c && r < 455 ==> Texts()[r] != list[at].name
        decreases w - c
      {
        var here := IsCurrent(c);
        if here || c >= 456 { break; }
        c := c + 1;
      }
    }

    lemma NotEod(x: nat)
      requires TableValid() && at < |list| && x < |list[at].subs|
      ensures list[at].subs[x].name != EOD && list[at].subs[x].name != PERCENT && 1 <= |list[at].subs[x].name| <= 8
    {
      hide IsInfo, IsTable, InfoTexts;
      ChildInList(list, at, x);
    }

    lemma SameCell(r: nat, name: seq<byte>)
      requires TableValid() && r < |Texts()| && Texts()[r] == name != PERCENT && name != EOD
      ensures dirInfo[r * 9..r * 9 + 8] == Cell(name, 8)
    {
      hide IsInfo, IsTable, InfoTexts, IsListing;
      RowText(r);
      assert dirInfo[r * 9..r * 9 + 8] == dirInfo[9 * r..9 * r + 9][..8];
    }

    method CopyChild(tempDir: array<byte>, k: nat, c: nat, ghost names: seq<seq<byte>>)
      requires TableValid() && tempDir != dirInfo && tempDir.Length == 4096
      requires c < |Texts()| && k < |names| && k <= 453 && Texts()[c] == names[k] != PERCENT && names[k] != EOD
      requires IsTable(tempDir[..], 9, NameRows(names[..k]))
      modifies tempDir
      ensures IsTable(tempDir[..], 9, NameRows(names[..k + 1]))
    {
      hide InfoTexts, IsListing, IsInfo, IsTable, Cell, HasGoodNames, NameRows;
      RowText(c);
      SameCell(c, names[k]);
      TextRow(tempDir[..], names[..k], names[k], Cell(names[k], 8));
      assert names[..k + 1] == names[..k] + [names[k]];
      CellExtends(names[k], 8);
      CopyCell(tempDir, k * 9, dirInfo, c * 9);
    }

    /** The children listed from row `c` on, copied into a table of their own, if the rows looked at
        go that far. */
    method CopyChildren(c0: nat) returns (tempDir: array<byte>, c: nat)
      requires Valid() && c0 == Start(list, at) + 2 <= LAST_ROW
      ensures fresh(tempDir) && tempDir.Length == 4096
      ensures c <= LAST_ROW <==> IsInReach(list, at)
      ensures c <= LAST_ROW ==> IsTable(tempDir[..], 9, NameRows(Names(list[at].subs) + [EOD]))
    {
      hide InfoTexts, IsListing, IsInfo, IsTable, Path, Cell, Start, HasGoodNames, NameRows;
      SectionRows(list, at);
      ghost var names := Names(list[at].subs);
      tempDir := new byte[4096](_ => 0);
      EmptyTable(tempDir[..]);
      var kbTemp1 := 0;
      c := c0;
      while true
        invariant c == c0 + kbTemp1 && kbTemp1 <= |names| && c <= 456
        invariant IsTable(tempDir[..], 9, NameRows(names[..kbTemp1]))
        decreases |names| - kbTemp1
      {
        var end := IsMark(c, EOD);
        if end || c >= 456 { break; }
        if kbTemp1 < |names| { NotEod(kbTemp1); }
        CopyChild(tempDir, kbTemp1, c, names);
        c := c + 1;
        kbTemp1 := kbTemp1 + 1;
      }
      if c <= 455 {
        assert kbTemp1 == |names| by { if kbTemp1 < |names| { NotEod(kbTemp1); } }
        assert names[..kbTemp1] == names;
        TextRow(tempDir[..], names, EOD, EOD + [0]);
      }
      if kbTemp1 * 9 < 4090 {
        PutEod(tempDir, kbTemp1 * 9);
      }
    }

    /** Where the searches for the current directory end up: in its own section, after a
        stop in its parent's when it is not the root. */
    lemma SearchesEnd(c: nat)
      requires TableValid() && at < |list| && c < |Texts()| && Texts()[c] == list[at].name
      ensures c == Start(list, at) || (at > 0 && c < Start(list, at) && Texts()[c + 1] != PERCENT)
      ensures Start(list, at) + 2 < |Texts()| && Texts()[Start(list, at)] == list[at].name
      ensures Texts()[Start(list, at) + 1] == PERCENT && (at == 0 ==> Start(list, at) == 0)
      ensures at > 0 ==> exists r :: 0 <= r < Start(list, at) && Texts()[r] == list[at].name && Texts()[r + 1] != PERCENT
      ensures forall r, r' :: 0 <= r < r' < |Texts()| && Texts()[r] == Texts()[r'] == list[at].name ==> r' == Start(list, at)
    {
      hide InfoTexts, IsInfo, IsTable, ChildRow, IsListing, HasGoodNames;
      SectionRows(list, at);
      NameOccurs(list, at, c);
      RootStart(list);
      if at > 0 { ChildRowFirst(list, at); }
      forall r, r' | 0 <= r < r' < |Texts()| && Texts()[r] == Texts()[r'] == list[at].name ensures r' == Start(list, at) {
        NameOccurs(list, at, r);
        NameOccurs(list, at, r');
      }
    }

    /** From the row of the first child on: into the child whose name is typed, if any. */
    method EnterChild(c: nat, ch: array<byte>, atRoot: bool, ghost typed: seq<byte>) returns (ok: bool)
      requires Valid() && c == Start(list, at) + 2 <= LAST_ROW && (atRoot <==> at == 0)
      requires IsTyped(ch[..], typed) && ch != current && ch != prompt && ch != dirInfo
      modifies this`at, ch, current, prompt
      ensures Valid() && (ok <==> CanEnter(list, old(at), typed))
      ensures at == if ok then Enter(list, old(at), typed) else old(at)
      ensures !ok ==> current[..] == old(current[..]) && prompt[..] == old(prompt[..])
      ensures ok && |Path(list, at)| < 125 ==> IsExtended(old(prompt[..]), prompt[..], |Path(list, old(at))|, UpperAll(typed))
    {
      hide InfoTexts, IsListing, IsInfo, IsTable, Path, Cell, Start, HasGoodNames, IsTyped, Holds, IsShown, ChildAt, IsExtended;
      hide CString.Text, CString.Terminated, CString.Extent;
      ghost var subs, name := list[at].subs, UpperAll(typed);
      var tempDir, end := CopyChildren(c);
      if end > 455 { return false; }
      Capitalize(ch, typed);
      ChildNames();
      var fsB;
      ok, fsB := FindTyped(ch, tempDir, atRoot, typed, subs);
      if ok {
        EnterGoesDown(list, at, typed);
        ghost var path := Path(list, at);
        RowsRead(tempDir[..], Names(subs) + [EOD], IndexOf(subs, name));
        CopyString(current, tempDir, fsB, name);
        ExtendPrompt(prompt, current, if atRoot then 128 else 125, path, name);
        at := Enter(list, at, typed);
      }
    }

    lemma ChildNames()
      requires TableValid() && at < |list|
      ensures forall x :: 0 <= x < |list[at].subs| ==> IsGoodName(list[at].subs[x].name)
    {
      hide IsInfo, IsTable, InfoTexts, IsListing;
      forall x | 0 <= x < |list[at].subs| ensures IsGoodName(list[at].subs[x].name) {
        ChildInList(list, at, x);
      }
    }

    /** `cd` and a name: into the child of that name in the tree if there is one, and it is
        not past the reach of the search from the root; otherwise nothing changes. */
    method CdTo(ch: array<byte>, ghost typed: seq<byte>) returns (ok: bool)
      requires Valid() && IsTyped(ch[..], typed) && ch != current && ch != prompt && ch != dirInfo
      modifies this`at, ch, current, prompt
      ensures Valid() && (ok <==> CanEnter(list, old(at), typed))
      ensures at == if ok then Enter(list, old(at), typed) else old(at)
      ensures !ok ==> current[..] == old(current[..]) && prompt[..] == old(prompt[..])
      ensures ok && |Path(list, at)| < 125 ==> IsExtended(old(prompt[..]), prompt[..], |Path(list, old(at))|, UpperAll(typed))
    {
      hide InfoTexts, IsListing, IsInfo, Path, Start, HasGoodNames, IsTyped, Holds, HasChild, Enter, IndexOf, IsExtended;
      ghost var own := OwnRow();
      SearchesEnd(own);
      var c := FindRow(0);
      if c > 455 { return false; }
      c := c + 1;
      if c > 455 { return false; }
      SearchesEnd(c - 1);
      var isParent := IsMark(c, PERCENT);
      if !isParent {
        c := FindRow(c);
        if c > 455 { return false; }
        c := c + 1;
        if c > 455 { return false; }
        isParent := IsMark(c, PERCENT);
        if !isParent { return false; }
        c := c + 1;
        if c > 455 { return false; }
        ok := EnterChild(c, ch, false, typed);
      } else if c == 1 {
        c := c + 1;
        var empty := IsMark(c, EOD);
        if empty {
          NoChildren(typed);
          return false;
        }
        ok := EnterChild(c, ch, true, typed);
      } else {
        assert false;
      }
    }

    ghost function OwnRow(): (r: nat)
      requires TableValid() && at < |list|
      reads this, dirInfo
      ensures r == Start(list, at) < |Texts()| && Texts()[r] == list[at].name
    {
      SectionRows(list, at);
      Start(list, at)
    }

    lemma NoChildren(typed: seq<byte>)
      requires TableValid() && at < |list| && Start(list, at) + 2 < |Texts()| && Texts()[Start(list, at) + 2] == EOD
      ensures !HasChild(list, at, typed) && Enter(list, at, typed) == at
    {
      hide InfoTexts, IsListing, IsInfo, IsTable, Start, HasGoodNames, TableValid;
      SectionRows(list, at);
      if list[at].subs != [] { NotEod(0); }
    }

    /** The walk over the bytes of the table that `cd b` does: to the end of the text of
        row `r`, and on to the next text; byte 456 is as far as it goes. */
    method SkipText(c0: nat, ghost r: nat) returns (c: nat)
      requires TableValid() && r < |Texts()| && c0 == 9 * r < 456
      ensures c == if 9 * r + |Texts()[r]| < 456 then 9 * r + |Texts()[r]| else 456
    {
      hide InfoTexts, IsListing, IsInfo, IsTable, HasGoodNames;
      RowText(r);
      ghost var cell := dirInfo[9 * r..9 * r + 9];
      c := c0;
      while dirInfo[c] != 0 && c < 456
        invariant 9 * r <= c <= 456 && c <= 9 * r + |Texts()[r]| && dirInfo[c] == cell[c - 9 * r]
        decreases 9 * r + |Texts()[r]| - c
      {
        c := c + 1;
        assert dirInfo[c] == cell[c - 9 * r];
      }
    }

    method SkipZeros(c0: nat, ghost r: nat) returns (c: nat)
      requires TableValid() && r < |Texts()| && 9 * r < 456
      requires c0 == if 9 * r + |Texts()[r]| < 456 then 9 * r + |Texts()[r]| else 456
      ensures c == if r + 1 < |Texts()| && 9 * (r + 1) < 456 then 9 * (r + 1) else 456
    {
      hide InfoTexts, IsListing, IsInfo, IsTable, HasGoodNames, CString.Text, CString.Terminated, CString.Extent;
      RowText(r);
      ghost var cell := dirInfo[9 * r..9 * r + 9];
      if r + 1 < |Texts()| {
        RowText(r + 1);
        assert dirInfo[9 * (r + 1)] == dirInfo[9 * (r + 1)..9 * (r + 1) + 9][0] != 0;
      } else {
        ZeroAfter();
      }
      c := c0;
      while dirInfo[c] == 0 && c < 456
        invariant c0 <= c <= 456 && (r + 1 < |Texts()| ==> c <= 9 * (r + 1))
        invariant c < 9 * r + 9 ==> dirInfo[c] == cell[c - 9 * r]
        decreases 456 - c
      {
        c := c + 1;
        assert c < 9 * r + 9 ==> dirInfo[c] == cell[c - 9 * r];
      }
    }

    lemma ZeroAfter()
      requires TableValid()
      ensures forall p :: 9 * |Texts()| <= p < 4096 ==> dirInfo[p] == 0
    {
      InfoRowsAreTexts(list);
      assert forall p :: 9 * |Texts()| <= p < 4096 ==> dirInfo[p] == dirInfo[..][p];
    }

    /** Byte 456 lies inside row 50; a string read from there ends soon. */
    lemma LimitTerminated()
      requires TableValid()
      ensures Terminated(dirInfo[456..])
    {
      hide InfoTexts, IsListing, IsInfo, IsTable, HasGoodNames;
      var ch := dirInfo[456..];
      if 50 < |Texts()| {
        RowText(50);
        assert ch[2] == dirInfo[9 * 50..9 * 50 + 9][8] == 0;
      } else {
        ZeroAfter();
        assert ch[2] == 0;
      }
    }

    /** From row `r0` on to the first row with the name of the current directory, or to byte 456. */
    method WalkToCurrent(c0: nat, ghost r0: nat) returns (c: nat, ghost r: nat)
      requires Valid() && r0 < |Texts()| && c0 == 9 * r0 < 456
      ensures r0 <= r <= |Texts()| && forall k :: r0 <= k < r ==> Texts()[k] != list[at].name
      ensures if c < 456 then r < |Texts()| && c == 9 * r && Texts()[r] == list[at].name
        else c == 456 && (r == |Texts()| || 9 * r >= 456)
    {
      hide InfoTexts, IsListing, IsInfo, IsTable, HasGoodNames, Path, Holds, CString.Text, CString.Terminated, CString.Extent;
      c, r := c0, r0;
      CurrentEnds();
      while true
        invariant r0 <= r <= |Texts()| && forall k :: r0 <= k < r ==> Texts()[k] != list[at].name
        invariant if c < 456 then r < |Texts()| && c == 9 * r else c == 456 && (r == |Texts()| || 9 * r >= 456)
        decreases 456 - c
      {
        if c < 456 { RowText(r); } else { LimitTerminated(); }
        var here := StrEql(dirInfo[c..], current[..]);
        if here || c >= 456 { break; }
        c := SkipText(c, r);
        c := SkipZeros(c, r);
        r := r + 1;
      }
    }

    /** Back over the table, row by row, to the last row before `c0` with the given text. */
    method RetreatToCurrent(c0: nat, ghost w: nat) returns (c: nat)
      requires Valid() && c0 % 9 == 0 && c0 / 9 < |Texts()| && c0 / 9 < 455 && w <= c0 / 9 && Texts()[w] == list[at].name
      ensures c % 9 == 0 && w <= c / 9 <= c0 / 9 && Texts()[c / 9] == list[at].name
    {
      hide InfoTexts, IsListing, IsInfo, IsTable, HasGoodNames, Path, Holds;
      c := c0;
      while true
        invariant c % 9 == 0 && w <= c / 9 <= c0 / 9
        decreases c
      {
        var here := IsCurrent(c / 9);
        if !(!here && c >= 1) { break; }
        c := c - 9;
      }
    }

    method RetreatToPercent(c0: nat, ghost w: nat) returns (c: nat)
      requires Valid() && c0 % 9 == 0 && c0 / 9 < |Texts()| && c0 / 9 < 455 && w <= c0 / 9 && Texts()[w] == PERCENT
      requires forall k :: w < k <= c0 / 9 ==> Texts()[k] != PERCENT
      ensures c == 9 * w
    {
      hide InfoTexts, IsListing, IsInfo, IsTable, HasGoodNames, Path, Holds;
      c := c0;
      while true
        invariant c % 9 == 0 && w <= c / 9 <= c0 / 9
        decreases c
      {
        var here := IsMark(c / 9, PERCENT);
        if !(!here && c >= 1) { break; }
        c := c - 9;
      }
    }

    lemma ParentSection(c: nat)
      requires TableValid() && 0 < at < |list| && c < Start(list, at) && c < |Texts()| && Texts()[c] == list[at].name
      ensures var i := Back(list, at);
        && i < at && Start(list, i) + 2 <= c
        && Texts()[Start(list, i)] == list[i].name && Texts()[Start(list, i) + 1] == PERCENT
        && forall k :: Start(list, i) + 1 < k <= c ==> Texts()[k] != PERCENT
    {
      hide InfoTexts, IsInfo, IsTable, IsListing, HasGoodNames, Start;
      NameOccurs(list, at, c);
      BackGoesUp(list, at);
      var i := ParentOf(list, at);
      SectionRows(list, i);
      ParentIsBefore(list, at);
      forall k | Start(list, i) + 1 < k <= c ensures Texts()[k] != PERCENT {
        var x := k - Start(list, i) - 2;
        ChildInList(list, i, x);
        GoodNameAt(ChildAt(list, i, x));
        assert Texts()[Start(list, i) + 2 + x] == list[i].subs[x].name;
      }
    }

    lemma GoodNameAt(j: nat)
      requires TableValid() && j < |list|
      ensures IsGoodName(list[j].name)
    {
      hide InfoTexts, IsInfo, IsTable, IsListing;
    }

    /** To the row of the mark in the current directory's own section, if byte 456 does not
        come first; `first` when the mark follows the first row with the directory's name. */
    method FindOwnMark() returns (ok: bool, first: bool, c: nat)
      requires Valid()
      ensures ok <==> 9 * (Start(list, at) + 1) < 456
      ensures ok ==> c == 9 * (Start(list, at) + 1) && (first <==> at == 0)
    {
      hide InfoTexts, IsListing, IsInfo, IsTable, HasGoodNames, Path, Holds, Start;
      ghost var r;
      ghost var own := OwnRow();
      ok, first := false, false;
      SearchesEnd(own);
      c, r := WalkToCurrent(0, 0);
      if c > 455 { return; }
      SearchesEnd(r);
      GoodText(r);
      c := SkipText(c, r);
      if c > 455 { return; }
      c := SkipZeros(c, r);
      if c > 455 { return; }
      first := IsMark(c / 9, PERCENT);
      if !first {
        c, r := WalkToCurrent(c, r + 1);
        if c > 455 { return; }
        GoodText(r);
        c := SkipText(c, r);
        if c > 455 { return; }
        c := SkipZeros(c, r);
        if c > 455 { return; }
        var isParent := IsMark(c / 9, PERCENT);
        if !isParent { return; }
      }
      ok := true;
    }

    /** `cd b`: to the parent in the tree, with the last name cut off the prompt. It works
        exactly when the mark of the current directory's own section starts before byte 456. */
    method CdBack() returns (ok: bool)
      requires Valid()
      modifies this`at, current, prompt
      ensures Valid()
      ensures ok <==> old(at) > 0 && 9 * (Start(list, old(at)) + 1) < 456
      ensures at == if ok then Back(list, old(at)) else old(at)
      ensures !ok ==> current[..] == old(current[..]) && prompt[..] == old(prompt[..])
      ensures ok ==> IsCut(old(prompt[..]), prompt[..], |Path(list, at)|)
    {
      hide InfoTexts, IsListing, IsInfo, IsTable, HasGoodNames, Path, Holds, Start, IsShown, IsCut;
      ghost var was := prompt[..];
      CurrentEnds();
      var kbStrLength := StrLength(current[..]);
      RootIsRoot();
      var atRoot := StrEql(current[..], ROOT + [0]);
      if atRoot { return false; }
      var c, first;
      ok, first, c := FindOwnMark();
      if !ok { return; }
      c := ToParentRow(c);
      BackGoesUp(list, at);
      ghost var i := Back(list, at);
      ghost var name := list[at].name;
      GoodNameAt(i);
      PathNotEmpty(i);
      BackIsShallow(list, at);
      CopyName(c, list[i].name);
      CutPrompt(prompt, kbStrLength, Path(list, i), Shown(name));
      CutIs(was, prompt[..], Path(list, i), Shown(name));
      at := i;
    }

    /** From the mark of the current directory's own section back to the name of its
        parent's; neither walk reaches the start of the table. */
    method ToParentRow(c0: nat) returns (c: nat)
      requires Valid() && at > 0 && c0 == 9 * (Start(list, at) + 1) < 456
      ensures Back(list, at) < at && c == 9 * Start(list, Back(list, at)) && c + 9 <= 4096
      ensures dirInfo[c..c + 9] == Cell(list[Back(list, at)].name, 9)
    {
      hide InfoTexts, IsListing, IsInfo, IsTable, HasGoodNames, Path, Holds, Start, Cell;
      ghost var own := OwnRow();
      SearchesEnd(own);
      c := c0 - 18;
      ghost var child :| 0 <= child < Start(list, at) && Texts()[child] == list[at].name;
      c := RetreatToCurrent(c, child);
      ParentSection(c / 9);
      assert c != 0;
      c := RetreatToPercent(c, Start(list, Back(list, at)) + 1);
      assert c != 0;
      c := c - 9;
      RowText(Start(list, Back(list, at)));
    }

    /** The eight-byte copy of a name, and zeroes up to the end of the buffer. */
    method CopyName(c0: nat, ghost name: seq<byte>)
      requires TableValid() && c0 + 9 <= 4096 && dirInfo[c0..c0 + 9] == Cell(name, 9) && IsGoodName(name)
      modifies current
      ensures Holds(current[..], name)
    {
      hide InfoTexts, IsListing, IsInfo, IsTable, HasGoodNames;
      ghost var cell := dirInfo[c0..c0 + 9];
      var c, b := c0, 0;
      while dirInfo[c] != 0 && b < 8
        invariant b <= |name| && c == c0 + b && dirInfo[c] == cell[b]
        invariant forall i :: 0 <= i < b ==> current[i] == name[i]
        decreases |name| - b
      {
        current[b] := dirInfo[c];
        b := b + 1;
        c := c + 1;
        assert dirInfo[c] == cell[b];
      }
      assert b == |name|;
      while b < 9
        invariant |name| <= b <= 9 && (b > |name| ==> current[|name|] == 0)
        invariant forall i :: 0 <= i < |name| ==> current[i] == name[i]
      {
        current[b] := 0;
        b := b + 1;
      }
    }

    lemma RootIsRoot()
      requires Valid()
      ensures Terminated(ROOT + [0]) && Text(ROOT + [0]) == ROOT
      ensures list[at].name == ROOT <==> at == 0
    {
      hide InfoTexts, IsInfo, IsTable, IsListing, Path, Holds;
      assert (ROOT + [0])[4] == 0;
      TextIs(ROOT + [0], ROOT);
    }

    lemma PathNotEmpty(i: nat)
      requires TableValid() && i < |list|
      ensures Path(list, i) != []
    {
      hide InfoTexts, IsInfo, IsTable, IsListing;
    }

    method ShowRoot()
      requires current.Length == 9 && prompt.Length == 129 && current != prompt
      modifies current, prompt
      ensures Holds(current[..], ROOT) && Holds(prompt[..], TILDE_ROOT + DOLLAR) && IsPrompt(prompt[..])
      ensures prompt[..8] == [0x7e, 0x52, 0x6f, 0x6f, 0x74, 0x24, 0x20, 0]
    {
      var root := [0x52, 0x4f, 0x4f, 0x54, 0, 0, 0, 0, 0];
      for b := 0 to 9
        invariant forall i :: 0 <= i < b ==> current[i] == root[i]
        modifies current
      {
        current[b] := root[b];
      }
      prompt[0] := 0x7e;
      prompt[1] := 0x52;
      prompt[2] := 0x6f;
      prompt[3] := 0x6f;
      prompt[4] := 0x74;
      prompt[5] := 0x24;
      prompt[6] := 0x20;
      prompt[7] := 0;
    }

    /** `cd r` and `cd root`. */
    method CdRoot()
      requires TableValid()
      modifies this`at, current, prompt
      ensures Valid() && at == 0 && prompt[..8] == [0x7e, 0x52, 0x6f, 0x6f, 0x74, 0x24, 0x20, 0]
    {
      hide InfoTexts, IsListing, IsInfo, IsTable, Holds, IsPrompt;
      ShowRoot();
      at := 0;
    }

    /** A line that starts with "cd ": the commands of the shell first, then a child. */
    method Cd(ch: array<byte>, ghost typed: seq<byte>)
      requires Valid() && ch.Length >= 128 && Holds(ch[..], CD + typed) && |typed| <= 124
      requires ch != current && ch != prompt && ch != dirInfo
      modifies this`at, ch, current, prompt
      ensures Valid() && at == AfterCd(list, old(at), typed)
      ensures at == old(at) && typed != HOME && typed != HOME_IN_FULL ==>
        current[..] == old(current[..]) && prompt[..] == old(prompt[..])
      ensures !IsCommand(typed) && at != old(at) && |Path(list, at)| < 125 ==>
        IsExtended(old(prompt[..]), prompt[..], |Path(list, old(at))|, UpperAll(typed))
      ensures typed == BACK && at != old(at) ==> IsCut(old(prompt[..]), prompt[..], |Path(list, at)|)
      ensures typed == HOME || typed == HOME_IN_FULL ==> prompt[..8] == [0x7e, 0x52, 0x6f, 0x6f, 0x74, 0x24, 0x20, 0]
    {
      hide InfoTexts, IsListing, IsInfo, IsTable, HasGoodNames, Path, Holds, IsPrompt, IsTyped, IsShown, Start, CanEnter, Enter, Back;
      hide IsExtended, IsCut;
      var back := LineIs(ch, CD + BACK, CD + typed);
      SameAfterCd(typed);
      MovesAway(typed);
      if back {
        var ok := CdBack();
        return;
      }
      var home := LineIs(ch, CD + HOME, CD + typed);
      if !home { home := LineIs(ch, CD + HOME_IN_FULL, CD + typed); }
      if home {
        CdRoot();
        return;
      }
      LineStarts(ch[..], typed);
      var isCd := StrEql2(ch[..], CD);
      if isCd {
        var length := StringLength(ch[..]);
        if length == 3 { return; }
        TypedAfterCd(ch[..], typed);
        var ok := CdTo(ch, typed);
      }
    }

    lemma MovesAway(typed: seq<byte>)
      requires TableValid() && at < |list|
      ensures CanGoBack(list, at) ==> Back(list, at) != at
      ensures CanEnter(list, at, typed) ==> Enter(list, at, typed) != at
    {
      hide InfoTexts, IsListing, IsInfo, IsTable, HasGoodNames, Start, Enter, Back, Path;
      if CanGoBack(list, at) { BackGoesUp(list, at); }
      if CanEnter(list, at, typed) { EnterGoesDown(list, at, typed); }
    }

    static lemma SameAfterCd(typed: seq<byte>)
      ensures CD + typed == CD + BACK <==> typed == BACK
      ensures CD + typed == CD + HOME <==> typed == HOME
      ensures CD + typed == CD + HOME_IN_FULL <==> typed == HOME_IN_FULL
    {
      assert typed == (CD + typed)[3..];
    }

    static lemma LineStarts(ch: seq<byte>, typed: seq<byte>)
      requires Holds(ch, CD + typed)
      ensures |ch| >= 3 && ch[..3] == CD && Text(ch) == CD + typed && 0 in ch
    {
      HoldsText(ch, CD + typed);
      assert forall i :: 0 <= i < 3 ==> ch[i] == (CD + typed)[i];
    }

    /** Any descent followed by as many `cd b` brings back the directory and the prompt. */
    method ThereAndBack(ch: array<byte>, path: seq<seq<byte>>)
      requires Valid() && ch.Length >= 128 && ch != current && ch != prompt && ch != dirInfo
      requires CanDescend(list, at, path) && CanReturn(list, at, path)
      modifies this`at, ch, current, prompt
      ensures Valid() && at == old(at)
      ensures Text(current[..]) == old(Text(current[..])) && Text(prompt[..]) == old(Text(prompt[..]))
      decreases |path|
    {
      hide InfoTexts, IsListing, IsInfo, IsTable, HasGoodNames, Path, Holds, IsPrompt, IsTyped, IsShown;
      hide Start, HasChild, Enter, ChildAt, ParentOf, Back;
      if path != [] {
        PromptShows(path[0]);
        assert CanEnter(list, at, path[0]);
        EnterGoesDown(list, at, path[0]);
        BackUndoesEnter(list, at, path[0]);
        TypeLine(ch, CD + path[0]);
        Cd(ch, path[0]);
        ThereAndBack(ch, path[1..]);
        TypeLine(ch, CD + BACK);
        Cd(ch, BACK);
        PromptShows(path[0]);
      }
    }

    /** What is seen of a directory that the shell can come back to from a child. */
    lemma PromptShows(typed: seq<byte>)
      requires Valid() && HasChild(list, at, typed) && Enter(list, at, typed) <= |list|
      requires 9 * (Start(list, Enter(list, at, typed)) + 1) < 456
      ensures Text(current[..]) == list[at].name && Text(prompt[..]) == Path(list, at) + DOLLAR
    {
      hide InfoTexts, IsListing, IsInfo, IsTable, HasGoodNames, Path, HasChild, Enter, Start;
      EnterGoesDown(list, at, typed);
      BackIsShallow(list, Enter(list, at, typed));
      HoldsText(current[..], list[at].name);
      HoldsText(prompt[..], Path(list, at) + DOLLAR);
    }

    ghost predicate FilesValid()
      reads filenames, fileCluster, fileLength
    {
      && filenames.Length == TABLE && filenames != dirInfo && filenames != current && filenames != prompt
      && IsTable(filenames[..], 10, CellsOf(FileRows(list)))
      && |FileRows(list)| <= FILE_ROWS && |FileRows(list)| <= fileCluster.Length == fileLength.Length
      && forall i :: 0 <= i < |FileRows(list)| ==>
        fileCluster[i] == FileRows(list)[i].cluster && fileLength[i] == FileRows(list)[i].length
    }

    lemma FileRowText(i: nat, o: nat)
      requires FilesValid() && HasGoodNames(list) && HasGoodFiles(list) && i < |list| && o < |list[i].files| + 2
      ensures var r := FileStart(list, i) + o;
        && r < |FileRows(list)| && 10 * r + 10 <= TABLE && Terminated(filenames[10 * r..]) && filenames[10 * r..][0] != 0
        && FileRowReads(list, r, Text(filenames[10 * r..]), i, o)
    {
      hide FileRows, FileStart, IsTable, Cell;
      var r, rows := FileStart(list, i) + o, CellsOf(FileRows(list));
      FileSectionRows(list, i);
      assert filenames[10 * r..] == filenames[..][10 * r..] by { TableRoom(r); }
      if o == 0 {
        NameCell(list[i].name);
        FileCellText(filenames[..], rows, r, list[i].name, false);
      } else if o == |list[i].files| + 1 {
        NameCell(EOD);
        FileCellText(filenames[..], rows, r, EOD, false);
      } else {
        var f := list[i].files[o - 1];
        assert IsGoodFile(list, f);
        FileCellText(filenames[..], rows, r, f.name, f.text);
      }
    }

    lemma TableRoom(r: nat)
      requires FilesValid() && r < |FileRows(list)|
      ensures 10 * r + 10 <= TABLE
    {}

    static lemma NameCell(name: seq<byte>)
      requires |name| <= 8
      ensures Cell(name, 10) == FileCell(name, false)
    {}

    /** Row `r` of the file table, read as a string. */
    ghost function RowLabel(r: nat): seq<byte>
      requires FilesValid() && r < |FileRows(list)|
      reads filenames, fileCluster, fileLength
    {
      TableRoom(r);
      Text(filenames[10 * r..])
    }

    method RowReadsAs(c: nat, s: seq<byte>) returns (b: bool)
      requires FilesValid() && HasGoodNames(list) && HasGoodFiles(list) && c < |FileRows(list)|
      requires IsReadable(s)
      ensures b <==> RowLabel(c) == Text(s)
    {
      hide FileRows, FileStart, IsTable, HasGoodNames, HasGoodFiles, Label, CString.Text, CString.Extent, Head;
      ghost var i, o := FileRowSection(list, c);
      FileRowText(i, o);
      b := StrEql(filenames[c * 10..], s);
    }

    /** Among the rows of the file table, the current directory's name is its header alone. */
    lemma HeaderRow(r: nat)
      requires FilesValid() && HasGoodNames(list) && HasGoodFiles(list) && at < |list| && r < |FileRows(list)|
      ensures RowLabel(r) == list[at].name ==> r == FileStart(list, at)
    {
      hide FileRows, FileStart, IsTable, Label, CString.Text, CString.Terminated, CString.Extent;
      var i, o := FileRowSection(list, r);
      FileRowText(i, o);
      if 0 < o < |list[i].files| + 1 { assert IsGoodFile(list, list[i].files[o - 1]); }
    }

    lemma Header()
      requires FilesValid() && HasGoodNames(list) && HasGoodFiles(list) && at < |list|
      ensures FileStart(list, at) < |FileRows(list)| && RowLabel(FileStart(list, at)) == list[at].name != EOD
    {
      hide FileRows, FileStart, IsTable, Label;
      FileSectionRows(list, at);
      FileRowText(at, 0);
    }

    /** The current directory's files come after its header, and the end mark after them. */
    lemma OwnFileRow(x: nat)
      requires FilesValid() && HasGoodNames(list) && HasGoodFiles(list) && at < |list| && x <= |list[at].files|
      ensures var r := FileStart(list, at) + 1 + x; var fs := list[at].files;
        r < |FileRows(list)| && RowLabel(r) == if x < |fs| then Label(fs[x]) else EOD
      ensures x < |list[at].files| ==> Label(list[at].files[x]) != EOD
    {
      hide FileRows, FileStart, IsTable, Label, HasGoodNames;
      FileSectionRows(list, at);
      FileRowText(at, 1 + x);
      if x < |list[at].files| { assert IsGoodFile(list, list[at].files[x]); }
    }

    /** What the search tells of the row `k` places below the header: whether it is the end
        mark, and whether it is the file looked for. */
    lemma SearchRow(k: nat, upper: seq<byte>)
      requires FilesValid() && HasGoodNames(list) && HasGoodFiles(list) && at < |list| && k <= |list[at].files| + 1
      requires upper != EOD
      ensures var r := FileStart(list, at) + k; var fs := list[at].files; var x := LabelIndex(fs, upper);
        && r < |FileRows(list)|
        && (RowLabel(r) == EOD <==> k == |fs| + 1)
        && (k <= x ==> RowLabel(r) == upper ==> k == 0 && x == |fs|)
        && (k == x + 1 <= |fs| ==> RowLabel(r) == upper)
        && (k == |fs| + 1 ==> RowLabel(r) != upper)
    {
      hide FileRows, FileStart, IsTable, Label, HasGoodNames, HasGoodFiles, CString.Text, CString.Terminated, CString.Extent;
      if k == 0 {
        Header();
        NotADirectory(upper);
      } else {
        OwnFileRow(k - 1);
      }
    }

    /** The row of the current directory's header (lines 125-126), or 455 when it is further down. */
    method FindHeader() returns (c: nat)
      requires Valid() && FilesValid() && HasGoodFiles(list)
      ensures c == HeaderFound() && c < |FileRows(list)|
    {
      hide FileRows, FileStart, IsInfo, IsTable, HasGoodNames, HasGoodFiles, InfoTexts, IsListing, Path, Holds;
      hide Label, RowLabel, CString.Text, CString.Terminated, CString.Extent;
      ghost var start := FileStart(list, at);
      Header();
      CurrentEnds();
      c := 0;
      while true
        invariant c <= start && c <= 455
        decreases start - c
      {
        var here := RowReadsAs(c, current[..]);
        HeaderRow(c);
        if here || c >= 455 { break; }
        c := c + 1;
      }
    }

    ghost function HeaderFound(): nat
      requires at < |list|
      reads this`at
    {
      AtMost(FileStart(list, at), 455)
    }

    /** The search below the header for what is typed in capitals (lines 140-145). */
    method SearchFiles(start: nat, ch2: array<byte>, ghost upper: seq<byte>) returns (checkRoot: bool, c: nat)
      requires TableValid() && FilesValid() && HasGoodFiles(list) && at < |list| && start == HeaderFound() < |FileRows(list)|
      requires IsReadable(ch2[..]) && Text(ch2[..]) == upper != EOD
      ensures var x := LabelIndex(list[at].files, upper);
        && (checkRoot <==> x < |list[at].files| && FileStart(list, at) + 1 + x <= LAST_FILE)
        && (checkRoot ==> c == FileStart(list, at) + 1 + x && c < |FileRows(list)|)
    {
      hide FileRows, FileStart, IsInfo, IsTable, HasGoodNames, HasGoodFiles, InfoTexts, IsListing;
      hide Label, LabelIndex, RowLabel, CString.Text, CString.Terminated, CString.Extent;
      ghost var fs, x, first := list[at].files, LabelIndex(list[at].files, upper), FileStart(list, at);
      EodText();
      SearchRow(|fs| + 1, upper);
      c, checkRoot := start, false;
      while true
        invariant start == first ==> first <= c <= first + x + 1 && c <= first + |fs| + 1
        invariant start != first ==> c == start == 455 && !checkRoot
        invariant c <= 455 && c < |FileRows(list)|
        invariant start == first ==> (checkRoot <==> x < |fs| && c == first + x + 1) && (c > first ==> c <= 409)
        decreases first + |fs| + 1 - c
      {
        var end := RowReadsAs(c, EOD + [0]);
        if start == first { SearchRow(c - first, upper); }
        if end || c >= 409 || checkRoot { break; }
        var here := RowReadsAs(c, ch2[..]);
        if here { break; }
        c := c + 1;
        SearchRow(c - first, upper);
        here := RowReadsAs(c, ch2[..]);
        if here { checkRoot := true; }
      }
    }

    /** `ls`: the names of the children and the labels of the files, in order, each file with
        whether ".TXT" is printed after it. It works at the root, and elsewhere exactly when
        the first child of the directory's own section starts before byte 456. */
    method Ls(start: nat) returns (ok: bool, dirs: seq<seq<byte>>, files: seq<(seq<byte>, bool)>)
      requires Valid() && FilesValid() && HasGoodFiles(list) && start == HeaderFound() < |FileRows(list)|
      ensures ok <==> CanList(list, at)
      ensures ok ==> dirs == Names(list[at].subs) && files == ListedFiles(list, at)
    {
      hide FileRows, FileStart, IsTable, HasGoodNames, HasGoodFiles, InfoTexts, IsListing, Start, Path, Holds, Label;
      var first, c;
      dirs, files := [], [];
      ok, first, c := FindOwnMark();
      if !ok { OwnRowFirst(); return; }
      c := c + 9;
      if !first && c > 455 { return false, dirs, files; }
      dirs := ListChildren(c / 9);
      files := ListFiles(start);
    }

    lemma OwnRowFirst()
      requires TableValid() && at < |list|
      ensures at == 0 ==> Start(list, at) == 0
    {
      RootStart(list);
    }

    /** The children of a directory that `ls` works in are far from the end of the table's page. */
    lemma ListFits()
      requires TableValid() && at < |list| && CanList(list, at)
      ensures Start(list, at) + 2 + |list[at].subs| <= 300
    {
      hide InfoTexts, InfoRows, IsListing, IsInfo;
      FewChildren(list, at);
      RootStart(list);
    }

    method ListChildren(c0: nat) returns (dirs: seq<seq<byte>>)
      requires Valid() && c0 == Start(list, at) + 2 && CanList(list, at)
      ensures dirs == Names(list[at].subs)
    {
      hide InfoTexts, InfoRows, IsListing, IsInfo, IsTable, Path, Start, HasGoodNames, Holds, Cell, CanList, IsPrompt, IsShown;
      hide CString.Text, CString.Terminated, CString.Extent;
      SectionRows(list, at);
      ListFits();
      ghost var subs := list[at].subs;
      var c := c0;
      dirs := [];
      while true
        invariant c == c0 + |dirs| && |dirs| <= |subs|
        invariant dirs == Names(subs)[..|dirs|]
        decreases |subs| - |dirs|
      {
        var end := IsMark(c, EOD);
        if end || c >= 456 { break; }
        RowText(c);
        dirs := dirs + [Text(dirInfo[c * 9..])];
        c := c + 1;
      }
      assert |dirs| == |subs| by { if |dirs| < |subs| { NotEod(|dirs|); } }
    }

    lemma LabelText(r: nat)
      requires FilesValid() && r < |FileRows(list)|
      ensures 10 * r + 10 <= TABLE && RowLabel(r) == Text(filenames[10 * r..])
    {}

    method ListFiles(start: nat) returns (files: seq<(seq<byte>, bool)>)
      requires Valid() && FilesValid() && HasGoodFiles(list) && start == HeaderFound() < |FileRows(list)|
      ensures files == ListedFiles(list, at)
    {
      hide FileRows, FileStart, InfoRows, IsInfo, IsTable, HasGoodNames, HasGoodFiles, InfoTexts, IsListing, Label, LabelIndex;
      hide Path, Holds, IsPrompt, IsShown, Labels, AtMost;
      hide RowLabel, CString.Text, CString.Terminated, CString.Extent;
      ghost var fs, first := list[at].files, FileStart(list, at);
      OwnFileRow(|fs|);
      EodText();
      var c := start + 1;
      files := [];
      while true
        invariant c == start + 1 + |files| && c <= 456 && |files| <= |fs| && (start != first ==> files == [])
        invariant files == Labels(fs)[..|files|]
        decreases |fs| - |files|
      {
        if start == first { OwnFileRow(|files|); }
        var end := RowReadsAs(c, EOD + [0]);
        if end || c >= 456 { break; }
        OwnFile(|files|);
        LabelText(c);
        files := files + [(Text(filenames[10 * c..]), filenames[10 * c + 8] == 0x74)];
        c := c + 1;
      }
    }

    /** Finding what is typed among the files of the current directory (lines 125-147):
        the row found is that of the first file with that label, and the tables beside it
        hold the cluster and the length from the same entry. */
    method FindFile(ch2: array<byte>, ghost typed: seq<byte>) returns (start: nat, checkRoot: bool, c: nat)
      requires Valid() && FilesValid() && HasGoodFiles(list)
      requires ch2 != dirInfo && ch2 != current && ch2 != prompt && ch2 != filenames
      requires ch2.Length == 4096 && Holds(ch2[..], typed) && |typed| <= 127
      modifies ch2
      ensures Valid() && FilesValid() && start == HeaderFound() < |FileRows(list)|
      ensures checkRoot <==> NamesFile(list, at, typed)
      ensures checkRoot ==> c < |FileRows(list)| && FoundFile(c, list[at].files[LabelIndex(list[at].files, UpperAll(typed))])
    {
      hide FileRows, FileStart, IsTable, HasGoodNames, HasGoodFiles, InfoTexts, IsListing, Path, Holds, Label;
      start := FindHeader();
      CapitalizeAll(ch2, typed);
      checkRoot, c := SearchFiles(start, ch2, UpperAll(typed));
      if checkRoot { OwnFile(LabelIndex(list[at].files, UpperAll(typed))); }
    }

    /** Row `c` and the tables beside it describe the file `f`. */
    ghost predicate FoundFile(c: nat, f: File)
      requires FilesValid() && c < |FileRows(list)|
      reads filenames, fileCluster, fileLength
    {
      TableRoom(c);
      fileCluster[c] == f.cluster && fileLength[c] == f.length && (filenames[10 * c + 8] == 0x74 <==> f.text)
    }

    /** Opening the file of a row (lines 147-160): the text mark is taken off while the file is
        read, and put back. */
    method Open(c: nat, ghost f: File) returns (a: Answer)
      requires FilesValid() && c < |FileRows(list)| && FoundFile(c, f)
      modifies filenames
      ensures a == if f.text then Opened(f.cluster, f.length) else NotText
      ensures filenames[..] == old(filenames[..])
    {
      hide FileRows, IsTable;
      TableRoom(c);
      if filenames[10 * c + 8] != 0x74 { return NotText; }
      filenames[10 * c + 8] := 0;
      a := Opened(fileCluster[c], fileLength[c]);
      filenames[10 * c + 8] := 0x74;
    }

    /** A line, from the key that ends it on: first it is looked for among the files of the
        current directory; only when there is none it is taken for a command. */
    method RunLine(ch: array<byte>, ch2: array<byte>, ghost line: seq<byte>) returns (a: Answer)
      requires Valid() && FilesValid() && HasGoodFiles(list)
      requires ch != current && ch != prompt && ch != dirInfo && ch != filenames && ch != ch2
      requires ch2 != dirInfo && ch2 != current && ch2 != prompt && ch2 != filenames
      requires ch.Length == ch2.Length == 4096 && Holds(ch[..], line) && Holds(ch2[..], line) && |line| <= 127
      modifies this`at, ch, ch2, current, prompt, filenames
      ensures Valid() && FilesValid()
      ensures a == AnswerTo(list, old(at), line) && at == AfterLine(list, old(at), line)
      ensures at == old(at) && line != CD + HOME && line != CD + HOME_IN_FULL ==>
        current[..] == old(current[..]) && prompt[..] == old(prompt[..])
    {
      hide InfoTexts, IsListing, IsInfo, IsTable, HasGoodNames, HasGoodFiles, Path, Holds, IsPrompt, IsShown, CanList;
      hide FileRows, FileStart;
      hide AfterCd, LabelIndex, FoundFile, Labels;
      var start, checkRoot, c := FindFile(ch2, line);
      if checkRoot {
        a := Open(c, list[at].files[LabelIndex(list[at].files, UpperAll(line))]);
        return;
      }
      var isLs := LineIs(ch, LS, line);
      if isLs {
        var ok, dirs, files := Ls(start);
        a := if ok then Listed(dirs, files) else Refused;
        return;
      }
      CdOrNot(ch[..], line);
      var isCd := StrEql2(ch[..], CD);
      if isCd {
        Cd(ch, line[3..]);
        a := Went;
      } else {
        a := Other;
      }
    }

    static lemma CdOrNot(ch: seq<byte>, line: seq<byte>)
      requires |ch| >= 128 && Holds(ch, line)
      ensures |ch| >= 3 && (ch[..3] == CD <==> CD <= line)
      ensures CD <= line ==> CD + line[3..] == line
    {
      if ch[..3] == CD {
        assert forall i :: 0 <= i < 3 ==> ch[i] == ch[..3][i];
        assert |line| >= 3 && line[..3] == CD;
      }
      if CD <= line { assert ch[..3] == line[..3]; }
    }

    lemma OwnFile(x: nat)
      requires FilesValid() && HasGoodFiles(list) && at < |list| && x < |list[at].files|
      ensures FileStart(list, at) + 1 + x < |FileRows(list)|
      ensures FoundFile(FileStart(list, at) + 1 + x, list[at].files[x])
    {
      hide FileRows, FileStart, IsTable, Label;
      var r, f := FileStart(list, at) + 1 + x, list[at].files[x];
      FileSectionRows(list, at);
      assert IsGoodFile(list, f);
      FileCellText(filenames[..], CellsOf(FileRows(list)), r, f.name, f.text);
    }

    /** No directory is named like a file. */
    lemma NotADirectory(upper: seq<byte>)
      requires FilesValid() && HasGoodFiles(list) && at < |list|
      ensures upper == list[at].name ==> LabelIndex(list[at].files, upper) == |list[at].files|
    {
      hide FileRows, IsTable;
      var x := LabelIndex(list[at].files, upper);
      if x < |list[at].files| { assert IsGoodFile(list, list[at].files[x]); }
    }
  }
}
