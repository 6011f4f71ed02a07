/** Where the rows of the directory table are: the first row of a directory's own section, and
    its row among the children of its parent. */
module DirectoryTable {
  import opened CString
  import opened DirectoryTree
  import opened Tables
  import opened Places

  function SectionTexts(d: Dir): seq<seq<byte>> {
    [d.name, PERCENT] + Names(d.subs) + [EOD]
  }

  /** The texts in the cells of the directory table. */
  function InfoTexts(ds: seq<Dir>): seq<seq<byte>> {
    if ds == [] then [] else InfoTexts(ds[..|ds| - 1]) + SectionTexts(ds[|ds| - 1])
  }

  lemma NameRowsAppend(a: seq<seq<byte>>, b: seq<seq<byte>>)
    ensures NameRows(a + b) == NameRows(a) + NameRows(b)
  {}

  /** What is written for a row that is to hold `text`: a name, or one of the marks. */
  predicate IsPiece(piece: seq<byte>, text: seq<byte>) {
    piece == Cell(text, 8) || (piece == PERCENT && text == PERCENT) || (piece == EOD + [0] && text == EOD)
  }

  lemma {:induction false} InfoRowsAreTexts(ds: seq<Dir>)
    ensures |InfoRows(ds)| == |InfoTexts(ds)|
    ensures forall r :: 0 <= r < |InfoRows(ds)| ==> IsPiece(InfoRows(ds)[r], InfoTexts(ds)[r])
  {
    if ds != [] {
      var d, front := ds[|ds| - 1], ds[..|ds| - 1];
      InfoRowsAreTexts(front);
      SectionPieces(d);
      hide IsPiece, InfoSection, SectionTexts;
      var rows, texts := InfoRows(front), InfoTexts(front);
      forall r | 0 <= r < |InfoRows(ds)| ensures IsPiece(InfoRows(ds)[r], InfoTexts(ds)[r]) {
        if r < |rows| {
          assert IsPiece(rows[r], texts[r]);
        } else {
          assert IsPiece(InfoSection(d)[r - |rows|], SectionTexts(d)[r - |rows|]);
        }
      }
    }
  }

  lemma SectionPieces(d: Dir)
    ensures |InfoSection(d)| == |SectionTexts(d)|
    ensures forall o :: 0 <= o < |InfoSection(d)| ==> IsPiece(InfoSection(d)[o], SectionTexts(d)[o])
  {}

  /** The row of the directory's own section. */
  function Start(list: seq<Dir>, i: nat): nat
    requires i <= |list|
  {
    |InfoTexts(list[..i])|
  }

  lemma RootStart(list: seq<Dir>)
    ensures Start(list, 0) == 0
  {}

  lemma NextStart(list: seq<Dir>, i: nat)
    requires i < |list|
    ensures Start(list, i + 1) == Start(list, i) + |list[i].subs| + 3
  {
    assert list[..i + 1][..i] == list[..i];
  }

  lemma {:induction false} StartsGrow(list: seq<Dir>, i: nat, k: nat)
    requires i <= k <= |list|
    ensures Start(list, i) + (k - i) <= Start(list, k)
    decreases k - i
  {
    if i < k {
      StartsGrow(list, i, k - 1);
      NextStart(list, k - 1);
    }
  }

  lemma {:induction false} SectionAt(list: seq<Dir>, i: nat)
    requires i < |list|
    ensures var s := Start(list, i); var t := InfoTexts(list);
      s + |list[i].subs| + 3 <= |t| && t[s..s + |list[i].subs| + 3] == SectionTexts(list[i])
    decreases |list|
  {
    var front := list[..|list| - 1];
    if i < |list| - 1 {
      SectionAt(front, i);
      assert front[..i] == list[..i];
    } else {
      assert front == list[..i];
    }
  }

  /** The rows of a section, one by one. */
  lemma SectionRows(list: seq<Dir>, i: nat)
    requires i < |list|
    ensures var s := Start(list, i); var t := InfoTexts(list);
      && s + |list[i].subs| + 3 <= |t|
      && t[s] == list[i].name && t[s + 1] == PERCENT && t[s + 2 + |list[i].subs|] == EOD
      && forall x :: 0 <= x < |list[i].subs| ==> t[s + 2 + x] == list[i].subs[x].name
  {
    hide InfoTexts, Start;
    SectionAt(list, i);
    var s, t := Start(list, i), InfoTexts(list);
    var section := t[s..s + |list[i].subs| + 3];
    assert forall o :: 0 <= o < |section| ==> t[s + o] == section[o];
    assert section[0] == list[i].name && section[1] == PERCENT;
    assert section[2 + |list[i].subs|] == EOD;
    forall x | 0 <= x < |list[i].subs| ensures t[s + 2 + x] == list[i].subs[x].name {
      assert section[2 + x] == Names(list[i].subs)[x];
    }
  }

  /** Every row is in some section. */
  lemma {:induction false} RowSection(list: seq<Dir>, r: nat) returns (i: nat, o: nat)
    requires r < |InfoTexts(list)|
    ensures i < |list| && r == Start(list, i) + o && o < |list[i].subs| + 3
    decreases |list|
  {
    var front := list[..|list| - 1];
    if r < |InfoTexts(front)| {
      i, o := RowSection(front, r);
      assert front[..i] == list[..i];
    } else {
      i, o := |list| - 1, r - |InfoTexts(front)|;
    }
  }

  /** Where the rows are that hold a mark after a directory's name. */
  lemma {:induction false} MarkRows(ds: seq<Dir>, r: nat)
    requires r < |InfoRows(ds)|
    ensures InfoRows(ds)[r] == PERCENT <==> exists i :: 0 <= i < |ds| && Start(ds, i) + 1 == r
    decreases |ds|
  {
    var d, front := ds[|ds| - 1], ds[..|ds| - 1];
    InfoRowsAreTexts(front);
    forall i | 0 <= i < |front| ensures Start(front, i) == Start(ds, i) { assert front[..i] == ds[..i]; }
    StartsGrow(ds, 0, |front|);
    if r < |InfoRows(front)| {
      MarkRows(front, r);
      assert front == ds[..|front|];
    } else {
      var o := r - |InfoRows(front)|;
      OneMark(d, o);
      forall i | 0 <= i < |front| ensures Start(ds, i) + 1 != r {
        NextStart(ds, i);
        StartsGrow(ds, i + 1, |front|);
      }
    }
  }

  lemma OneMark(d: Dir, o: nat)
    requires o < |InfoSection(d)|
    ensures InfoSection(d)[o] == PERCENT <==> o == 1
  {
    assert |InfoSection(d)[o]| != 1 || o == 1;
  }

  /** Names the table can tell apart: one to eight characters, none like another or like a mark. */
  ghost predicate HasGoodNames(list: seq<Dir>) {
    && list != [] && list[0].name == ROOT
    && (forall j :: 0 <= j < |list| ==> IsGoodName(list[j].name))
    && (forall j, k :: 0 <= j < k < |list| ==> list[j].name != list[k].name)
  }

  predicate IsGoodName(name: seq<byte>) {
    1 <= |name| <= 8 && 0 !in name && name != PERCENT && name != EOD
  }

  /** The row where a directory other than the root is listed as a child. */
  function ChildRow(list: seq<Dir>, j: nat): nat
    requires ParentOf(list, j) < |list| && ChildAt(list, ParentOf(list, j), 0) <= j
  {
    Start(list, ParentOf(list, j)) + 2 + j - ChildAt(list, ParentOf(list, j), 0)
  }

  lemma {:induction false} StartIs(list: seq<Dir>, j: nat)
    requires j <= |list|
    ensures Start(list, j) == 3 * j + |Children(list[..j])|
  {
    if j == 0 {
      assert list[..0] == [];
    } else {
      StartIs(list, j - 1);
      NextStart(list, j - 1);
      NextTurn(list, j - 1);
    }
  }

  lemma {:induction false} PathLength(list: seq<Dir>, j: nat)
    requires IsListing(list) && HasGoodNames(list) && j < |list|
    ensures |Path(list, j)| <= 5 + 9 * j
    decreases j
  {
    hide IsListing, ParentOf;
    if j > 0 {
      ParentIsBefore(list, j);
      PathLength(list, ParentOf(list, j));
      assert IsGoodName(list[j].name);
    }
  }

  lemma AllTurns(list: seq<Dir>)
    requires IsListing(list)
    ensures list[..|list|] == list && |Children(list)| == |list| - 1
  {}

  /** A directory of a tree that fits the table has few children. */
  lemma FewChildren(list: seq<Dir>, j: nat)
    requires IsListing(list) && |InfoTexts(list)| <= 910 && j < |list|
    ensures |list[j].subs| <= 226
  {
    hide Children, IsListing, InfoTexts;
    AllTurns(list);
    StartIs(list, |list|);
    NextTurn(list, j);
    TurnsGrow(list, j + 1, |list|);
  }

  /** A directory that `cd b` works in is near the root: its path, and a longer one by a name, fit the prompt. */
  lemma BackIsShallow(list: seq<Dir>, j: nat)
    requires IsListing(list) && HasGoodNames(list) && j < |list| && 9 * (Start(list, j) + 1) < 456
    ensures j <= 12 && |Path(list, j)| < 125
  {
    StartIs(list, j);
    assert |Children(list[..j])| >= j;
    hide IsListing, Start, Path;
    PathLength(list, j);
  }

  /** A directory's name is in its own section, before that in its parent's, and nowhere else. */
  lemma NameOccurs(list: seq<Dir>, j: nat, r: nat)
    requires IsListing(list) && HasGoodNames(list) && j < |list|
    requires r < |InfoTexts(list)| && InfoTexts(list)[r] == list[j].name
    ensures r == Start(list, j) ||
      (j > 0 && ParentOf(list, j) < j && ChildAt(list, ParentOf(list, j), 0) <= j && r == ChildRow(list, j))
  {
    hide InfoTexts, ParentFrom, Children, Start;
    var i, o := RowSection(list, r);
    SectionRows(list, i);
    if 2 <= o < 2 + |list[i].subs| {
      ChildInList(list, i, o - 2);
      ParentFromIs(list, 0, i, o - 2);
    }
  }

  lemma ChildRowFirst(list: seq<Dir>, j: nat)
    requires IsListing(list) && HasGoodNames(list) && 0 < j < |list|
    ensures ParentOf(list, j) < j && ChildAt(list, ParentOf(list, j), 0) <= j
    ensures var r := ChildRow(list, j); var t := InfoTexts(list);
      && r + 1 < Start(list, j) + 2 <= |t|
      && t[r] == list[j].name && t[r + 1] != PERCENT
  {
    hide InfoTexts, ParentOf, Children, Start, IsListing;
    ParentIsBefore(list, j);
    var i := ParentOf(list, j);
    var x := j - ChildAt(list, i, 0);
    SectionRows(list, i);
    SectionRows(list, j);
    StartsGrow(list, i + 1, j);
    NextStart(list, i);
    if x + 1 < |list[i].subs| { ChildInList(list, i, x + 1); }
  }

  /** Reading a cell of the table as a string gives its text. */
  lemma CellText(a: seq<byte>, w: nat, cells: seq<seq<byte>>, r: nat, text: seq<byte>)
    requires IsTable(a, w, cells) && r < |cells| && 2 <= w <= 128
    requires cells[r] == Cell(text, w) && |text| < w && 0 !in text
    ensures w * r + w <= |a| && Text(a[w * r..]) == text && Terminated(a[w * r..])
    ensures a[w * r..w * r + w] == cells[r]
  {
    CellBefore(w, r, |cells|);
    assert IsCell(a, w, r, cells[r]);
    var ch := a[w * r..];
    assert ch[..w] == cells[r];
    assert ch[w - 1] == 0;
    TextIs(ch, text);
  }

  lemma PieceStarts(piece: seq<byte>, text: seq<byte>)
    requires IsPiece(piece, text) && |text| <= 8
    ensures |text| <= |piece| <= 8 && text == piece[..|text|] && forall k :: |text| <= k < |piece| ==> piece[k] == 0
  {}

  /** A row of nine bytes never has its ninth byte, and no row but 455 another one, among those
      the page behind the table starts with. */
  lemma FormedIs(r: nat, piece: seq<byte>, text: seq<byte>)
    requires IsPiece(piece, text) && |text| <= 8
    ensures Formed(r, piece)[8] == 0
    ensures r != 455 || piece == Cell(text, 8) ==> Formed(r, piece) == Cell(text, 9)
    ensures piece != PERCENT ==> text + [0] <= Formed(r, piece)
  {
    PieceStarts(piece, text);
    hide IsPiece;
    var cell := Formed(r, piece);
    assert cell[8] == LeftAt(9 * r + 8) || |piece| == 9;
    assert forall k :: 0 <= k < |text| ==> cell[k] == piece[k] == text[k];
    assert r != 455 || |piece| == 8 ==> forall k :: |text| <= k < 9 ==> cell[k] == 0;
    if piece != PERCENT {
      LongPiece(piece, text);
      EndsInRow(r, piece, text);
    }
  }

  lemma LongPiece(piece: seq<byte>, text: seq<byte>)
    requires IsPiece(piece, text) && piece != PERCENT && |text| <= 8
    ensures |text| < |piece| || |piece| == 8
  {}

  lemma EndsInRow(r: nat, piece: seq<byte>, text: seq<byte>)
    requires |text| <= |piece| <= 8 && text == piece[..|text|] && (forall k :: |text| <= k < |piece| ==> piece[k] == 0)
    requires r != 455 || |text| < |piece| || |piece| == 8
    ensures text + [0] <= Formed(r, piece)
  {
    var cell := Formed(r, piece);
    assert cell[|text|] == 0;
    assert cell[..|text| + 1] == text + [0];
  }

  lemma MarkFormed()
    ensures PERCENT + ROOT + [0] <= Formed(455, PERCENT)
  {
    var cell := Formed(455, PERCENT);
    assert cell[..6] == PERCENT + ROOT + [0];
  }

  /** Row `r` of the directory table as a string. It is the text meant, unless it is the row
      that ends in the page behind the table's, and has a mark of one byte. */
  lemma RowReads(a: seq<byte>, pieces: seq<seq<byte>>, r: nat, text: seq<byte>)
    requires IsInfo(a, pieces) && r < |pieces| && IsPiece(pieces[r], text) && |text| <= 8 && 0 !in text
    ensures 9 * r + 9 <= |a| && Terminated(a[9 * r..])
    ensures Text(a[9 * r..]) == if r == 455 && pieces[r] == PERCENT then PERCENT + ROOT else text
    ensures r != 455 || pieces[r] == Cell(text, 8) ==> a[9 * r..9 * r + 9] == Cell(text, 9)
  {
    hide Formed;
    CellBefore(9, r, |pieces|);
    FormedIs(r, pieces[r], text);
    MarkFormed();
    var cell := Formed(r, pieces[r]);
    assert IsCell(a, 9, r, cell);
    var ch := a[9 * r..];
    assert ch[..9] == cell;
    assert ch[8] == cell[8];
    TextIs(ch, if r == 455 && pieces[r] == PERCENT then PERCENT + ROOT else text);
  }

  predicate IsShort(name: seq<byte>) {
    |name| <= 8 && 0 !in name
  }

  /** The names a scan keeps, of the directories and their children. */
  ghost predicate HasShortNames(ds: seq<Dir>) {
    forall i :: 0 <= i < |ds| ==> IsShort(ds[i].name) && forall x :: 0 <= x < |ds[i].subs| ==> IsShort(ds[i].subs[x].name)
  }

  lemma ShortTexts(ds: seq<Dir>, r: nat)
    requires HasShortNames(ds) && r < |InfoTexts(ds)|
    ensures IsShort(InfoTexts(ds)[r])
  {
    hide InfoTexts, Start;
    var i, o := RowSection(ds, r);
    SectionRows(ds, i);
    if 2 <= o < 2 + |ds[i].subs| { assert InfoTexts(ds)[r] == ds[i].subs[o - 2].name; }
  }

  /** Every row reads as it is meant. */
  ghost predicate ReadsAs(a: seq<byte>, texts: seq<seq<byte>>) {
    9 * |texts| <= |a| && forall r :: 0 <= r < |texts| ==> Text(a[9 * r..]) == texts[r]
  }

  /** The directory table of a complete scan reads as it is meant exactly when no directory has
      its row at 454: the mark after that one would read "%ROOT". */
  lemma IndexReads(a: seq<byte>, ds: seq<Dir>)
    requires IsInfo(a, InfoRows(ds)) && HasShortNames(ds)
    ensures ReadsAs(a, InfoTexts(ds)) <==> !exists i :: 0 <= i < |ds| && Start(ds, i) + 1 == 455
  {
    var pieces, texts := InfoRows(ds), InfoTexts(ds);
    InfoRowsAreTexts(ds);
    hide InfoRows, InfoTexts, IsPiece, Start;
    forall r | 0 <= r < |texts|
      ensures Text(a[9 * r..]) == if r == 455 && pieces[r] == PERCENT then PERCENT + ROOT else texts[r]
      ensures pieces[r] == PERCENT ==> texts[r] != PERCENT + ROOT
    {
      ShortTexts(ds, r);
      RowReads(a, pieces, r, texts[r]);
      if pieces[r] == PERCENT { MarkText(pieces[r], texts[r]); }
    }
    if 455 < |texts| {
      MarkRows(ds, 455);
      assert pieces[455] == PERCENT ==> Text(a[9 * 455..]) != texts[455];
    } else {
      forall i | 0 <= i < |ds| ensures Start(ds, i) + 1 != 455 { SectionRows(ds, i); }
    }
  }

  lemma MarkText(piece: seq<byte>, text: seq<byte>)
    requires IsPiece(piece, text) && piece == PERCENT
    ensures text == PERCENT != PERCENT + ROOT
  {}

  // ---- the file table ----

  /** How a file's cell reads as a string: the mark of a text file is part of it when the
      name leaves no zero before it. */
  function Label(f: File): seq<byte> {
    if |f.name| == 8 && f.text then f.name + [0x74] else f.name
  }

  /** The first file that reads as `text`, or the number of files. */
  function LabelIndex(fs: seq<File>, text: seq<byte>): (x: nat)
    ensures x <= |fs| && (x < |fs| ==> Label(fs[x]) == text) && forall i :: 0 <= i < x ==> Label(fs[i]) != text
  {
    if fs == [] || Label(fs[0]) == text then 0 else
      var x := LabelIndex(fs[1..], text);
      assert forall i :: 0 < i < 1 + x ==> fs[i] == fs[1..][i - 1];
      1 + x
  }

  /** What `ls` prints for the files: their labels, and ".TXT" after the text files. */
  function Labels(fs: seq<File>): (r: seq<(seq<byte>, bool)>)
    ensures |r| == |fs| && forall i :: 0 <= i < |fs| ==> r[i] == (Label(fs[i]), fs[i].text)
  {
    seq(|fs|, i requires 0 <= i < |fs| => (Label(fs[i]), fs[i].text))
  }

  function FileStart(list: seq<Dir>, i: nat): nat
    requires i <= |list|
  {
    |FileRows(list[..i])|
  }

  lemma {:induction false} FileSectionAt(list: seq<Dir>, i: nat)
    requires i < |list|
    ensures var s := FileStart(list, i); var rows := FileRows(list);
      s + |list[i].files| + 2 <= |rows| && rows[s..s + |list[i].files| + 2] == FileSection(list[i])
    decreases |list|
  {
    var front := list[..|list| - 1];
    if i < |list| - 1 {
      FileSectionAt(front, i);
      assert front[..i] == list[..i];
    } else {
      assert front == list[..i];
    }
  }

  lemma FileSectionRows(list: seq<Dir>, i: nat)
    requires i < |list|
    ensures var s := FileStart(list, i); var rows := FileRows(list); var fs := list[i].files;
      && s + |fs| + 2 <= |rows|
      && rows[s].cell == Cell(list[i].name, 10) && rows[s + 1 + |fs|].cell == Cell(EOD, 10)
      && forall x :: 0 <= x < |fs| ==> rows[s + 1 + x] == FileRow(FileCell(fs[x].name, fs[x].text), fs[x].cluster, fs[x].length)
  {
    hide Cell, FileCell, FileRows, FileStart;
    FileSectionAt(list, i);
    var s, rows, fs := FileStart(list, i), FileRows(list), list[i].files;
    var section := rows[s..s + |fs| + 2];
    assert forall o :: 0 <= o < |section| ==> rows[s + o] == section[o];
    assert section[0].cell == Cell(list[i].name, 10) && section[1 + |fs|].cell == Cell(EOD, 10);
    forall x | 0 <= x < |fs| ensures rows[s + 1 + x] == RowsOfFiles(fs)[x] {
      assert section[1 + x] == RowsOfFiles(fs)[x];
    }
  }

  lemma {:induction false} FileRowSection(list: seq<Dir>, r: nat) returns (i: nat, o: nat)
    requires r < |FileRows(list)|
    ensures i < |list| && r == FileStart(list, i) + o && o < |list[i].files| + 2
    decreases |list|
  {
    var front := list[..|list| - 1];
    if r < |FileRows(front)| {
      i, o := FileRowSection(front, r);
      assert front[..i] == list[..i];
    } else {
      i, o := |list| - 1, r - |FileRows(front)|;
    }
  }

  predicate IsGoodFile(list: seq<Dir>, f: File) {
    && 1 <= |f.name| <= 8 && 0 !in f.name && Label(f) != EOD
    && forall j :: 0 <= j < |list| ==> Label(f) != list[j].name
  }

  /** Files the table can tell from directories and from the end mark. */
  ghost predicate HasGoodFiles(list: seq<Dir>) {
    forall i, x :: 0 <= i < |list| && 0 <= x < |list[i].files| ==> IsGoodFile(list, list[i].files[x])
  }

  /** The text of row `r`, by its place in a section. */
  ghost predicate FileRowReads(list: seq<Dir>, r: nat, text: seq<byte>, i: nat, o: nat) {
    && i < |list| && r == FileStart(list, i) + o && o < |list[i].files| + 2
    && text == if o == 0 then list[i].name else if o == |list[i].files| + 1 then EOD else Label(list[i].files[o - 1])
  }

  lemma FileCellText(a: seq<byte>, rows: seq<seq<byte>>, r: nat, name: seq<byte>, text: bool)
    requires IsTable(a, 10, rows) && r < |rows| && rows[r] == FileCell(name, text)
    requires 1 <= |name| <= 8 && 0 !in name
    ensures 10 * r + 10 <= |a| && Terminated(a[10 * r..]) && a[10 * r..][0] != 0
    ensures Text(a[10 * r..]) == if |name| == 8 && text then name + [0x74] else name
    ensures a[10 * r + 8] == if text then 0x74 else 0
  {
    CellBefore(10, r, |rows|);
    assert IsCell(a, 10, r, rows[r]);
    var ch := a[10 * r..];
    assert ch[..10] == rows[r];
    assert ch[9] == rows[r][9] == 0;
    assert ch[8] == rows[r][8];
    TextIs(ch, if |name| == 8 && text then name + [0x74] else name);
  }
}
