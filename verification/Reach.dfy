/** Which files and directories a line of keys can reach. */
module Reach {
  import opened CString
  import opened DirectoryTree
  import opened Places
  import opened DirectoryTable
  import opened Navigation

  /** What the keys put into the line (`table`, kernel/device/kb.c:24-25): all but enter and
      backspace, which do something else, and the keys whose entry is zero, which end the line. */
  predicate IsKey(b: byte) {
    || b == 9 || b == 27 || b == 0x20 || b == 0x27 || b == 0x2a || 0x2c <= b <= 0x39
    || 0x3b <= b <= 0x44 || 0x5b <= b <= 0x5d || 0x60 <= b <= 0x7a
  }

  // `table`, kernel/device/kb.c:24-25, in four parts.
  const FIRST_KEYS: seq<nat> := [0, 27, 49, 50, 51, 52, 53, 54, 55, 56, 57, 48, 45, 61, 8, 9]
  const UPPER_KEYS: seq<nat> := [113, 119, 101, 114, 116, 121, 117, 105, 111, 112, 91, 93, 13, 0]
  const MIDDLE_KEYS: seq<nat> := [97, 115, 100, 102, 103, 104, 106, 107, 108, 59, 39, 96, 0, 92]
  const LAST_KEYS: seq<nat> := [122, 120, 99, 118, 98, 110, 109, 44, 46, 47, 0, 42, 0, 32, 0, 59, 60, 61, 62, 63, 64, 65, 66, 67, 68]

  /** The keys of the lines are those of the table but for enter (13), backspace (8), and those
      without a character. */
  lemma KeysAreTable(b: byte)
    ensures IsKey(b) <==>
      && (b in FIRST_KEYS || b in UPPER_KEYS || b in MIDDLE_KEYS || b in LAST_KEYS)
      && b != 13 && b != 8 && b != 0
  {
    FirstKeys(b);
    UpperKeys(b);
    MiddleKeys(b);
    LastKeys(b);
    hide FIRST_KEYS, UPPER_KEYS, MIDDLE_KEYS, LAST_KEYS;
  }

  lemma FirstKeys(b: byte)
    ensures b in FIRST_KEYS <==> b == 0 || b == 27 || 48 <= b <= 57 || b == 45 || b == 61 || b == 8 || b == 9
  {}

  lemma UpperKeys(b: byte)
    ensures b in UPPER_KEYS <==>
      || b == 113 || b == 119 || b == 101 || b == 114 || b == 116 || b == 121 || b == 117 || b == 105 || b == 111 || b == 112
      || b == 91 || b == 93 || b == 13 || b == 0
  {}

  lemma MiddleKeys(b: byte)
    ensures b in MIDDLE_KEYS <==>
      || b == 97 || b == 115 || b == 100 || 102 <= b <= 104 || 106 <= b <= 108 || b == 59 || b == 39 || b == 96 || b == 0 || b == 92
  {}

  lemma LastKeys(b: byte)
    ensures b in LAST_KEYS <==>
      || b == 122 || b == 120 || b == 99 || b == 118 || b == 98 || b == 110 || b == 109 || b == 44 || b == 46 || b == 47
      || b == 0 || b == 42 || b == 32 || 59 <= b <= 68
  {}

  /** A line of at most 127 keys. */
  ghost predicate IsLine(typed: seq<byte>) {
    |typed| <= 127 && forall i :: 0 <= i < |typed| ==> IsKey(typed[i])
  }

  /** What a key can become in capitals. */
  predicate IsCapital(b: byte) {
    || b == 9 || b == 27 || b == 0x20 || b == 0x27 || b == 0x2a || 0x2c <= b <= 0x39
    || 0x3b <= b <= 0x5d || b == 0x60
  }

  /** The key for a capital. */
  function KeyFor(b: byte): (k: byte)
    requires IsCapital(b)
    ensures IsKey(k) && Upper(k) == b
  {
    if 0x45 <= b <= 0x5a then b + 0x20 else b
  }

  lemma KeysAreCapitals(k: byte)
    requires IsKey(k)
    ensures IsCapital(Upper(k))
  {}

  /** Every character of the name is what a key becomes in capitals. */
  predicate IsTypeable(name: seq<byte>) {
    forall i :: 0 <= i < |name| ==> IsCapital(name[i])
  }

  function KeysFor(name: seq<byte>): (keys: seq<byte>)
    requires IsTypeable(name)
    ensures |keys| == |name| && UpperAll(keys) == name && forall i :: 0 <= i < |keys| ==> IsKey(keys[i])
  {
    seq(|name|, i requires 0 <= i < |name| => KeyFor(name[i]))
  }

  lemma TypedIsTypeable(typed: seq<byte>)
    requires forall i :: 0 <= i < |typed| ==> IsKey(typed[i])
    ensures IsTypeable(UpperAll(typed))
  {
    forall i | 0 <= i < |typed| ensures IsCapital(UpperAll(typed)[i]) { KeysAreCapitals(typed[i]); }
  }

  // ---- files ----

  /** Some line finds file `x` of the directory at `j`. */
  ghost predicate CanFind(list: seq<Dir>, j: nat, x: nat)
    requires j < |list|
  {
    exists line :: IsLine(line) && NamesFile(list, j, line) && LabelIndex(list[j].files, UpperAll(line)) == x
  }

  /** Some line opens it: the answer has the cluster and the length of this file. */
  ghost predicate CanOpen(list: seq<Dir>, j: nat, x: nat)
    requires j < |list| && x < |list[j].files|
  {
    var f := list[j].files[x];
    exists line :: IsLine(line) && NamesFile(list, j, line) && LabelIndex(list[j].files, UpperAll(line)) == x
      && AnswerTo(list, j, line) == Opened(f.cluster, f.length)
  }

  /** No file before it has the same label. */
  predicate IsFirst(fs: seq<File>, x: nat)
    requires x < |fs|
  {
    forall i :: 0 <= i < x ==> Label(fs[i]) != Label(fs[x])
  }

  /** Its row is among those that are searched. */
  predicate IsSearched(list: seq<Dir>, j: nat, x: nat)
    requires j < |list|
  {
    FileStart(list, j) + 1 + x <= LAST_FILE
  }

  /** Some line finds a file exactly when the keys can spell its label, no file before it has the
      same, and its row is among those that are searched. */
  lemma ReachableFile(list: seq<Dir>, j: nat, x: nat)
    requires j < |list| && x < |list[j].files| && |list[j].files[x].name| <= 8
    ensures var fs := list[j].files;
      CanFind(list, j, x) <==> IsTypeable(Label(fs[x])) && IsFirst(fs, x) && IsSearched(list, j, x)
  {
    hide IsKey, IsCapital, KeyFor, Label, FileStart;
    var fs := list[j].files;
    var name := Label(fs[x]);
    if IsTypeable(name) && IsFirst(fs, x) && IsSearched(list, j, x) {
      LabelIsShort(fs[x]);
      var typed := KeysFor(name);
      assert IsLine(typed) && LabelIndex(fs, UpperAll(typed)) == x;
      assert NamesFile(list, j, typed);
    }
    forall line | IsLine(line) && NamesFile(list, j, line) && LabelIndex(fs, UpperAll(line)) == x
      ensures IsTypeable(name) && IsFirst(fs, x) && IsSearched(list, j, x)
    {
      TypedIsTypeable(line);
    }
  }

  lemma LabelIsShort(f: File)
    requires |f.name| <= 8
    ensures |Label(f)| <= 9
  {}

  /** Some line opens a file exactly when it is a text file with fewer than eight letters in its
      name, all of which have keys, no file before it is called the same but for the extension, and
      its row is among those that are searched. */
  lemma OpenedFile(list: seq<Dir>, j: nat, x: nat)
    requires j < |list| && x < |list[j].files| && |list[j].files[x].name| <= 8
    ensures var fs := list[j].files;
      CanOpen(list, j, x) <==>
        fs[x].text && |fs[x].name| < 8 && IsTypeable(fs[x].name) && IsFirst(fs, x) && IsSearched(list, j, x)
  {
    hide IsLine, FileStart;
    ReachableFile(list, j, x);
    var f := list[j].files[x];
    if f.text && |f.name| == 8 { assert !IsCapital(Label(f)[8]); }
  }

  /** A.BIN before A.TXT: the table keeps both and can tell them from directories, but every line
      that finds one of them finds A.BIN, which is no text file. */
  lemma SecondOfTwo(c: nat, n: nat)
    ensures var fs := [File([0x41], false, c, n), File([0x41], true, c, n)]; var list := [Dir(ROOT, fs, [])];
      && HasGoodNames(list) && HasGoodFiles(list) && !CanFind(list, 0, 1) && !CanOpen(list, 0, 1)
      && forall typed :: UpperAll(typed) == Label(fs[1]) ==> AnswerTo(list, 0, typed) == NotText
  {
    var fs := [File([0x41], false, c, n), File([0x41], true, c, n)];
    var list := [Dir(ROOT, fs, [])];
    assert Label(fs[0]) == Label(fs[1]) == [0x41];
    assert FileStart(list, 0) == 0 by { assert list[..0] == []; }
    ReachableFile(list, 0, 1);
    assert !IsFirst(fs, 1);
  }

  /** A text file of eight letters is out of reach, whatever the letters: its label ends in a small t. */
  lemma EightLettersUnreachable(list: seq<Dir>, j: nat, x: nat)
    requires j < |list| && x < |list[j].files| && |list[j].files[x].name| == 8 && list[j].files[x].text
    ensures !CanFind(list, j, x)
  {
    ReachableFile(list, j, x);
    assert Label(list[j].files[x])[8] == 0x74;
  }

  /** The text file READMEEN.TXT, and the file stored as LONGFI~1, which has no key for its seventh mark. */
  lemma UnreachableFiles(list: seq<Dir>, j: nat, x: nat)
    requires j < |list| && x < |list[j].files|
    ensures var f := list[j].files[x];
      f.name == [0x52, 0x45, 0x41, 0x44, 0x4d, 0x45, 0x45, 0x4e] && f.text ==> !CanFind(list, j, x)
    ensures list[j].files[x].name == [0x4c, 0x4f, 0x4e, 0x47, 0x46, 0x49, 0x7e, 0x31] ==> !CanFind(list, j, x)
  {
    var f := list[j].files[x];
    if |f.name| == 8 {
      ReachableFile(list, j, x);
      if f.text { EightLettersUnreachable(list, j, x); }
      if f.name[6] == 0x7e { assert Label(f)[6] == 0x7e; }
    }
  }

  // ---- directories ----

  /** Some line leads from the directory at `j` to the one at `k`. */
  ghost predicate CanGo(list: seq<Dir>, j: nat, k: nat)
    requires j < |list|
  {
    exists line :: IsLine(line) && AfterLine(list, j, line) == k
  }

  /** No file has a space in its name, as no name that a scan keeps has. */
  ghost predicate HasNoSpaces(fs: seq<File>) {
    forall x :: 0 <= x < |fs| ==> 0x20 !in fs[x].name
  }

  lemma {:induction false} KeptWithoutSpaces(v: Volume, base: nat, n: nat)
    ensures HasNoSpaces(v.FilesAt(base, n))
  {
    if n > 0 { KeptWithoutSpaces(v, base, n - 1); }
  }

  lemma StoredWithoutSpaces(v: Volume, base: nat, d: Dir)
    requires v.Stores(base, d)
    ensures HasNoSpaces(d.files)
  {
    KeptWithoutSpaces(v, base, v.Stop(base, 0, 0));
  }

  /** Then no line with a space is taken for a file. */
  lemma NotAFile(list: seq<Dir>, j: nat, line: seq<byte>)
    requires j < |list| && HasNoSpaces(list[j].files) && CD <= line
    ensures !NamesFile(list, j, line)
  {
    var fs, upper := list[j].files, UpperAll(line);
    assert upper[2] == Upper(line[2]) == Upper(CD[2]) == 0x20;
    forall x | 0 <= x < |fs| ensures Label(fs[x]) != upper { assert upper[2] == 0x20; }
  }

  lemma ChildIsOnly(list: seq<Dir>, j: nat, x: nat)
    requires IsListing(list) && HasGoodNames(list) && j < |list| && x < |list[j].subs|
    ensures j < ChildAt(list, j, x) < |list| && IndexOf(list[j].subs, list[j].subs[x].name) == x
    ensures IsGoodName(list[j].subs[x].name) && list[j].subs[x].name != ROOT
  {
    hide IsListing, ChildAt, IsGoodName;
    var y := IndexOf(list[j].subs, list[j].subs[x].name);
    ChildInList(list, j, x);
    ChildInList(list, j, y);
    assert ChildAt(list, j, x) - x == ChildAt(list, j, y) - y by { SameTurn(list, j, x, y); }
  }

  lemma SameTurn(list: seq<Dir>, j: nat, x: nat, y: nat)
    requires j < |list|
    ensures ChildAt(list, j, x) - x == ChildAt(list, j, y) - y
  {}

  /** What leads into a child is its name. */
  lemma EnteredOnly(list: seq<Dir>, j: nat, x: nat, typed: seq<byte>)
    requires IsListing(list) && HasGoodNames(list) && j < |list| && x < |list[j].subs|
    requires AfterCd(list, j, typed) == ChildAt(list, j, x)
    ensures !IsCommand(typed) && UpperAll(typed) == list[j].subs[x].name && (j == 0 ==> x < ROOT_REACH) && IsInReach(list, j)
  {
    hide IsListing, HasGoodNames, ChildAt, Start, Back, CanGoBack;
    ChildIsOnly(list, j, x);
    if typed == BACK && CanGoBack(list, j) { BackIsBefore(list, j); }
    if HasChild(list, j, typed) { SameTurn(list, j, x, IndexOf(list[j].subs, UpperAll(typed))); }
  }

  lemma BackIsBefore(list: seq<Dir>, j: nat)
    requires IsListing(list) && j < |list| && CanGoBack(list, j)
    ensures Back(list, j) < j
  {
    BackGoesUp(list, j);
  }

  lemma KeysAreNoCommand(name: seq<byte>)
    requires IsTypeable(name) && name != [0x52] && name != ROOT
    ensures !IsCommand(KeysFor(name))
  {
    assert UpperAll(HOME) == [0x52] && UpperAll(HOME_IN_FULL) == ROOT;
    assert KeysFor([0x42])[0] == KeyFor(0x42) == 0x42;
    assert UpperAll(BACK) == [0x42];
  }

  lemma OnlyKeyForR(typed: seq<byte>)
    requires (forall i :: 0 <= i < |typed| ==> IsKey(typed[i])) && UpperAll(typed) == [0x52]
    ensures typed == HOME
  {
    assert UpperAll(typed)[0] == Upper(typed[0]);
  }

  lemma EntersByKeys(list: seq<Dir>, j: nat, x: nat)
    requires IsListing(list) && HasGoodNames(list) && j < |list| && x < |list[j].subs| && HasNoSpaces(list[j].files)
    requires var name := list[j].subs[x].name; IsTypeable(name) && name != [0x52] && (j == 0 ==> x < ROOT_REACH) && IsInReach(list, j)
    ensures CanGo(list, j, ChildAt(list, j, x))
  {
    hide IsListing, HasGoodNames, ChildAt, IsKey, IsCapital, KeyFor, KeysFor, IsTypeable, AfterLine, IsInReach;
    var typed := KeysFor(list[j].subs[x].name);
    KeysEnter(list, j, x, typed);
    CdIsKeys();
    ChildIsOnly(list, j, x);
    assert IsLine(CD + typed);
  }

  lemma KeysEnter(list: seq<Dir>, j: nat, x: nat, typed: seq<byte>)
    requires IsListing(list) && HasGoodNames(list) && j < |list| && x < |list[j].subs| && HasNoSpaces(list[j].files)
    requires var name := list[j].subs[x].name;
      IsTypeable(name) && name != [0x52] && (j == 0 ==> x < ROOT_REACH) && IsInReach(list, j) && typed == KeysFor(name)
    ensures AfterLine(list, j, CD + typed) == ChildAt(list, j, x)
  {
    hide IsListing, HasGoodNames, ChildAt, Start, Back, CanGoBack, IsKey, IsCapital, KeyFor, NamesFile, IsInReach;
    ChildIsOnly(list, j, x);
    KeysAreNoCommand(list[j].subs[x].name);
    assert (CD + typed)[3..] == typed;
    NotAFile(list, j, CD + typed);
  }

  lemma CdIsKeys()
    ensures forall i :: 0 <= i < 3 ==> IsKey(CD[i])
  {}

  /** Some line leads into a child exactly when the keys can spell its name, the name is not R,
      for which "cd r" is all there is and goes to the root, it is not past the reach of the search
      from the root, and the children are looked through to their end mark. */
  lemma ReachableChild(list: seq<Dir>, j: nat, x: nat)
    requires IsListing(list) && HasGoodNames(list) && j < |list| && x < |list[j].subs| && HasNoSpaces(list[j].files)
    ensures CanGo(list, j, ChildAt(list, j, x)) <==>
      var name := list[j].subs[x].name; IsTypeable(name) && name != [0x52] && (j == 0 ==> x < ROOT_REACH) && IsInReach(list, j)
  {
    var name, k := list[j].subs[x].name, ChildAt(list, j, x);
    hide IsListing, HasGoodNames, IsKey, IsCapital, ChildAt, NamesFile, AfterCd;
    if IsTypeable(name) && name != [0x52] && (j == 0 ==> x < ROOT_REACH) && IsInReach(list, j) { EntersByKeys(list, j, x); }
    forall line | IsLine(line) && AfterLine(list, j, line) == k
      ensures IsTypeable(name) && name != [0x52] && (j == 0 ==> x < ROOT_REACH) && IsInReach(list, j)
    {
      ChildIsOnly(list, j, x);
      var typed := line[3..];
      assert forall i :: 0 <= i < |typed| ==> typed[i] == line[3 + i];
      EnteredOnly(list, j, x, typed);
      TypedIsTypeable(typed);
      if name == [0x52] { OnlyKeyForR(typed); }
    }
  }
}
