/** Byte tables made of fixed-size cells, and the loops of kernel/fs/fat16.c that write them. */
module Tables {
  import opened CString
  import opened DirectoryTree

  /** `a` with the bytes `r` written at `at`. */
  function Splice(a: seq<byte>, at: nat, r: seq<byte>): (a': seq<byte>)
    requires at + |r| <= |a|
    ensures |a'| == |a|
  {
    a[..at] + r + a[at + |r|..]
  }

  /** The table starts with the cells `rows`, `w` bytes each, and is zero after them. */
  ghost predicate IsTable(a: seq<byte>, w: nat, rows: seq<seq<byte>>) {
    && w * |rows| <= |a|
    && (forall r :: 0 <= r < |rows| ==> |rows[r]| == w && IsCell(a, w, r, rows[r]))
    && (forall p :: w * |rows| <= p < |a| ==> a[p] == 0)
  }

  predicate IsCell(a: seq<byte>, w: nat, r: nat, cell: seq<byte>) {
    w * r + w <= |a| && a[w * r..w * r + w] == cell
  }

  lemma CellBefore(w: nat, r: nat, n: nat)
    requires r < n
    ensures w * r + w <= w * n
  {
    var d := n - r - 1;
    assert w * (r + 1 + d) == w * r + w + w * d;
    assert w * d >= 0;
  }

  /** Writing the text of a cell over the zeroes after the last row appends a row. */
  lemma AppendRow(a: seq<byte>, w: nat, rows: seq<seq<byte>>, text: seq<byte>, cell: seq<byte>)
    requires IsTable(a, w, rows) && w * |rows| + w <= |a|
    requires |cell| == w && text <= cell && forall i :: |text| <= i < w ==> cell[i] == 0
    ensures IsTable(Splice(a, w * |rows|, text), w, rows + [cell])
  {
    var at := w * |rows|;
    var a', rows' := Splice(a, at, text), rows + [cell];
    assert w * |rows'| == at + w;
    forall r | 0 <= r < |rows'| ensures |rows'[r]| == w && IsCell(a', w, r, rows'[r]) {
      if r < |rows| {
        CellBefore(w, r, |rows|);
        assert IsCell(a, w, r, rows[r]);
        assert a'[w * r..w * r + w] == a[w * r..w * r + w];
      } else {
        assert a'[at..at + w] == cell;
      }
    }
  }

  // ---- the directory table ----

  /** What stands in the directory table and the page behind it before a row is written there:
      zeroes, but for the name of the root at the start of that page (kernel/fs/fat16.c:83-87). */
  function LeftAt(p: nat): byte {
    if 4096 <= p < 4100 then ROOT[p - 4096] else 0
  }

  /** Row `r` after `piece` was written at its start. */
  function Formed(r: nat, piece: seq<byte>): (cell: seq<byte>)
    requires |piece| <= 9
    ensures |cell| == 9 && piece <= cell && forall k :: |piece| <= k < 9 ==> cell[k] == LeftAt(9 * r + k)
  {
    piece + seq<byte>(9 - |piece|, i requires 0 <= i < 9 - |piece| => LeftAt(9 * r + |piece| + i))
  }

  /** The rows written to the directory table, and nothing after them. */
  ghost predicate IsInfo(a: seq<byte>, pieces: seq<seq<byte>>) {
    && 9 * |pieces| <= |a|
    && (forall r :: 0 <= r < |pieces| ==> |pieces[r]| <= 9 && IsCell(a, 9, r, Formed(r, pieces[r])))
    && (forall p :: 9 * |pieces| <= p < |a| ==> a[p] == LeftAt(p))
  }

  lemma AppendInfo(a: seq<byte>, pieces: seq<seq<byte>>, piece: seq<byte>)
    requires IsInfo(a, pieces) && 9 * |pieces| + 9 <= |a| && |piece| <= 9
    ensures IsInfo(Splice(a, 9 * |pieces|, piece), pieces + [piece])
  {
    hide LeftAt;
    var at := 9 * |pieces|;
    var a', pieces' := Splice(a, at, piece), pieces + [piece];
    forall r | 0 <= r < |pieces'| ensures |pieces'[r]| <= 9 && IsCell(a', 9, r, Formed(r, pieces'[r])) {
      if r < |pieces| {
        assert IsCell(a, 9, r, Formed(r, pieces[r]));
        assert a'[9 * r..9 * r + 9] == a[9 * r..9 * r + 9];
      } else {
        assert a'[at..at + 9] == Formed(r, piece);
      }
    }
  }

  lemma CellExtends(name: seq<byte>, w: nat)
    requires |name| <= 8 <= w
    ensures |Cell(name, w)| == w && Cell(name, 8) <= Cell(name, w) && forall i :: 8 <= i < w ==> Cell(name, w)[i] == 0
  {}

  /** Eight bytes from one table to another. */
  method CopyCell(dst: array<byte>, at: nat, src: array<byte>, from: nat)
    requires dst != src && at + 8 <= dst.Length && from + 8 <= src.Length
    modifies dst
    ensures dst[..] == Splice(old(dst[..]), at, src[from..from + 8])
  {
    ghost var was := dst[..];
    var b := 0;
    while b < 8
      invariant b <= 8
      invariant forall j :: 0 <= j < dst.Length ==> dst[j] == if at <= j < at + b then src[from + j - at] else was[j]
    {
      dst[at + b] := src[from + b];
      b := b + 1;
    }
    assert dst[..] == Splice(was, at, src[from..from + 8]);
  }

  method PutEod(dst: array<byte>, at: nat)
    requires at + 4 <= dst.Length
    modifies dst
    ensures dst[..] == Splice(old(dst[..]), at, EOD + [0])
  {
    dst[at] := 0x65;
    dst[at + 1] := 0x6f;
    dst[at + 2] := 0x64;
    dst[at + 3] := 0;
  }

  method PutPercent(dst: array<byte>, at: nat)
    requires at < dst.Length
    modifies dst
    ensures dst[..] == Splice(old(dst[..]), at, PERCENT)
  {
    dst[at] := 0x25;
  }

  lemma NameSpliced(was: seq<byte>, now: seq<byte>, at: nat, name: seq<byte>)
    requires |now| == |was| && at + 9 <= |was| && |name| <= 8
    requires forall j :: 0 <= j < |was| && !(at <= j < at + 9) ==> now[j] == was[j]
    requires forall j :: 0 <= j < |name| ==> now[at + j] == name[j]
    requires forall j :: at + |name| <= j < at + 8 ==> now[j] == 0
    ensures now == Splice(was, at, Cell(name, 8) + [now[at + 8]])
  {
    var r := Cell(name, 8) + [now[at + 8]];
    forall j | 0 <= j < 9 ensures r[j] == now[at + j] {}
  }

  /** The name field of an entry, cut at its trailing spaces; the ninth byte is written
      only when the name has eight. */
  method CopyName(dst: array<byte>, at: nat, e: Entry)
    requires at + 9 <= dst.Length && IsPadded(e)
    modifies dst
    ensures dst[..] == Splice(old(dst[..]), at, Cell(NameOf(e), 8) + [if NameLength(e, 0) == 8 then 0 else old(dst[at + 8])])
  {
    hide Cell, Splice;
    ghost var n, was := NameLength(e, 0), dst[..];
    var length := 8;
    var c := 0;
    while c < 8
      invariant c <= 8 && length == if c <= n then 8 else 8 - (c - n)
      invariant forall j :: 0 <= j < dst.Length && !(at <= j < at + 8) ==> dst[j] == was[j]
      invariant forall j :: at + n <= j < at + c ==> dst[j] == 0
    {
      if e[c] == 0x20 {
        if length > 0 { length := length - 1; }
        dst[at + c] := 0;
      }
      c := c + 1;
    }
    c := 0;
    while e[c] != 0 && c < length
      invariant c <= n == length
      invariant forall j :: 0 <= j < dst.Length && !(at <= j < at + 8) ==> dst[j] == was[j]
      invariant forall j :: at + n <= j < at + 8 ==> dst[j] == 0
      invariant forall j :: 0 <= j < c ==> dst[at + j] == NameOf(e)[j]
      decreases length - c
    {
      if e[c] > 127 {
        dst[at + c] := 0;
      } else {
        dst[at + c] := e[c];
      }
      c := c + 1;
    }
    dst[at + c] := 0;
    NameSpliced(was, dst[..], at, NameOf(e));
  }
}
