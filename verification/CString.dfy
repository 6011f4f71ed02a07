/** The string comparison of kernel/string.c, on memory from the string's address on. */
module CString {
  type byte = b: nat | b < 0x100

  /** The bytes before the first zero. */
  function Text(ch: seq<byte>): (t: seq<byte>)
    ensures t <= ch && (forall i :: 0 <= i < |t| ==> t[i] != 0) && (|t| < |ch| ==> ch[|t|] == 0)
  {
    if ch == [] || ch[0] == 0 then [] else [ch[0]] + Text(ch[1..])
  }

  lemma {:induction false} TextIs(ch: seq<byte>, t: seq<byte>)
    requires t <= ch && (forall i :: 0 <= i < |t| ==> t[i] != 0) && (|t| < |ch| ==> ch[|t|] == 0)
    ensures Text(ch) == t
  {
    if t != [] { TextIs(ch[1..], t[1..]); }
  }

  /** There is a zero at an index from 1 to 127, where strlength stops at the latest. */
  predicate Terminated(ch: seq<byte>) {
    exists n :: 1 <= n <= 127 && n < |ch| && ch[n] == 0
  }

  /** strlength finds what it reads. */
  predicate IsReadable(ch: seq<byte>) {
    |ch| >= 128 || Terminated(ch)
  }

  /** Where strlength stops: at the first zero after index 0, or at 127. */
  function Extent(ch: seq<byte>, i: nat): (e: nat)
    requires 1 <= i <= 127 && (|ch| >= 128 || exists n :: i <= n <= 127 && n < |ch| && ch[n] == 0)
    ensures i <= e <= 127 && e < |ch| && (ch[e] == 0 || e == 127) && forall j :: i <= j < e ==> ch[j] != 0
    decreases 127 - i
  {
    if ch[i] == 0 || i == 127 then i else Extent(ch, i + 1)
  }

  lemma ExtentIs(ch: seq<byte>, e: nat)
    requires IsReadable(ch) && 1 <= e <= 127 && e < |ch|
    requires (ch[e] == 0 || e == 127) && forall j :: 1 <= j < e ==> ch[j] != 0
    ensures Extent(ch, 1) == e
  {}

  /** A string of 1 to 127 characters ends where strlength stops. */
  lemma TextExtent(ch: seq<byte>)
    requires Terminated(ch) && ch[0] != 0
    ensures |Text(ch)| == Extent(ch, 1) && ch[Extent(ch, 1)] == 0
  {
    var n :| 1 <= n <= 127 && n < |ch| && ch[n] == 0;
    TextIs(ch, ch[..Extent(ch, 1)]);
  }

  /** What strEql looks at: the bytes up to where strlength stops. */
  function Head(ch: seq<byte>): seq<byte>
    requires IsReadable(ch)
  {
    ch[..Extent(ch, 1) + 1]
  }

  lemma TextOfHead(ch1: seq<byte>, ch2: seq<byte>)
    requires Terminated(ch1) && ch1[0] != 0 && IsReadable(ch2) && Head(ch1) == Head(ch2)
    ensures Text(ch1) == Text(ch2)
  {
    hide Text, Extent, Terminated;
    TextExtent(ch1);
    var e, h := Extent(ch1, 1), Head(ch1);
    assert |h| == e + 1 && |Head(ch2)| == Extent(ch2, 1) + 1;
    assert h[..e] == ch1[..e] && h[..e] == ch2[..e];
    assert h[e] == ch1[e] && h[e] == ch2[e];
    hide Head;
    assert Text(ch1) == ch1[..e];
    TextIs(ch2, h[..e]);
  }

  lemma TextEnds(ch: seq<byte>)
    requires IsReadable(ch) && |Text(ch)| <= 127
    ensures |Text(ch)| < |ch| && ch[|Text(ch)|] == 0
  {
    hide Text;
    var t := Text(ch);
    if |ch| < 128 {
      var n :| 1 <= n <= 127 && n < |ch| && ch[n] == 0;
      assert t == ch[..|t|] && (forall i :: 0 <= i < |t| ==> t[i] != 0);
    }
  }

  lemma HeadOfText(ch1: seq<byte>, ch2: seq<byte>)
    requires Terminated(ch1) && ch1[0] != 0 && IsReadable(ch2) && Text(ch1) == Text(ch2)
    ensures Head(ch1) == Head(ch2)
  {
    hide Text, Extent, Terminated;
    TextExtent(ch1);
    TextEnds(ch2);
    var t := Text(ch1);
    assert t == ch1[..|t|] && t == ch2[..|t|];
    forall j | 0 <= j < |t| ensures ch2[j] != 0 { assert ch2[j] == t[j]; }
    ExtentIs(ch2, |t|);
    assert Head(ch1) == t + [0] && Head(ch2) == t + [0];
  }

  lemma HeadsAreTexts(ch1: seq<byte>, ch2: seq<byte>)
    requires IsReadable(ch1) && IsReadable(ch2)
    ensures Terminated(ch1) && ch1[0] != 0 ==> (Head(ch1) == Head(ch2) <==> Text(ch1) == Text(ch2))
  {
    if Terminated(ch1) && ch1[0] != 0 {
      hide Head, Text, Terminated, Extent;
      if Head(ch1) == Head(ch2) { TextOfHead(ch1, ch2); }
      if Text(ch1) == Text(ch2) { HeadOfText(ch1, ch2); }
    }
  }

  method StrLength(ch: seq<byte>) returns (e: nat)
    requires IsReadable(ch)
    ensures e == Extent(ch, 1)
    ensures ch[0] != 0 && Terminated(ch) ==> e == |Text(ch)|
  {
    hide Text;
    ghost var n := Extent(ch, 1);
    if ch[0] != 0 && Terminated(ch) { TextExtent(ch); }
    e := 1;
    while true
      invariant 1 <= e <= n
      decreases 128 - e
    {
      e := e + 1;
      if !(ch[e - 1] != 0 && e < 128) { break; }
    }
    e := e - 1;
  }

  /** strEql compares up to where strlength stops. That is comparing the texts when one of the
      two is a string of 1 to 127 characters. */
  method StrEql(ch1: seq<byte>, ch2: seq<byte>) returns (r: bool)
    requires IsReadable(ch1) && IsReadable(ch2)
    ensures r <==> Head(ch1) == Head(ch2)
    ensures r <==> Extent(ch1, 1) == Extent(ch2, 1) && forall i :: 0 <= i <= Extent(ch1, 1) ==> ch1[i] == ch2[i]
    ensures (ch1[0] != 0 && Terminated(ch1)) || (ch2[0] != 0 && Terminated(ch2)) ==> (r <==> Text(ch1) == Text(ch2))
  {
    hide Text, Extent;
    HeadsAreTexts(ch1, ch2);
    HeadsAreTexts(ch2, ch1);
    r := true;
    var size := StrLength(ch1);
    var size2 := StrLength(ch2);
    ghost var a, b := Head(ch1), Head(ch2);
    if size != size2 {
      assert |a| != |b|;
      r := false;
    } else {
      var f := 0;
      while f <= size
        invariant f <= size + 1 && r && forall i :: 0 <= i < f ==> a[i] == b[i]
      {
        if ch1[f] != ch2[f] {
          assert a[f] != b[f];
          r := false;
          break;
        }
        f := f + 1;
      }
    }
  }

  /** strEql2: only the first three bytes count. */
  method StrEql2(ch1: seq<byte>, ch2: seq<byte>) returns (r: bool)
    requires |ch1| >= 3 && |ch2| >= 3
    ensures r <==> ch1[..3] == ch2[..3]
  {
    r := true;
    for f := 0 to 3
      invariant r <==> ch1[..f] == ch2[..f]
    {
      assert ch1[..f + 1] == ch1[..f] + [ch1[f]] && ch2[..f + 1] == ch2[..f] + [ch2[f]];
      if ch1[f] != ch2[f] { r := false; }
    }
  }

  /** stringlength counts from index 0, and to any zero. */
  method StringLength(ch: seq<byte>) returns (i: nat)
    requires 0 in ch
    ensures i == |Text(ch)|
  {
    i := 0;
    while ch[i] != 0
      invariant i < |ch| && forall j :: 0 <= j < i ==> ch[j] != 0
      decreases |ch| - i
    {
      i := i + 1;
    }
    TextIs(ch, ch[..i]);
  }

  /** Two empty strings are told apart by what follows their zero. */
  lemma EmptyStringsDiffer()
    ensures Text([0, 0]) == Text([0, 1, 0]) == []
    ensures IsReadable([0, 0]) && IsReadable([0, 1, 0])
    ensures Head([0, 0]) != Head([0, 1, 0])
  {
    assert [0, 0][1] == 0 && [0, 1, 0][2] == 0;
    ExtentIs([0, 0], 1);
    ExtentIs([0, 1, 0], 2);
  }
}
