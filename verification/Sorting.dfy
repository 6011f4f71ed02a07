/** The two insertion sorts of kernel/util.c: of 16-bit values, and of pairs by their key. */
module Sorting {
  import opened Words

  const LIMIT := 0x1_0000

  type half = h: nat | h < LIMIT

  datatype Pair = Pair(key: half, value: half)

  // ---- what sorting pairs means ----

  /** Where a key goes: after the last key smaller than it. */
  function Place(keys: seq<half>, key: nat): (p: nat)
    ensures p <= |keys| && (p > 0 ==> keys[p - 1] < key) && forall i :: p <= i < |keys| ==> keys[i] >= key
  {
    if keys == [] || keys[|keys| - 1] < key then |keys| else Place(keys[..|keys| - 1], key)
  }

  lemma {:induction false} PlaceIs(keys: seq<half>, key: nat, p: nat)
    requires p <= |keys| && (p > 0 ==> keys[p - 1] < key) && forall i :: p <= i < |keys| ==> keys[i] >= key
    ensures Place(keys, key) == p
  {
    if p < |keys| { PlaceIs(keys[..|keys| - 1], key, p); }
  }

  function Keys(s: seq<Pair>): (r: seq<half>)
    ensures |r| == |s| && forall i :: 0 <= i < |s| ==> r[i] == s[i].key
  {
    seq(|s|, i requires 0 <= i < |s| => s[i].key)
  }

  function InsertAt<T>(s: seq<T>, p: nat, x: T): seq<T>
    requires p <= |s|
  {
    s[..p] + [x] + s[p..]
  }

  function Sorted(s: seq<Pair>): seq<Pair> {
    if s == [] then [] else
      var r := Sorted(s[..|s| - 1]);
      InsertAt(r, Place(Keys(r), s[|s| - 1].key), s[|s| - 1])
  }

  predicate IsSorted(s: seq<Pair>) {
    forall i, j :: 0 <= i < j < |s| ==> s[i].key <= s[j].key
  }

  /** The pairs with that key, in order. */
  function WithKey(s: seq<Pair>, key: half): seq<Pair> {
    if s == [] then [] else
      WithKey(s[..|s| - 1], key) + if s[|s| - 1].key == key then [s[|s| - 1]] else []
  }

  function Reversed<T>(s: seq<T>): seq<T> {
    if s == [] then [] else [s[|s| - 1]] + Reversed(s[..|s| - 1])
  }

  lemma {:induction false} WithKeyAppend(a: seq<Pair>, b: seq<Pair>, key: half)
    ensures WithKey(a + b, key) == WithKey(a, key) + WithKey(b, key)
  {
    if b == [] {
      assert a + b == a;
    } else {
      assert (a + b)[..|a + b| - 1] == a + b[..|b| - 1];
      WithKeyAppend(a, b[..|b| - 1], key);
    }
  }

  lemma {:induction false} NoneWithKey(s: seq<Pair>, key: half)
    requires forall i :: 0 <= i < |s| ==> s[i].key != key
    ensures WithKey(s, key) == []
  {
    if s != [] { NoneWithKey(s[..|s| - 1], key); }
  }

  /** In a sorted sequence the place of a key splits the smaller keys from the rest. */
  lemma PlaceSplits(r: seq<Pair>, key: half)
    requires IsSorted(r)
    ensures var p := Place(Keys(r), key);
      && p <= |r|
      && (forall i :: 0 <= i < p ==> r[i].key < key) && forall i :: p <= i < |r| ==> r[i].key >= key
  {
    hide Place;
    var p := Place(Keys(r), key);
    forall i | 0 <= i < |r| ensures i < p ==> r[i].key < key ensures i >= p ==> r[i].key >= key {
      if i < p { assert r[i].key <= r[p - 1].key == Keys(r)[p - 1]; } else { assert Keys(r)[i] >= key; }
    }
  }

  lemma InsertKeepsOrder(r: seq<Pair>, x: Pair)
    requires IsSorted(r)
    ensures IsSorted(InsertAt(r, Place(Keys(r), x.key), x))
  {
    hide Place, Keys;
    PlaceSplits(r, x.key);
  }

  lemma InsertFirst(r: seq<Pair>, x: Pair, key: half)
    requires IsSorted(r)
    ensures WithKey(InsertAt(r, Place(Keys(r), x.key), x), key) == (if x.key == key then [x] else []) + WithKey(r, key)
  {
    hide Place, Keys, IsSorted;
    PlaceSplits(r, x.key);
    var p := Place(Keys(r), x.key);
    WithKeySplit(r[..p], r[p..], x, key);
    assert r == r[..p] + r[p..];
  }

  lemma WithKeySplit(a: seq<Pair>, b: seq<Pair>, x: Pair, key: half)
    requires forall i :: 0 <= i < |a| ==> a[i].key < x.key
    ensures WithKey(a + [x] + b, key) == (if x.key == key then [x] else []) + WithKey(a + b, key)
  {
    WithKeyAppend(a, b, key);
    WithKeyAppend(a, [x], key);
    WithKeyAppend(a + [x], b, key);
    assert WithKey([x], key) == if x.key == key then [x] else [] by { assert [x][..0] == []; }
    hide WithKey;
    if x.key == key { NoneWithKey(a, key); }
  }

  lemma {:induction false} SortedStep(s: seq<Pair>)
    ensures Sorted([]) == [] && IsSorted([])
    ensures s != [] ==> var front, x := s[..|s| - 1], s[|s| - 1];
      Sorted(s) == InsertAt(Sorted(front), Place(Keys(Sorted(front)), x.key), x)
  {
    hide Place, Keys, InsertAt;
  }

  /** The result is in order and has the same pairs. */
  lemma {:induction false} SortedSorts(s: seq<Pair>)
    ensures IsSorted(Sorted(s)) && multiset(Sorted(s)) == multiset(s)
  {
    hide Place, Keys, IsSorted, InsertAt, Sorted;
    SortedStep(s);
    if s != [] {
      var front, x := s[..|s| - 1], s[|s| - 1];
      SortedSorts(front);
      InsertKeepsOrder(Sorted(front), x);
      SamePairs(Sorted(front), Place(Keys(Sorted(front)), x.key), x);
      assert s == front + [x];
    }
  }

  /** Pairs with equal keys come out in the reverse of the order they had. */
  lemma {:induction false} EqualKeysReversed(s: seq<Pair>, key: half)
    ensures WithKey(Sorted(s), key) == Reversed(WithKey(s, key))
  {
    if s != [] {
      hide Place, Keys, IsSorted, WithKey, Reversed, InsertAt;
      var front, x := s[..|s| - 1], s[|s| - 1];
      EqualKeysReversed(front, key);
      SortedSorts(front);
      InsertFirst(Sorted(front), x, key);
      LastReversed(s, key);
    } else {
      assert WithKey(s, key) == [];
    }
  }

  lemma SamePairs<T>(r: seq<T>, p: nat, x: T)
    requires p <= |r|
    ensures multiset(InsertAt(r, p, x)) == multiset(r) + multiset{x}
  {
    assert r == r[..p] + r[p..];
  }

  lemma LastReversed(s: seq<Pair>, key: half)
    requires s != []
    ensures var x := s[|s| - 1];
      Reversed(WithKey(s, key)) == (if x.key == key then [x] else []) + Reversed(WithKey(s[..|s| - 1], key))
  {
    var x, w := s[|s| - 1], WithKey(s[..|s| - 1], key);
    assert x.key == key ==> (w + [x])[..|w + [x]| - 1] == w;
    assert w + [] == w;
  }

  /** Those facts leave one possible result. */
  lemma OnlySorted(s: seq<Pair>, t: seq<Pair>)
    requires IsSorted(t) && forall key: half :: WithKey(t, key) == Reversed(WithKey(s, key))
    ensures t == Sorted(s)
  {
    hide Sorted, IsSorted, WithKey, Reversed;
    SortedSorts(s);
    forall key: half ensures WithKey(t, key) == WithKey(Sorted(s), key) { EqualKeysReversed(s, key); }
    SameGroups(t, Sorted(s));
  }

  lemma {:induction false} HasKey(s: seq<Pair>, i: nat)
    requires i < |s|
    ensures WithKey(s, s[i].key) != []
  {
    if i < |s| - 1 { HasKey(s[..|s| - 1], i); }
  }

  /** The last pair of a sorted sequence has the largest key of all that occur. */
  lemma LastIsLargest(a: seq<Pair>, key: half)
    requires IsSorted(a) && WithKey(a, key) != []
    ensures a != [] && key <= a[|a| - 1].key
  {
    if forall i :: 0 <= i < |a| ==> a[i].key != key { NoneWithKey(a, key); }
  }

  lemma SameLast(a: seq<Pair>, b: seq<Pair>)
    requires a != [] && b != [] && a[|a| - 1].key == b[|b| - 1].key
    requires WithKey(a, a[|a| - 1].key) == WithKey(b, a[|a| - 1].key)
    ensures a[|a| - 1] == b[|b| - 1]
  {
    var x, y := a[|a| - 1], b[|b| - 1];
    var v, w := WithKey(a[..|a| - 1], x.key), WithKey(b[..|b| - 1], x.key);
    assert v + [x] == w + [y];
    assert (v + [x])[|v + [x]| - 1] == x && (w + [y])[|w + [y]| - 1] == y;
  }

  lemma SameLastKey(a: seq<Pair>, b: seq<Pair>)
    requires IsSorted(a) && IsSorted(b) && a != [] && forall key: half :: WithKey(a, key) == WithKey(b, key)
    ensures b != [] && a[|a| - 1].key == b[|b| - 1].key
  {
    hide WithKey, IsSorted;
    HasKey(a, |a| - 1);
    LastIsLargest(b, a[|a| - 1].key);
    HasKey(b, |b| - 1);
    LastIsLargest(a, b[|b| - 1].key);
  }

  lemma {:induction false} SameGroups(a: seq<Pair>, b: seq<Pair>)
    requires IsSorted(a) && IsSorted(b) && forall key: half :: WithKey(a, key) == WithKey(b, key)
    ensures a == b
  {
    hide WithKey;
    if a == [] && b == [] {
    } else if a == [] {
      SameLastKey(b, a);
    } else {
      SameLastKey(a, b);
      SameLast(a, b);
      var front, rest := a[..|a| - 1], b[..|b| - 1];
      forall key: half {:trigger WithKey(front, key)} ensures WithKey(front, key) == WithKey(rest, key) {
        DropLast(a, b, key);
      }
      SameGroups(front, rest);
      assert a == front + [a[|a| - 1]] && b == rest + [b[|b| - 1]];
    }
  }

  lemma DropLast(a: seq<Pair>, b: seq<Pair>, key: half)
    requires a != [] && b != [] && a[|a| - 1] == b[|b| - 1] && WithKey(a, key) == WithKey(b, key)
    ensures WithKey(a[..|a| - 1], key) == WithKey(b[..|b| - 1], key)
  {
    var x, v, w := a[|a| - 1], WithKey(a[..|a| - 1], key), WithKey(b[..|b| - 1], key);
    if x.key == key {
      assert v == (v + [x])[..|v + [x]| - 1] && w == (w + [x])[..|w + [x]| - 1];
    } else {
      assert v + [] == v && w + [] == w;
    }
  }

  /** The first of the things to be sorted is copied even when there are none. */
  function Count(sortSize: nat): nat {
    if sortSize == 0 then 1 else sortSize
  }

  // ---- sort_array3: pairs in place ----

  /** The first `n` pairs of an array that holds key and value side by side. */
  function Pairs(a: seq<half>, n: nat): (r: seq<Pair>)
    requires 2 * n <= |a|
    ensures |r| == n && forall i :: 0 <= i < n ==> r[i] == Pair(a[2 * i], a[2 * i + 1])
  {
    seq(n, i requires 0 <= i < n => Pair(a[2 * i], a[2 * i + 1]))
  }

  /** Moves the pairs from `from` to `i - 1` up by one, the last one first. */
  method MovePairs(a: array<half>, from: nat, i: nat)
    requires from <= i && 2 * i + 2 <= a.Length
    modifies a
    ensures forall j :: 2 * from + 2 <= j < 2 * i + 2 ==> a[j] == old(a[j - 2])
    ensures forall j :: 0 <= j < a.Length && !(2 * from + 2 <= j < 2 * i + 2) ==> a[j] == old(a[j])
  {
    var k := i;
    while k > from
      invariant from <= k <= i
      invariant forall j :: 2 * k + 2 <= j < 2 * i + 2 ==> a[j] == old(a[j - 2])
      invariant forall j :: 0 <= j < a.Length && !(2 * k + 2 <= j < 2 * i + 2) ==> a[j] == old(a[j])
    {
      a[2 * k] := a[2 * k - 2];
      a[2 * k + 1] := a[2 * k - 1];
      k := k - 1;
    }
  }

  lemma PairInserted(m: seq<half>, m': seq<half>, i: nat, p: nat, x: Pair)
    requires |m| == |m'| && p <= i && 2 * i + 2 <= |m|
    requires m'[2 * p] == x.key && m'[2 * p + 1] == x.value
    requires forall j :: 0 <= j < 2 * p ==> m'[j] == m[j]
    requires forall j :: 2 * p + 2 <= j < 2 * i + 2 ==> m'[j] == m[j - 2]
    ensures Pairs(m', i + 1) == InsertAt(Pairs(m, i), p, x)
  {
    var r, s := Pairs(m', i + 1), InsertAt(Pairs(m, i), p, x);
    forall k | 0 <= k <= i ensures r[k] == s[k] {
      if k > p { assert m'[2 * k] == m[2 * (k - 1)] && m'[2 * k + 1] == m[2 * (k - 1) + 1]; }
    }
  }

  /** Backwards from pair `i - 2`, one at a time, to a key smaller than `key`; the pairs
      after it are moved up to make room. */
  method MakeRoom(a: array<half>, i: nat, key: half) returns (sortFlag: bool, shiftVar: nat)
    requires 1 <= i && 2 * i + 2 <= a.Length && a[2 * i - 2] >= key
    modifies a
    ensures shiftVar <= i - 1 && forall k :: i - shiftVar <= k < i ==> old(a[2 * k]) >= key
    ensures !sortFlag ==> shiftVar == i - 1 && a[..] == old(a[..]) && a[0] >= key
    ensures sortFlag ==> old(a[2 * (i - shiftVar) - 2]) < key
    ensures sortFlag ==> forall j :: 2 * (i - shiftVar) + 2 <= j < 2 * i + 2 ==> a[j] == old(a[j - 2])
    ensures sortFlag ==> forall j :: 0 <= j < a.Length && !(2 * (i - shiftVar) + 2 <= j < 2 * i + 2) ==> a[j] == old(a[j])
  {
    shiftVar, sortFlag := 0, false;
    var j := i - 2;
    while j >= 0 && !sortFlag
      invariant -1 <= j <= i - 2 && shiftVar == i - 2 - j
      invariant !sortFlag ==> a[..] == old(a[..]) && forall k :: j < k < i ==> old(a[2 * k]) >= key
      invariant sortFlag ==> forall k :: j + 1 < k < i ==> old(a[2 * k]) >= key
      invariant sortFlag ==> old(a[2 * (j + 1)]) < key
      invariant sortFlag ==> forall k :: 2 * (j + 2) + 2 <= k < 2 * i + 2 ==> a[k] == old(a[k - 2])
      invariant sortFlag ==> forall k :: 0 <= k < a.Length && !(2 * (j + 2) + 2 <= k < 2 * i + 2) ==> a[k] == old(a[k])
    {
      if a[2 * j] < key {
        sortFlag := true;
        MovePairs(a, j + 1, i);
      }
      shiftVar := shiftVar + 1;
      j := j - 1;
    }
  }

  lemma PlaceOfKey(m: seq<half>, i: nat, key: half, p: nat)
    requires 2 * i <= |m| && p <= i && (p > 0 ==> m[2 * p - 2] < key) && forall k :: p <= k < i ==> m[2 * k] >= key
    ensures Place(Keys(Pairs(m, i)), key) == p
  {
    var keys := Keys(Pairs(m, i));
    assert forall k :: 0 <= k < i ==> keys[k] == m[2 * k];
    assert p > 0 ==> keys[p - 1] == m[2 * (p - 1)];
    PlaceIs(keys, key, p);
  }

  /** One round of the sort: the pair goes where its key belongs among the first `i` pairs. */
  method InsertPair(a: array<half>, i: nat, x: Pair)
    requires 1 <= i && 2 * i + 2 <= a.Length
    modifies a
    ensures Pairs(a[..], i + 1) == InsertAt(old(Pairs(a[..], i)), old(Place(Keys(Pairs(a[..], i)), x.key)), x)
    ensures forall j :: 2 * i + 2 <= j < a.Length ==> a[j] == old(a[j])
  {
    hide Place, Pairs, Keys, InsertAt;
    ghost var m := a[..];
    ghost var p := i;
    if a[2 * i - 2] < x.key {
      a[2 * i] := x.key;
      a[2 * i + 1] := x.value;
    } else {
      var sortFlag, shiftVar := MakeRoom(a, i, x.key);
      if !sortFlag {
        p := 0;
        MovePairs(a, 0, i);
        a[0] := x.key;
        a[1] := x.value;
      } else {
        p := i - shiftVar;
        if i - shiftVar >= 0 {
          a[2 * i - 2 * shiftVar] := x.key;
          a[2 * i - 2 * shiftVar + 1] := x.value;
        }
      }
    }
    PlaceOfKey(m, i, x.key, p);
    PairInserted(m, a[..], i, p, x);
  }

  method SortArray3(testArray: array<half>, input: array<half>, sortSize: nat)
    requires testArray != input && 2 * Count(sortSize) <= testArray.Length && 2 * Count(sortSize) <= input.Length
    modifies testArray
    ensures Pairs(testArray[..], Count(sortSize)) == Sorted(Pairs(input[..], Count(sortSize)))
    ensures forall j :: 2 * Count(sortSize) <= j < testArray.Length ==> testArray[j] == old(testArray[j])
  {
    hide Place, Sorted, InsertAt, Keys, Pairs;
    for i := 0 to 2 * sortSize
      invariant forall j :: 2 * sortSize <= j < testArray.Length ==> testArray[j] == old(testArray[j])
    {
      testArray[i] := 0;
    }
    testArray[0] := input[0];
    testArray[1] := input[1];
    FirstPair(testArray[..], input[..]);
    var i := 1;
    while i < sortSize
      invariant 1 <= i <= Count(sortSize) && Pairs(testArray[..], i) == Sorted(Pairs(input[..], i))
      invariant forall j :: 2 * Count(sortSize) <= j < testArray.Length ==> testArray[j] == old(testArray[j])
    {
      InsertPair(testArray, i, Pair(input[2 * i], input[2 * i + 1]));
      NextPair(input[..], i);
      i := i + 1;
    }
  }

  lemma FirstPair(a: seq<half>, b: seq<half>)
    requires |a| >= 2 && |b| >= 2 && a[0] == b[0] && a[1] == b[1]
    ensures Pairs(a, 1) == Sorted(Pairs(b, 1))
  {
    var s := Pairs(b, 1);
    assert s[..0] == [];
    assert Sorted([]) == [];
    assert Pairs(a, 1) == s == [s[0]];
  }

  lemma NextPair(b: seq<half>, i: nat)
    requires 2 * i + 2 <= |b|
    ensures var r, x := Sorted(Pairs(b, i)), Pair(b[2 * i], b[2 * i + 1]);
      Sorted(Pairs(b, i + 1)) == InsertAt(r, Place(Keys(r), x.key), x)
  {
    var s := Pairs(b, i + 1);
    assert s[..i] == Pairs(b, i) && s[i] == Pair(b[2 * i], b[2 * i + 1]);
    hide Pairs, InsertAt, Place, Keys;
    assert Sorted(s) == InsertAt(Sorted(s[..i]), Place(Keys(Sorted(s[..i])), s[i].key), s[i]);
  }

  // ---- sort_array2: plain values, cut to 16 bits on the way ----

  function Cut(x: nat): half {
    x % LIMIT
  }

  /** What comes out: each value is placed by its own size and kept by its low 16 bits. */
  function SortedValues(s: seq<nat>): seq<half> {
    if s == [] then [] else
      var r := SortedValues(s[..|s| - 1]);
      InsertAt(r, Place(r, s[|s| - 1]), Cut(s[|s| - 1]))
  }

  predicate Ascending(s: seq<half>) {
    forall i, j :: 0 <= i < j < |s| ==> s[i] <= s[j]
  }

  function Cuts(s: seq<nat>): (r: seq<half>)
    ensures |r| == |s| && forall i :: 0 <= i < |s| ==> r[i] == Cut(s[i])
  {
    seq(|s|, i requires 0 <= i < |s| => Cut(s[i]))
  }

  lemma {:induction false} SameValues(s: seq<nat>)
    ensures multiset(SortedValues(s)) == multiset(Cuts(s))
  {
    if s != [] {
      var front, x := s[..|s| - 1], s[|s| - 1];
      hide Place, InsertAt;
      SameValues(front);
      SamePairs(SortedValues(front), Place(SortedValues(front), x), Cut(x));
      assert Cuts(s) == Cuts(front) + [Cut(x)];
    }
  }

  lemma {:induction false} ValuesAscend(s: seq<nat>)
    requires forall i :: 0 <= i < |s| ==> s[i] < LIMIT
    ensures Ascending(SortedValues(s))
  {
    if s == [] {
    } else {
      hide Place, Ascending, InsertAt, SortedValues, Cut;
      ValuesAscend(s[..|s| - 1]);
      ValuesStep(s);
      InsertAscends(SortedValues(s[..|s| - 1]), s[|s| - 1]);
    }
  }

  lemma {:induction false} ValuesStep(s: seq<nat>)
    requires s != []
    ensures var r, x := SortedValues(s[..|s| - 1]), s[|s| - 1];
      SortedValues(s) == InsertAt(r, Place(r, x), Cut(x)) && (x < LIMIT ==> Cut(x) == x)
  {}

  /** Whatever the values are: the low half of the last one stands behind the last of the others'
      low halves that is smaller than its full value, and the others are in order as without it. */
  lemma EachIsPlaced(s: seq<nat>, p: nat)
    requires s != []
    requires var r, x := SortedValues(s[..|s| - 1]), s[|s| - 1];
      p <= |r| && (p > 0 ==> r[p - 1] < x) && forall i :: p <= i < |r| ==> r[i] >= x
    ensures var r, x := SortedValues(s[..|s| - 1]), s[|s| - 1]; SortedValues(s) == r[..p] + [x % 0x1_0000] + r[p..]
  {
    hide Place, SortedValues;
    ValuesStep(s);
    PlaceIs(SortedValues(s[..|s| - 1]), s[|s| - 1], p);
  }

  lemma InsertAscends(r: seq<half>, x: half)
    requires Ascending(r)
    ensures Ascending(InsertAt(r, Place(r, x), x))
  {
    hide Place;
    var p := Place(r, x);
    forall i | 0 <= i < p ensures r[i] < x { assert r[i] <= r[p - 1]; }
  }

  lemma OnlyHalves(s: seq<half>, x: nat)
    requires x in multiset(s)
    ensures x < LIMIT
  {}

  /** sort_array2 gives its input in order exactly when every value fits 16 bits. */
  lemma SortsIffFits(s: seq<nat>)
    ensures (Ascending(SortedValues(s)) && multiset(SortedValues(s)) == multiset(s)) <==> forall i :: 0 <= i < |s| ==> s[i] < LIMIT
  {
    hide Ascending, SortedValues;
    SameValues(s);
    if forall i :: 0 <= i < |s| ==> s[i] < LIMIT {
      ValuesAscend(s);
      assert Cuts(s) == s;
    } else if multiset(SortedValues(s)) == multiset(s) {
      var i :| 0 <= i < |s| && s[i] >= LIMIT;
      assert s[i] in multiset(s);
      OnlyHalves(SortedValues(s), s[i]);
    }
  }

  /** Moves the values from `from` to `i - 1` up by one, the last one first. */
  method MoveValues(a: array<half>, from: nat, i: nat)
    requires from <= i < a.Length
    modifies a
    ensures forall j :: from < j <= i ==> a[j] == old(a[j - 1])
    ensures forall j :: 0 <= j < a.Length && !(from < j <= i) ==> a[j] == old(a[j])
  {
    var k := i;
    while k > from
      invariant from <= k <= i
      invariant forall j :: k < j <= i ==> a[j] == old(a[j - 1])
      invariant forall j :: 0 <= j < a.Length && !(k < j <= i) ==> a[j] == old(a[j])
    {
      a[k] := a[k - 1];
      k := k - 1;
    }
  }

  method MakeRoomForValue(a: array<half>, i: nat, x: word) returns (sortFlag: bool, shiftVar: nat)
    requires 1 <= i < a.Length && a[i - 1] >= x
    modifies a
    ensures shiftVar <= i - 1 && forall k :: i - shiftVar <= k < i ==> old(a[k]) >= x
    ensures !sortFlag ==> shiftVar == i - 1 && a[..] == old(a[..]) && a[0] >= x
    ensures sortFlag ==> old(a[i - shiftVar - 1]) < x
    ensures sortFlag ==> forall j :: i - shiftVar < j <= i ==> a[j] == old(a[j - 1])
    ensures sortFlag ==> forall j :: 0 <= j < a.Length && !(i - shiftVar < j <= i) ==> a[j] == old(a[j])
  {
    shiftVar, sortFlag := 0, false;
    var j := i - 2;
    while j >= 0 && !sortFlag
      invariant -1 <= j <= i - 2 && shiftVar == i - 2 - j
      invariant !sortFlag ==> a[..] == old(a[..]) && forall k :: j < k < i ==> old(a[k]) >= x
      invariant sortFlag ==> forall k :: j + 1 < k < i ==> old(a[k]) >= x
      invariant sortFlag ==> old(a[j + 1]) < x
      invariant sortFlag ==> forall k :: j + 2 < k <= i ==> a[k] == old(a[k - 1])
      invariant sortFlag ==> forall k :: 0 <= k < a.Length && !(j + 2 < k <= i) ==> a[k] == old(a[k])
    {
      if a[j] < x {
        sortFlag := true;
        MoveValues(a, j + 1, i);
      }
      shiftVar := shiftVar + 1;
      j := j - 1;
    }
  }

  lemma PlaceOfValue(m: seq<half>, i: nat, x: nat, p: nat)
    requires i <= |m| && p <= i && (p > 0 ==> m[p - 1] < x) && forall k :: p <= k < i ==> m[k] >= x
    ensures Place(m[..i], x) == p
  {
    PlaceIs(m[..i], x, p);
  }

  lemma ValueInserted(m: seq<half>, m': seq<half>, i: nat, p: nat, x: half)
    requires |m| == |m'| && p <= i < |m| && m'[p] == x
    requires forall j :: 0 <= j < p ==> m'[j] == m[j]
    requires forall j :: p < j <= i ==> m'[j] == m[j - 1]
    ensures m'[..i + 1] == InsertAt(m[..i], p, x)
  {}

  method InsertValue(a: array<half>, i: nat, x: word)
    requires 1 <= i < a.Length
    modifies a
    ensures a[..i + 1] == InsertAt(old(a[..i]), old(Place(a[..i], x)), Cut(x))
    ensures forall j :: i < j < a.Length ==> a[j] == old(a[j])
  {
    hide Place, Cut, InsertAt;
    ghost var m := a[..];
    ghost var p := i;
    if a[i - 1] < x {
      a[i] := Cut(x);
    } else {
      var sortFlag, shiftVar := MakeRoomForValue(a, i, x);
      if !sortFlag {
        p := 0;
        MoveValues(a, 0, i);
        a[0] := Cut(x);
      } else {
        p := i - shiftVar;
        if i - shiftVar >= 0 {
          a[i - shiftVar] := Cut(x);
        }
      }
    }
    assert m[..i] == old(a[..i]);
    PlaceOfValue(m, i, x, p);
    ValueInserted(m, a[..], i, p, Cut(x));
    assert a[..][..i + 1] == a[..i + 1];
  }

  method SortArray2(testArray: array<half>, input: array<word>, sortSize: nat)
    requires Count(sortSize) <= testArray.Length && Count(sortSize) <= input.Length
    modifies testArray
    ensures testArray[..Count(sortSize)] == SortedValues(input[..Count(sortSize)])
    ensures forall j :: Count(sortSize) <= j < testArray.Length ==> testArray[j] == old(testArray[j])
  {
    hide Place, SortedValues, InsertAt;
    for i := 0 to sortSize
      invariant forall j :: sortSize <= j < testArray.Length ==> testArray[j] == old(testArray[j])
    {
      testArray[i] := 0;
    }
    testArray[0] := Cut(input[0]);
    FirstValue(testArray[..], input[..]);
    assert testArray[..1] == testArray[..][..1] && input[..1] == input[..][..1];
    var i := 1;
    while i < sortSize
      invariant 1 <= i <= Count(sortSize) && testArray[..i] == SortedValues(input[..i])
      invariant forall j :: Count(sortSize) <= j < testArray.Length ==> testArray[j] == old(testArray[j])
    {
      InsertValue(testArray, i, input[i]);
      NextValue(input[..], i);
      assert input[..i] == input[..][..i] && input[..i + 1] == input[..][..i + 1];
      i := i + 1;
    }
  }

  /** 1 and 65536: the second value has the first place it could have by its size, and is kept as 0. */
  lemma CutValueOutOfOrder()
    ensures SortedValues([1, 0x1_0000]) == [1, 0] && !Ascending([1, 0])
  {
    OneValue(1);
    ValuesStep([1, 0x1_0000]);
    assert [1, 0x1_0000][..1] == [1];
    PlaceIs([1], 0x1_0000, 1);
    assert [1 as half, 0][0] > [1 as half, 0][1];
  }

  lemma FirstValue(a: seq<half>, b: seq<nat>)
    requires |a| >= 1 && |b| >= 1 && a[0] == Cut(b[0])
    ensures a[..1] == SortedValues(b[..1])
  {
    OneValue(b[0]);
    assert a[..1] == [a[0]] && b[..1] == [b[0]];
  }

  lemma NextValue(b: seq<nat>, i: nat)
    requires i < |b|
    ensures SortedValues(b[..i + 1]) == InsertAt(SortedValues(b[..i]), Place(SortedValues(b[..i]), b[i]), Cut(b[i]))
  {
    ValuesStep(b[..i + 1]);
    assert b[..i + 1][..i] == b[..i];
  }

  lemma {:induction false} OneValue(x: nat)
    ensures SortedValues([x]) == [Cut(x)]
  {
    assert [x][..0] == [];
    assert SortedValues([]) == [];
  }
}
