/** Where directories are in the level-by-level list, and what it means to move between them. */
module Places {
  import opened CString
  import opened DirectoryTree

  // ---- the list and the tree ----

  lemma {:induction false} ChildrenAppend(a: seq<Dir>, b: seq<Dir>)
    ensures Children(a + b) == Children(a) + Children(b)
    decreases a
  {
    if a == [] {
      assert a + b == b;
    } else {
      ChildrenAppend(a[1..], b);
      assert (a + b)[1..] == a[1..] + b;
      assert Children(a + b) == a[0].subs + (Children(a[1..]) + Children(b));
    }
  }

  lemma ChildrenOf(d: Dir, list: seq<Dir>)
    ensures Children([d] + list) == d.subs + Children(list)
  {
    assert ([d] + list)[1..] == list;
  }

  lemma Reassemble<T>(a: seq<T>, b: seq<T>, c: seq<T>)
    requires a != []
    ensures [a[0]] + (a[1..] + b + c) == a + (b + c)
  {}

  /** Listed breadth first, the directories are those of the queue and then all children,
      each where its parent's turn puts it. */
  lemma {:induction false} ListIsItsChildren(queue: seq<Dir>)
    ensures BreadthFirst(queue) == queue + Children(BreadthFirst(queue))
    decreases Sizes(queue)
  {
    if queue != [] {
      var d, rest := queue[0], Advanced(queue);
      SizesAppend(queue[1..], d.subs);
      assert Sizes(queue) == 1 + Sizes(d.subs) + Sizes(queue[1..]);
      hide BreadthFirst, Children, Sizes;
      ListIsItsChildren(rest);
      QueueStep(queue);
      var list := BreadthFirst(rest);
      ChildrenOf(d, list);
      Reassemble(queue, d.subs, Children(list));
    }
  }

  /** A directory comes before its children: the first `n` directories and the queue hold more than `n`. */
  lemma {:induction false} ParentsFirst(queue: seq<Dir>, n: nat)
    requires n < |BreadthFirst(queue)|
    ensures |queue| + |Children(BreadthFirst(queue)[..n])| > n
    decreases n
  {
    if n > 0 {
      var d, rest := queue[0], queue[1..] + queue[0].subs;
      ParentsFirst(rest, n - 1);
      assert BreadthFirst(queue)[..n] == [d] + BreadthFirst(rest)[..n - 1];
      ChildrenAppend([d], BreadthFirst(rest)[..n - 1]);
      assert Children([d]) == d.subs;
    }
  }

  /** The position in the list of child `x` of the directory at position `i`. */
  function ChildAt(list: seq<Dir>, i: nat, x: nat): nat
    requires i < |list|
  {
    1 + |Children(list[..i])| + x
  }

  /** The position of the directory whose child is at position `j`. */
  function ParentFrom(list: seq<Dir>, i: nat, j: nat): nat
    requires i <= |list|
    decreases |list| - i
  {
    if i == |list| || j < ChildAt(list, i, |list[i].subs|) then i else ParentFrom(list, i + 1, j)
  }

  function ParentOf(list: seq<Dir>, j: nat): nat {
    ParentFrom(list, 0, j)
  }

  /** What the rest needs of the list: the root, then everyone's children. */
  ghost predicate IsListing(list: seq<Dir>) {
    && list != [] && list == [list[0]] + Children(list)
    && forall n :: 0 <= n < |list| ==> |Children(list[..n])| >= n
  }

  lemma LevelsAreListing(root: Dir)
    ensures IsListing(Levels([root])) && Levels([root])[0] == root
  {
    var list := BreadthFirst([root]);
    BreadthFirstIsByLevels([root]);
    ListIsItsChildren([root]);
    forall n | 0 <= n < |list| ensures |Children(list[..n])| >= n {
      ParentsFirst([root], n);
    }
  }

  lemma {:induction false} ChildInList(list: seq<Dir>, i: nat, x: nat)
    requires IsListing(list) && i < |list| && x < |list[i].subs|
    ensures i < ChildAt(list, i, x) < |list| && list[ChildAt(list, i, x)] == list[i].subs[x]
  {
    TurnSplits(list, i);
    assert |Children(list[..i])| >= i;
    hide Children, IsListing;
    var turn := Children(list[..i]) + list[i].subs;
    assert turn[|Children(list[..i])| + x] == list[i].subs[x];
    assert Children(list)[|Children(list[..i])| + x] == turn[|Children(list[..i])| + x];
  }

  lemma {:induction false} TurnSplits(list: seq<Dir>, i: nat)
    requires i < |list|
    ensures Children(list) == Children(list[..i]) + list[i].subs + Children(list[i + 1..])
  {
    assert list == list[..i] + ([list[i]] + list[i + 1..]);
    ChildrenAppend(list[..i], [list[i]] + list[i + 1..]);
    assert ([list[i]] + list[i + 1..])[1..] == list[i + 1..];
  }

  lemma {:induction false} NextTurn(list: seq<Dir>, i: nat)
    requires i < |list|
    ensures |Children(list[..i + 1])| == |Children(list[..i])| + |list[i].subs|
  {
    assert list[..i + 1] == list[..i] + [list[i]];
    ChildrenAppend(list[..i], [list[i]]);
    assert Children([list[i]]) == list[i].subs;
  }

  lemma {:induction false} TurnsGrow(list: seq<Dir>, i: nat, k: nat)
    requires i <= k <= |list|
    ensures |Children(list[..i])| <= |Children(list[..k])|
  {
    if i < k {
      TurnsGrow(list, i, k - 1);
      NextTurn(list, k - 1);
    }
  }

  lemma {:induction false} ParentFromIs(list: seq<Dir>, k: nat, i: nat, x: nat)
    requires k <= i < |list| && x < |list[i].subs|
    ensures ParentFrom(list, k, ChildAt(list, i, x)) == i
    decreases i - k
  {
    if k < i {
      NextTurn(list, k);
      TurnsGrow(list, k + 1, i);
      ParentFromIs(list, k + 1, i, x);
    }
  }

  /** Every directory but the root is a child of its parent. */
  lemma {:induction false} HasParent(list: seq<Dir>, k: nat, j: nat)
    requires IsListing(list) && k <= |list| && 1 + |Children(list[..k])| <= j < |list|
    ensures var i := ParentFrom(list, k, j);
      k <= i < |list| && ChildAt(list, i, 0) <= j < ChildAt(list, i, |list[i].subs|)
    decreases |list| - k
  {
    assert list[..|list|] == list;
    if k < |list| {
      NextTurn(list, k);
      if j >= ChildAt(list, k, |list[k].subs|) { HasParent(list, k + 1, j); }
    }
  }

  // ---- moving ----

  function Upper(b: byte): byte {
    if 0x60 < b < 0x7b then b - 0x20 else b
  }

  function UpperAll(s: seq<byte>): (r: seq<byte>)
    ensures |r| == |s|
  {
    seq(|s|, i requires 0 <= i < |s| => Upper(s[i]))
  }

  /** How a directory name appears in the prompt: small letters after the first. */
  function Shown(name: seq<byte>): (r: seq<byte>)
    ensures |r| == |name|
  {
    seq(|name|, i requires 0 <= i < |name| => if i != 0 && 0x40 < name[i] < 0x5b then name[i] + 0x20 else name[i])
  }

  /** In capitals the small letters are the capitals at the same place of the alphabet, and all
      other bytes are as they were. */
  lemma InCapitals(s: seq<byte>)
    ensures forall b: byte :: 0x61 <= b <= 0x7a ==> Upper(b) == b - 0x61 + 0x41
    ensures forall i :: 0 <= i < |s| ==> UpperAll(s)[i] == Upper(s[i])
    ensures forall i :: 0 <= i < |s| && !(0x61 <= s[i] <= 0x7a) ==> UpperAll(s)[i] == s[i]
  {}

  /** A shown name starts like the name, has no capital letter after its first byte, and is the
      name but for capital and small letters. */
  lemma ShownIs(name: seq<byte>)
    ensures name != [] ==> Shown(name)[0] == name[0]
    ensures forall i :: 1 <= i < |name| ==> !(0x41 <= Shown(name)[i] <= 0x5a)
    ensures UpperAll(Shown(name)) == UpperAll(name)
  {}

  const SLASH: seq<byte> := [0x2f]
  const DOLLAR: seq<byte> := [0x24, 0x20]
  const TILDE_ROOT: seq<byte> := [0x7e, 0x52, 0x6f, 0x6f, 0x74]

  /** The path the prompt shows for the directory at position `j`. */
  ghost function Path(list: seq<Dir>, j: nat): seq<byte>
    requires IsListing(list) && j < |list|
    decreases j
  {
    if j == 0 then TILDE_ROOT else
      ParentIsBefore(list, j);
      Path(list, ParentOf(list, j)) + SLASH + Shown(list[j].name)
  }

  lemma {:induction false} ParentIsBefore(list: seq<Dir>, j: nat)
    requires IsListing(list) && 0 < j < |list|
    ensures ParentOf(list, j) < |list|
    ensures var i := ParentOf(list, j); var x := j - ChildAt(list, i, 0);
      i < j && 0 <= x < |list[i].subs| && j == ChildAt(list, i, x) && list[j] == list[i].subs[x]
  {
    assert list[..0] == [];
    HasParent(list, 0, j);
    var i := ParentOf(list, j);
    ChildInList(list, i, j - ChildAt(list, i, 0));
  }

  /** The first directory of `ds` with that name, or `|ds|`. */
  function IndexOf(ds: seq<Dir>, name: seq<byte>): (x: nat)
    ensures x <= |ds| && (x < |ds| ==> ds[x].name == name) && forall i :: 0 <= i < x ==> ds[i].name != name
  {
    if ds == [] || ds[0].name == name then 0 else
      var x := IndexOf(ds[1..], name);
      assert forall i :: 0 < i < 1 + x ==> ds[i] == ds[1..][i - 1];
      1 + x
  }

  predicate HasChild(list: seq<Dir>, j: nat, typed: seq<byte>)
    requires j < |list|
  {
    IndexOf(list[j].subs, UpperAll(typed)) < |list[j].subs|
  }

  /** `cd typed`: into the child of that name, if there is one. */
  function Enter(list: seq<Dir>, j: nat, typed: seq<byte>): nat
    requires j < |list|
  {
    if HasChild(list, j, typed) then ChildAt(list, j, IndexOf(list[j].subs, UpperAll(typed))) else j
  }

  /** `cd b`: to the parent; the root stays where it is. */
  function Back(list: seq<Dir>, j: nat): nat
    requires j < |list|
  {
    if j == 0 then 0 else ParentOf(list, j)
  }

  /** What `cd` into a child means in the tree and for the path. */
  lemma EnterGoesDown(list: seq<Dir>, j: nat, typed: seq<byte>)
    requires IsListing(list) && j < |list| && HasChild(list, j, typed)
    ensures var k := Enter(list, j, typed);
      && j < k < |list| && list[k] in list[j].subs && list[k].name == UpperAll(typed)
      && Path(list, k) == Path(list, j) + SLASH + Shown(UpperAll(typed))
  {
    var x := IndexOf(list[j].subs, UpperAll(typed));
    ChildInList(list, j, x);
    ParentFromIs(list, 0, j, x);
  }

  /** What `cd b` means in the tree and for the path. */
  lemma BackGoesUp(list: seq<Dir>, j: nat)
    requires IsListing(list) && 0 < j < |list|
    ensures var i := Back(list, j);
      i < j && list[j] in list[i].subs && Path(list, j) == Path(list, i) + SLASH + Shown(list[j].name)
  {
    ParentIsBefore(list, j);
  }

  /** Going into a directory and back ends where it began. */
  lemma BackUndoesEnter(list: seq<Dir>, j: nat, typed: seq<byte>)
    requires IsListing(list) && j < |list| && HasChild(list, j, typed)
    ensures Enter(list, j, typed) < |list| && Back(list, Enter(list, j, typed)) == j
  {
    var x := IndexOf(list[j].subs, UpperAll(typed));
    ChildInList(list, j, x);
    ParentFromIs(list, 0, j, x);
  }

  /** Each name of `path` is that of a child where its turn comes. */
  predicate CanDescend(list: seq<Dir>, j: nat, path: seq<seq<byte>>)
    decreases |path|
  {
    j < |list| && (path != [] ==> HasChild(list, j, path[0]) && CanDescend(list, Enter(list, j, path[0]), path[1..]))
  }

  function Descend(list: seq<Dir>, j: nat, path: seq<seq<byte>>): nat
    requires CanDescend(list, j, path)
    decreases |path|
  {
    if path == [] then j else Descend(list, Enter(list, j, path[0]), path[1..])
  }

  /** `n` times `cd b` from `j` leads to `i`. */
  ghost predicate Ascends(list: seq<Dir>, j: nat, n: nat, i: nat)
    decreases n
  {
    if n == 0 then j == i else j < |list| && Ascends(list, Back(list, j), n - 1, i)
  }

  lemma {:induction false} AscendOneMore(list: seq<Dir>, j: nat, n: nat, i: nat)
    requires Ascends(list, j, n, i) && i < |list|
    ensures Ascends(list, j, n + 1, Back(list, i))
    decreases n
  {
    if n > 0 { AscendOneMore(list, Back(list, j), n - 1, i); }
  }

  /** Any descent followed by as many `cd b` is the identity. */
  lemma {:induction false} AscentUndoesDescent(list: seq<Dir>, j: nat, path: seq<seq<byte>>)
    requires IsListing(list) && CanDescend(list, j, path)
    ensures Ascends(list, Descend(list, j, path), |path|, j)
    decreases |path|
  {
    if path != [] {
      var k := Enter(list, j, path[0]);
      AscentUndoesDescent(list, k, path[1..]);
      AscendOneMore(list, Descend(list, j, path), |path| - 1, k);
      BackUndoesEnter(list, j, path[0]);
    }
  }
}
