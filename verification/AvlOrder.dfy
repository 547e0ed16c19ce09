/**
  * Order and traversal facts behind searching, walking and destroying an AVL tree.
  */
module AvlOrder {
  import opened AvlShape
  import opened AvlLinks
  import opened AvlRepair

  /** The comparator is a total preorder returning -1, 0 or 1. */
  ghost predicate Comparator<T(!new)>(cmp: (T, T) -> int) {
    && (forall x, y :: -1 <= cmp(x, y) <= 1 && cmp(x, y) == -cmp(y, x))
    && (forall x, y, z :: cmp(x, y) <= 0 && cmp(y, z) <= 0 ==> cmp(x, z) <= 0)
  }

  ghost predicate StrictlySorted<T>(cmp: (T, T) -> int, s: seq<Node<T>>) {
    forall i, j :: 0 <= i < j < |s| ==> cmp(s[i].data, s[j].data) < 0
  }

  ghost predicate AllBelow<T>(cmp: (T, T) -> int, s: seq<Node<T>>, value: T) {
    forall i :: 0 <= i < |s| ==> cmp(s[i].data, value) < 0
  }

  ghost predicate AllAbove<T>(cmp: (T, T) -> int, value: T, s: seq<Node<T>>) {
    forall i :: 0 <= i < |s| ==> cmp(value, s[i].data) < 0
  }

  lemma {:induction false} BelowTransitive<T(!new)>(cmp: (T, T) -> int, x: T, y: T, z: T)
    requires Comparator(cmp) && cmp(x, y) < 0 && cmp(y, z) <= 0
    ensures cmp(x, z) < 0
  {
    assert cmp(z, x) <= 0 ==> cmp(y, x) <= 0;
  }

  /** In a sorted sequence with `n` in the middle, what is beyond `n` is beyond anything on the near side of `n`. */
  lemma {:induction false} SplitBelow<T(!new)>(cmp: (T, T) -> int, a: seq<Node<T>>, l: seq<Node<T>>, n: Node<T>,
                                               r: seq<Node<T>>, b: seq<Node<T>>, value: T)
    requires Comparator(cmp) && StrictlySorted(cmp, a + (l + [n] + r) + b) && cmp(n.data, value) < 0
    requires AllBelow(cmp, a, value)
    ensures AllBelow(cmp, a + l + [n], value)
  {
    var s := a + (l + [n] + r) + b;
    forall i | 0 <= i < |a + l + [n]| ensures cmp((a + l + [n])[i].data, value) < 0 {
      if |a| <= i < |a| + |l| {
        assert s[i] == l[i - |a|] && s[|a| + |l|] == n;
        BelowTransitive(cmp, s[i].data, n.data, value);
      }
    }
  }

  lemma {:induction false} SplitAbove<T(!new)>(cmp: (T, T) -> int, a: seq<Node<T>>, l: seq<Node<T>>, n: Node<T>,
                                               r: seq<Node<T>>, b: seq<Node<T>>, value: T)
    requires Comparator(cmp) && StrictlySorted(cmp, a + (l + [n] + r) + b) && cmp(value, n.data) < 0
    requires AllAbove(cmp, value, b)
    ensures AllAbove(cmp, value, [n] + r + b)
  {
    var s := a + (l + [n] + r) + b;
    forall i | 0 <= i < |[n] + r + b| ensures cmp(value, ([n] + r + b)[i].data) < 0 {
      if 0 < i <= |r| {
        assert s[|a| + |l| + i] == r[i - 1] && s[|a| + |l|] == n;
        BelowTransitive(cmp, value, n.data, r[i - 1].data);
      }
    }
  }

  /** A position on the search path of `value`: what is before it is smaller, what is after it greater. */
  ghost predicate Searching<T>(c: Context<Node<T>>, t: Shape<Node<T>>, m: Links<T>, root: Node?<T>, order: seq<Node<T>>,
                               cmp: (T, T) -> int, value: T) {
    && Repairing(c, t, m, Height(t), root, order)
    && AllBelow(cmp, Before(c), value) && AllAbove(cmp, value, After(c))
  }

  lemma {:induction false} SearchStep<T(!new)>(c: Context<Node<T>>, t: Shape<Node<T>>, m: Links<T>, root: Node?<T>,
                                               order: seq<Node<T>>, cmp: (T, T) -> int, value: T, d: Slot)
    returns (c': Context<Node<T>>, t': Shape<Node<T>>)
    requires t.Bin? && Comparator(cmp) && StrictlySorted(cmp, order) && Searching(c, t, m, root, order, cmp, value)
    requires if d == 0 then cmp(value, t.node.data) < 0 else cmp(value, t.node.data) > 0
    ensures t' == Kid(t, d) && c'.Up? && c'.node == t.node && c'.d == d
    ensures t.node in m && m[t.node].child.At(d) == TopOf(t')
    ensures Searching(c', t', m, root, order, cmp, value)
  {
    Descend(c, t, d, m, root, order);
    c', t' := Up(d, t.node, Kid(t, 1 - d), c), Kid(t, d);
    if d == 0 {
      SplitAbove(cmp, Before(c), Inorder(t.left), t.node, Inorder(t.right), After(c), value);
    } else {
      SplitBelow(cmp, Before(c), Inorder(t.left), t.node, Inorder(t.right), After(c), value);
    }
  }

  /** Cutting one node out keeps the order. */
  lemma {:induction false} CutSorted<T>(cmp: (T, T) -> int, s: seq<Node<T>>, k: nat)
    requires StrictlySorted(cmp, s) && k < |s|
    ensures StrictlySorted(cmp, s[..k] + s[k + 1..])
  {
    var r := s[..k] + s[k + 1..];
    assert forall i | 0 <= i < |r| :: r[i] == s[if i < k then i else i + 1];
  }

  /** Inserting a node where it fits keeps the sequence sorted. */
  lemma {:induction false} InsertSorted<T>(cmp: (T, T) -> int, s: seq<Node<T>>, k: nat, n: Node<T>)
    requires StrictlySorted(cmp, s) && k <= |s| && AllBelow(cmp, s[..k], n.data) && AllAbove(cmp, n.data, s[k..])
    ensures StrictlySorted(cmp, s[..k] + [n] + s[k..])
  {
    var u := s[..k] + [n] + s[k..];
    forall i, j | 0 <= i < j < |u| ensures cmp(u[i].data, u[j].data) < 0 {
      if j == k {
        assert s[..k][i] == u[i];
      } else if i == k {
        assert s[k..][j - k - 1] == u[j];
      }
    }
  }

  /** Nothing in a sorted sequence compares equal to a value that belongs between two of its elements. */
  lemma {:induction false} FitsNone<T(!new)>(cmp: (T, T) -> int, s: seq<Node<T>>, k: nat, value: T)
    requires Comparator(cmp) && k <= |s| && AllBelow(cmp, s[..k], value) && AllAbove(cmp, value, s[k..])
    ensures forall n | n in s :: cmp(value, n.data) != 0
  {
    forall i | 0 <= i < |s| ensures cmp(value, s[i].data) != 0 {
      if i < k {
        assert s[..k][i] == s[i];
      } else {
        assert s[k..][i - k] == s[i];
      }
    }
  }

  /** One level up in a tree that needs no repair. */
  lemma {:induction false} Ascend<T>(c: Context<Node<T>>, t: Shape<Node<T>>, m: Links<T>, root: Node?<T>,
                                     order: seq<Node<T>>)
    returns (t': Shape<Node<T>>)
    requires c.Up? && Repairing(c, t, m, Height(t), root, order)
    ensures t'.Bin? && t'.node == c.node && c.node in m && Repairing(c.outer, t', m, Height(t'), root, order)
  {
    t' := Join(c.d, t, c.node, c.sib);
    ClimbOrder(c, t);
  }

  /** The element next to index `k` on side `d`, if any. */
  ghost function Beside<T>(s: seq<Node<T>>, k: nat, d: Slot): Node?<T>
    requires k < |s|
  {
    if d == 0 then if k == 0 then null else s[k - 1] else if k + 1 == |s| then null else s[k + 1]
  }

  /** A position with exactly the elements beyond index `k` on side `d` of it. */
  ghost predicate Returning<T>(c: Context<Node<T>>, t: Shape<Node<T>>, m: Links<T>, root: Node?<T>, s: seq<Node<T>>,
                               k: nat, d: Slot) {
    && t.Bin? && t.node in m && k < |s|
    && Repairing(c, t, m, Height(t), root, s)
    && (if d == 0 then |Before(c)| == k else |After(c)| == |s| - 1 - k)
  }

  /** The outermost element of a sequence on side `d`, if any. */
  ghost function Outer<T>(s: seq<Node<T>>, d: Slot): Node?<T> {
    if s == [] then null else if d == 0 then s[0] else s[|s| - 1]
  }

  /** A position with nothing beyond it on side `d`. */
  ghost predicate Edging<T>(c: Context<Node<T>>, t: Shape<Node<T>>, m: Links<T>, root: Node?<T>, s: seq<Node<T>>,
                            d: Slot) {
    Repairing(c, t, m, Height(t), root, s) && (if d == 0 then Before(c) == [] else After(c) == [])
  }

  lemma {:induction false} EdgeStep<T>(c: Context<Node<T>>, t: Shape<Node<T>>, m: Links<T>, root: Node?<T>,
                                       s: seq<Node<T>>, d: Slot)
    returns (c': Context<Node<T>>, t': Shape<Node<T>>)
    requires t.Bin? && Edging(c, t, m, root, s, d)
    ensures t' == Kid(t, d) && c'.Up? && c'.node == t.node && c'.d == d
    ensures t.node in m && m[t.node].child.At(d) == TopOf(t')
    ensures Edging(c', t', m, root, s, d)
    ensures t'.Nil? ==> Outer(s, d) == t.node
  {
    Descend(c, t, d, m, root, s);
    c', t' := Up(d, t.node, Kid(t, 1 - d), c), Kid(t, d);
  }

  /** Up from such a position: either the element sought is the parent, or the parent is such a position. */
  lemma {:induction false} ReturnStep<T>(c: Context<Node<T>>, t: Shape<Node<T>>, m: Links<T>, root: Node?<T>,
                                         s: seq<Node<T>>, k: nat, d: Slot)
    returns (t': Shape<Node<T>>)
    requires Returning(c, t, m, root, s, k, d)
    ensures m[t.node].parent == Owner(c) && (c.Up? ==> m[t.node].slot == c.d)
    ensures c.Top? ==> Beside(s, k, d) == null
    ensures c.Up? && c.d != d ==> Beside(s, k, d) == c.node
    ensures c.Up? && c.d == d ==> t'.Bin? && t'.node == c.node && Returning(c.outer, t', m, root, s, k, d)
  {
    t' := t;
    if c.Up? {
      t' := Ascend(c, t, m, root, s);
    }
  }

  /**
    * What remains of a tree being destroyed: the nodes of `c`, whose links are intact except that
    * nothing is known about the hole.  Left siblings of the path are gone, right ones untouched.
    */
  ghost predicate Hanging<T>(c: Context<Node<T>>, m: Links<T>) {
    match c
    case Top(_) => true
    case Up(d, n, sib, outer) =>
      && n in m
      && m[n].parent == Owner(outer) && m[n].slot == SlotOf(outer) && m[n].child.At(1 - d) == TopOf(sib)
      && Linked(sib, m, n, 1 - d) && Balanced(sib) && (d == 1 ==> sib.Nil?)
      && Hanging(outer, m)
      && (outer.Up? ==> outer.node in m && m[outer.node].child.At(outer.d) == n)
  }

  /** An untouched subtree in the hole of what remains. */
  ghost predicate Standing<T>(c: Context<Node<T>>, t: Shape<Node<T>>, m: Links<T>, later: seq<Node<T>>) {
    && Hanging(c, m) && (c.Up? ==> c.node in m && m[c.node].child.At(c.d) == TopOf(t))
    && Linked(t, m, Owner(c), SlotOf(c)) && Balanced(t) && Apart(c, t)
    && Postorder(t) + Later(c) == later
  }

  lemma {:induction false} StandLeft<T>(c: Context<Node<T>>, t: Shape<Node<T>>, m: Links<T>, later: seq<Node<T>>)
    returns (c': Context<Node<T>>, t': Shape<Node<T>>)
    requires t.Bin? && Standing(c, t, m, later)
    ensures t' == t.left && t.node in m && m[t.node].child.zero == TopOf(t') && c' == Up(0, t.node, t.right, c)
    ensures t'.Bin? ==> Standing(c', t', m, later) && RootOf(c', t'.node) == RootOf(c, t.node)
    ensures ContextNodes(c') + Nodes(t') == ContextNodes(c) + Nodes(t)
  {
    c', t' := Up(0, t.node, t.right, c), t.left;
    assert Postorder(t.left) + Postorder(t.right) + [t.node] + Later(c)
        == Postorder(t.left) + (Postorder(t.right) + [t.node] + Later(c));
  }

  lemma {:induction false} StandRight<T>(c: Context<Node<T>>, t: Shape<Node<T>>, m: Links<T>, later: seq<Node<T>>)
    returns (c': Context<Node<T>>, t': Shape<Node<T>>)
    requires t.Bin? && t.left.Nil? && t.right.Bin? && Standing(c, t, m, later)
    ensures t' == t.right && t.node in m && m[t.node].child.one == TopOf(t') && c' == Up(1, t.node, Nil, c)
    ensures t'.left.Nil? && t'.right.Nil? && m[t.node].balance == 1
    ensures Standing(c', t', m, later) && RootOf(c', t'.node) == RootOf(c, t.node)
    ensures ContextNodes(c') + Nodes(t') == ContextNodes(c) + Nodes(t)
  {
    c', t' := Up(1, t.node, Nil, c), t.right;
    assert Height(t.right) <= 1;
    assert Postorder<Node<T>>(Nil) + Postorder(t.right) + [t.node] + Later(c)
      == Postorder(t.right) + ([t.node] + Later(c));
  }

  lemma {:induction false} KeepHanging<T>(c: Context<Node<T>>, m: Links<T>, m': Links<T>)
    requires Hanging(c, m) && Agree(m, m', ContextNodes(c))
    ensures Hanging(c, m')
  {
    match c
    case Top(_) =>
    case Up(d, n, sib, outer) =>
      KeepLinked(sib, m, m', n, 1 - d);
      KeepHanging(outer, m, m');
  }

  /** Once the hole is cleared and nothing is left on the right, the parent is next and everything above it remains. */
  lemma {:induction false} ClearedUp<T>(c: Context<Node<T>>, m: Links<T>, m': Links<T>)
    requires c.Up? && DistinctContext(c) && Hanging(c, m) && m'.Keys == ContextNodes(c.outer)
    requires Agree(m, m', ContextNodes(c.outer)) && c.sib.Nil?
    ensures Hanging(c.outer, m') && Later(c) == [c.node] + Later(c.outer)
  {
    KeepHanging(c.outer, m, m');
    assert Postorder<Node<T>>(Nil) + [c.node] + Later(c.outer) == [c.node] + Later(c.outer);
  }

  /** Once the left child is cleared, the right subtree stands in what remains. */
  lemma {:induction false} ClearedRight<T>(c: Context<Node<T>>, m: Links<T>, m': Links<T>)
    returns (c': Context<Node<T>>)
    requires c.Up? && c.d == 0 && DistinctContext(c) && Hanging(c, m)
    requires c.node in m && m'.Keys == m.Keys && m' == m[c.node := m[c.node].(child := m[c.node].child.With(0, null))]
    ensures c' == Up(1, c.node, Nil, c.outer) && Standing(c', c.sib, m', Later(c))
  {
    c' := Up(1, c.node, Nil, c.outer);
    KeepLinked(c.sib, m, m', c.node, 1);
    KeepHanging(c.outer, m, m');
    assert Postorder(c.sib) + [c.node] + Later(c.outer) == Postorder(c.sib) + ([c.node] + Later(c.outer));
  }
}
