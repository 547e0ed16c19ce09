/**
  * Finite binary trees and one-hole contexts over them.  A `Shape` is the abstract value of a
  * linked AVL tree (or of a subtree); a `Context` is the part of the tree around one position,
  * listed from that position upwards, which is how code that climbs parent links sees it.
  */
module AvlShape {

  /** 0 for a left child, 1 for a right child. */
  type Slot = x: int | 0 <= x <= 1

  datatype Shape<!N> =
    | Nil
    | Bin(left: Shape<N>, node: N, right: Shape<N>)

  /** `Up(d, n, sib, outer)`: the hole is child `d` of `n`, and `sib` is the other child. */
  datatype Context<!N> =
    | Top(slot: Slot)
    | Up(d: Slot, node: N, sib: Shape<N>, outer: Context<N>)

  function Max(a: int, b: int): int { if a < b then b else a }

  ghost function Height<N>(t: Shape<N>): nat {
    match t
    case Nil => 0
    case Bin(l, _, r) => 1 + Max(Height(l), Height(r))
  }

  ghost function Nodes<N>(t: Shape<N>): set<N> {
    match t
    case Nil => {}
    case Bin(l, n, r) => Nodes(l) + {n} + Nodes(r)
  }

  ghost function Inorder<N>(t: Shape<N>): seq<N> {
    match t
    case Nil => []
    case Bin(l, n, r) => Inorder(l) + [n] + Inorder(r)
  }

  ghost function Postorder<N>(t: Shape<N>): seq<N> {
    match t
    case Nil => []
    case Bin(l, n, r) => Postorder(l) + Postorder(r) + [n]
  }

  /** No node occurs twice. */
  ghost predicate Distinct<N>(t: Shape<N>) {
    match t
    case Nil => true
    case Bin(l, n, r) =>
      && Distinct(l) && Distinct(r)
      && n !in Nodes(l) && n !in Nodes(r) && Nodes(l) !! Nodes(r)
  }

  /** The AVL condition: at every node the two heights differ by at most one. */
  ghost predicate Balanced<N>(t: Shape<N>) {
    match t
    case Nil => true
    case Bin(l, _, r) => -1 <= Height(r) - Height(l) <= 1 && Balanced(l) && Balanced(r)
  }

  /** The node with child `a` in slot `d` and child `b` in the other slot. */
  function Join<N>(d: Slot, a: Shape<N>, n: N, b: Shape<N>): Shape<N> {
    if d == 0 then Bin(a, n, b) else Bin(b, n, a)
  }

  function Kid<N>(t: Shape<N>, d: Slot): Shape<N>
    requires t.Bin?
  {
    if d == 0 then t.left else t.right
  }

  /** The balance of a node whose child in slot `d` has height `h` and whose other child has height `k`. */
  function Lean(d: Slot, h: int, k: int): int {
    if d == 0 then k - h else h - k
  }

  ghost function Plug<N>(c: Context<N>, t: Shape<N>): Shape<N> {
    match c
    case Top(_) => t
    case Up(d, n, sib, outer) => Plug(outer, Join(d, t, n, sib))
  }

  ghost function ContextNodes<N>(c: Context<N>): set<N> {
    match c
    case Top(_) => {}
    case Up(_, n, sib, outer) => {n} + Nodes(sib) + ContextNodes(outer)
  }

  /** What precedes the hole in order. */
  ghost function Before<N>(c: Context<N>): seq<N> {
    match c
    case Top(_) => []
    case Up(d, n, sib, outer) => if d == 0 then Before(outer) else Before(outer) + Inorder(sib) + [n]
  }

  /** What follows the hole in order. */
  ghost function After<N>(c: Context<N>): seq<N> {
    match c
    case Top(_) => []
    case Up(d, n, sib, outer) => if d == 0 then [n] + Inorder(sib) + After(outer) else After(outer)
  }

  function SlotOf<N>(c: Context<N>): Slot {
    match c
    case Top(s) => s
    case Up(d, _, _, _) => d
  }

  function TopSlot<N>(c: Context<N>): Slot {
    match c
    case Top(s) => s
    case Up(_, _, _, outer) => TopSlot(outer)
  }

  ghost predicate DistinctContext<N>(c: Context<N>) {
    match c
    case Top(_) => true
    case Up(_, n, sib, outer) =>
      && Distinct(sib) && DistinctContext(outer)
      && n !in Nodes(sib) && n !in ContextNodes(outer) && Nodes(sib) !! ContextNodes(outer)
  }

  /** Every node of the context is balanced if the hole holds a tree of height `h`. */
  ghost predicate BalancedContext<N>(c: Context<N>, h: nat) {
    match c
    case Top(_) => true
    case Up(_, _, sib, outer) =>
      -1 <= Height(sib) - h <= 1 && Balanced(sib) && BalancedContext(outer, 1 + Max(h, Height(sib)))
  }

  lemma {:induction false} RegroupRight<N>(a: seq<N>, b: seq<N>, c: seq<N>, d: seq<N>, e: seq<N>)
    ensures a + (b + c + d) + e == a + b + (c + d + e)
  {
  }

  lemma {:induction false} RegroupLeft<N>(a: seq<N>, b: seq<N>, c: seq<N>, d: seq<N>, e: seq<N>)
    ensures a + (b + c + d) + e == (a + b + c) + d + e
  {
  }

  lemma {:induction false} RegroupMiddle<N>(a: seq<N>, b: seq<N>, c: seq<N>, d: seq<N>, e: seq<N>)
    ensures a + (b + c + d) + e == (a + b) + c + (d + e)
  {
  }

  lemma {:induction false} PlugParts<N>(c: Context<N>, t: Shape<N>)
    ensures Inorder(Plug(c, t)) == Before(c) + Inorder(t) + After(c)
    ensures Nodes(Plug(c, t)) == Nodes(t) + ContextNodes(c)
  {
    match c
    case Top(_) =>
    case Up(d, n, sib, outer) =>
      PlugParts(outer, Join(d, t, n, sib));
      if d == 0 {
        RegroupRight(Before(outer), Inorder(t), [n], Inorder(sib), After(outer));
      } else {
        RegroupLeft(Before(outer), Inorder(sib), [n], Inorder(t), After(outer));
      }
  }

  /** Distinctness of a plugged tree splits at the hole. */
  lemma {:induction false} PlugDistinct<N>(c: Context<N>, t: Shape<N>)
    ensures Distinct(Plug(c, t)) <==> Distinct(t) && DistinctContext(c) && Nodes(t) !! ContextNodes(c)
  {
    match c
    case Top(_) =>
    case Up(d, n, sib, outer) =>
      PlugDistinct(outer, Join(d, t, n, sib));
  }

  lemma {:induction false} JoinFacts<N>(d: Slot, a: Shape<N>, n: N, b: Shape<N>)
    ensures var t := Join(d, a, n, b);
            && Height(t) == 1 + Max(Height(a), Height(b))
            && (Balanced(t) <==> Balanced(a) && Balanced(b) && -1 <= Height(b) - Height(a) <= 1)
            && Height(t.right) - Height(t.left) == Lean(d, Height(a), Height(b))
  {
  }

  /** The AVL condition splits at the hole too. */
  lemma {:induction false} PlugBalanced<N>(c: Context<N>, t: Shape<N>)
    ensures Balanced(Plug(c, t)) <==> Balanced(t) && BalancedContext(c, Height(t))
  {
    match c
    case Top(_) =>
    case Up(d, n, sib, outer) =>
      JoinFacts(d, t, n, sib);
      PlugBalanced(outer, Join(d, t, n, sib));
  }

  lemma {:induction false} InorderNodes<N>(t: Shape<N>)
    ensures forall n :: n in Inorder(t) <==> n in Nodes(t)
    ensures Distinct(t) ==> |Inorder(t)| == |Nodes(t)|
  {
    match t
    case Nil =>
    case Bin(l, n, r) =>
      InorderNodes(l);
      InorderNodes(r);
      if Distinct(t) {
        assert |Nodes(l) + {n}| == |Nodes(l)| + 1;
        assert |Nodes(l) + {n} + Nodes(r)| == |Nodes(l) + {n}| + |Nodes(r)|;
      }
  }

  lemma {:induction false} InNodes<N>(t: Shape<N>, n: N)
    ensures n in Inorder(t) <==> n in Nodes(t)
  {
    InorderNodes(t);
  }

  ghost predicate NoRepeats<N>(s: seq<N>) {
    forall i, j :: 0 <= i < j < |s| ==> s[i] != s[j]
  }

  lemma {:induction false} JoinNoRepeats<N>(a: seq<N>, xs: set<N>, n: N, b: seq<N>, ys: set<N>)
    requires NoRepeats(a) && NoRepeats(b) && (forall x | x in a :: x in xs) && (forall x | x in b :: x in ys)
    requires n !in xs && n !in ys && xs !! ys
    ensures NoRepeats(a + [n] + b)
  {
    var s := a + [n] + b;
    forall i, j | 0 <= i < j < |s| ensures s[i] != s[j] {
      if i < |a| {
        assert s[i] == a[i] && a[i] in a;
      }
      if j > |a| {
        assert s[j] == b[j - |a| - 1] && s[j] in b;
      }
    }
  }

  lemma {:induction false} InorderDistinct<N>(t: Shape<N>)
    requires Distinct(t)
    ensures NoRepeats(Inorder(t))
  {
    match t
    case Nil =>
    case Bin(l, n, r) =>
      InorderDistinct(l);
      InorderDistinct(r);
      forall x | x in Inorder(l) ensures x in Nodes(l) { InNodes(l, x); }
      forall x | x in Inorder(r) ensures x in Nodes(r) { InNodes(r, x); }
      JoinNoRepeats(Inorder(l), Nodes(l), n, Inorder(r), Nodes(r));
  }

  /** The position of a node, as a context and the subtree it roots. */
  ghost function Locate<N>(t: Shape<N>, n: N, c: Context<N>): (r: (Context<N>, Shape<N>))
    requires n in Nodes(t)
    ensures r.1.Bin? && r.1.node == n
    ensures Plug(r.0, r.1) == Plug(c, t)
    ensures TopSlot(r.0) == TopSlot(c)
    decreases t
  {
    if n == t.node then (c, t)
    else if n in Nodes(t.left) then Locate(t.left, n, Up(0, t.node, t.right, c))
    else Locate(t.right, n, Up(1, t.node, t.left, c))
  }

  /** The first position of `x` in `s`. */
  ghost function IndexOf<N>(s: seq<N>, x: N): (k: nat)
    requires x in s
    ensures k < |s| && s[k] == x
    ensures x !in s[..k]
  {
    if s[0] == x then 0 else 1 + IndexOf(s[1..], x)
  }

  lemma {:induction false} IndexOfAt<N>(s: seq<N>, x: N, k: nat)
    requires k < |s| && s[k] == x && x !in s[..k]
    ensures x in s && IndexOf(s, x) == k
  {
    var j := IndexOf(s, x);
  }

  lemma {:induction false} RankIn<N>(a: seq<N>, b: seq<N>, x: N, d: seq<N>, e: seq<N>)
    requires x !in a && x !in b
    ensures x in a + (b + [x] + d) + e && IndexOf(a + (b + [x] + d) + e, x) == |a| + |b|
  {
    var s := a + (b + [x] + d) + e;
    assert s[..|a| + |b|] == a + b;
    IndexOfAt(s, x, |a| + |b|);
  }

  /** In a distinct tree, the rank of a node is what its context and its left subtree say. */
  lemma {:induction false} RankAt<N>(c: Context<N>, t: Shape<N>)
    requires t.Bin? && Distinct(Plug(c, t))
    ensures t.node in Inorder(Plug(c, t))
    ensures IndexOf(Inorder(Plug(c, t)), t.node) == |Before(c)| + |Inorder(t.left)|
  {
    PlugParts(c, t);
    PlugDistinct(c, t);
    InorderNodes(t.left);
    Around(c, t.node);
    RankIn(Before(c), Inorder(t.left), t.node, Inorder(t.right), After(c));
  }

  lemma {:induction false} Around<N>(c: Context<N>, n: N)
    ensures n in Before(c) || n in After(c) ==> n in ContextNodes(c)
  {
    PlugParts(c, Nil);
    InorderNodes(Plug(c, Nil));
    assert n in Before(c) || n in After(c) ==> n in Before(c) + Inorder<N>(Nil) + After(c);
  }

  /** A subtree's nodes are contiguous in post-order and end with its root. */
  ghost function Earlier<N>(c: Context<N>): seq<N> {
    match c
    case Top(_) => []
    case Up(d, _, sib, outer) => if d == 0 then Earlier(outer) else Earlier(outer) + Postorder(sib)
  }

  /** What post-order visits after the tree in the hole. */
  ghost function Later<N>(c: Context<N>): seq<N> {
    match c
    case Top(_) => []
    case Up(d, n, sib, outer) => if d == 0 then Postorder(sib) + [n] + Later(outer) else [n] + Later(outer)
  }

  lemma {:induction false} PlugPostorder<N>(c: Context<N>, t: Shape<N>)
    ensures Postorder(Plug(c, t)) == Earlier(c) + Postorder(t) + Later(c)
  {
    match c
    case Top(_) =>
    case Up(d, n, sib, outer) =>
      PlugPostorder(outer, Join(d, t, n, sib));
      if d == 0 {
        RegroupRight(Earlier(outer), Postorder(t), Postorder(sib), [n], Later(outer));
      } else {
        RegroupMiddle(Earlier(outer), Postorder(sib), Postorder(t), [n], Later(outer));
      }
  }

  lemma {:induction false} PostorderLength<N>(t: Shape<N>)
    ensures |Postorder(t)| == |Inorder(t)|
  {
    match t
    case Nil =>
    case Bin(l, n, r) =>
      PostorderLength(l);
      PostorderLength(r);
  }

  /** Post-order visits every node of the tree exactly once. */
  lemma {:induction false} PostorderOnce<N>(t: Shape<N>)
    requires Distinct(t)
    ensures multiset(Postorder(t)) == multiset(Nodes(t))
  {
    match t
    case Nil =>
    case Bin(l, n, r) =>
      PostorderOnce(l);
      PostorderOnce(r);
      UnionOnce(Postorder(l), Nodes(l), Postorder(r), Nodes(r), n);
  }

  lemma {:induction false} UnionOnce<N>(p: seq<N>, a: set<N>, q: seq<N>, b: set<N>, n: N)
    requires multiset(p) == multiset(a) && multiset(q) == multiset(b)
    requires a !! b && n !in a && n !in b
    ensures multiset(p + q + [n]) == multiset(a + {n} + b)
  {
    assert multiset(p + q + [n]) == multiset(p) + multiset(q) + multiset{n};
    forall x ensures multiset(p + q + [n])[x] == multiset(a + {n} + b)[x] {
      assert multiset(a + {n} + b)[x] == if x in a + {n} + b then 1 else 0;
    }
  }

  /** `t` after a single rotation away from slot `d`. */
  ghost function SingleRotated<N>(t: Shape<N>, d: Slot): Shape<N>
    requires t.Bin? && Kid(t, d).Bin?
  {
    var k := Kid(t, d);
    Join(d, Kid(k, d), k.node, Join(d, Kid(k, 1 - d), t.node, Kid(t, 1 - d)))
  }

  /** `t` after a double rotation away from slot `d`. */
  ghost function DoubleRotated<N>(t: Shape<N>, d: Slot): Shape<N>
    requires t.Bin? && Kid(t, d).Bin? && Kid(Kid(t, d), 1 - d).Bin?
  {
    var k := Kid(t, d);
    var g := Kid(k, 1 - d);
    Join(d, Join(d, Kid(k, d), k.node, Kid(g, d)), g.node, Join(d, Kid(g, 1 - d), t.node, Kid(t, 1 - d)))
  }

  /** The tree at `t` leans by two towards slot `d`, and both its children are AVL trees. */
  ghost predicate Tilted<N>(t: Shape<N>, d: Slot) {
    t.Bin? && Balanced(t.left) && Balanced(t.right) && Height(Kid(t, d)) == Height(Kid(t, 1 - d)) + 2
  }

  lemma {:induction false} RegroupInner<N>(a: seq<N>, b: seq<N>, c: seq<N>, d: seq<N>, e: seq<N>)
    ensures (a + b + c) + d + e == a + b + (c + d + e)
  {
  }

  /** The two ways of grouping `a`, `m`, `b`, `n`, `s` as a tree hold the same nodes in the same order. */
  lemma {:induction false} Regrouped<N>(a: Shape<N>, m: N, b: Shape<N>, n: N, s: Shape<N>)
    ensures var t, u := Bin(Bin(a, m, b), n, s), Bin(a, m, Bin(b, n, s));
            Inorder(u) == Inorder(t) && Nodes(u) == Nodes(t) && (Distinct(t) <==> Distinct(u))
  {
    var l, r := Bin(a, m, b), Bin(b, n, s);
    RegroupInner(Inorder(a), [m], Inorder(b), [n], Inorder(s));
    assert Inorder(l) == Inorder(a) + [m] + Inorder(b) && Inorder(r) == Inorder(b) + [n] + Inorder(s);
    assert Nodes(l) == Nodes(a) + {m} + Nodes(b) && Nodes(r) == Nodes(b) + {n} + Nodes(s);
    assert Distinct(l) <==> Distinct(a) && Distinct(b) && m !in Nodes(a) && m !in Nodes(b) && Nodes(a) !! Nodes(b);
    assert Distinct(r) <==> Distinct(b) && Distinct(s) && n !in Nodes(b) && n !in Nodes(s) && Nodes(b) !! Nodes(s);
  }

  lemma {:induction false} SingleOrder<N>(t: Shape<N>, d: Slot)
    requires t.Bin? && Kid(t, d).Bin?
    ensures var u := SingleRotated(t, d);
            Inorder(u) == Inorder(t) && Nodes(u) == Nodes(t) && (Distinct(t) <==> Distinct(u))
  {
    var k := Kid(t, d);
    if d == 0 {
      Regrouped(k.left, k.node, k.right, t.node, t.right);
    } else {
      Regrouped(t.left, t.node, k.left, k.node, k.right);
    }
  }

  lemma {:induction false} DoubleOrder<N>(t: Shape<N>, d: Slot)
    requires t.Bin? && Kid(t, d).Bin? && Kid(Kid(t, d), 1 - d).Bin?
    ensures var u := DoubleRotated(t, d);
            Inorder(u) == Inorder(t) && Nodes(u) == Nodes(t) && (Distinct(t) <==> Distinct(u))
  {
    var v := Join(d, SingleRotated(Kid(t, d), 1 - d), t.node, Kid(t, 1 - d));
    SingleOrder(Kid(t, d), 1 - d);
    SingleOrder(v, d);
    assert DoubleRotated(t, d) == SingleRotated(v, d);
  }

  /** A single rotation levels a tree whose taller child does not lean inwards; the height drops unless that child was
      level. */
  lemma {:induction false} SingleHeights<N>(t: Shape<N>, d: Slot)
    requires Tilted(t, d) && Kid(t, d).Bin?
    requires Height(Kid(Kid(t, d), 1 - d)) <= Height(Kid(Kid(t, d), d))
    ensures var u := SingleRotated(t, d);
            && Balanced(u)
            && Height(u) == (if Height(Kid(t, d).left) == Height(Kid(t, d).right) then Height(t) else Height(t) - 1)
  {
  }

  /** A double rotation levels a tree whose taller child leans inwards, and always drops the height. */
  lemma {:induction false} DoubleHeights<N>(t: Shape<N>, d: Slot)
    requires Tilted(t, d) && Kid(t, d).Bin? && Kid(Kid(t, d), 1 - d).Bin?
    requires Height(Kid(Kid(t, d), d)) < Height(Kid(Kid(t, d), 1 - d))
    ensures var u := DoubleRotated(t, d); Balanced(u) && Height(u) == Height(t) - 1
  {
    var k := Kid(t, d);
    var g := Kid(k, 1 - d);
    assert Balanced(k) && Balanced(g);
    var l, r := Join(d, Kid(k, d), k.node, Kid(g, d)), Join(d, Kid(g, 1 - d), t.node, Kid(t, 1 - d));
    assert Height(l) == Height(g) && Balanced(l);
    assert Height(r) == Height(g) && Balanced(r);
  }
}
