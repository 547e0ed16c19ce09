/**
  * Nodes of the AVL tree with their in-place fields, and what it means for those fields to spell out
  * a shape.  The fields of all nodes at one moment are a map (`Links`), so that statements about one
  * operation relate two maps.
  */
module AvlLinks {
  import opened AvlShape

  /** The two-element child array, indexed by slot. */
  datatype Kids<N> = Kids(zero: N, one: N) {
    function At(d: Slot): N { if d == 0 then zero else one }
    function With(d: Slot, n: N): Kids<N> { if d == 0 then Kids(n, one) else Kids(zero, n) }
  }

  class Node<T> {
    const data: T
    var child: Kids<Node?<T>>
    var parent: Node?<T>
    var slot: Slot
    var balance: int

    constructor (data: T)
      ensures this.data == data
    {
      this.data := data;
      child, parent, slot, balance := Kids(null, null), null, 0, 0;
    }
  }

  /** The link fields of one node. */
  datatype Fields<T> = Fields(child: Kids<Node?<T>>, parent: Node?<T>, slot: Slot, balance: int)

  /** The link fields of a set of nodes, taken at one moment. */
  type Links<T> = map<Node<T>, Fields<T>>

  ghost function Snapshot<T>(nodes: set<Node<T>>): Links<T>
    reads nodes
  {
    map n | n in nodes :: Fields(n.child, n.parent, n.slot, n.balance)
  }

  ghost function TopOf<T>(t: Shape<Node<T>>): Node?<T> {
    if t.Nil? then null else t.node
  }

  ghost function Owner<T>(c: Context<Node<T>>): Node?<T> {
    if c.Top? then null else c.node
  }

  /** The root of the whole tree when the hole of `c` holds a tree rooted at `f`. */
  ghost function RootOf<T>(c: Context<Node<T>>, f: Node?<T>): Node?<T> {
    match c
    case Top(_) => f
    case Up(_, n, _, outer) => RootOf(outer, n)
  }

  ghost function KidsOf<T>(d: Slot, f: Node?<T>, g: Node?<T>): Kids<Node?<T>> {
    if d == 0 then Kids(f, g) else Kids(g, f)
  }

  /** The fields in `m` spell out `t` below slot `s` of `p`, and every stored balance is exact. */
  ghost predicate Linked<T>(t: Shape<Node<T>>, m: Links<T>, p: Node?<T>, s: Slot) {
    match t
    case Nil => true
    case Bin(l, n, r) =>
      && n in m
      && m[n] == Fields(Kids(TopOf(l), TopOf(r)), p, s, Height(r) - Height(l))
      && Linked(l, m, n, 0)
      && Linked(r, m, n, 1)
  }

  /** As `Linked`, except that the balance stored at the root of `t` is `b`. */
  ghost predicate Loose<T>(t: Shape<Node<T>>, m: Links<T>, p: Node?<T>, s: Slot, b: int) {
    && t.Bin?
    && t.node in m
    && m[t.node] == Fields(Kids(TopOf(t.left), TopOf(t.right)), p, s, b)
    && Linked(t.left, m, t.node, 0)
    && Linked(t.right, m, t.node, 1)
  }

  /** The fields in `m` spell out `c` around `f`; the balances are those for a hole of height `h`. */
  ghost predicate LinkedContext<T>(c: Context<Node<T>>, m: Links<T>, f: Node?<T>, h: nat) {
    match c
    case Top(_) => true
    case Up(d, n, sib, outer) =>
      && n in m
      && m[n] == Fields(KidsOf(d, f, TopOf(sib)), Owner(outer), SlotOf(outer), Lean(d, h, Height(sib)))
      && Linked(sib, m, n, 1 - d)
      && LinkedContext(outer, m, n, 1 + Max(h, Height(sib)))
  }

  /** The two maps agree on `nodes`. */
  ghost predicate Agree<T>(m: Links<T>, m': Links<T>, nodes: set<Node<T>>) {
    forall n :: n in nodes && n in m ==> n in m' && m'[n] == m[n]
  }

  /** Nodes that are not touched keep their fields. */
  lemma {:induction false} AgreeApart<T>(m: Links<T>, m': Links<T>, touched: set<Node<T>>, nodes: set<Node<T>>)
    requires Agree(m, m', m.Keys - touched) && nodes !! touched
    ensures Agree(m, m', nodes)
  {
  }

  /** No node is both in `t` and around it, and none occurs twice. */
  ghost predicate Apart<T>(c: Context<Node<T>>, t: Shape<Node<T>>) {
    Distinct(t) && DistinctContext(c) && Nodes(t) !! ContextNodes(c)
  }

  lemma {:induction false} LinkedLevel<T>(d: Slot, t: Shape<Node<T>>, n: Node<T>, sib: Shape<Node<T>>,
                                          outer: Context<Node<T>>, m: Links<T>)
    ensures Linked(Join(d, t, n, sib), m, Owner(outer), SlotOf(outer))
            && LinkedContext(outer, m, n, Height(Join(d, t, n, sib)))
        <==> Linked(t, m, n, d) && LinkedContext(Up(d, n, sib, outer), m, TopOf(t), Height(t))
  {
    JoinFacts(d, t, n, sib);
    var u := Join(d, t, n, sib);
    assert Linked(u, m, Owner(outer), SlotOf(outer)) <==>
      && n in m
      && m[n] == Fields(KidsOf(d, TopOf(t), TopOf(sib)), Owner(outer), SlotOf(outer), Lean(d, Height(t), Height(sib)))
      && Linked(t, m, n, d) && Linked(sib, m, n, 1 - d);
  }

  /** A linked tree is a linked subtree in a linked context, at every position. */
  lemma {:induction false} LinkedPlug<T>(c: Context<Node<T>>, t: Shape<Node<T>>, m: Links<T>)
    ensures Linked(Plug(c, t), m, null, TopSlot(c))
        <==> Linked(t, m, Owner(c), SlotOf(c)) && LinkedContext(c, m, TopOf(t), Height(t))
    ensures TopOf(Plug(c, t)) == RootOf(c, TopOf(t))
  {
    match c
    case Top(_) =>
    case Up(d, n, sib, outer) =>
      LinkedPlug(outer, Join(d, t, n, sib), m);
      LinkedLevel(d, t, n, sib, outer, m);
  }

  lemma {:induction false} KeepLinked<T>(t: Shape<Node<T>>, m: Links<T>, m': Links<T>, p: Node?<T>, s: Slot)
    requires Linked(t, m, p, s) && Agree(m, m', Nodes(t))
    ensures Linked(t, m', p, s)
  {
    match t
    case Nil =>
    case Bin(l, n, r) =>
      KeepLinked(l, m, m', n, 0);
      KeepLinked(r, m, m', n, 1);
  }

  lemma {:induction false} KeepContext<T>(c: Context<Node<T>>, m: Links<T>, m': Links<T>, f: Node?<T>, h: nat)
    requires LinkedContext(c, m, f, h) && Agree(m, m', ContextNodes(c))
    ensures LinkedContext(c, m', f, h)
  {
    match c
    case Top(_) =>
    case Up(d, n, sib, outer) =>
      KeepLinked(sib, m, m', n, 1 - d);
      KeepContext(outer, m, m', n, 1 + Max(h, Height(sib)));
  }

  /** `m'` differs from `m` on `nodes` at most in that the root of `t` has parent `p` and slot `s`. */
  ghost predicate Moved<T>(t: Shape<Node<T>>, m: Links<T>, m': Links<T>, p: Node?<T>, s: Slot) {
    t.Bin? ==>
      && Agree(m, m', Nodes(t) - {t.node})
      && t.node in m && t.node in m' && m'[t.node] == m[t.node].(parent := p, slot := s)
  }

  /** A subtree whose root has only been given a new parent and slot is linked there. */
  lemma {:induction false} MoveLinked<T>(t: Shape<Node<T>>, m: Links<T>, m': Links<T>, p: Node?<T>, s: Slot,
                                         p': Node?<T>, s': Slot)
    requires Distinct(t) && Linked(t, m, p, s) && Moved(t, m, m', p', s')
    ensures Linked(t, m', p', s')
  {
    if t.Bin? {
      KeepLinked(t.left, m, m', t.node, 0);
      KeepLinked(t.right, m, m', t.node, 1);
    }
  }

  /** `m'` differs from `m` on the context at most in what the hole of `c` holds. */
  ghost predicate Refilled<T>(c: Context<Node<T>>, m: Links<T>, m': Links<T>, f: Node?<T>) {
    c.Up? ==>
      && Agree(m, m', ContextNodes(c) - {c.node})
      && c.node in m && c.node in m' && m'[c.node] == m[c.node].(child := m[c.node].child.With(c.d, f))
  }

  lemma {:induction false} RefillContext<T>(c: Context<Node<T>>, m: Links<T>, m': Links<T>, f: Node?<T>, f': Node?<T>,
                                            h: nat)
    requires DistinctContext(c) && LinkedContext(c, m, f, h) && Refilled(c, m, m', f')
    ensures LinkedContext(c, m', f', h)
  {
    if c.Up? {
      KeepLinked(c.sib, m, m', c.node, 1 - c.d);
      KeepContext(c.outer, m, m', c.node, 1 + Max(h, Height(c.sib)));
    }
  }

  lemma {:induction false} JoinLinked<T>(d: Slot, a: Shape<Node<T>>, n: Node<T>, b: Shape<Node<T>>, m: Links<T>,
                                         p: Node?<T>, s: Slot)
    requires n in m && m[n] == Fields(KidsOf(d, TopOf(a), TopOf(b)), p, s, Lean(d, Height(a), Height(b)))
    requires Linked(a, m, n, d) && Linked(b, m, n, 1 - d)
    ensures Linked(Join(d, a, n, b), m, p, s)
  {
  }

  /** Seen from one level up, a subtree that changed height below an unchanged node is `Loose`. */
  lemma {:induction false} ClimbLoose<T>(c: Context<Node<T>>, t: Shape<Node<T>>, m: Links<T>, h: nat)
    requires c.Up? && Apart(c, t) && Linked(t, m, Owner(c), SlotOf(c)) && LinkedContext(c, m, TopOf(t), h)
    ensures var u := Join(c.d, t, c.node, c.sib);
            && Apart(c.outer, u)
            && Loose(u, m, Owner(c.outer), SlotOf(c.outer), Lean(c.d, h, Height(c.sib)))
            && LinkedContext(c.outer, m, c.node, 1 + Max(h, Height(c.sib)))
  {
    JoinFacts(c.d, t, c.node, c.sib);
  }

  /** Storing the exact balance at the root of a `Loose` tree links it. */
  lemma {:induction false} Tighten<T>(c: Context<Node<T>>, t: Shape<Node<T>>, m: Links<T>, m': Links<T>, h: nat, b: int)
    requires Apart(c, t) && Loose(t, m, Owner(c), SlotOf(c), b) && LinkedContext(c, m, t.node, h)
    requires m' == m[t.node := m[t.node].(balance := Height(t.right) - Height(t.left))]
    ensures Linked(t, m', Owner(c), SlotOf(c)) && LinkedContext(c, m', t.node, h)
  {
    KeepLinked(t.left, m, m', t.node, 0);
    KeepLinked(t.right, m, m', t.node, 1);
    KeepContext(c, m, m', t.node, h);
  }

  /** `m'` is `m` after the link updates of a single rotation of `t` away from slot `d`. */
  ghost predicate SingleStep<T>(c: Context<Node<T>>, t: Shape<Node<T>>, d: Slot, m: Links<T>, m': Links<T>)
    requires t.Bin? && Kid(t, d).Bin? && t.node in m && Kid(t, d).node in m
  {
    var n, k, inner := t.node, Kid(t, d), Kid(Kid(t, d), 1 - d);
    var bal := m[k.node].balance + Lean(d, 0, 1);
    && n in m' && m'[n] == Fields(m[n].child.With(d, TopOf(inner)), k.node, 1 - d, -bal)
    && k.node in m' && m'[k.node] == Fields(m[k.node].child.With(1 - d, n), m[n].parent, m[n].slot, bal)
    && Moved(inner, m, m', n, d)
    && Agree(m, m', Nodes(Kid(k, d)))
    && Agree(m, m', Nodes(Kid(t, 1 - d)))
    && Refilled(c, m, m', k.node)
  }

  lemma {:induction false} SingleLinked<T>(c: Context<Node<T>>, t: Shape<Node<T>>, d: Slot, m: Links<T>, m': Links<T>,
                                           h: nat, b: int)
    requires Apart(c, t) && Loose(t, m, Owner(c), SlotOf(c), b) && LinkedContext(c, m, t.node, h)
    requires Tilted(t, d) && Kid(t, d).Bin?
    requires Height(Kid(Kid(t, d), 1 - d)) <= Height(Kid(Kid(t, d), d))
    requires SingleStep(c, t, d, m, m')
    ensures Linked(SingleRotated(t, d), m', Owner(c), SlotOf(c))
    ensures LinkedContext(c, m', Kid(t, d).node, h)
  {
    var n, k, inner := t.node, Kid(t, d), Kid(Kid(t, d), 1 - d);
    assert Distinct(k) && Linked(k, m, n, d);
    RefillContext(c, m, m', n, k.node, h);
    MoveLinked(inner, m, m', k.node, 1 - d, n, d);
    KeepLinked(Kid(k, d), m, m', k.node, d);
    KeepLinked(Kid(t, 1 - d), m, m', n, 1 - d);
    JoinLinked(d, inner, n, Kid(t, 1 - d), m', k.node, 1 - d);
    JoinLinked(d, Kid(k, d), k.node, Join(d, inner, n, Kid(t, 1 - d)), m', Owner(c), SlotOf(c));
  }

  /** `m'` is `m` after the link updates of a double rotation of `t` away from slot `d`. */
  ghost predicate DoubleStep<T>(c: Context<Node<T>>, t: Shape<Node<T>>, d: Slot, m: Links<T>, m': Links<T>)
    requires t.Bin? && Kid(t, d).Bin? && Kid(Kid(t, d), 1 - d).Bin?
    requires t.node in m && Kid(t, d).node in m && Kid(Kid(t, d), 1 - d).node in m
  {
    var n, k, g := t.node, Kid(t, d), Kid(Kid(t, d), 1 - d);
    var heavy := Lean(d, 1, 0);
    && n in m' && m'[n] == Fields(m[n].child.With(d, TopOf(Kid(g, 1 - d))), g.node, 1 - d,
                                  if m[g.node].balance == heavy then -heavy else 0)
    && k.node in m' && m'[k.node] == Fields(m[k.node].child.With(1 - d, TopOf(Kid(g, d))), g.node, d,
                                            if m[g.node].balance == -heavy then heavy else 0)
    && g.node in m' && m'[g.node] == Fields(KidsOf(d, k.node, n), m[n].parent, m[n].slot, 0)
    && Moved(Kid(g, d), m, m', k.node, 1 - d)
    && Moved(Kid(g, 1 - d), m, m', n, d)
    && Agree(m, m', Nodes(Kid(k, d)))
    && Agree(m, m', Nodes(Kid(t, 1 - d)))
    && Refilled(c, m, m', g.node)
  }

  /** The four subtrees below the pivots of a double rotation end up linked where it puts them. */
  lemma {:induction false} DoublePieces<T>(c: Context<Node<T>>, t: Shape<Node<T>>, d: Slot, m: Links<T>, m': Links<T>,
                                           b: int)
    requires Distinct(t) && Loose(t, m, Owner(c), SlotOf(c), b)
    requires Kid(t, d).Bin? && Kid(Kid(t, d), 1 - d).Bin?
    requires t.node in m && Kid(t, d).node in m && Kid(Kid(t, d), 1 - d).node in m
    requires DoubleStep(c, t, d, m, m')
    ensures var n, k, g := t.node, Kid(t, d), Kid(Kid(t, d), 1 - d);
            && m[k.node].child == KidsOf(d, TopOf(Kid(k, d)), g.node)
            && m[g.node].balance == Lean(d, Height(Kid(g, d)), Height(Kid(g, 1 - d)))
            && Linked(Kid(k, d), m', k.node, d) && Linked(Kid(g, d), m', k.node, 1 - d)
            && Linked(Kid(g, 1 - d), m', n, d) && Linked(Kid(t, 1 - d), m', n, 1 - d)
  {
    var n, k, g := t.node, Kid(t, d), Kid(Kid(t, d), 1 - d);
    assert Distinct(k) && Distinct(g);
    assert Linked(k, m, n, d) && Linked(g, m, k.node, 1 - d);
    MoveLinked(Kid(g, d), m, m', g.node, d, k.node, 1 - d);
    MoveLinked(Kid(g, 1 - d), m, m', g.node, 1 - d, n, d);
    KeepLinked(Kid(k, d), m, m', k.node, d);
    KeepLinked(Kid(t, 1 - d), m, m', n, 1 - d);
  }

  /** The balances avl_rotation stores in a double rotation are the exact ones. */
  lemma {:induction false} DoubleBalances<N>(t: Shape<N>, d: Slot)
    requires Tilted(t, d) && Kid(t, d).Bin? && Kid(Kid(t, d), 1 - d).Bin?
    requires Height(Kid(Kid(t, d), d)) < Height(Kid(Kid(t, d), 1 - d))
    ensures var k, g, heavy := Kid(t, d), Kid(Kid(t, d), 1 - d), Lean(d, 1, 0);
            var b := Lean(d, Height(Kid(g, d)), Height(Kid(g, 1 - d)));
            && Lean(d, Height(Kid(k, d)), Height(Kid(g, d))) == (if b == -heavy then heavy else 0)
            && Lean(d, Height(Kid(g, 1 - d)), Height(Kid(t, 1 - d))) == (if b == heavy then -heavy else 0)
            && Height(Join(d, Kid(k, d), k.node, Kid(g, d))) == Height(Join(d, Kid(g, 1 - d), t.node, Kid(t, 1 - d)))
  {
    assert Balanced(Kid(t, d)) && Balanced(Kid(Kid(t, d), 1 - d));
  }

  lemma {:induction false} DoubleLinked<T>(c: Context<Node<T>>, t: Shape<Node<T>>, d: Slot, m: Links<T>, m': Links<T>,
                                           h: nat, b: int)
    requires Apart(c, t) && Loose(t, m, Owner(c), SlotOf(c), b) && LinkedContext(c, m, t.node, h)
    requires Tilted(t, d) && Kid(t, d).Bin? && Kid(Kid(t, d), 1 - d).Bin?
    requires Height(Kid(Kid(t, d), d)) < Height(Kid(Kid(t, d), 1 - d))
    requires t.node in m && Kid(t, d).node in m && Kid(Kid(t, d), 1 - d).node in m
    requires DoubleStep(c, t, d, m, m')
    ensures Linked(DoubleRotated(t, d), m', Owner(c), SlotOf(c))
    ensures LinkedContext(c, m', Kid(Kid(t, d), 1 - d).node, h)
  {
    var n, k, g := t.node, Kid(t, d), Kid(Kid(t, d), 1 - d);
    DoublePieces(c, t, d, m, m', b);
    RefillContext(c, m, m', n, g.node, h);
    DoubleBalances(t, d);
    var l, r := Join(d, Kid(k, d), k.node, Kid(g, d)), Join(d, Kid(g, 1 - d), n, Kid(t, 1 - d));
    JoinLinked(d, Kid(k, d), k.node, Kid(g, d), m', g.node, d);
    JoinLinked(d, Kid(g, 1 - d), n, Kid(t, 1 - d), m', g.node, 1 - d);
    JoinLinked(d, l, g.node, r, m', Owner(c), SlotOf(c));
  }
}
