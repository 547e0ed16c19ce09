/**
  * Reasoning about repairing an AVL tree from one position upwards: what rotations do to the shape,
  * and the predicate that holds between two steps of the climb.
  */
module AvlRepair {
  import opened AvlShape
  import opened AvlLinks

  /** The shape `avl_rotation` produces from one that leans by two towards slot `d`. */
  ghost function Rotated<N>(t: Shape<N>, d: Slot): Shape<N>
    requires Tilted(t, d)
  {
    if Height(Kid(Kid(t, d), 1 - d)) <= Height(Kid(Kid(t, d), d)) then SingleRotated(t, d) else DoubleRotated(t, d)
  }

  /** Rotation keeps the order, restores the AVL condition and lowers the height by at most one. */
  lemma {:induction false} RotatedFacts<N>(t: Shape<N>, d: Slot)
    requires Tilted(t, d)
    ensures var u := Rotated(t, d);
            && u.Bin? && Inorder(u) == Inorder(t) && Nodes(u) == Nodes(t) && (Distinct(t) <==> Distinct(u))
            && Balanced(u)
            && Height(u) == (if Height(Kid(t, d).left) == Height(Kid(t, d).right) then Height(t) else Height(t) - 1)
  {
    if Height(Kid(Kid(t, d), 1 - d)) <= Height(Kid(Kid(t, d), d)) {
      SingleOrder(t, d);
      SingleHeights(t, d);
    } else {
      DoubleOrder(t, d);
      DoubleHeights(t, d);
    }
  }

  /** What the nodes around the position `c`, `t` look like while the tree is being repaired there. */
  ghost predicate At<T>(c: Context<Node<T>>, t: Shape<Node<T>>, m: Links<T>, h: nat, root: Node?<T>) {
    && Apart(c, t)
    && LinkedContext(c, m, TopOf(t), h)
    && root == RootOf(c, TopOf(t))
  }

  ghost function TopSet<N>(t: Shape<N>): set<N> {
    if t.Nil? then {} else {t.node}
  }

  ghost function OwnerSet<N>(c: Context<N>): set<N> {
    if c.Top? then {} else {c.node}
  }

  ghost function AsSet<T>(n: Node?<T>): set<Node<T>> {
    if n == null then {} else {n}
  }

  /** Which rotation is needed shows in the stored balance of the taller child; either way the result is linked. */
  lemma {:induction false} SingleDone<T>(c: Context<Node<T>>, t: Shape<Node<T>>, d: Slot, m: Links<T>, m': Links<T>,
                                         h: nat, b: int, root: Node?<T>)
    requires Loose(t, m, Owner(c), SlotOf(c), b) && At(c, t, m, h, root) && Tilted(t, d) && Kid(t, d).Bin?
    requires Kid(t, d).node in m && m[Kid(t, d).node].balance != Lean(d, 0, 1) && SingleStep(c, t, d, m, m')
    ensures Rotated(t, d) == SingleRotated(t, d) && Linked(Rotated(t, d), m', Owner(c), SlotOf(c))
    ensures At(c, Rotated(t, d), m', h, if c.Top? then Kid(t, d).node else root)
    ensures m'[Kid(t, d).node].balance == 0 <==> Height(Rotated(t, d)) == Height(t) - 1
  {
    assert Linked(Kid(t, d), m, t.node, d) && Balanced(Kid(t, d));
    RotatedFacts(t, d);
    SingleLinked(c, t, d, m, m', h, b);
  }

  lemma {:induction false} DoubleDone<T>(c: Context<Node<T>>, t: Shape<Node<T>>, d: Slot, m: Links<T>, m': Links<T>,
                                         h: nat, b: int, root: Node?<T>)
    requires Loose(t, m, Owner(c), SlotOf(c), b) && At(c, t, m, h, root) && Tilted(t, d)
    requires DoubleReady(c, t, d, m) && m[Kid(t, d).node].balance == Lean(d, 0, 1) && DoubleStep(c, t, d, m, m')
    ensures Rotated(t, d) == DoubleRotated(t, d) && Linked(Rotated(t, d), m', Owner(c), SlotOf(c))
    ensures At(c, Rotated(t, d), m', h, if c.Top? then Kid(Kid(t, d), 1 - d).node else root)
    ensures Height(Rotated(t, d)) == Height(t) - 1
  {
    assert Linked(Kid(t, d), m, t.node, d);
    RotatedFacts(t, d);
    DoubleLinked(c, t, d, m, m', h, b);
  }

  /** The fields in `m` show the pivots of a single rotation of `t`; it writes to these four nodes, all different. */
  ghost predicate SingleReady<T>(c: Context<Node<T>>, t: Shape<Node<T>>, d: Slot, m: Links<T>) {
    && t.Bin? && Kid(t, d).Bin?
    && var n, k, inner := t.node, Kid(t, d), Kid(Kid(t, d), 1 - d);
    var touched := {n, k.node} + TopSet(inner) + OwnerSet(c);
    && n in m && k.node in m && m[n].child.At(d) == k.node && m[k.node].child.At(1 - d) == TopOf(inner)
    && m[n].parent == Owner(c) && m[n].slot == SlotOf(c)
    && n != k.node && TopSet(inner) !! {n, k.node} && OwnerSet(c) !! {n, k.node} && TopSet(inner) !! OwnerSet(c)
    && Nodes(Kid(k, d)) !! touched && Nodes(Kid(t, 1 - d)) !! touched
    && Nodes(inner) - TopSet(inner) !! touched && ContextNodes(c) - OwnerSet(c) !! touched
    && touched <= m.Keys
  }

  lemma {:induction false} SingleIsReady<T>(c: Context<Node<T>>, t: Shape<Node<T>>, d: Slot, m: Links<T>, b: int)
    requires Apart(c, t) && Loose(t, m, Owner(c), SlotOf(c), b) && m.Keys == Nodes(t) + ContextNodes(c)
    requires Kid(t, d).Bin?
    ensures SingleReady(c, t, d, m)
  {
    var n, k, inner := t.node, Kid(t, d), Kid(Kid(t, d), 1 - d);
    assert Distinct(k) && Linked(k, m, n, d);
    assert Nodes(t) == Nodes(k) + {n} + Nodes(Kid(t, 1 - d));
    assert Nodes(k) == Nodes(inner) + {k.node} + Nodes(Kid(k, d));
    assert TopSet(inner) <= Nodes(inner) && OwnerSet(c) <= ContextNodes(c);
  }

  /** The fields in `m` show the pivots of a double rotation of `t`; it writes to these six nodes, all different. */
  ghost predicate DoubleReady<T>(c: Context<Node<T>>, t: Shape<Node<T>>, d: Slot, m: Links<T>) {
    && t.Bin? && Kid(t, d).Bin? && Kid(Kid(t, d), 1 - d).Bin?
    && var n, k, g := t.node, Kid(t, d), Kid(Kid(t, d), 1 - d);
    var pivots := {n, k.node, g.node};
    var touched := pivots + TopSet(Kid(g, d)) + TopSet(Kid(g, 1 - d)) + OwnerSet(c);
    && n in m && k.node in m && g.node in m
    && m[n].child.At(d) == k.node && m[k.node].child.At(1 - d) == g.node
    && m[g.node].child == KidsOf(d, TopOf(Kid(g, d)), TopOf(Kid(g, 1 - d)))
    && m[n].parent == Owner(c) && m[n].slot == SlotOf(c)
    && n != k.node && n != g.node && k.node != g.node
    && TopSet(Kid(g, d)) !! pivots && TopSet(Kid(g, 1 - d)) !! pivots && OwnerSet(c) !! pivots
    && TopSet(Kid(g, d)) !! TopSet(Kid(g, 1 - d)) !! OwnerSet(c)
    && Nodes(Kid(k, d)) !! touched && Nodes(Kid(t, 1 - d)) !! touched
    && Nodes(Kid(g, d)) - TopSet(Kid(g, d)) !! touched && Nodes(Kid(g, 1 - d)) - TopSet(Kid(g, 1 - d)) !! touched
    && ContextNodes(c) - OwnerSet(c) !! touched
    && touched <= m.Keys
  }

  /** The fields a double rotation writes. */
  ghost predicate DoubleFields<T>(c: Context<Node<T>>, t: Shape<Node<T>>, d: Slot, m: Links<T>, m': Links<T>)
    requires DoubleReady(c, t, d, m)
  {
    var n, k, g := t.node, Kid(t, d), Kid(Kid(t, d), 1 - d);
    var x, y, p, heavy := TopOf(Kid(g, d)), TopOf(Kid(g, 1 - d)), Owner(c), Lean(d, 1, 0);
    && m'.Keys == m.Keys
    && m'[n] == Fields(m[n].child.With(d, y), g.node, 1 - d, if m[g.node].balance == heavy then -heavy else 0)
    && m'[k.node] == Fields(m[k.node].child.With(1 - d, x), g.node, d, if m[g.node].balance == -heavy then heavy else 0)
    && m'[g.node] == Fields(KidsOf(d, k.node, n), m[n].parent, m[n].slot, 0)
    && (x != null ==> m'[x] == m[x].(parent := k.node, slot := 1 - d))
    && (y != null ==> m'[y] == m[y].(parent := n, slot := d))
    && (p != null ==> m'[p] == m[p].(child := m[p].child.With(c.d, g.node)))
  }

  lemma {:induction false} DoubleIsStep<T>(c: Context<Node<T>>, t: Shape<Node<T>>, d: Slot, m: Links<T>, m': Links<T>,
                                           touched: set<Node<T>>)
    requires DoubleReady(c, t, d, m) && DoubleFields(c, t, d, m, m') && Agree(m, m', m.Keys - touched)
    requires var g := Kid(Kid(t, d), 1 - d);
             touched == {t.node, Kid(t, d).node, g.node} + TopSet(g.left) + TopSet(g.right) + OwnerSet(c)
    ensures DoubleStep(c, t, d, m, m')
  {
    hide Agree, Nodes, ContextNodes;
    var g := Kid(Kid(t, d), 1 - d);
    AgreeApart(m, m', touched, Nodes(Kid(g, d)) - TopSet(Kid(g, d)));
    AgreeApart(m, m', touched, Nodes(Kid(g, 1 - d)) - TopSet(Kid(g, 1 - d)));
    AgreeApart(m, m', touched, Nodes(Kid(Kid(t, d), d)));
    AgreeApart(m, m', touched, Nodes(Kid(t, 1 - d)));
    AgreeApart(m, m', touched, ContextNodes(c) - OwnerSet(c));
  }

  lemma {:induction false} DoubleIsReady<T>(c: Context<Node<T>>, t: Shape<Node<T>>, d: Slot, m: Links<T>, b: int)
    requires Apart(c, t) && Loose(t, m, Owner(c), SlotOf(c), b) && m.Keys == Nodes(t) + ContextNodes(c)
    requires Kid(t, d).Bin? && Kid(Kid(t, d), 1 - d).Bin?
    ensures DoubleReady(c, t, d, m)
  {
    var n, k, g := t.node, Kid(t, d), Kid(Kid(t, d), 1 - d);
    assert Distinct(k) && Linked(k, m, n, d);
    assert Distinct(g) && Linked(g, m, k.node, 1 - d);
    assert Nodes(t) == Nodes(k) + {n} + Nodes(Kid(t, 1 - d));
    assert Nodes(k) == Nodes(g) + {k.node} + Nodes(Kid(k, d));
    assert Nodes(g) == Nodes(g.left) + {g.node} + Nodes(g.right);
    assert TopSet(g.left) <= Nodes(g.left) && TopSet(g.right) <= Nodes(g.right) && OwnerSet(c) <= ContextNodes(c);
  }

  /**
    * The tree while it is being repaired at one position: everything is linked and level except that
    * the context still takes the subtree in its hole to have height `h`.
    */
  ghost predicate Repairing<T>(c: Context<Node<T>>, t: Shape<Node<T>>, m: Links<T>, h: nat, root: Node?<T>,
                               order: seq<Node<T>>) {
    && Linked(t, m, Owner(c), SlotOf(c)) && At(c, t, m, h, root)
    && Balanced(t) && BalancedContext(c, h)
    && m.Keys == Nodes(t) + ContextNodes(c)
    && Before(c) + Inorder(t) + After(c) == order
  }

  /** A leaf, or a tree whose two sides differ in height. */
  ghost predicate Uneven<N>(t: Shape<N>) {
    t.Bin? && (Height(t) > 1 ==> Height(t.left) != Height(t.right))
  }

  lemma {:induction false} ClimbOrder<N>(c: Context<N>, t: Shape<N>)
    requires c.Up?
    ensures var u := Join(c.d, t, c.node, c.sib);
            && Before(c.outer) + Inorder(u) + After(c.outer) == Before(c) + Inorder(t) + After(c)
            && Nodes(u) + ContextNodes(c.outer) == Nodes(t) + ContextNodes(c)
  {
    if c.d == 0 {
      RegroupRight(Before(c.outer), Inorder(t), [c.node], Inorder(c.sib), After(c.outer));
    } else {
      RegroupLeft(Before(c.outer), Inorder(c.sib), [c.node], Inorder(t), After(c.outer));
    }
  }

  /** At the top of the tree no context has an opinion about the height. */
  lemma {:induction false} Grown<T>(c: Context<Node<T>>, t: Shape<Node<T>>, m: Links<T>, h: nat, root: Node?<T>,
                                    order: seq<Node<T>>)
    requires c.Top? && Repairing(c, t, m, h, root, order)
    ensures Repairing(c, t, m, Height(t), root, order)
  {
  }

  /** What the node above the position being repaired holds. */
  lemma {:induction false} AboveFields<T>(c: Context<Node<T>>, t: Shape<Node<T>>, m: Links<T>, h: nat, root: Node?<T>,
                                          order: seq<Node<T>>)
    requires c.Up? && Repairing(c, t, m, h, root, order)
    ensures c.node in m && m[c.node].balance == Lean(c.d, h, Height(c.sib)) && -1 <= h - Height(c.sib) <= 1
    ensures m[c.node].parent == Owner(c.outer) && m[c.node].slot == SlotOf(c.outer)
  {
  }

  lemma {:induction false} ClimbShape<T>(c: Context<Node<T>>, t: Shape<Node<T>>, m: Links<T>, h: nat, root: Node?<T>,
                                         order: seq<Node<T>>, u: Shape<Node<T>>)
    requires c.Up? && Repairing(c, t, m, h, root, order) && u == Join(c.d, t, c.node, c.sib)
    requires -1 <= Height(c.sib) - Height(t) <= 1
    ensures u.Bin? && u.node == c.node && c.node in m && m.Keys == Nodes(u) + ContextNodes(c.outer)
    ensures Apart(c.outer, u) && Loose(u, m, Owner(c.outer), SlotOf(c.outer), Lean(c.d, h, Height(c.sib)))
    ensures LinkedContext(c.outer, m, u.node, 1 + Max(h, Height(c.sib))) && root == RootOf(c.outer, u.node)
    ensures Balanced(u) && BalancedContext(c.outer, 1 + Max(h, Height(c.sib)))
    ensures Before(c.outer) + Inorder(u) + After(c.outer) == order
    ensures Height(u.right) - Height(u.left) == Lean(c.d, Height(t), Height(c.sib))
  {
    ClimbLoose(c, t, m, h);
    ClimbOrder(c, t);
    JoinFacts(c.d, t, c.node, c.sib);
  }

  /** One level up, when the new balance there is legal and has been stored. */
  lemma {:induction false} ClimbLevel<T>(c: Context<Node<T>>, t: Shape<Node<T>>, m: Links<T>, m': Links<T>, h: nat,
                                         root: Node?<T>, order: seq<Node<T>>)
    returns (u: Shape<Node<T>>)
    requires c.Up? && Repairing(c, t, m, h, root, order)
    requires -1 <= Height(c.sib) - Height(t) <= 1
    requires c.node in m && m' == m[c.node := m[c.node].(balance := Lean(c.d, Height(t), Height(c.sib)))]
    ensures u == Join(c.d, t, c.node, c.sib)
    ensures Repairing(c.outer, u, m', 1 + Max(h, Height(c.sib)), root, order)
  {
    hide Linked, LinkedContext, Loose, Balanced, BalancedContext, Apart, Nodes, ContextNodes, Inorder, Height;
    u := Join(c.d, t, c.node, c.sib);
    ClimbShape(c, t, m, h, root, order, u);
    Tighten(c.outer, u, m, m', 1 + Max(h, Height(c.sib)), Lean(c.d, h, Height(c.sib)));
  }

  /** The subtree one level up, when a rotation is needed there. */
  lemma {:induction false} RotateStart<T>(c: Context<Node<T>>, t: Shape<Node<T>>, m: Links<T>, h: nat, root: Node?<T>,
                                          order: seq<Node<T>>, balance: int, d: Slot)
    returns (v: Shape<Node<T>>)
    requires c.Up? && Repairing(c, t, m, h, root, order) && balance == Lean(c.d, Height(t), Height(c.sib))
    requires if d == 0 then balance == -2 else balance == 2
    ensures v == Join(c.d, t, c.node, c.sib) && v.Bin? && v.node == c.node && c.node in m && Tilted(v, d)
    ensures Loose(v, m, Owner(c.outer), SlotOf(c.outer), m[c.node].balance)
    ensures At(c.outer, v, m, 1 + Max(h, Height(c.sib)), root) && m.Keys == Nodes(v) + ContextNodes(c.outer)
    ensures balance == Height(v.right) - Height(v.left)
  {
    v := Join(c.d, t, c.node, c.sib);
    ClimbLoose(c, t, m, h);
    ClimbOrder(c, t);
    JoinFacts(c.d, t, c.node, c.sib);
    assert Balanced(c.sib);
  }

  /** The position one level up, after a rotation there. */
  lemma {:induction false} RotateEnd<T>(c: Context<Node<T>>, t: Shape<Node<T>>, v: Shape<Node<T>>, m: Links<T>,
                                        m': Links<T>, d: Slot, h: nat,
                                        root: Node?<T>, root': Node?<T>, order: seq<Node<T>>)
    returns (u: Shape<Node<T>>)
    requires c.Up? && Repairing(c, t, m, h, root, order) && v == Join(c.d, t, c.node, c.sib)
    requires Tilted(v, d) && m'.Keys == m.Keys
    requires Linked(Rotated(v, d), m', Owner(c.outer), SlotOf(c.outer))
    requires At(c.outer, Rotated(v, d), m', 1 + Max(h, Height(c.sib)), root')
    ensures u == Rotated(v, d) && Repairing(c.outer, u, m', 1 + Max(h, Height(c.sib)), root', order)
    ensures Height(v) == 1 + Max(Height(t), Height(c.sib)) && (Height(u) == Height(v) || Height(u) == Height(v) - 1)
    ensures Height(t) == Height(c.sib) + 2 && Uneven(t) ==> Height(u) == Height(v) - 1
  {
    u := Rotated(v, d);
    RotatedHeights(c.d, t, c.node, c.sib, d);
    RotatedFacts(v, d);
    ClimbOrder(c, t);
  }

  lemma {:induction false} RotatedHeights<N>(e: Slot, t: Shape<N>, n: N, sib: Shape<N>, d: Slot)
    requires Tilted(Join(e, t, n, sib), d)
    ensures var v := Join(e, t, n, sib); var u := Rotated(v, d);
            && Height(v) == 1 + Max(Height(t), Height(sib)) && (Height(u) == Height(v) || Height(u) == Height(v) - 1)
            && (Height(t) == Height(sib) + 2 && Uneven(t) ==> Height(u) == Height(v) - 1)
  {
    JoinFacts(e, t, n, sib);
    RotatedFacts(Join(e, t, n, sib), d);
  }

  /** Once the height the context believes in is the true one, the whole tree is in order. */
  lemma {:induction false} Repaired<T>(c: Context<Node<T>>, t: Shape<Node<T>>, m: Links<T>, root: Node?<T>,
                                       order: seq<Node<T>>)
    requires Repairing(c, t, m, Height(t), root, order)
    ensures var w := Plug(c, t);
            && Linked(w, m, null, TopSlot(c)) && TopOf(w) == root && Distinct(w) && Balanced(w)
            && Inorder(w) == order && Nodes(w) == m.Keys
  {
    LinkedPlug(c, t, m);
    PlugDistinct(c, t);
    PlugBalanced(c, t);
    PlugParts(c, t);
  }

  /** Any node of a well-formed tree is a position in it. */
  lemma {:induction false} Opened<T>(w: Shape<Node<T>>, m: Links<T>, s: Slot, n: Node<T>)
    returns (c: Context<Node<T>>, t: Shape<Node<T>>)
    requires Linked(w, m, null, s) && Distinct(w) && Balanced(w) && Nodes(w) == m.Keys && n in Nodes(w)
    ensures t.Bin? && t.node == n && Plug(c, t) == w && TopSlot(c) == s
    ensures Repairing(c, t, m, Height(t), TopOf(w), Inorder(w))
    ensures n in Inorder(w) && IndexOf(Inorder(w), n) == |Before(c)| + |Inorder(t.left)|
  {
    var r := Locate(w, n, Top(s));
    c, t := r.0, r.1;
    LinkedPlug(c, t, m);
    PlugDistinct(c, t);
    PlugBalanced(c, t);
    PlugParts(c, t);
    RankAt(c, t);
  }

  /** In a tree that needs no repair, a child of a position is a position. */
  lemma {:induction false} Descend<T>(c: Context<Node<T>>, t: Shape<Node<T>>, d: Slot, m: Links<T>, root: Node?<T>,
                                      order: seq<Node<T>>)
    requires t.Bin? && Repairing(c, t, m, Height(t), root, order)
    ensures Repairing(Up(d, t.node, Kid(t, 1 - d), c), Kid(t, d), m, Height(Kid(t, d)), root, order)
  {
    var c' := Up(d, t.node, Kid(t, 1 - d), c);
    assert t == Join(d, Kid(t, d), t.node, Kid(t, 1 - d));
    ClimbOrder(c', Kid(t, d));
    LinkedPlug(c', Kid(t, d), m);
    LinkedPlug(c, t, m);
    PlugDistinct(c', Kid(t, d));
    PlugDistinct(c, t);
    PlugBalanced(c', Kid(t, d));
    PlugBalanced(c, t);
  }

  /** A free slot of a node of a well-formed tree is a hole in it. */
  lemma {:induction false} OpenedHole<T>(w: Shape<Node<T>>, m: Links<T>, s: Slot, n: Node<T>, d: Slot)
    returns (c: Context<Node<T>>)
    requires Linked(w, m, null, s) && Distinct(w) && Balanced(w) && Nodes(w) == m.Keys && n in Nodes(w)
    requires n in m && m[n].child.At(d) == null
    ensures c.Up? && c.node == n && c.d == d && TopSlot(c) == s
    ensures Repairing(c, Nil, m, 0, TopOf(w), Inorder(w))
    ensures n in Inorder(w) && |Before(c)| == IndexOf(Inorder(w), n) + d
  {
    var c0, t := Opened(w, m, s, n);
    assert Kid(t, d).Nil?;
    c := Up(d, n, Kid(t, 1 - d), c0);
    assert t == Join(d, Nil, n, Kid(t, 1 - d));
    LinkedPlug(c, Nil, m);
    PlugDistinct(c, Nil);
    PlugBalanced(c, Nil);
    PlugParts(c, Nil);
  }

  /** A new leaf in a hole: the context does not know of its height yet. */
  lemma {:induction false} LeafHung<T>(c: Context<Node<T>>, n: Node<T>, m: Links<T>, m': Links<T>, root: Node?<T>,
                                       order: seq<Node<T>>)
    requires Repairing(c, Nil, m, 0, root, order) && n !in m
    requires m'.Keys == m.Keys + {n} && m'[n] == Fields(Kids(null, null), Owner(c), SlotOf(c), 0)
    requires Refilled(c, m, m', n)
    ensures Repairing(c, Bin(Nil, n, Nil), m', 0, RootOf(c, n), Before(c) + [n] + After(c))
  {
    RefillContext(c, m, m', null, n, 0);
    assert Inorder(Bin(Nil, n, Nil)) == [n];
  }

  /** The children and parents stored in a linked tree point at each other. */
  ghost predicate Reciprocal<T>(m: Links<T>, root: Node?<T>) {
    forall n | n in m ::
      && (m[n].parent == null ==> n == root)
      && (m[n].parent != null ==> n != root && m[n].parent in m && m[m[n].parent].child.At(m[n].slot) == n)
      && PointsBack(m, n, 0) && PointsBack(m, n, 1)
  }

  ghost predicate PointsBack<T>(m: Links<T>, n: Node<T>, d: Slot)
    requires n in m
  {
    var k := m[n].child.At(d);
    k != null ==> k in m && m[k].parent == n && m[k].slot == d
  }

  lemma {:induction false} LinkedReciprocal<T>(w: Shape<Node<T>>, m: Links<T>, s: Slot)
    requires Linked(w, m, null, s) && Distinct(w) && Balanced(w) && Nodes(w) == m.Keys
    ensures Reciprocal(m, TopOf(w))
  {
    forall n | n in m
      ensures m[n].parent == null ==> n == TopOf(w)
      ensures m[n].parent != null ==> n != TopOf(w) && m[n].parent in m && m[m[n].parent].child.At(m[n].slot) == n
      ensures PointsBack(m, n, 0) && PointsBack(m, n, 1)
    {
      var c, t := Opened(w, m, s, n);
      NodeReciprocal(c, t, m);
    }
  }

  lemma {:induction false} NodeReciprocal<T>(c: Context<Node<T>>, t: Shape<Node<T>>, m: Links<T>)
    requires t.Bin? && Apart(c, t) && Linked(t, m, Owner(c), SlotOf(c)) && LinkedContext(c, m, t.node, Height(t))
    ensures m[t.node].parent == null ==> t.node == RootOf(c, t.node)
    ensures m[t.node].parent != null ==>
              && t.node != RootOf(c, t.node)
              && m[t.node].parent in m && m[m[t.node].parent].child.At(m[t.node].slot) == t.node
    ensures PointsBack(m, t.node, 0) && PointsBack(m, t.node, 1)
  {
    assert Linked(t.left, m, t.node, 0) && Linked(t.right, m, t.node, 1);
    if c.Up? {
      NotRoot(c, t.node);
    }
  }

  lemma {:induction false} NotRoot<T>(c: Context<Node<T>>, f: Node<T>)
    requires c.Up? && DistinctContext(c) && f !in ContextNodes(c)
    ensures RootOf(c, f) in ContextNodes(c)
  {
    if c.outer.Up? {
      NotRoot(c.outer, c.node);
    }
  }

  /** Replace `v` by `n` and `n` by `tmp`. */
  ghost function Swap<N>(x: N, v: N, n: N, tmp: N): N {
    if x == v then n else if x == n then tmp else x
  }

  ghost function SwapLink<T>(x: Node?<T>, v: Node<T>, n: Node<T>, tmp: Node<T>): Node?<T> {
    if x == null then null else Swap(x, v, n, tmp)
  }

  ghost function SwapFields<T>(f: Fields<T>, v: Node<T>, n: Node<T>, tmp: Node<T>): Fields<T> {
    Fields(Kids(SwapLink(f.child.zero, v, n, tmp), SwapLink(f.child.one, v, n, tmp)), SwapLink(f.parent, v, n, tmp),
           f.slot, f.balance)
  }

  ghost function SwapShape<N>(t: Shape<N>, v: N, n: N, tmp: N): Shape<N> {
    match t
    case Nil => Nil
    case Bin(l, x, r) => Bin(SwapShape(l, v, n, tmp), Swap(x, v, n, tmp), SwapShape(r, v, n, tmp))
  }

  /** `m'` holds the fields of `m` with the nodes renamed. */
  ghost predicate Swapped<T>(m: Links<T>, m': Links<T>, nodes: set<Node<T>>, v: Node<T>, n: Node<T>, tmp: Node<T>) {
    forall x | x in nodes && x in m ::
      Swap(x, v, n, tmp) in m' && m'[Swap(x, v, n, tmp)] == SwapFields(m[x], v, n, tmp)
  }

  /** Renaming keeps links, heights and distinctness, and renames the in-order sequence. */
  lemma {:induction false} SwapLinked<T>(t: Shape<Node<T>>, m: Links<T>, m': Links<T>, p: Node?<T>, s: Slot,
                                         v: Node<T>, n: Node<T>, tmp: Node<T>)
    requires Linked(t, m, p, s) && Swapped(m, m', Nodes(t), v, n, tmp)
    ensures Linked(SwapShape(t, v, n, tmp), m', SwapLink(p, v, n, tmp), s)
    ensures Height(SwapShape(t, v, n, tmp)) == Height(t)
    ensures TopOf(SwapShape(t, v, n, tmp)) == SwapLink(TopOf(t), v, n, tmp)
  {
    match t
    case Nil =>
    case Bin(l, x, r) =>
      SwapLinked(l, m, m', x, 0, v, n, tmp);
      SwapLinked(r, m, m', x, 1, v, n, tmp);
  }

  ghost function SwapSeq<N>(s: seq<N>, v: N, n: N, tmp: N): seq<N> {
    seq(|s|, i requires 0 <= i < |s| => Swap(s[i], v, n, tmp))
  }

  lemma {:induction false} SwapShapeBalanced<N>(t: Shape<N>, v: N, n: N, tmp: N)
    ensures Height(SwapShape(t, v, n, tmp)) == Height(t)
    ensures Balanced(t) ==> Balanced(SwapShape(t, v, n, tmp))
  {
    match t
    case Nil =>
    case Bin(l, x, r) =>
      SwapShapeBalanced(l, v, n, tmp);
      SwapShapeBalanced(r, v, n, tmp);
  }

  lemma {:induction false} SwapShapeDistinct<N>(t: Shape<N>, v: N, n: N, tmp: N)
    requires tmp !in Nodes(t) && v != n && n != tmp && v != tmp
    ensures Nodes(SwapShape(t, v, n, tmp)) == set x | x in Nodes(t) :: Swap(x, v, n, tmp)
    ensures Distinct(t) ==> Distinct(SwapShape(t, v, n, tmp))
  {
    match t
    case Nil =>
    case Bin(l, x, r) =>
      SwapShapeDistinct(l, v, n, tmp);
      SwapShapeDistinct(r, v, n, tmp);
  }

  lemma {:induction false} SwapShapeOrder<N>(t: Shape<N>, v: N, n: N, tmp: N)
    ensures Inorder(SwapShape(t, v, n, tmp)) == SwapSeq(Inorder(t), v, n, tmp)
  {
    match t
    case Nil =>
    case Bin(l, x, r) =>
      SwapShapeOrder(l, v, n, tmp);
      SwapShapeOrder(r, v, n, tmp);
  }

  /** Cutting a node out of a tree cuts it out of the in-order sequence. */
  lemma {:induction false} CutOrder<N>(c: Context<N>, t: Shape<N>, d: Slot, order: seq<N>)
    requires t.Bin? && Kid(t, 1 - d).Nil? && Before(c) + Inorder(t) + After(c) == order
    ensures var k := |Before(c)| + |Inorder(t.left)|;
            k < |order| && Before(c) + Inorder(Kid(t, d)) + After(c) == order[..k] + order[k + 1..]
  {
    CutMiddle(Before(c), Inorder(t.left), t.node, Inorder(t.right), After(c));
  }

  lemma {:induction false} CutMiddle<N>(a: seq<N>, l: seq<N>, n: N, r: seq<N>, b: seq<N>)
    ensures var s, k := a + (l + [n] + r) + b, |a| + |l|; s[..k] + s[k + 1..] == a + (l + r) + b
    ensures l == [] ==> l + r == r
    ensures r == [] ==> l + r == l
  {
    var s, k := a + (l + [n] + r) + b, |a| + |l|;
    assert s[..k] == a + l;
    assert s[k + 1..] == r + b;
  }

  /** The fields in `m` show a node with only `kid` below it; cutting it out writes to `kid` and to its owner. */
  ghost predicate CutReady<T>(c: Context<Node<T>>, n: Node<T>, kid: Shape<Node<T>>, m: Links<T>) {
    && n in m && m[n].parent == Owner(c) && m[n].slot == SlotOf(c)
    && TopSet(kid) !! OwnerSet(c) && n !in Nodes(kid) + ContextNodes(c)
    && Nodes(kid) - TopSet(kid) !! OwnerSet(c) && ContextNodes(c) - OwnerSet(c) !! TopSet(kid)
    && m.Keys == Nodes(kid) + {n} + ContextNodes(c) && TopSet(kid) <= m.Keys && OwnerSet(c) <= m.Keys
  }

  lemma {:induction false} CutIsReady<T>(c: Context<Node<T>>, t: Shape<Node<T>>, m: Links<T>, root: Node?<T>,
                                         order: seq<Node<T>>)
    returns (d: Slot)
    requires t.Bin? && (t.left.Nil? || t.right.Nil?) && Repairing(c, t, m, Height(t), root, order)
    ensures Kid(t, 1 - d).Nil? && CutReady(c, t.node, Kid(t, d), m)
    ensures TopOf(Kid(t, d)) == if m[t.node].child.zero != null then m[t.node].child.zero else m[t.node].child.one
  {
    d := if t.left.Bin? then 0 else 1;
    assert TopSet(Kid(t, d)) <= Nodes(Kid(t, d)) && OwnerSet(c) <= ContextNodes(c);
  }

  /** A node with at most one child has been cut out: its child takes its place, one lower. */
  lemma {:induction false} CutOut<T>(c: Context<Node<T>>, t: Shape<Node<T>>, d: Slot, m: Links<T>, m': Links<T>,
                                     root: Node?<T>, order: seq<Node<T>>)
    returns (u: Shape<Node<T>>, rest: seq<Node<T>>)
    requires t.Bin? && Kid(t, 1 - d).Nil? && Repairing(c, t, m, Height(t), root, order)
    requires m'.Keys == m.Keys - {t.node}
    requires Moved(Kid(t, d), m, m', Owner(c), SlotOf(c)) && Refilled(c, m, m', TopOf(Kid(t, d)))
    ensures u == Kid(t, d) && Height(u) + 1 == Height(t)
    ensures Repairing(c, u, m', Height(u) + 1, RootOf(c, TopOf(u)), rest)
    ensures var k := |Before(c)| + |Inorder(t.left)|; k < |order| && rest == order[..k] + order[k + 1..]
  {
    u, rest := Kid(t, d), Before(c) + Inorder(Kid(t, d)) + After(c);
    CutOrder(c, t, d, order);
    MoveLinked(u, m, m', t.node, d, Owner(c), SlotOf(c));
    RefillContext(c, m, m', t.node, TopOf(u), Height(t));
    CutApart(c, t, d);
  }

  lemma {:induction false} CutApart<T>(c: Context<Node<T>>, t: Shape<Node<T>>, d: Slot)
    requires t.Bin? && Kid(t, 1 - d).Nil? && Apart(c, t) && Balanced(t)
    ensures Apart(c, Kid(t, d)) && Balanced(Kid(t, d)) && Height(t) == Height(Kid(t, d)) + 1
    ensures Nodes(t) == Nodes(Kid(t, d)) + {t.node} && t.node !in Nodes(Kid(t, d)) && t.node !in ContextNodes(c)
  {
  }

  /** Renaming and then cutting out the renamed neighbour is cutting out the node itself. */
  lemma {:induction false} CutRenamed<N>(s: seq<N>, v: N, n: N, tmp: N)
    requires NoRepeats(s) && v in s && n in s && tmp !in s && v != n
    requires var k, j := IndexOf(s, v), IndexOf(s, n); j == k - 1 || j == k + 1
    ensures var u := SwapSeq(s, v, n, tmp); var k := IndexOf(s, v);
            tmp in u && var j := IndexOf(u, tmp); u[..j] + u[j + 1..] == s[..k] + s[k + 1..]
  {
    var u, k, j := SwapSeq(s, v, n, tmp), IndexOf(s, v), IndexOf(s, n);
    assert u[j] == tmp;
    assert forall i | 0 <= i < |s| && i != j :: u[i] != tmp;
    assert tmp !in u[..j];
    IndexOfAt(u, tmp, j);
    CutSame(s, u, k, j);
  }

  /** Two sequences that agree away from `k` and `j`, which are adjacent, agree after cutting. */
  lemma {:induction false} CutSame<N>(s: seq<N>, u: seq<N>, k: nat, j: nat)
    requires |s| == |u| && k < |s| && j < |s| && (j == k - 1 || j == k + 1) && u[k] == s[j]
    requires forall i | 0 <= i < |s| && i != j && i != k :: u[i] == s[i]
    ensures u[..j] + u[j + 1..] == s[..k] + s[k + 1..]
  {
  }

  /** A node is just past the hole, in the direction away from slot `d`. */
  ghost predicate NextTo<N>(c: Context<N>, n: N, d: Slot) {
    if d == 0 then After(c) != [] && After(c)[0] == n else Before(c) != [] && Before(c)[|Before(c)| - 1] == n
  }

  lemma {:induction false} NextToIndex<N>(c: Context<N>, t: Shape<N>, n: N, d: Slot, s: seq<N>)
    requires t.Bin? && Kid(t, 1 - d).Nil? && NextTo(c, n, d) && s == Before(c) + Inorder(t) + After(c)
    ensures var j := |Before(c)| + |Inorder(t.left)|; var k := if d == 0 then j + 1 else j - 1;
            0 <= j < |s| && 0 <= k < |s| && s[j] == t.node && s[k] == n
  {
    assert Inorder(t) == Inorder(t.left) + [t.node] + Inorder(t.right);
  }

  /** A position on the way from slot `d` of `n` towards the node adjacent to `n`; `zone` is the subtree in that
      slot. */
  ghost predicate Trailing<T>(c: Context<Node<T>>, t: Shape<Node<T>>, n: Node<T>, d: Slot, zone: set<Node<T>>,
                              m: Links<T>, root: Node?<T>, order: seq<Node<T>>) {
    && t.Bin? && Repairing(c, t, m, Height(t), root, order)
    && NextTo(c, n, d) && n in ContextNodes(c) && Nodes(t) <= zone
    && c.Up? && (if c.node == n then c.d == d else c.node in zone)
  }

  lemma {:induction false} TrailStart<T>(c: Context<Node<T>>, t: Shape<Node<T>>, d: Slot, m: Links<T>, root: Node?<T>,
                                         order: seq<Node<T>>)
    returns (c': Context<Node<T>>, t': Shape<Node<T>>)
    requires t.Bin? && Repairing(c, t, m, Height(t), root, order) && t.node in m && m[t.node].child.At(d) != null
    ensures TopOf(t') == m[t.node].child.At(d)
    ensures Trailing(c', t', t.node, d, Nodes(Kid(t, d)), m, root, order)
  {
    Descend(c, t, d, m, root, order);
    c', t' := Up(d, t.node, Kid(t, 1 - d), c), Kid(t, d);
  }

  lemma {:induction false} TrailStep<T>(c: Context<Node<T>>, t: Shape<Node<T>>, n: Node<T>, d: Slot,
                                        zone: set<Node<T>>, m: Links<T>, root: Node?<T>, order: seq<Node<T>>)
    returns (c': Context<Node<T>>, t': Shape<Node<T>>)
    requires Trailing(c, t, n, d, zone, m, root, order) && t.node in m && m[t.node].child.At(1 - d) != null
    ensures t' == Kid(t, 1 - d) && TopOf(t') == m[t.node].child.At(1 - d)
    ensures Trailing(c', t', n, d, zone, m, root, order)
  {
    Descend(c, t, 1 - d, m, root, order);
    c', t' := Up(1 - d, t.node, Kid(t, d), c), Kid(t, 1 - d);
  }

  lemma {:induction false} TrailFields<T>(c: Context<Node<T>>, t: Shape<Node<T>>, n: Node<T>, d: Slot,
                                          zone: set<Node<T>>, m: Links<T>, root: Node?<T>, order: seq<Node<T>>)
    requires Trailing(c, t, n, d, zone, m, root, order)
    ensures t.Bin? && t.node in m && t.node in zone && n != t.node
    ensures TopOf(Kid(t, 1 - d)) == m[t.node].child.At(1 - d)
  {
  }

  /** The nodes whose fields change when `n` moves to the place of `v`, and how they lie. */
  ghost predicate SwapReady<T>(m: Links<T>, v: Node<T>, n: Node<T>, d: Slot) {
    && v in m && n in m && v != n
    && var p, a, b, q, x := m[v].parent, m[v].child.At(d), m[v].child.At(1 - d), m[n].parent, m[n].child.At(d);
    && a != null && b != null && q != null && a in m && b in m && q in m
    && a != b && a != v && b != v && b != n && m[n].child.At(1 - d) == null
    && (if q == v then a == n && m[n].slot == d else a != n && q != n && q != b)
    && (x != null ==> x in m && x != v && x != n && x != a && x != b && x != q)
    && (p != null ==> p in m && p != v && p != n && p != a && p != b && p != q && p != x)
  }

  /** `m1` is `m` after the fields of `v` have moved into `n` and those of `n` into `tmp`. */
  ghost predicate MoveStep<T>(m: Links<T>, m1: Links<T>, v: Node<T>, n: Node<T>, tmp: Node<T>, d: Slot)
    requires SwapReady(m, v, n, d)
  {
    var p, a, b, q := m[v].parent, m[v].child.At(d), m[v].child.At(1 - d), m[n].parent;
    && m1.Keys == m.Keys - {v} + {tmp}
    && m1[n] == Fields(if q == v then m[v].child.With(d, tmp) else m[v].child, p, m[v].slot, m[v].balance)
    && m1[tmp] == m[n].(parent := if q == v then n else q)
    && (a != n ==> m1[a] == m[a].(parent := n))
    && m1[b] == m[b].(parent := n)
    && (p != null ==> m1[p] == m[p].(child := m[p].child.With(m[v].slot, n)))
    && forall y | y in m && y != v && y != n && y != p && y != a && y != b :: m1[y] == m[y]
  }

  /** `m'` is `m1` after the parent and the child of `tmp` have been pointed at it. */
  ghost predicate FillStep<T>(m1: Links<T>, m': Links<T>, tmp: Node<T>, d: Slot) {
    && tmp in m1 && m'.Keys == m1.Keys
    && var q, x := m1[tmp].parent, m1[tmp].child.At(d);
    && q != null && q in m1 && q != x && x != tmp && q != tmp && (x != null ==> x in m1)
    && m'[q] == m1[q].(child := m1[q].child.With(m1[tmp].slot, tmp))
    && (x != null ==> m'[x] == m1[x].(parent := tmp))
    && forall y | y in m1 && y != q && y != x :: m'[y] == m1[y]
  }

  lemma {:induction false} MoveThenFill<T>(m: Links<T>, m1: Links<T>, m': Links<T>, v: Node<T>, n: Node<T>,
                                           tmp: Node<T>, d: Slot)
    requires SwapReady(m, v, n, d) && tmp !in m && MoveStep(m, m1, v, n, tmp, d) && FillStep(m1, m', tmp, d)
    ensures SwapStep(m, m', v, n, tmp, d)
  {
  }

  /** `m'` is `m` after `n` has moved to the place of `v` and `tmp` to the place of `n`. */
  ghost predicate SwapStep<T>(m: Links<T>, m': Links<T>, v: Node<T>, n: Node<T>, tmp: Node<T>, d: Slot)
    requires SwapReady(m, v, n, d)
  {
    var p, a, b, q, x := m[v].parent, m[v].child.At(d), m[v].child.At(1 - d), m[n].parent, m[n].child.At(d);
    && m'.Keys == m.Keys - {v} + {tmp}
    && m'[n] == Fields(if q == v then m[v].child.With(d, tmp) else m[v].child, p, m[v].slot, m[v].balance)
    && m'[tmp] == m[n].(parent := if q == v then n else q)
    && (a != n ==> m'[a] == m[a].(parent := n, child := if q == a then m[a].child.With(m[n].slot, tmp) else m[a].child))
    && m'[b] == m[b].(parent := n)
    && (q != v && q != a ==> m'[q] == m[q].(child := m[q].child.With(m[n].slot, tmp)))
    && (x != null ==> m'[x] == m[x].(parent := tmp))
    && (p != null ==> m'[p] == m[p].(child := m[p].child.With(m[v].slot, n)))
    && forall y | y in m && y != v && y != n && y != p && y != a && y != b && y != q && y != x :: m'[y] == m[y]
  }

  /** In a reciprocal map, only its parent and its children mention a node. */
  ghost predicate Mentions<T>(m: Links<T>, y: Node<T>, v: Node<T>)
    requires y in m && v in m
  {
    && (m[y].parent == v ==> m[v].child.At(m[y].slot) == y)
    && (m[y].child.zero == v ==> m[v].parent == y && m[v].slot == 0)
    && (m[y].child.one == v ==> m[v].parent == y && m[v].slot == 1)
    && (m[v].parent == y ==> m[y].child.At(m[v].slot) == v)
    && (m[v].child.zero == y ==> m[y].parent == v && m[y].slot == 0)
    && (m[v].child.one == y ==> m[y].parent == v && m[y].slot == 1)
  }

  lemma {:induction false} ReciprocalMentions<T>(m: Links<T>, root: Node?<T>, y: Node<T>, v: Node<T>)
    requires Reciprocal(m, root) && y in m && v in m
    ensures Mentions(m, y, v)
  {
    assert PointsBack(m, y, 0) && PointsBack(m, y, 1) && PointsBack(m, v, 0) && PointsBack(m, v, 1);
  }

  lemma {:induction false} SwapOne<T>(m: Links<T>, m': Links<T>, v: Node<T>, n: Node<T>, tmp: Node<T>, d: Slot,
                                      y: Node<T>)
    requires SwapReady(m, v, n, d) && tmp !in m && SwapStep(m, m', v, n, tmp, d)
    requires y in m && Mentions(m, y, v) && Mentions(m, y, n) && Mentions(m, n, v)
    ensures Swap(y, v, n, tmp) in m' && m'[Swap(y, v, n, tmp)] == SwapFields(m[y], v, n, tmp)
  {
  }

  lemma {:induction false} SwapStepSwapped<T>(m: Links<T>, m': Links<T>, v: Node<T>, n: Node<T>, tmp: Node<T>, d: Slot,
                                              root: Node?<T>)
    requires SwapReady(m, v, n, d) && tmp !in m && Reciprocal(m, root) && SwapStep(m, m', v, n, tmp, d)
    ensures Swapped(m, m', m.Keys, v, n, tmp)
  {
    forall y | y in m
      ensures Swap(y, v, n, tmp) in m' && m'[Swap(y, v, n, tmp)] == SwapFields(m[y], v, n, tmp)
    {
      ReciprocalMentions(m, root, y, v);
      ReciprocalMentions(m, root, y, n);
      ReciprocalMentions(m, root, n, v);
      SwapOne(m, m', v, n, tmp, d, y);
    }
  }

  /** What lies where when `n` is in the subtree in slot `d` of the node at a position. */
  lemma {:induction false} ZoneApart<T>(c: Context<Node<T>>, t: Shape<Node<T>>, n: Node<T>, q: Node<T>, d: Slot,
                                        m: Links<T>, root: Node?<T>, order: seq<Node<T>>)
    requires t.Bin? && t.left.Bin? && t.right.Bin? && Repairing(c, t, m, Height(t), root, order)
    requires n in Nodes(Kid(t, d)) && (q == t.node || q in Nodes(Kid(t, d)))
    ensures t.node in m && n in m && q in m && n != t.node
    ensures var v, p, a, b := t.node, Owner(c), Kid(t, d).node, Kid(t, 1 - d).node;
            && m[v].parent == p && m[v].child.At(d) == a && m[v].child.At(1 - d) == b
            && a in m && b in m && a != b && a != v && b !in {v, n, q}
            && (p != null ==> p in m && p !in {v, n, a, b, q})
  {
    assert Kid(t, d).node in Nodes(Kid(t, d)) && Kid(t, 1 - d).node in Nodes(Kid(t, 1 - d));
  }

  /** The node adjacent to one with two children can be moved to its place. */
  lemma {:induction false} NeighbourReady<T>(c: Context<Node<T>>, t: Shape<Node<T>>, n: Node<T>, d: Slot, m: Links<T>,
                                             root: Node?<T>, order: seq<Node<T>>)
    requires t.Bin? && t.left.Bin? && t.right.Bin? && Repairing(c, t, m, Height(t), root, order) && Reciprocal(m, root)
    requires n in Nodes(Kid(t, d)) && n in m && m[n].child.At(1 - d) == null
    requires m[n].parent !in {null, n, m[n].child.At(d)}
    requires if m[n].parent == t.node then m[n].slot == d else m[n].parent in Nodes(Kid(t, d))
    ensures SwapReady(m, t.node, n, d)
  {
    ZoneApart(c, t, n, m[n].parent, d, m, root, order);
    ReciprocalMentions(m, root, n, t.node);
    var x := m[n].child.At(d);
    assert PointsBack(m, n, d) && PointsBack(m, t.node, 0) && PointsBack(m, t.node, 1);
    ReciprocalMentions(m, root, n, m[n].parent);
    if x != null {
      ReciprocalMentions(m, root, x, t.node);
      if m[t.node].parent != null {
        ReciprocalMentions(m, root, m[t.node].parent, t.node);
        ReciprocalMentions(m, root, m[t.node].parent, n);
      }
    }
  }

  lemma {:induction false} RootWhenReady<T>(m: Links<T>, root: Node?<T>, v: Node<T>, n: Node<T>, d: Slot)
    requires Reciprocal(m, root) && SwapReady(m, v, n, d)
    ensures (m[v].parent == null <==> v == root) && n != root
  {
  }

  /** Renaming a well-formed tree gives a well-formed tree. */
  lemma {:induction false} SwapWellFormed<T>(w: Shape<Node<T>>, m: Links<T>, m': Links<T>, s: Slot, v: Node<T>,
                                             n: Node<T>, tmp: Node<T>)
    requires Linked(w, m, null, s) && Distinct(w) && Balanced(w) && Nodes(w) == m.Keys
    requires v in m && n in m && v != n && tmp !in m && m'.Keys == m.Keys - {v} + {tmp}
    requires Swapped(m, m', m.Keys, v, n, tmp)
    ensures var w' := SwapShape(w, v, n, tmp);
            && Linked(w', m', null, s) && Distinct(w') && Balanced(w') && Nodes(w') == m'.Keys
            && Inorder(w') == SwapSeq(Inorder(w), v, n, tmp)
            && TopOf(w') == SwapLink(TopOf(w), v, n, tmp)
  {
    hide Linked, Distinct, Balanced, Inorder, SwapShape, Swapped, SwapFields;
    SwapLinked(w, m, m', null, s, v, n, tmp);
    SwapShapeBalanced(w, v, n, tmp);
    SwapShapeDistinct(w, v, n, tmp);
    SwapShapeOrder(w, v, n, tmp);
    SwapSet(Nodes(w), v, n, tmp);
  }

  lemma {:induction false} SwapSet<N>(nodes: set<N>, v: N, n: N, tmp: N)
    requires v in nodes && n in nodes && v != n && tmp !in nodes
    ensures (set x | x in nodes :: Swap(x, v, n, tmp)) == nodes - {v} + {tmp}
  {
    forall y | y in nodes - {v} + {tmp}
      ensures y in set x | x in nodes :: Swap(x, v, n, tmp)
    {
      assert Swap(if y == n then v else if y == tmp then n else y, v, n, tmp) == y;
    }
  }
}
