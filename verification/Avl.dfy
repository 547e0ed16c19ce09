/**
  * The AVL tree proper: search, insertion, removal, walking and post-order destruction, in place and
  * by iteration over parent links.  `shape` is the abstract value of the tree; `Contents()`, its
  * in-order sequence of nodes, is what every operation is specified by.
  */
module Avl {
  import opened AvlShape
  import opened AvlLinks
  import opened AvlRepair
  import opened AvlOrder

  /** Put `kid`, if any, into slot `d` of `node`. */
  method Adopt<T>(node: Node<T>, d: Slot, kid: Node?<T>)
    requires kid != node
    modifies node`child, AsSet(kid)`parent, AsSet(kid)`slot
    ensures node.child == old(node.child).With(d, kid)
    ensures kid != null ==> kid.parent == node && kid.slot == d
  {
    node.child := node.child.With(d, kid);
    if kid != null {
      kid.parent := node;
      kid.slot := d;
    }
  }

  /** Where a destruction in progress will continue: the parent of the node handed out last, and its slot there. */
  datatype Cookie<T> = Start | Resume(parent: Node?<T>, slot: Slot)

  class Tree<T(!new)> {
    const compare: (T, T) -> int
    var root: Node?<T>
    var numnodes: int
    ghost var shape: Shape<Node<T>>

    /** The nodes in order. */
    ghost function Contents(): seq<Node<T>>
      reads this
    {
      Inorder(shape)
    }

    /** Links, stored balances and count all describe `shape`, and `shape` is an AVL tree. */
    ghost predicate Valid()
      reads this, Nodes(shape)
    {
      && root == TopOf(shape)
      && Linked(shape, Snapshot(Nodes(shape)), null, if shape.Nil? then 0 else shape.node.slot)
      && Distinct(shape)
      && Balanced(shape)
      && numnodes == |Contents()|
    }

    /** The nodes are in strictly increasing order. */
    ghost predicate Ordered()
      reads this
    {
      Comparator(compare) && StrictlySorted(compare, Contents())
    }

    /** `where` and `which` name a free slot of the tree. */
    ghost predicate InsertPoint(where: Node?<T>, which: Slot)
      reads this, where
    {
      if where == null then shape.Nil? else where in Nodes(shape) && where.child.At(which) == null
    }

    /** The index in the contents at which a node put into that slot appears. */
    ghost function InsertIndex(where: Node?<T>, which: Slot): nat
      reads this
    {
      if where == null || where !in Contents() then 0 else IndexOf(Contents(), where) + which
    }

    constructor (compare: (T, T) -> int)
      ensures this.compare == compare && Valid() && Contents() == []
    {
      this.compare := compare;
      root, numnodes, shape := null, 0, Nil;
    }

    /** Make `node` the child of `parent` in slot `which`, or the root. */
    method Hang(parent: Node?<T>, which: Slot, node: Node?<T>)
      modifies this`root, AsSet(parent)`child
      ensures if parent == null then root == node
              else root == old(root) && parent.child == old(parent.child).With(which, node)
    {
      if parent != null {
        parent.child := parent.child.With(which, node);
      } else {
        root := node;
      }
    }

    /** The link updates of case 1: `child` takes the place of `node`, which adopts the inner grandchild. */
    method SingleLinks(node: Node<T>, child: Node<T>, left: Slot) returns (shrunk: bool)
      requires node.child.At(left) == child && node != child
      requires child.child.At(1 - left) != node && child.child.At(1 - left) != child
      requires node.parent != node && node.parent != child
      requires node.parent != null ==> node.parent != child.child.At(1 - left)
      modifies this`root, node, child, child.child.At(1 - left), node.parent
      ensures node.child == old(node.child).With(left, old(child.child).At(1 - left))
      ensures node.parent == child && node.slot == 1 - left && node.balance == -child.balance
      ensures child.child == old(child.child).With(1 - left, node)
      ensures child.parent == old(node.parent) && child.slot == old(node.slot)
      ensures child.balance == old(child.balance) + Lean(left, 0, 1)
      ensures var inner: Node?<T> := old(child.child).At(1 - left);
              inner != null ==> inner.parent == node && inner.slot == left
                                && unchanged(inner`child) && unchanged(inner`balance)
      ensures var parent: Node?<T> := old(node.parent);
              if parent == null then root == child
              else root == old(root) && parent.child == old(parent.child).With(old(node.slot), child)
                   && unchanged(parent`parent) && unchanged(parent`slot) && unchanged(parent`balance)
      ensures shrunk <==> child.balance == 0
    {
      var right := 1 - left;
      var leftHeavy := if left == 0 then -1 else 1;
      var rightHeavy := -leftHeavy;
      var parent := node.parent;
      var which := node.slot;
      var childBal := child.balance + rightHeavy;
      var cright := child.child.At(right);
      Adopt(node, left, cright);
      child.child := child.child.With(right, node);
      node.balance := -childBal;
      node.slot := right;
      node.parent := child;
      child.balance := childBal;
      child.slot := which;
      child.parent := parent;
      Hang(parent, which, child);
      shrunk := childBal == 0;
    }

    method RotateSingle(node: Node<T>, left: Slot, ghost c: Context<Node<T>>, ghost t: Shape<Node<T>>,
                        ghost s: set<Node<T>>)
      returns (shrunk: bool)
      requires SingleReady(c, t, left, Snapshot(s)) && t.node == node
      modifies this`root, s
      ensures SingleStep(c, t, left, old(Snapshot(s)), Snapshot(s))
      ensures c.Top? ==> root == Kid(t, left).node
      ensures c.Up? ==> root == old(root)
      ensures shrunk <==> Kid(t, left).node.balance == 0
    {
      var child := node.child.At(left);
      assert child == Kid(t, left).node;
      ghost var m, inner := Snapshot(s), Kid(Kid(t, left), 1 - left);
      ghost var touched := {node, child} + TopSet(inner) + OwnerSet(c);
      shrunk := SingleLinks(node, child, left);
      assert Agree(m, Snapshot(s), s - touched);
    }

    /** Put `gchild` where `node` is, with `child` and `node` as its children. */
    method Raise(node: Node<T>, child: Node<T>, gchild: Node<T>, left: Slot)
      requires node != child && node != gchild && child != gchild
      requires node.parent != null ==> node.parent !in {node, child, gchild}
      modifies this`root, node`parent, node`slot, node`balance, child`parent, child`slot, child`balance
      modifies gchild, AsSet(node.parent)`child
      ensures var heavy := Lean(left, 1, 0);
              && node.parent == gchild && node.slot == 1 - left
              && node.balance == (if old(gchild.balance) == heavy then -heavy else 0)
              && child.parent == gchild && child.slot == left
              && child.balance == (if old(gchild.balance) == -heavy then heavy else 0)
              && gchild.child == KidsOf(left, child, node)
              && gchild.parent == old(node.parent) && gchild.slot == old(node.slot) && gchild.balance == 0
      ensures var parent: Node?<T> := old(node.parent);
              if parent == null then root == gchild
              else root == old(root) && parent.child == old(parent.child).With(old(node.slot), gchild)
    {
      var right := 1 - left;
      var leftHeavy := if left == 0 then -1 else 1;
      var rightHeavy := -leftHeavy;
      var parent := node.parent;
      var which := node.slot;
      var balance := gchild.balance;
      gchild.child := gchild.child.With(left, child);
      child.balance := if balance == rightHeavy then leftHeavy else 0;
      child.parent := gchild;
      child.slot := left;
      gchild.child := gchild.child.With(right, node);
      node.balance := if balance == leftHeavy then rightHeavy else 0;
      node.parent := gchild;
      node.slot := right;
      gchild.balance := 0;
      gchild.parent := parent;
      gchild.slot := which;
      Hang(parent, which, gchild);
    }

    /** The link updates of case 2: `gchild` takes the place of `node`, between `child` and `node`. */
    method DoubleLinks(node: Node<T>, child: Node<T>, gchild: Node<T>, left: Slot)
      requires node.child.At(left) == child && child.child.At(1 - left) == gchild
      requires node != child && node != gchild && child != gchild
      requires var gleft, gright, parent := gchild.child.At(left), gchild.child.At(1 - left), node.parent;
               && (gleft != null ==> gleft !in {node, child, gchild} && gleft != gright && gleft != parent)
               && (gright != null ==> gright !in {node, child, gchild} && gright != parent)
               && (parent != null ==> parent !in {node, child, gchild})
      modifies this`root, node, child, gchild, gchild.child.At(left), gchild.child.At(1 - left), node.parent
      ensures var heavy := Lean(left, 1, 0);
              && node.child == old(node.child).With(left, old(gchild.child).At(1 - left))
              && node.parent == gchild && node.slot == 1 - left
              && node.balance == (if old(gchild.balance) == heavy then -heavy else 0)
              && child.child == old(child.child).With(1 - left, old(gchild.child).At(left))
              && child.parent == gchild && child.slot == left
              && child.balance == (if old(gchild.balance) == -heavy then heavy else 0)
              && gchild.child == KidsOf(left, child, node)
              && gchild.parent == old(node.parent) && gchild.slot == old(node.slot) && gchild.balance == 0
      ensures var gleft: Node?<T> := old(gchild.child).At(left);
              gleft != null ==> gleft.parent == child && gleft.slot == 1 - left
                                && unchanged(gleft`child) && unchanged(gleft`balance)
      ensures var gright: Node?<T> := old(gchild.child).At(1 - left);
              gright != null ==> gright.parent == node && gright.slot == left
                                 && unchanged(gright`child) && unchanged(gright`balance)
      ensures var parent: Node?<T> := old(node.parent);
              if parent == null then root == gchild
              else root == old(root) && parent.child == old(parent.child).With(old(node.slot), gchild)
                   && unchanged(parent`parent) && unchanged(parent`slot) && unchanged(parent`balance)
    {
      var gleft := gchild.child.At(left);
      var gright := gchild.child.At(1 - left);
      Adopt(node, left, gright);
      Adopt(child, 1 - left, gleft);
      Raise(node, child, gchild, left);
    }

    method RotateDouble(node: Node<T>, left: Slot, ghost c: Context<Node<T>>, ghost t: Shape<Node<T>>,
                        ghost s: set<Node<T>>)
      requires DoubleReady(c, t, left, Snapshot(s)) && t.node == node
      modifies this`root, s
      ensures DoubleStep(c, t, left, old(Snapshot(s)), Snapshot(s))
      ensures c.Top? ==> root == Kid(Kid(t, left), 1 - left).node
      ensures c.Up? ==> root == old(root)
    {
      var child := node.child.At(left);
      assert child == Kid(t, left).node;
      var gchild := child.child.At(1 - left);
      assert gchild == Kid(Kid(t, left), 1 - left).node;
      ghost var m, g := Snapshot(s), Kid(Kid(t, left), 1 - left);
      ghost var touched := {node, child, gchild} + TopSet(g.left) + TopSet(g.right) + OwnerSet(c);
      DoubleLinks(node, child, gchild, left);
      assert Agree(m, Snapshot(s), m.Keys - touched);
      hide Agree;
      DoubleIsStep(c, t, left, m, Snapshot(s), touched);
    }

    /**
      * Repair a subtree that leans by two.  The result says whether the subtree lost height, and
      * whatever the context believed about the height of its hole, it still does.
      */
    method Rotation(node: Node<T>, balance: int, ghost c: Context<Node<T>>, ghost t: Shape<Node<T>>,
                    ghost h: nat, ghost s: set<Node<T>>)
      returns (shrunk: bool)
      requires s == Nodes(t) + ContextNodes(c)
      requires Loose(t, Snapshot(s), Owner(c), SlotOf(c), node.balance) && At(c, t, Snapshot(s), h, root)
      requires t.node == node && balance == Height(t.right) - Height(t.left)
      requires (balance == -2 || balance == 2) && Balanced(t.left) && Balanced(t.right)
      modifies this`root, s
      ensures var u := Rotated(t, if balance < 0 then 0 else 1);
              && Linked(u, Snapshot(s), Owner(c), SlotOf(c)) && At(c, u, Snapshot(s), h, root)
              && (shrunk <==> Height(u) == Height(t) - 1)
    {
      var left: Slot := if balance < 0 then 0 else 1;
      var leftHeavy := if left == 0 then -1 else 1;
      var rightHeavy := -leftHeavy;
      ghost var m, b, root0 := Snapshot(s), node.balance, root;
      assert Linked(Kid(t, left), m, node, left) && Balanced(Kid(t, left));
      var child := node.child.At(left);
      if child.balance != rightHeavy {
        SingleIsReady(c, t, left, m, b);
        shrunk := RotateSingle(node, left, c, t, s);
        SingleDone(c, t, left, m, Snapshot(s), h, b, root0);
      } else {
        DoubleIsReady(c, t, left, m, b);
        RotateDouble(node, left, c, t, s);
        DoubleDone(c, t, left, m, Snapshot(s), h, b, root0);
        shrunk := true;
      }
    }

    /** Store the new balance of the node above the position being repaired, and move up to it. */
    method SetBalance(node: Node<T>, balance: int, ghost c: Context<Node<T>>, ghost t: Shape<Node<T>>,
                      ghost h: nat, ghost s: set<Node<T>>, ghost order: seq<Node<T>>)
      requires c.Up? && c.node == node && Repairing(c, t, Snapshot(s), h, root, order)
      requires balance == Lean(c.d, Height(t), Height(c.sib)) && -1 <= balance <= 1
      modifies s
      ensures Repairing(c.outer, Join(c.d, t, node, c.sib), Snapshot(s), 1 + Max(h, Height(c.sib)), root, order)
    {
      ghost var m := Snapshot(s);
      assert node in m;
      node.balance := balance;
      assert Snapshot(s) == m[node := m[node].(balance := balance)];
      ghost var _ := ClimbLevel(c, t, m, Snapshot(s), h, root, order);
    }

    /** Rotate at the node above the position being repaired, and move up to it. */
    method RotateAbove(node: Node<T>, balance: int, ghost c: Context<Node<T>>, ghost t: Shape<Node<T>>,
                       ghost h: nat, ghost s: set<Node<T>>, ghost order: seq<Node<T>>)
      returns (shrunk: bool, ghost u: Shape<Node<T>>)
      requires c.Up? && c.node == node && Repairing(c, t, Snapshot(s), h, root, order)
      requires balance == Lean(c.d, Height(t), Height(c.sib)) && (balance == -2 || balance == 2)
      modifies this`root, s
      ensures Repairing(c.outer, u, Snapshot(s), 1 + Max(h, Height(c.sib)), root, order)
      ensures shrunk <==> Height(u) == Max(Height(t), Height(c.sib))
      ensures Height(u) == Max(Height(t), Height(c.sib)) || Height(u) == 1 + Max(Height(t), Height(c.sib))
      ensures Height(t) == Height(c.sib) + 2 && Uneven(t) ==> shrunk
    {
      ghost var m, root0, d: Slot := Snapshot(s), root, if balance < 0 then 0 else 1;
      ghost var v := RotateStart(c, t, m, h, root, order, balance, d);
      shrunk := Rotation(node, balance, c.outer, v, 1 + Max(h, Height(c.sib)), s);
      u := RotateEnd(c, t, v, m, Snapshot(s), d, h, root0, root, order);
    }

    /**
      * One step back up from a subtree that has grown by one.  `done` means that the subtree above it
      * keeps its height.  A rotation, counted by `turns`, is the last step: the subtree below it is uneven.
      */
    method GrowStep(node: Node<T>, which: Slot, ghost c: Context<Node<T>>, ghost t: Shape<Node<T>>,
                    ghost h: nat, ghost s: set<Node<T>>, ghost order: seq<Node<T>>)
      returns (done: bool, parent: Node?<T>, up: Slot, ghost c': Context<Node<T>>, ghost u: Shape<Node<T>>,
               ghost h': nat, ghost turns: nat)
      requires c.Up? && c.node == node && c.d == which && Repairing(c, t, Snapshot(s), h, root, order)
      requires Uneven(t) && Height(t) == h + 1
      modifies this`root, s
      ensures c' == c.outer && Repairing(c', u, Snapshot(s), h', root, order)
      ensures done ==> Height(u) == h' && turns <= 1
      ensures !done ==> Uneven(u) && Height(u) == h' + 1
                        && parent == Owner(c') && up == SlotOf(c') && turns == 0
    {
      hide Repairing;
      AboveFields(c, t, Snapshot(s), h, root, order);
      parent, up, turns := node.parent, node.slot, 0;
      c', u, h' := c.outer, Join(c.d, t, node, c.sib), 1 + Max(h, Height(c.sib));
      var oldBalance := node.balance;
      var newBalance := oldBalance + if which == 0 then -1 else 1;
      if newBalance == 0 {
        SetBalance(node, 0, c, t, h, s, order);
        done := true;
      } else if oldBalance != 0 {
        ghost var shrunk;
        shrunk, u := RotateAbove(node, newBalance, c, t, h, s, order);
        done, turns := true, 1;
      } else {
        SetBalance(node, newBalance, c, t, h, s, order);
        done := false;
      }
    }

    /** Back up from a subtree that has grown by one until some subtree keeps its height: at most one rotation. */
    method GrowUp(parent0: Node?<T>, which0: Slot, ghost c0: Context<Node<T>>, ghost t0: Shape<Node<T>>,
                  ghost h0: nat, ghost s: set<Node<T>>, ghost order: seq<Node<T>>)
      returns (ghost c: Context<Node<T>>, ghost t: Shape<Node<T>>, ghost turns: nat)
      requires Repairing(c0, t0, Snapshot(s), h0, root, order) && Uneven(t0) && Height(t0) == h0 + 1
      requires parent0 == Owner(c0) && which0 == SlotOf(c0)
      modifies this`root, s
      ensures Repairing(c, t, Snapshot(s), Height(t), root, order) && TopSlot(c) == TopSlot(c0) && turns <= 1
    {
      var done, parent, which := false, parent0, which0;
      ghost var h: nat := h0;
      c, t, turns := c0, t0, 0;
      while !done && parent != null
        invariant Repairing(c, t, Snapshot(s), h, root, order) && TopSlot(c) == TopSlot(c0)
        invariant done ==> Height(t) == h && turns <= 1
        invariant !done ==> Uneven(t) && Height(t) == h + 1 && parent == Owner(c) && which == SlotOf(c)
                            && turns == 0
        decreases c
      {
        ghost var more;
        done, parent, which, c, t, h, more := GrowStep(parent, which, c, t, h, s, order);
        turns := turns + more;
      }
      if !done {
        assert c.Top?;
        Grown(c, t, Snapshot(s), h, root, order);
      }
    }

    /** Link a new leaf into a free slot. */
    method LinkLeaf(node: Node<T>, where: Node?<T>, which: Slot, ghost c: Context<Node<T>>, ghost s: set<Node<T>>)
      requires Repairing(c, Nil, Snapshot(s), 0, root, Contents()) && node !in s
      requires where == Owner(c) && which == SlotOf(c)
      modifies this`root, this`numnodes, s, node
      ensures Repairing(c, Bin(Nil, node, Nil), Snapshot(s + {node}), 0, root, Before(c) + [node] + After(c))
      ensures numnodes == old(numnodes) + 1
    {
      ghost var m := Snapshot(s);
      assert OwnerSet(c) <= s;
      numnodes := numnodes + 1;
      node.child := Kids(null, null);
      node.slot := which;
      node.balance := 0;
      node.parent := where;
      Hang(where, which, node);
      LeafHung(c, node, m, Snapshot(s + {node}), old(root), Contents());
    }

    /** The hole a free slot is, and where in the contents it lies. */
    lemma {:induction false} Hole(where: Node?<T>, which: Slot) returns (c: Context<Node<T>>)
      requires Valid() && InsertPoint(where, which)
      ensures Repairing(c, Nil, Snapshot(Nodes(shape)), 0, root, Contents())
      ensures where == Owner(c) && which == SlotOf(c)
      ensures var s, k := Contents(), InsertIndex(where, which);
              k <= |s| && Before(c) == s[..k] && After(c) == s[k..]
    {
      if where == null {
        c := Top(which);
      } else {
        c := OpenedHole(shape, Snapshot(Nodes(shape)), shape.node.slot, where, which);
      }
      assert Contents() == Before(c) + After(c);
    }

    /** Record the shape of a tree whose repair is complete. */
    ghost method Settle(c: Context<Node<T>>, t: Shape<Node<T>>, s: set<Node<T>>, order: seq<Node<T>>)
      requires Repairing(c, t, Snapshot(s), Height(t), root, order) && numnodes == |order|
      modifies this`shape
      ensures Valid() && Contents() == order && Nodes(shape) == s
    {
      ghost var m := Snapshot(s);
      Repaired(c, t, m, root, order);
      shape := Plug(c, t);
      assert Nodes(shape) == s && Snapshot(s) == m;
      if shape.Bin? {
        assert m[shape.node].slot == TopSlot(c);
      }
    }

    method InsertInHole(node: Node<T>, where: Node?<T>, which: Slot, ghost c: Context<Node<T>>, ghost s: set<Node<T>>,
                        ghost order: seq<Node<T>>)
      requires Repairing(c, Nil, Snapshot(s), 0, root, Contents()) && node !in s
      requires where == Owner(c) && which == SlotOf(c)
      requires order == Before(c) + [node] + After(c) && numnodes + 1 == |order|
      modifies this, s, node
      ensures Valid() && Contents() == order
    {
      LinkLeaf(node, where, which, c, s);
      ghost var u, t, _ := GrowUp(where, which, c, Bin(Nil, node, Nil), 0, s + {node}, order);
      Settle(u, t, s + {node}, order);
    }

    /** Insert `node` into a free slot: the contents gain exactly that node, at that place. */
    method Insert(node: Node<T>, where: Node?<T>, which: Slot)
      requires Valid() && node !in Nodes(shape) && InsertPoint(where, which)
      modifies this, Nodes(shape), node
      ensures Valid()
      ensures var s, k := old(Contents()), old(InsertIndex(where, which));
              k <= |s| && Contents() == s[..k] + [node] + s[k..]
    {
      ghost var c := Hole(where, which);
      InsertInHole(node, where, which, c, Nodes(shape), Before(c) + [node] + After(c));
    }

    /** One step back up from a subtree that has shrunk by one.  `done` means the subtree above keeps its height. */
    method ShrinkStep(node: Node<T>, which: Slot, ghost c: Context<Node<T>>, ghost t: Shape<Node<T>>,
                      ghost h: nat, ghost s: set<Node<T>>, ghost order: seq<Node<T>>)
      returns (done: bool, parent: Node?<T>, up: Slot, ghost c': Context<Node<T>>, ghost u: Shape<Node<T>>,
               ghost h': nat)
      requires c.Up? && c.node == node && c.d == which && Repairing(c, t, Snapshot(s), h, root, order)
      requires Height(t) + 1 == h
      modifies this`root, s
      ensures c' == c.outer && Repairing(c', u, Snapshot(s), h', root, order)
      ensures done ==> Height(u) == h'
      ensures !done ==> Height(u) + 1 == h' && parent == Owner(c') && up == SlotOf(c')
    {
      hide Repairing;
      AboveFields(c, t, Snapshot(s), h, root, order);
      var oldBalance := node.balance;
      var newBalance := oldBalance - if which == 0 then -1 else 1;
      parent, up := node.parent, node.slot;
      c', u, h' := c.outer, Join(c.d, t, node, c.sib), 1 + Max(h, Height(c.sib));
      if oldBalance == 0 {
        SetBalance(node, newBalance, c, t, h, s, order);
        done := true;
      } else if newBalance == 0 {
        SetBalance(node, newBalance, c, t, h, s, order);
        done := false;
      } else {
        var shrunk;
        shrunk, u := RotateAbove(node, newBalance, c, t, h, s, order);
        done := !shrunk;
      }
    }

    /** Back up from a subtree that has shrunk by one, rotating as often as needed. */
    method ShrinkUp(parent0: Node?<T>, which0: Slot, ghost c0: Context<Node<T>>, ghost t0: Shape<Node<T>>,
                    ghost h0: nat, ghost s: set<Node<T>>, ghost order: seq<Node<T>>)
      returns (ghost c: Context<Node<T>>, ghost t: Shape<Node<T>>)
      requires Repairing(c0, t0, Snapshot(s), h0, root, order) && Height(t0) + 1 == h0
      requires parent0 == Owner(c0) && which0 == SlotOf(c0)
      modifies this`root, s
      ensures Repairing(c, t, Snapshot(s), Height(t), root, order) && TopSlot(c) == TopSlot(c0)
    {
      var done, parent, which := false, parent0, which0;
      ghost var h: nat := h0;
      c, t := c0, t0;
      while !done && parent != null
        invariant Repairing(c, t, Snapshot(s), h, root, order) && TopSlot(c) == TopSlot(c0)
        invariant done ==> Height(t) == h
        invariant !done ==> Height(t) + 1 == h && parent == Owner(c) && which == SlotOf(c)
        decreases c
      {
        done, parent, which, c, t, h := ShrinkStep(parent, which, c, t, h, s, order);
      }
      if !done {
        assert c.Top?;
        Grown(c, t, Snapshot(s), h, root, order);
      }
    }

    /** The link updates of cutting out `node`, which has at most the child `kid`. */
    method CutLinks(node: Node<T>, kid: Node?<T>, ghost c: Context<Node<T>>, ghost t: Shape<Node<T>>,
                    ghost s: set<Node<T>>)
      returns (parent: Node?<T>, which: Slot)
      requires CutReady(c, node, t, Snapshot(s)) && kid == TopOf(t)
      modifies this`root, this`numnodes, s
      ensures parent == Owner(c) && which == SlotOf(c) && numnodes == old(numnodes) - 1
      ensures Moved(t, old(Snapshot(s)), Snapshot(s - {node}), Owner(c), SlotOf(c))
      ensures Refilled(c, old(Snapshot(s)), Snapshot(s - {node}), kid)
      ensures root == if c.Top? then kid else old(root)
    {
      ghost var m := Snapshot(s);
      numnodes := numnodes - 1;
      parent := node.parent;
      which := node.slot;
      if kid != null {
        kid.parent := parent;
        kid.slot := which;
      }
      Hang(parent, which, kid);
      assert Agree(m, Snapshot(s - {node}), s - {node} - OwnerSet(c) - TopSet(t));
    }

    /** Cut out a node with at most one child. */
    method Unlink(node: Node<T>, ghost c: Context<Node<T>>, ghost t: Shape<Node<T>>, ghost s: set<Node<T>>,
                  ghost order: seq<Node<T>>)
      returns (parent: Node?<T>, which: Slot, ghost u: Shape<Node<T>>, ghost rest: seq<Node<T>>)
      requires t.Bin? && t.node == node && (t.left.Nil? || t.right.Nil?)
      requires Repairing(c, t, Snapshot(s), Height(t), root, order)
      modifies this`root, this`numnodes, s
      ensures parent == Owner(c) && which == SlotOf(c) && numnodes == old(numnodes) - 1
      ensures Repairing(c, u, Snapshot(s - {node}), Height(u) + 1, root, rest)
      ensures var k := |Before(c)| + |Inorder(t.left)|; k < |order| && rest == order[..k] + order[k + 1..]
    {
      ghost var m := Snapshot(s);
      ghost var d := CutIsReady(c, t, m, root, order);
      var kid := if node.child.zero != null then node.child.zero else node.child.one;
      parent, which := CutLinks(node, kid, c, Kid(t, d), s);
      u, rest := CutOut(c, t, d, m, Snapshot(s - {node}), old(root), order);
    }

    /** The position of a node, and its index in the contents. */
    lemma {:induction false} Position(node: Node<T>) returns (c: Context<Node<T>>, t: Shape<Node<T>>)
      requires Valid() && node in Nodes(shape)
      ensures t.Bin? && t.node == node && Repairing(c, t, Snapshot(Nodes(shape)), Height(t), root, Contents())
      ensures node in Contents() && IndexOf(Contents(), node) == |Before(c)| + |Inorder(t.left)|
      ensures (t.left.Nil? <==> node.child.zero == null) && (t.right.Nil? <==> node.child.one == null)
    {
      c, t := Opened(shape, Snapshot(Nodes(shape)), shape.node.slot, node);
    }

    /** No node occurs twice in the contents, so an index determines the node and back. */
    lemma {:induction false} IndexIs(node: Node<T>, k: nat)
      requires Valid() && k < |Contents()| && Contents()[k] == node
      ensures node in Nodes(shape) && IndexOf(Contents(), node) == k
      ensures NoRepeats(Contents())
    {
      InorderNodes(shape);
      InorderDistinct(shape);
    }

    lemma {:induction false} TrailEnd(c: Context<Node<T>>, t: Shape<Node<T>>, node: Node<T>, d: Slot,
                                      zone: set<Node<T>>)
      requires Valid() && Trailing(c, t, node, d, zone, Snapshot(Nodes(shape)), root, Contents()) && Kid(t, 1 - d).Nil?
      ensures t.node in Nodes(shape) && node in Contents() && t.node in Contents()
      ensures IndexOf(Contents(), t.node) == IndexOf(Contents(), node) + if d == 0 then -1 else 1
      ensures t.node.parent !in {null, t.node, t.node.child.At(d)}
      ensures if t.node.parent == node then t.node.slot == d else t.node.parent in zone
    {
      NextToIndex(c, t, node, d, Contents());
      var j := |Before(c)| + |Inorder(t.left)|;
      IndexIs(t.node, j);
      IndexIs(node, if d == 0 then j + 1 else j - 1);
    }

    /** Down one step into slot `left`, then as far as possible the other way: the adjacent node on that side. */
    method Neighbour(node: Node<T>, left: Slot, ghost c0: Context<Node<T>>, ghost t0: Shape<Node<T>>)
      returns (n: Node<T>)
      requires Valid() && t0.Bin? && t0.node == node && node in Nodes(shape) && node.child.At(left) != null
      requires Repairing(c0, t0, Snapshot(Nodes(shape)), Height(t0), root, Contents())
      ensures Valid() && n in Nodes(shape) && n != node && n.child.At(1 - left) == null
      ensures n.parent !in {null, n, n.child.At(left)}
      ensures if n.parent == node then n.slot == left else n.parent in Nodes(Kid(t0, left))
      ensures n in Nodes(Kid(t0, left))
      ensures node in Contents() && n in Contents()
      ensures IndexOf(Contents(), n) == IndexOf(Contents(), node) + if left == 0 then -1 else 1
    {
      hide Repairing, Trailing, Linked, Balanced, Distinct, Inorder;
      ghost var m, s, zone := Snapshot(Nodes(shape)), Contents(), Nodes(Kid(t0, left));
      ghost var c, t := TrailStart(c0, t0, left, m, root, s);
      n := node.child.At(left);
      TrailFields(c, t, node, left, zone, m, root, s);
      while n.child.At(1 - left) != null
        invariant t.Bin? && t.node == n && n in m && Trailing(c, t, node, left, zone, m, root, s)
        decreases t
      {
        n := n.child.At(1 - left);
        c, t := TrailStep(c, t, node, left, zone, m, root, s);
        TrailFields(c, t, node, left, zone, m, root, s);
      }
      TrailFields(c, t, node, left, zone, m, root, s);
      TrailEnd(c, t, node, left, zone);
    }

    /** Copy the fields of `victim` into `node` and point its surroundings at `node`. */
    method TakePlace(victim: Node<T>, node: Node<T>, tmp: Node<T>, left: Slot)
      requires node != victim && tmp != victim && tmp != node
      requires var p, a, b := victim.parent, victim.child.At(left), victim.child.At(1 - left);
               && a != null && b != null && a != b && a != victim && a != tmp && b != victim && b != tmp && b != node
               && (p != null ==> p != victim && p != tmp && p != node && p != a && p != b)
      modifies this`root, node, tmp`parent, victim.child.At(left), victim.child.At(1 - left), AsSet(victim.parent)`child
      ensures var p: Node?<T>, a: Node?<T>, b: Node?<T> :=
                old(victim.parent), old(victim.child).At(left), old(victim.child).At(1 - left);
              && node.child == (if a == node then old(victim.child).With(left, tmp) else old(victim.child))
              && node.parent == p && node.slot == old(victim.slot) && node.balance == old(victim.balance)
              && (if a == node then tmp.parent == node else
                    tmp.parent == old(tmp.parent) && a.parent == node
                    && unchanged(a`child) && unchanged(a`slot) && unchanged(a`balance))
              && b.parent == node && unchanged(b`child) && unchanged(b`slot) && unchanged(b`balance)
              && if p == null then root == node
                 else root == old(root) && p.child == old(p.child).With(old(victim.slot), node)
    {
      node.child, node.parent, node.slot, node.balance := victim.child, victim.parent, victim.slot, victim.balance;
      if node.child.At(left) == node {
        node.child := node.child.With(left, tmp);
      }
      Hang(node.parent, node.slot, node);
      node.child.At(left).parent := node;
      node.child.At(1 - left).parent := node;
    }

    /** Move `node` to the place of `victim`, keeping its old fields in a placeholder. */
    method MoveOut(victim: Node<T>, node: Node<T>, left: Slot, ghost m: Links<T>) returns (tmp: Node<T>)
      requires m == Snapshot(m.Keys) && SwapReady(m, victim, node, left)
      modifies this`root, m.Keys
      ensures fresh(tmp) && tmp !in m
      ensures MoveStep(m, Snapshot(m.Keys - {victim} + {tmp}), victim, node, tmp, left)
      ensures root == if m[victim].parent == null then node else old(root)
    {
      tmp := new Node(node.data);
      tmp.child, tmp.parent, tmp.slot, tmp.balance := node.child, node.parent, node.slot, node.balance;
      TakePlace(victim, node, tmp, left);
    }

    /** Put the placeholder where `node` used to be; it always has a parent and at most one child. */
    method FillIn(tmp: Node<T>, ghost d: Slot, ghost m: Links<T>)
      requires m == Snapshot(m.Keys) && tmp in m && m[tmp].child.At(1 - d) == null
      requires var q, x := m[tmp].parent, m[tmp].child.At(d);
               q != null && q in m && q != x && q != tmp && x != tmp && (x != null ==> x in m)
      modifies m.Keys
      ensures FillStep(m, Snapshot(m.Keys), tmp, d)
    {
      var parent := tmp.parent;
      parent.child := parent.child.With(tmp.slot, tmp);
      var which: Slot := if tmp.child.one != null then 1 else 0;
      if tmp.child.At(which) != null {
        tmp.child.At(which).parent := tmp;
      }
    }

    /** Move `node` to the place of `victim`, and a placeholder to the place of `node`. */
    method SwapOut(victim: Node<T>, node: Node<T>, left: Slot, ghost m: Links<T>) returns (tmp: Node<T>)
      requires m == Snapshot(m.Keys) && SwapReady(m, victim, node, left)
      modifies this`root, m.Keys
      ensures fresh(tmp) && tmp !in m
      ensures SwapStep(m, Snapshot(m.Keys - {victim} + {tmp}), victim, node, tmp, left)
      ensures root == if m[victim].parent == null then node else old(root)
    {
      tmp := MoveOut(victim, node, left, m);
      ghost var m1 := Snapshot(m.Keys - {victim} + {tmp});
      FillIn(tmp, left, m1);
      MoveThenFill(m, m1, Snapshot(m.Keys - {victim} + {tmp}), victim, node, tmp, left);
    }

    /** The links of an exchange: those of before, with `victim` renamed to `node` and `node` to the placeholder. */
    method ExchangeLinks(victim: Node<T>, node: Node<T>, left: Slot, ghost m: Links<T>) returns (tmp: Node<T>)
      requires m == Snapshot(m.Keys) && SwapReady(m, victim, node, left) && Reciprocal(m, root)
      modifies this`root, m.Keys
      ensures fresh(tmp) && tmp !in m
      ensures m[node].child.At(1 - left) == null && tmp.child == m[node].child
      ensures root == SwapLink(old(root), victim, node, tmp)
      ensures Swapped(m, Snapshot(m.Keys - {victim} + {tmp}), m.Keys, victim, node, tmp)
    {
      hide Reciprocal, Swapped;
      ghost var root0 := root;
      RootWhenReady(m, root, victim, node, left);
      tmp := SwapOut(victim, node, left, m);
      ghost var m' := Snapshot(m.Keys - {victim} + {tmp});
      assert m'[tmp].child == m[node].child;
      SwapStepSwapped(m, m', victim, node, tmp, left, root0);
    }

    /** Record the shape of a tree whose nodes have been renamed. */
    ghost method Rename(m: Links<T>, slot: Slot, victim: Node<T>, node: Node<T>, tmp: Node<T>)
      requires Linked(shape, m, null, slot) && Distinct(shape) && Balanced(shape) && Nodes(shape) == m.Keys
      requires victim in m && node in m && victim != node && tmp !in m && numnodes == |Contents()|
      requires Swapped(m, Snapshot(m.Keys - {victim} + {tmp}), m.Keys, victim, node, tmp)
      requires root == SwapLink(TopOf(shape), victim, node, tmp)
      modifies this`shape
      ensures Valid() && Nodes(shape) == m.Keys - {victim} + {tmp}
      ensures Contents() == SwapSeq(old(Contents()), victim, node, tmp)
    {
      hide Swapped, SwapShape, Inorder, Distinct, Balanced;
      ghost var m' := Snapshot(m.Keys - {victim} + {tmp});
      SwapWellFormed(shape, m, m', slot, victim, node, tmp);
      shape := SwapShape(shape, victim, node, tmp);
      assert Snapshot(Nodes(shape)) == m';
      if shape.Bin? {
        assert m'[shape.node].slot == slot;
      }
    }

    lemma {:induction false} Reciprocity()
      requires Valid()
      ensures Reciprocal(Snapshot(Nodes(shape)), root)
    {
      if shape.Bin? {
        LinkedReciprocal(shape, Snapshot(Nodes(shape)), shape.node.slot);
      }
    }

    /** The adjacent node from whichever side is taller. */
    method TallerNeighbour(victim: Node<T>) returns (node: Node<T>, left: Slot)
      requires Valid() && victim in Nodes(shape) && victim.child.zero != null && victim.child.one != null
      ensures Valid() && SwapReady(Snapshot(Nodes(shape)), victim, node, left)
      ensures victim in Contents() && node in Contents()
      ensures var k, j := IndexOf(Contents(), victim), IndexOf(Contents(), node); j == k - 1 || j == k + 1
    {
      ghost var m := Snapshot(Nodes(shape));
      ghost var c, t := Position(victim);
      Reciprocity();
      left := if victim.balance <= 0 then 0 else 1;
      node := Neighbour(victim, left, c, t);
      assert Snapshot(Nodes(shape)) == m;
      NeighbourReady(c, t, node, left, m, root, Contents());
    }

    /** Exchange a node for the adjacent one, as a tree. */
    method ExchangeWith(victim: Node<T>, node: Node<T>, left: Slot) returns (tmp: Node<T>)
      requires Valid() && SwapReady(Snapshot(Nodes(shape)), victim, node, left)
      modifies this`root, this`shape, Nodes(shape)
      ensures Valid() && numnodes == old(numnodes) && tmp !in old(Contents()) && tmp !in old(Nodes(shape)) && fresh(tmp)
      ensures Nodes(shape) == old(Nodes(shape)) - {victim} + {tmp}
      ensures tmp.child.zero == null || tmp.child.one == null
      ensures Contents() == SwapSeq(old(Contents()), victim, node, tmp)
    {
      ghost var m := Snapshot(Nodes(shape));
      ghost var slot: Slot := shape.node.slot;
      Reciprocity();
      tmp := ExchangeLinks(victim, node, left, m);
      InNodes(shape, tmp);
      Rename(m, slot, victim, node, tmp);
    }

    /** Exchange a node with two children for the adjacent one: the placeholder has at most one child. */
    method Exchange(victim: Node<T>) returns (tmp: Node<T>, ghost node: Node<T>)
      requires Valid() && victim in Nodes(shape) && victim.child.zero != null && victim.child.one != null
      modifies this`root, this`shape, Nodes(shape)
      ensures Valid() && numnodes == old(numnodes) && tmp !in old(Contents()) && tmp !in old(Nodes(shape)) && fresh(tmp)
      ensures Nodes(shape) == old(Nodes(shape)) - {victim} + {tmp}
      ensures tmp.child.zero == null || tmp.child.one == null
      ensures victim in old(Contents()) && node in old(Contents()) && node != victim
      ensures var s := old(Contents()); var k, j := IndexOf(s, victim), IndexOf(s, node); j == k - 1 || j == k + 1
      ensures Contents() == SwapSeq(old(Contents()), victim, node, tmp)
    {
      var n, left := TallerNeighbour(victim);
      node := n;
      tmp := ExchangeWith(victim, n, left);
    }

    /** Repair upwards from a subtree that has shrunk by one, and record the result. */
    method CloseUp(parent: Node?<T>, which: Slot, ghost c: Context<Node<T>>, ghost u: Shape<Node<T>>,
                   ghost s: set<Node<T>>, ghost order: seq<Node<T>>)
      requires Repairing(c, u, Snapshot(s), Height(u) + 1, root, order) && numnodes == |order|
      requires parent == Owner(c) && which == SlotOf(c)
      modifies this`root, this`shape, s
      ensures Valid() && Contents() == order && Nodes(shape) == s
    {
      ghost var c', t' := ShrinkUp(parent, which, c, u, Height(u) + 1, s, order);
      Settle(c', t', s, order);
    }

    /** Remove a node with at most one child, given its position. */
    method RemoveAt(node: Node<T>, ghost c: Context<Node<T>>, ghost t: Shape<Node<T>>, ghost s: set<Node<T>>,
                    ghost order: seq<Node<T>>)
      returns (ghost rest: seq<Node<T>>)
      requires t.Bin? && t.node == node && (t.left.Nil? || t.right.Nil?) && numnodes == |order|
      requires Repairing(c, t, Snapshot(s), Height(t), root, order)
      modifies this, s
      ensures Valid() && Contents() == rest && Nodes(shape) == s - {node}
      ensures var k := |Before(c)| + |Inorder(t.left)|; k < |order| && rest == order[..k] + order[k + 1..]
    {
      var parent, which, u, r := Unlink(node, c, t, s, order);
      rest := r;
      CloseUp(parent, which, c, u, s - {node}, rest);
    }

    /** Remove a node with at most one child. */
    method RemoveSimple(node: Node<T>)
      requires Valid() && node in Nodes(shape) && (node.child.zero == null || node.child.one == null)
      modifies this, Nodes(shape)
      ensures Valid() && Nodes(shape) == old(Nodes(shape)) - {node}
      ensures node in old(Contents())
      ensures var s := old(Contents()); var k := IndexOf(s, node); Contents() == s[..k] + s[k + 1..]
    {
      hide Repairing, Linked, Balanced, Distinct, Inorder, Nodes;
      ghost var c, t := Position(node);
      ghost var _ := RemoveAt(node, c, t, Nodes(shape), Contents());
    }

    /** Remove a node: the contents lose exactly that node, and keep their order. */
    method Remove(victim: Node<T>)
      requires Valid() && victim in Nodes(shape)
      modifies this, Nodes(shape)
      ensures Valid() && Nodes(shape) == old(Nodes(shape)) - {victim}
      ensures victim in old(Contents())
      ensures var s := old(Contents()); var k := IndexOf(s, victim); Contents() == s[..k] + s[k + 1..]
      ensures old(Ordered()) ==> Ordered()
    {
      hide Repairing, Linked, Balanced, Distinct, Inorder, Nodes;
      if victim.child.zero != null && victim.child.one != null {
        ghost var s := Contents();
        InorderDistinct(shape);
        var tmp, node := Exchange(victim);
        CutRenamed(s, victim, node, tmp);
        RemoveSimple(tmp);
      } else {
        RemoveSimple(victim);
      }
      if old(Ordered()) {
        CutSorted(compare, old(Contents()), IndexOf(old(Contents()), victim));
      }
    }

    /** The whole tree, as a position. */
    lemma {:induction false} Whole() returns (c: Context<Node<T>>)
      requires Valid()
      ensures c.Top? && Repairing(c, shape, Snapshot(Nodes(shape)), Height(shape), root, Contents())
    {
      c := Top(if shape.Nil? then 0 else shape.node.slot);
      assert Before(c) + Contents() + After(c) == Contents();
    }

    /** `value` belongs at index `k`: everything before is smaller and everything from there on greater. */
    ghost predicate Fits(value: T, k: nat)
      reads this
    {
      k <= |Contents()| && AllBelow(compare, Contents()[..k], value) && AllAbove(compare, value, Contents()[k..])
    }

    /** The place a search ended at, in terms of the contents. */
    lemma {:induction false} Missed(c: Context<Node<T>>, value: T, where: Node?<T>, which: Slot)
      requires Valid() && Searching(c, Nil, Snapshot(Nodes(shape)), root, Contents(), compare, value)
      requires where == Owner(c) && (c.Up? ==> which == c.d)
      ensures InsertPoint(where, which) && Fits(value, InsertIndex(where, which))
    {
      var s := Contents();
      assert s == Before(c) + After(c);
      assert s[..|Before(c)|] == Before(c) && s[|Before(c)|..] == After(c);
      if c.Up? {
        assert s[|Before(c)| - c.d] == where;
        IndexIs(where, |Before(c)| - c.d);
      }
    }

    /** Search for a value; on failure, report the free slot where it belongs. */
    method Find(value: T) returns (found: Node?<T>, where: Node?<T>, which: Slot)
      requires Valid() && Ordered()
      ensures Valid()
      ensures found != null ==> found in Nodes(shape) && compare(value, found.data) == 0
      ensures found == null ==> InsertPoint(where, which) && Fits(value, InsertIndex(where, which))
    {
      ghost var m, s, t := Snapshot(Nodes(shape)), Contents(), shape;
      ghost var c := Whole();
      var node := root;
      found, where, which := null, null, 0;
      while node != null
        invariant Searching(c, t, m, root, s, compare, value) && node == TopOf(t)
        invariant where == Owner(c) && (c.Up? ==> which == c.d)
        decreases t
      {
        where := node;
        var diff := compare(value, node.data);
        if diff == 0 {
          found := node;
          return;
        }
        which := if diff < 0 then 0 else 1;
        node := node.child.At(which);
        c, t := SearchStep(c, t, m, root, s, compare, value, which);
      }
      Missed(c, value, where, which);
    }

    /** The climb of a walk starts at a node with nothing below it on that side. */
    lemma {:induction false} ReturnStart(node: Node<T>, d: Slot) returns (c: Context<Node<T>>, t: Shape<Node<T>>)
      requires Valid() && node in Nodes(shape) && node.child.At(d) == null
      ensures t.Bin? && t.node == node && node in Contents()
      ensures Returning(c, t, Snapshot(Nodes(shape)), root, Contents(), IndexOf(Contents(), node), d)
    {
      c, t := Position(node);
      assert Kid(t, d).Nil?;
      assert |Contents()| == |Before(c)| + |Inorder(t.left)| + 1 + |Inorder(t.right)| + |After(c)|;
    }

    /** Climb until coming from the other side. */
    method ReturnUp(start: Node<T>, left: Slot) returns (n: Node?<T>)
      requires Valid() && start in Nodes(shape) && start.child.At(left) == null
      ensures Valid() && start in Contents() && n == Beside(Contents(), IndexOf(Contents(), start), left)
    {
      ghost var m, s := Snapshot(Nodes(shape)), Contents();
      ghost var c, t := ReturnStart(start, left);
      ghost var k := IndexOf(s, start);
      n := start;
      while true
        invariant n != null && Returning(c, t, m, root, s, k, left) && t.node == n
        decreases c
      {
        ghost var t' := ReturnStep(c, t, m, root, s, k, left);
        var wasChild := n.slot;
        n := n.parent;
        if n == null {
          return;
        }
        if wasChild == 1 - left {
          return;
        }
        c, t := c.outer, t';
      }
    }

    /** The node before (`left == 0`) or after (`left == 1`) a given one, found through links only. */
    method Walk(node: Node?<T>, left: Slot) returns (n: Node?<T>)
      requires Valid() && (node != null ==> node in Nodes(shape))
      ensures Valid() && (node == null ==> n == null)
      ensures node != null ==> node in Contents() && n == Beside(Contents(), IndexOf(Contents(), node), left)
    {
      hide Repairing, Linked, Balanced, Distinct, Inorder, Nodes;
      if node == null {
        return null;
      }
      if node.child.At(left) != null {
        ghost var c, t := Position(node);
        n := Neighbour(node, left, c, t);
      } else {
        n := ReturnUp(node, left);
      }
    }

    /** The two directions of a walk are inverse. */
    lemma {:induction false} WalkBack(node: Node<T>, left: Slot)
      requires Valid() && node in Contents() && Beside(Contents(), IndexOf(Contents(), node), left) != null
      ensures var s := Contents(); var n: Node<T> := Beside(s, IndexOf(s, node), left);
              n in s && Beside(s, IndexOf(s, n), 1 - left) == node
    {
      var k := IndexOf(Contents(), node);
      var j := if left == 0 then k - 1 else k + 1;
      IndexIs(Contents()[j], j);
    }

    /** The lowest (`d == 0`) or highest (`d == 1`) node, if any. */
    method Outermost(d: Slot) returns (prev: Node?<T>)
      requires Valid()
      ensures Valid() && prev == Outer(Contents(), d)
    {
      ghost var m, s, t := Snapshot(Nodes(shape)), Contents(), shape;
      ghost var c := Whole();
      prev := null;
      var node := root;
      while node != null
        invariant Edging(c, t, m, root, s, d) && node == TopOf(t)
        invariant t.Nil? ==> prev == Outer(s, d)
        decreases t
      {
        prev := node;
        node := node.child.At(d);
        c, t := EdgeStep(c, t, m, root, s, d);
      }
    }

    /** The node next to a free slot: the greatest before it (`direction == 0`) or the least after it. */
    method Nearest(where: Node?<T>, which: Slot, direction: Slot) returns (n: Node?<T>)
      requires Valid() && InsertPoint(where, which)
      ensures var s, k := Contents(), InsertIndex(where, which);
              && k <= |s|
              && n == (if direction == 0 then if k == 0 then null else s[k - 1] else if k == |s| then null else s[k])
    {
      if where == null {
        return null;
      }
      InNodes(shape, where);
      if which != direction {
        n := where;
      } else {
        n := Walk(where, direction);
      }
    }

    /** Around the slot a failed search ended at: the greatest smaller and the least greater node. */
    lemma {:induction false} NearestFits(value: T, k: nat)
      requires Ordered() && Fits(value, k)
      ensures forall i | 0 <= i < |Contents()| :: compare(Contents()[i].data, value) < 0 <==> i < k
      ensures forall i | 0 <= i < k :: compare(Contents()[i].data, Contents()[k - 1].data) <= 0
      ensures forall i | k <= i < |Contents()| :: compare(Contents()[k].data, Contents()[i].data) <= 0
    {
      var s := Contents();
      forall i | 0 <= i < |s| ensures if i < k then compare(s[i].data, value) < 0 else compare(value, s[i].data) < 0 {
        assert if i < k then s[..k][i] == s[i] else s[k..][i - k] == s[i];
      }
    }

    method InsertNear(node: Node<T>, where: Node<T>, which: Slot, ghost k: nat)
      requires Valid() && node !in Nodes(shape) && where in Contents() && where in Nodes(shape)
      requires where.child.At(which) == null && k == IndexOf(Contents(), where) + which
      modifies this, Nodes(shape), node
      ensures Valid() && Contents() == old(Contents())[..k] + [node] + old(Contents())[k..]
    {
      Insert(node, where, which);
    }

    /** A free slot directly before or after `here`: its own, or that of the adjacent node on that side. */
    method SlotBeside(here: Node<T>, direction: Slot) returns (where: Node<T>, which: Slot)
      requires Valid() && here in Nodes(shape)
      ensures Valid() && here in Contents() && where in Contents() && where in Nodes(shape)
      ensures where.child.At(which) == null
      ensures IndexOf(Contents(), where) + which == IndexOf(Contents(), here) + direction
    {
      InNodes(shape, here);
      if here.child.At(direction) != null {
        ghost var c, t := Position(here);
        where := Neighbour(here, direction, c, t);
        which := 1 - direction;
      } else {
        where, which := here, direction;
      }
    }

    /** Insert `node` directly before (`direction == 0`) or after (`direction == 1`) `here`. */
    method InsertHere(node: Node<T>, here: Node<T>, direction: Slot)
      requires Valid() && node !in Nodes(shape) && here in Nodes(shape)
      modifies this, Nodes(shape), node
      ensures Valid() && here in old(Contents())
      ensures var s := old(Contents()); var k := IndexOf(s, here) + direction;
              Contents() == s[..k] + [node] + s[k..]
    {
      var where, which := SlotBeside(here, direction);
      InsertNear(node, where, which, IndexOf(Contents(), here) + direction);
    }

    /** Add a node where its value belongs; a value already present is refused. */
    method Add(node: Node<T>) returns (added: bool)
      requires Valid() && Ordered() && node !in Nodes(shape)
      modifies this, Nodes(shape), node
      ensures Valid() && Ordered()
      ensures added <==> forall n | n in old(Contents()) :: compare(node.data, n.data) != 0
      ensures !added ==> Contents() == old(Contents())
      ensures added ==> multiset(Contents()) == multiset(old(Contents())) + multiset{node}
    {
      var found, where, which := Find(node.data);
      if found != null {
        InNodes(shape, found);
        return false;
      }
      ghost var s, k := Contents(), InsertIndex(where, which);
      assert s == s[..k] + s[k..];
      Insert(node, where, which);
      InsertSorted(compare, s, k, node);
      FitsNone(compare, s, k, node.data);
      added := true;
    }

    /** Every node in turn, from the first by stepping to the next or from the last by stepping back. */
    method Enumerate(left: Slot) returns (visited: seq<Node<T>>)
      requires Valid()
      ensures |visited| == |Contents()|
      ensures forall i | 0 <= i < |visited| :: visited[i] == Contents()[if left == 1 then i else |visited| - 1 - i]
    {
      hide Repairing, Linked, Balanced, Distinct, Inorder, Nodes;
      visited := [];
      var node := Outermost(1 - left);
      while node != null
        invariant Valid() && |visited| <= |Contents()|
        invariant forall i | 0 <= i < |visited| ::
                    visited[i] == Contents()[if left == 1 then i else |Contents()| - 1 - i]
        invariant if |visited| == |Contents()| then node == null else
                    node == Contents()[if left == 1 then |visited| else |Contents()| - 1 - |visited|]
        decreases |Contents()| - |visited|
      {
        IndexIs(node, if left == 1 then |visited| else |Contents()| - 1 - |visited|);
        visited := visited + [node];
        node := Walk(node, left);
      }
    }

    /** What a destruction in progress has left, `c` being the context of the node handed out last. */
    ghost predicate Destroying(cookie: Cookie<T>, c: Context<Node<T>>)
      reads this, Nodes(shape), ContextNodes(c)
    {
      match cookie
      case Start => Valid()
      case Resume(parent, slot) =>
        && parent == Owner(c) && (c.Up? ==> slot == c.d && root != null)
        && DistinctContext(c) && Hanging(c, Snapshot(ContextNodes(c)))
        && numnodes == (if root == null then 0 else |Later(c)| + 1)
    }

    /** The nodes not handed out yet, in the order in which they will be. */
    ghost function Pending(cookie: Cookie<T>, c: Context<Node<T>>): seq<Node<T>>
      reads this
    {
      if cookie.Start? then Postorder(shape) else Later(c)
    }

    /** The nodes a destruction may still write to. */
    ghost function Remaining(cookie: Cookie<T>, c: Context<Node<T>>): set<Node<T>>
      reads this
    {
      if cookie.Start? then Nodes(shape) else ContextNodes(c)
    }

    /** Down to the leftmost node of an untouched subtree, and one to the right if it has a right child. */
    method LeftmostLeaf(start: Node<T>, ghost c0: Context<Node<T>>, ghost t0: Shape<Node<T>>, ghost m: Links<T>,
                        ghost later: seq<Node<T>>)
      returns (node: Node<T>, parent: Node?<T>, ghost c: Context<Node<T>>)
      requires t0.Bin? && t0.node == start && Standing(c0, t0, m, later)
      requires m.Keys == ContextNodes(c0) + Nodes(t0) && m == Snapshot(m.Keys)
      ensures later != [] && node == later[0] && Later(c) == later[1..] && parent == Owner(c)
      ensures DistinctContext(c) && Hanging(c, m) && node !in ContextNodes(c) && node in m && node.slot == SlotOf(c)
      ensures ContextNodes(c) == m.Keys - {node} && (c.Top? ==> c0.Top?)
    {
      ghost var t := t0;
      node, parent, c := start, start.parent, c0;
      while node.child.zero != null
        invariant t.Bin? && t.node == node && Standing(c, t, m, later) && m.Keys == ContextNodes(c) + Nodes(t)
        invariant parent == Owner(c) && (c.Top? ==> c0.Top?)
        decreases t
      {
        ghost var c', t' := StandLeft(c, t, m, later);
        parent := node;
        node := node.child.zero;
        c, t := c', t';
      }
      ghost var c', t' := StandLeft(c, t, m, later);
      if node.child.one != null {
        c', t' := StandRight(c, t, m, later);
        assert node.balance == 1;
        parent := node;
        node := node.child.one;
        c, t := c', t';
        assert node.child.zero == null && node.child.one == null;
      } else {
        assert node.balance <= 0;
      }
      assert Postorder(t) == [node];
    }

    /** Go on in an untouched subtree. */
    method DestroyRight(start: Node<T>, ghost c: Context<Node<T>>, ghost t: Shape<Node<T>>, ghost later: seq<Node<T>>)
      returns (node: Node<T>, up: Node?<T>, ghost c': Context<Node<T>>)
      requires t.Bin? && t.node == start && Standing(c, t, Snapshot(ContextNodes(c) + Nodes(t)), later)
      ensures later != [] && node == later[0] && Later(c') == later[1..] && up == Owner(c')
      ensures DistinctContext(c') && ContextNodes(c') == ContextNodes(c) + Nodes(t) - {node}
      ensures Hanging(c', Snapshot(ContextNodes(c'))) && node in ContextNodes(c) + Nodes(t) && node.slot == SlotOf(c')
      ensures c'.Top? ==> c.Top?
    {
      ghost var m := Snapshot(ContextNodes(c) + Nodes(t));
      node, up, c' := LeftmostLeaf(start, c, t, m, later);
      KeepHanging(c', m, Snapshot(ContextNodes(c')));
    }

    /** Begin with the whole tree. */
    method DestroyFirst() returns (node: Node<T>, up: Node?<T>, ghost c': Context<Node<T>>)
      requires Valid() && root != null
      ensures var later := Postorder(shape);
              later != [] && node == later[0] && Later(c') == later[1..] && numnodes == |later|
      ensures up == Owner(c') && DistinctContext(c') && ContextNodes(c') == Nodes(shape) - {node}
      ensures Hanging(c', Snapshot(ContextNodes(c'))) && node in Nodes(shape) && node.slot == SlotOf(c')
    {
      ghost var c := Whole();
      assert ContextNodes(c) + Nodes(shape) == Nodes(shape);
      assert Postorder(shape) + Later(c) == Postorder(shape);
      PostorderLength(shape);
      node, up, c' := DestroyRight(root, c, shape, Postorder(shape));
    }

    /** Go on after the child in slot `slot` of `parent` has been handed out. */
    method DestroyBelow(parent: Node<T>, slot: Slot, ghost c: Context<Node<T>>)
      returns (node: Node<T>, up: Node?<T>, ghost c': Context<Node<T>>)
      requires c.Up? && c.node == parent && c.d == slot && DistinctContext(c) && Hanging(c, Snapshot(ContextNodes(c)))
      requires numnodes == |Later(c)| + 1
      modifies this`numnodes, parent`child
      ensures Later(c) != [] && node == Later(c)[0] && Later(c') == Later(c)[1..] && numnodes == |Later(c)|
      ensures up == Owner(c') && DistinctContext(c') && ContextNodes(c') == ContextNodes(c) - {node}
      ensures Hanging(c', Snapshot(ContextNodes(c'))) && node in ContextNodes(c) && node.slot == SlotOf(c')
    {
      ghost var m := Snapshot(ContextNodes(c));
      parent.child := parent.child.With(slot, null);
      numnodes := numnodes - 1;
      ghost var m' := Snapshot(ContextNodes(c));
      assert m' == m[parent := m[parent].(child := m[parent].child.With(slot, null))];
      if slot == 1 || parent.child.one == null {
        node, up, c' := parent, parent.parent, c.outer;
        ClearedUp(c, m, Snapshot(ContextNodes(c')));
      } else {
        ghost var c1 := ClearedRight(c, m, m');
        assert ContextNodes(c1) + Nodes(c.sib) == ContextNodes(c);
        node, up, c' := DestroyRight(parent.child.one, c1, c.sib, Later(c));
      }
    }

    /**
      * Hand out one more node of a tree being destroyed.  The nodes come in post-order, and a node that
      * has been handed out is no longer written to; when none is left the tree is empty.
      */
    method DestroyNodes(cookie: Cookie<T>, ghost c: Context<Node<T>>)
      returns (node: Node?<T>, next: Cookie<T>, ghost c': Context<Node<T>>)
      requires Destroying(cookie, c)
      modifies this, Remaining(cookie, c)
      ensures Destroying(next, c') && next.Resume?
      ensures var p := old(Pending(cookie, c));
              if p == [] then node == null && root == null && numnodes == 0 && Pending(next, c') == []
              else && node == p[0] && Pending(next, c') == p[1..]
                   && Remaining(next, c') == old(Remaining(cookie, c)) - {node}
    {
      var up: Node?<T>;
      if cookie.Start? {
        if root == null {
          return null, Resume(null, 1), Top(1);
        }
        node, up, c' := DestroyFirst();
      } else if cookie.parent == null {
        if root != null {
          root := null;
          numnodes := 0;
        }
        return null, cookie, c;
      } else {
        node, up, c' := DestroyBelow(cookie.parent, cookie.slot, c);
      }
      next := if up == null then Resume(null, 1) else Resume(up, node.slot);
    }

    /** Calling until nothing comes back hands out exactly what is pending, and leaves the tree empty. */
    method DestroyRest(cookie: Cookie<T>, ghost c: Context<Node<T>>) returns (freed: seq<Node<T>>)
      requires Destroying(cookie, c)
      modifies this, Remaining(cookie, c)
      ensures freed == old(Pending(cookie, c)) && root == null && numnodes == 0
      decreases |Pending(cookie, c)|
    {
      var node, next, c' := DestroyNodes(cookie, c);
      if node == null {
        freed := [];
      } else {
        var rest := DestroyRest(next, c');
        freed := [node] + rest;
      }
    }

    /** Destroying a whole tree hands out every node exactly once, children before parents. */
    method DestroyAll() returns (freed: seq<Node<T>>)
      requires Valid()
      modifies this, Nodes(shape)
      ensures freed == old(Postorder(shape)) && multiset(freed) == multiset(old(Nodes(shape)))
      ensures root == null && numnodes == 0
    {
      PostorderOnce(shape);
      freed := DestroyRest(Start, Top(0));
    }
  }
}
