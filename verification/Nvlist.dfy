/**
  * A name-value list in memory: pairs linked in both directions, a first and a last one, and the
  * cursor of the iteration.
  */
module Nvlist {
  import opened ByteOrder
  import opened Errno
  import opened NvData
  import opened NvNative
  import opened NvlistSpec

  /** An i_nvp_t. */
  class Node {
    const pair: Entry
    var next: Node?
    var prev: Node?

    constructor (pair: Entry)
      ensures this.pair == pair && next == null && prev == null
    {
      this.pair := pair;
      next, prev := null, null;
    }
  }

  /** The node at a place, if it is one. */
  ghost function At(ns: seq<Node>, i: int): Node? {
    if 0 <= i < |ns| then ns[i] else null
  }

  ghost predicate Apart(ns: seq<Node>) {
    forall i, j :: 0 <= i < j < |ns| ==> ns[i] != ns[j]
  }

  /** The links describe the sequence, in both directions. */
  ghost predicate Linked(ns: seq<Node>)
    reads ns
  {
    && Apart(ns)
    && (forall i {:trigger ns[i].next} :: 0 <= i < |ns| ==> ns[i].next == At(ns, i + 1))
    && (forall i {:trigger ns[i].prev} :: 0 <= i < |ns| ==> ns[i].prev == At(ns, i - 1))
  }

  /** The neighbours of the node at `k` point past it, the others as before. */
  ghost predicate Bypassed(ns: seq<Node>, k: nat)
    reads ns
  {
    && k < |ns|
    && (forall i {:trigger ns[i].next} :: 0 <= i < |ns| && i != k ==>
          ns[i].next == At(ns, if i == k - 1 then k + 1 else i + 1))
    && (forall i {:trigger ns[i].prev} :: 0 <= i < |ns| && i != k ==>
          ns[i].prev == At(ns, if i == k + 1 then k - 1 else i - 1))
  }

  lemma {:induction false} Cut(ns: seq<Node>, k: nat, ms: seq<Node>)
    requires Apart(ns) && Bypassed(ns, k) && ms == ns[..k] + ns[k + 1..]
    ensures Linked(ms)
  {
    CutAt(ns, k, ms);
  }

  /** The last node points to `n` and back, the others as before. */
  ghost predicate Extended(ns: seq<Node>, n: Node)
    reads ns, n
  {
    && (forall i {:trigger ns[i].next} :: 0 <= i < |ns| ==> ns[i].next == if i == |ns| - 1 then n else At(ns, i + 1))
    && (forall i {:trigger ns[i].prev} :: 0 <= i < |ns| ==> ns[i].prev == At(ns, i - 1))
    && n.next == null && n.prev == At(ns, |ns| - 1)
  }

  lemma {:induction false} Extend(ns: seq<Node>, n: Node, ms: seq<Node>)
    requires Apart(ns) && n !in ns && Extended(ns, n) && ms == ns + [n]
    ensures Linked(ms)
  {
  }

  function Pairs(ns: seq<Node>): (ps: seq<Pair>)
    ensures |ps| == |ns| && forall i :: 0 <= i < |ns| ==> ps[i] == ns[i].pair
  {
    seq(|ns|, i requires 0 <= i < |ns| => ns[i].pair)
  }

  lemma {:induction false} CutAt(ns: seq<Node>, k: nat, ms: seq<Node>)
    requires k < |ns| && ms == ns[..k] + ns[k + 1..]
    ensures |ms| == |ns| - 1
    ensures forall i :: 0 <= i < |ms| ==> ms[i] == ns[if i < k then i else i + 1]
  {
  }

  lemma {:induction false} CutPairs(ns: seq<Node>, k: nat, ms: seq<Node>)
    requires k < |ns| && ms == ns[..k] + ns[k + 1..]
    ensures Pairs(ms) == Pairs(ns)[..k] + Pairs(ns)[k + 1..]
  {
  }

  /** The ends and the cursor of the shorter sequence. */
  lemma {:induction false} CutEnds(ns: seq<Node>, k: nat, ms: seq<Node>, place: nat)
    requires k < |ns| && ms == ns[..k] + ns[k + 1..] && place != k && place <= |ns|
    ensures |ms| == |ns| - 1
    ensures At(ms, 0) == At(ns, if k == 0 then 1 else 0)
    ensures At(ms, |ms| - 1) == At(ns, if k == |ns| - 1 then k - 1 else |ns| - 1)
    ensures At(ms, if place > k then place - 1 else place) == At(ns, place)
    ensures forall i :: 0 <= i < |ms| ==> ms[i] == ns[if i < k then i else i + 1]
  {
    CutAt(ns, k, ms);
  }

  class List {
    const flag: int          // nvl_nvflag
    var first: Node?         // nvp_list
    var last: Node?          // nvp_last
    var curr: Node?          // nvp_curr
    ghost var nodes: seq<Node>
    ghost var repr: set<Node>
    ghost var place: nat     // where the cursor is; behind the last node when there is none

    ghost predicate Valid()
      reads this, repr
    {
      && 0 <= flag
      && (forall i :: 0 <= i < |nodes| ==> nodes[i] in repr)
      && Linked(nodes)
      && first == At(nodes, 0)
      && last == At(nodes, |nodes| - 1)
      && place <= |nodes| && curr == At(nodes, place)
    }

    /** nvlist_alloc keeps the two uniqueness flags only. */
    constructor (nvflag: nat)
      ensures Valid() && flag == nvflag % 4 && nodes == [] && repr == {} && curr == null
    {
      flag := nvflag % 4;
      first, last, curr, nodes, repr, place := null, null, null, [], {}, 0;
    }

    /** nvlist_unpack takes the flags as they are in the stream. */
    constructor Unmasked(nvflag: nat)
      ensures Valid() && flag == nvflag && nodes == [] && repr == {} && curr == null
    {
      flag := nvflag;
      first, last, curr, nodes, repr, place := null, null, null, [], {}, 0;
    }

    ghost function Contents(): seq<Pair>
      reads this
    {
      Pairs(nodes)
    }

    /** The list as a value. */
    ghost function AsValue(): NvList
      reads this
    {
      NvList(flag, Contents())
    }

    /** The pointer changes of nvp_buf_link. */
    method Append(n: Node)
      requires Valid() && n !in nodes && n.next == null && n.prev == null
      modifies this`first, this`last, last, n
      ensures Extended(nodes, n) && first == (if nodes == [] then n else nodes[0]) && last == n
    {
      if first == null {
        first, last := n, n;
      } else {
        n.prev := last;
        last.next := n;
        last := n;
      }
      assert forall i :: 0 <= i < |nodes| - 1 ==> nodes[i] != nodes[|nodes| - 1];
    }

    /** nvp_buf_link. */
    method Link(n: Node)
      requires Valid() && n !in nodes && n.next == null && n.prev == null
      modifies this`first, this`last, this`nodes, this`repr, this`place, last, n
      ensures Valid() && nodes == old(nodes) + [n] && curr == old(curr) && repr == old(repr) + {n}
      ensures Contents() == old(Contents()) + [n.pair]
    {
      ghost var ns := nodes;
      Append(n);
      hide Extended;
      Extend(ns, n, ns + [n]);
      place := if curr == null then |ns| + 1 else place;
      nodes, repr := ns + [n], repr + {n};
    }

    /** The pointer changes of nvp_buf_unlink. */
    method Bypass(n: Node, ghost k: nat)
      requires Valid() && k < |nodes| && nodes[k] == n
      modifies this`first, this`last, repr
      ensures Bypassed(nodes, k)
      ensures first == At(nodes, if k == 0 then 1 else 0)
      ensures last == At(nodes, if k == |nodes| - 1 then k - 1 else |nodes| - 1)
    {
      if n == first {
        first := n.next;
      } else {
        n.prev.next := n.next;
      }
      if n == last {
        last := n.prev;
      } else {
        n.next.prev := n.prev;
      }
    }

    /** nvp_buf_unlink: the cursor does not stay on a node that is gone. */
    method Unlink(n: Node, ghost k: nat)
      requires Valid() && k < |nodes| && nodes[k] == n
      modifies this`first, this`last, this`curr, this`nodes, this`place, repr
      ensures Valid() && nodes == old(nodes[..k] + nodes[k + 1..])
      ensures curr == if old(curr) == n then old(n.next) else old(curr)
    {
      hide Bypassed, HeldPair;
      if curr == n {
        curr := n.next;
        place := k + 1;
      }
      Bypass(n, k);
      ghost var ns, ms := nodes, nodes[..k] + nodes[k + 1..];
      Cut(ns, k, ms);
      CutEnds(ns, k, ms, place);
      nodes := ms;
      place := if place > k then place - 1 else place;
    }

    /** Unlink a pair; the node behind it takes its place. */
    method Delete(n: Node, ghost k: nat)
      requires Valid() && k < |nodes| && nodes[k] == n
      modifies this`first, this`last, this`curr, this`nodes, this`place, repr
      ensures Valid() && |nodes| == |old(nodes)| - 1 && At(nodes, k) == old(n.next)
      ensures Contents() == old(Contents()[..k] + Contents()[k + 1..])
    {
      ghost var ns := nodes;
      CutPairs(ns, k, ns[..k] + ns[k + 1..]);
      Unlink(n, k);
    }

    /** nvlist_remove_all. */
    method RemoveAll(name: seq<Byte>) returns (r: Result<()>)
      requires Valid()
      modifies this, repr
      ensures Valid() && repr == old(repr) && Contents() == Without(old(Contents()), name)
      ensures r == if |Contents()| == |old(Contents())| then Err(ENOENT) else Ok(())
    {
      hide Sifted, Without, HeldPair;
      ghost var goal, k := Sifted(Contents(), 0, name), 0;
      SiftedAll(Contents(), name);
      r := Err(ENOENT);
      var curr := first;
      while curr != null
        invariant Valid() && k <= |nodes| && curr == At(nodes, k) && repr == old(repr)
        invariant Sifted(Contents(), k, name) == goal
        invariant |nodes| <= |old(nodes)| && r == if |nodes| == |old(nodes)| then Err(ENOENT) else Ok(())
        decreases |nodes| - k
      {
        var n := curr;
        curr := curr.next;
        if n.pair.name == name {
          SiftedHere(Contents(), k, name);
          Delete(n, k);
          r := Ok(());
        } else {
          SiftedPast(Contents(), k, name);
          k := k + 1;
        }
      }
      SiftedEnd(Contents(), name);
    }

    /** The search of nvlist_remove and nvlist_lookup_common: the first pair of that name and type. */
    method Search(name: seq<Byte>, tag: Tag) returns (n: Node?, ghost k: nat)
      requires Valid()
      ensures k == Find(Contents(), name, tag) && n == At(nodes, k)
    {
      ghost var ps := Contents();
      k, n := 0, first;
      while n != null
        invariant k <= |nodes| && n == At(nodes, k)
        invariant forall i :: 0 <= i < k ==> !Matches(ps[i], name, tag)
        decreases |nodes| - k
      {
        if n.pair.name == name && TagOf(n.pair.value) == tag {
          FindIs(ps, name, tag, k);
          return;
        }
        n, k := n.next, k + 1;
      }
      FindIs(ps, name, tag, k);
    }

    /** nvlist_remove. */
    method Remove(name: seq<Byte>, tag: Tag) returns (r: Result<()>)
      requires Valid()
      modifies this, repr
      ensures Valid() && repr == old(repr) && Contents() == WithoutFirst(old(Contents()), name, tag)
      ensures r == if |Contents()| == |old(Contents())| then Err(ENOENT) else Ok(())
    {
      hide Linked, HeldPair, Find;
      var n, k := Search(name, tag);
      if n == null {
        return Err(ENOENT);
      }
      Delete(n, k);
      r := Ok(());
    }

    /** nvlist_lookup_common. */
    method LookUpValue(name: seq<Byte>, tag: Tag) returns (r: Result<Value>)
      requires Valid()
      ensures r == LookUp(flag, Contents(), name, tag)
    {
      if !UniqueName(flag) && !UniqueType(flag) {
        return Err(ENOTSUP);
      }
      var n, k := Search(name, tag);
      r := if n == null then Err(ENOENT) else Ok(n.pair.value);
    }

    /** nvlist_add_common: refused values, and pairs too large for an int, change nothing; embedded lists are copied;
        the flags decide what gives way. */
    method AddPair(name: seq<Byte>, value: Value) returns (r: Result<()>)
      requires Valid() && IsText(name) && Storable(name, value) && Typed(value)
      modifies this, repr
      ensures Valid() && fresh(repr - old(repr))
      ensures r == if !Acceptable(value) then Err(EINVAL)
                   else if PairSize(Pair(name, value)) > INT32_MAX then Err(ENOMEM) else Ok(())
      ensures Contents()
        == if r.Ok? then Added(flag, old(Contents()), CopiedPair(Pair(name, value))) else old(Contents())
    {
      if ValueSize(value) > INT32_MAX || !TruthsOk(value) {
        return Err(EINVAL);
      }
      AcceptedHeld(value);
      if PairSize(Pair(name, value)) > INT32_MAX {
        return Err(ENOMEM);
      }
      CopiedPairHeld(Pair(name, value));
      var n := new Node(CopiedPair(Pair(name, value)));
      if UniqueName(flag) {
        var _ := RemoveAll(name);
      } else if UniqueType(flag) {
        var _ := Remove(name, TagOf(value));
      }
      Link(n);
      r := Ok(());
    }

    /** Add a copy of one pair, and go on to the next. */
    method CopyPair(source: List, n: Node, ghost k: nat) returns (next: Node?)
      requires Valid() && source.Valid() && source != this && source.repr !! repr
      requires k < |source.nodes| && source.nodes[k] == n
      modifies this, repr
      ensures Valid() && fresh(repr - old(repr)) && source.Valid() && source.repr !! repr
      ensures next == At(source.nodes, k + 1) && Contents() == Added(flag, old(Contents()), CopiedPair(n.pair))
    {
      hide HeldPair, CopiedPair, Added, Linked;
      HeldAccepted(n.pair);
      assert Pair(n.pair.name, n.pair.value) == n.pair;
      var _ := AddPair(n.pair.name, n.pair.value);
      next := source.After(n, k);
    }

    method After(n: Node, ghost k: nat) returns (next: Node?)
      requires Valid() && k < |nodes| && nodes[k] == n
      ensures next == At(nodes, k + 1)
    {
      next := n.next;
    }

    /** nvlist_copy_pairs: a copy of every pair of the source is added, in order. */
    method CopyPairs(source: List)
      requires Valid() && source.Valid() && source != this && source.repr !! repr
      modifies this, repr
      ensures Valid() && fresh(repr - old(repr))
      ensures Contents() == Merged(flag, old(Contents()), CopiedPairs(source.Contents()))
    {
      hide HeldPair, CopiedPair, CopiedPairs, Added, Linked;
      ghost var ps := CopiedPairs(source.Contents());
      ghost var k := 0;
      var n := source.first;
      assert ps[0..] == ps;
      while n != null
        invariant Valid() && fresh(repr - old(repr)) && source.Valid() && source.repr !! repr
        invariant k <= |source.nodes| && n == At(source.nodes, k)
        invariant Merged(flag, Contents(), ps[k..]) == Merged(flag, old(Contents()), ps)
        decreases |source.nodes| - k
      {
        assert ps[k..][1..] == ps[k + 1..] && ps[k] == CopiedPair(n.pair);
        n := CopyPair(source, n, k);
        k := k + 1;
      }
    }

    /** nvlist_contains_nvp. */
    method Contains(nvp: Node) returns (r: bool, ghost k: nat)
      requires Valid()
      ensures (r <==> nvp in nodes) && k <= |nodes| && (r ==> nvp == At(nodes, k)) && (!r ==> k == |nodes|)
    {
      k := 0;
      var n := first;
      while n != null
        invariant k <= |nodes| && n == At(nodes, k) && nvp !in nodes[..k]
        decreases |nodes| - k
      {
        if n == nvp {
          return true, k;
        }
        n, k := n.next, k + 1;
      }
      r := false;
    }

    /** nvlist_next_nvpair: a pair that is present but not under the cursor is returned itself. */
    method Next(nvp: Node?) returns (r: Node?)
      requires Valid()
      modifies this`curr, this`place
      ensures Valid() && curr == r
      ensures nvp == null ==> r == first
      ensures nvp != null && nvp == old(curr) ==> r == nvp.next
      ensures nvp != null && nvp != old(curr) ==> r == if nvp in nodes then nvp else null
    {
      if nvp == null {
        r, place := first, 0;
      } else if curr == nvp {
        r, place := nvp.next, place + 1;
      } else {
        var here, k := Contains(nvp);
        r, place := if here then nvp else null, k;
      }
      curr := r;
    }

    /** A walk that starts from no pair meets every pair once, in order, and ends. */
    method Walk() returns (ns: seq<Node>)
      requires Valid()
      modifies this`curr, this`place
      ensures Valid() && ns == nodes && curr == null
    {
      ns := [];
      var n := Next(null);
      while n != null
        invariant Valid() && |ns| <= |nodes| && ns == nodes[..|ns|] && n == At(nodes, |ns|) && curr == n
        decreases |nodes| - |ns|
      {
        ns := ns + [n];
        n := Next(n);
      }
    }
  }

  /** nvlist_unpack, once a pair is decoded: it is linked as it is, whether it clashes or not. */
  method Unpacked(l: NvList) returns (list: List)
    requires HeldList(l)
    ensures fresh(list) && fresh(list.repr) && list.Valid() && list.AsValue() == l
  {
    list := new List.Unmasked(l.flag);
    for k := 0 to |l.pairs|
      invariant list.Valid() && fresh(list) && fresh(list.repr) && list.flag == l.flag
      invariant list.Contents() == l.pairs[..k]
    {
      assert HeldPair(l.pairs[k]);
      var n := new Node(l.pairs[k]);
      list.Link(n);
    }
  }

  /** nvlist_dup: a list of its own.  It is equal to the source exactly when, at every level, no pairs of the source
      clash and its flags are those nvlist_init keeps. */
  method Dup(source: List) returns (copy: List)
    requires source.Valid()
    ensures fresh(copy) && fresh(copy.repr) && copy.Valid()
    ensures copy.AsValue() == CopiedList(source.AsValue())
    ensures copy.AsValue() == source.AsValue() <==> DeepList(source.AsValue())
  {
    hide Merged, Linked, DeepList, CopiedPairs, HeldPair;
    copy := new List(source.flag);
    assert copy.Contents() == [];
    CopiedListExactly(source.AsValue());
    copy.CopyPairs(source);
  }

  /** nvlist_merge: a list merged with itself stays as it is. */
  method Merge(target: List, source: List)
    requires target.Valid() && source.Valid() && (source != target ==> source.repr !! target.repr)
    modifies target, target.repr
    ensures target.Valid()
    ensures target.Contents() ==
      if source == target then old(target.Contents())
      else Merged(target.flag, old(target.Contents()), CopiedPairs(source.Contents()))
  {
    if target != source {
      target.CopyPairs(source);
    }
  }

  // ---------- the values the add functions accept ----------

  /** What the C types allow: a boolean_t may hold any 32-bit number. */
  predicate Typed(v: Value) {
    match v
    case Number(Truth, n) => InRange(Int32, n)
    case Numbers(Truth, ns) => forall i :: 0 <= i < |ns| ==> InRange(Int32, ns[i])
    case _ => HeldValue(v)
  }

  /** i_validate_nvpair_value. */
  predicate TruthsOk(v: Value) {
    match v
    case Number(Truth, n) => n == 0 || n == 1
    case Numbers(Truth, ns) => forall i :: 0 <= i < |ns| ==> ns[i] == 0 || ns[i] == 1
    case _ => true
  }

  predicate Acceptable(v: Value) {
    HeldValue(v) && ValueSize(v) <= INT32_MAX
  }

  lemma {:induction false} AcceptedHeld(v: Value)
    requires Typed(v) && TruthsOk(v)
    ensures HeldValue(v)
  {
  }

  lemma {:induction false} HeldAccepted(p: Pair)
    requires HeldPair(p)
    ensures IsText(p.name) && Storable(p.name, p.value) && PairSize(p) <= INT32_MAX
    ensures Typed(p.value) && TruthsOk(p.value) && Acceptable(p.value)
  {
    assert Limit(Width(Int32)) > 2;
    Align8Grows(ValueSize(p.value), ValueSize(p.value));
  }

  lemma {:induction false} FindIs(ps: seq<Pair>, name: seq<Byte>, tag: Tag, k: nat)
    requires k <= |ps| && (k < |ps| ==> Matches(ps[k], name, tag))
    requires forall i :: 0 <= i < k ==> !Matches(ps[i], name, tag)
    ensures Find(ps, name, tag) == k
  {
  }

  // ---------- removing pair by pair ----------

  /** The first `k` pairs, and of the others those that do not have the name. */
  function Sifted(ps: seq<Pair>, k: nat, name: seq<Byte>): seq<Pair>
    requires k <= |ps|
    decreases k
  {
    if k == 0 then Without(ps, name) else [ps[0]] + Sifted(ps[1..], k - 1, name)
  }

  lemma {:induction false} SiftedAll(ps: seq<Pair>, name: seq<Byte>)
    ensures Sifted(ps, 0, name) == Without(ps, name)
  {
  }

  lemma {:induction false} SiftedPast(ps: seq<Pair>, k: nat, name: seq<Byte>)
    requires k < |ps| && ps[k].name != name
    ensures Sifted(ps, k + 1, name) == Sifted(ps, k, name)
    decreases k
  {
    if k > 0 {
      SiftedPast(ps[1..], k - 1, name);
    }
  }

  lemma {:induction false} SiftedHere(ps: seq<Pair>, k: nat, name: seq<Byte>)
    requires k < |ps| && ps[k].name == name
    ensures Sifted(ps[..k] + ps[k + 1..], k, name) == Sifted(ps, k, name)
    decreases k
  {
    if k == 0 {
      assert ps[..k] + ps[k + 1..] == ps[1..];
    } else {
      SiftedHere(ps[1..], k - 1, name);
      assert (ps[..k] + ps[k + 1..])[1..] == ps[1..][..k - 1] + ps[1..][k..];
    }
  }

  lemma {:induction false} SiftedEnd(ps: seq<Pair>, name: seq<Byte>)
    ensures Sifted(ps, |ps|, name) == ps
  {
    if ps != [] {
      SiftedEnd(ps[1..], name);
    }
  }
}
