/**
  * What adding, removing, looking up, copying and merging mean for the sequence of pairs of a list,
  * and a table from names and types to values that says the same without any order.
  */
module NvlistSpec {
  import opened ByteOrder
  import opened Errno
  import opened NvData
  import opened NvNative

  // NV_UNIQUE_NAME is 1 and NV_UNIQUE_NAME_TYPE is 2

  predicate UniqueName(flag: int) { flag % 2 == 1 }

  predicate UniqueType(flag: int) { flag / 2 % 2 == 1 }

  // ---------- the operations on the pairs ----------

  /** Without any pair of that name. */
  function Without(ps: seq<Pair>, name: seq<Byte>): (r: seq<Pair>)
    ensures |r| <= |ps|
    ensures |r| == |ps| <==> forall i :: 0 <= i < |ps| ==> ps[i].name != name
  {
    if ps == [] then [] else
      assert forall i :: 0 <= i < |ps| ==> ps[i] == if i == 0 then ps[0] else ps[1..][i - 1];
      if ps[0].name == name then Without(ps[1..], name) else [ps[0]] + Without(ps[1..], name)
  }

  predicate Matches(p: Pair, name: seq<Byte>, tag: Tag) {
    p.name == name && TagOf(p.value) == tag
  }

  /** The first pair of that name and type; the number of pairs if there is none. */
  function Find(ps: seq<Pair>, name: seq<Byte>, tag: Tag): (r: nat)
    ensures r <= |ps| && (r < |ps| ==> Matches(ps[r], name, tag))
    ensures forall i :: 0 <= i < r ==> !Matches(ps[i], name, tag)
  {
    if ps == [] || Matches(ps[0], name, tag) then 0 else
      var r := 1 + Find(ps[1..], name, tag);
      assert forall i :: 1 <= i < |ps| ==> ps[i] == ps[1..][i - 1];
      r
  }

  function WithoutFirst(ps: seq<Pair>, name: seq<Byte>, tag: Tag): seq<Pair> {
    var k := Find(ps, name, tag);
    if k == |ps| then ps else ps[..k] + ps[k + 1..]
  }

  /** Remove what the flags forbid, then link at the end. */
  function Added(flag: int, ps: seq<Pair>, p: Pair): seq<Pair> {
    (if UniqueName(flag) then Without(ps, p.name)
     else if UniqueType(flag) then WithoutFirst(ps, p.name, TagOf(p.value))
     else ps) + [p]
  }

  function Merged(flag: int, ps: seq<Pair>, more: seq<Pair>): seq<Pair>
    decreases more
  {
    if more == [] then ps else Merged(flag, Added(flag, ps, more[0]), more[1..])
  }

  function LookUp(flag: int, ps: seq<Pair>, name: seq<Byte>, tag: Tag): Result<Value> {
    if !UniqueName(flag) && !UniqueType(flag) then Err(ENOTSUP) else
      var k := Find(ps, name, tag);
      if k == |ps| then Err(ENOENT) else Ok(ps[k].value)
  }

  // ---------- what the flags promise ----------

  /** Two pairs the flags do not allow together. */
  predicate Clash(flag: int, p: Pair, q: Pair) {
    p.name == q.name && (UniqueName(flag) || (UniqueType(flag) && TagOf(p.value) == TagOf(q.value)))
  }

  predicate Distinct(flag: int, ps: seq<Pair>) {
    forall i, j :: 0 <= i < j < |ps| ==> !Clash(flag, ps[i], ps[j])
  }

  // ---------- the table ----------

  type Key = (seq<Byte>, Tag)

  type Table = map<Key, Value>

  function KeyOf(p: Pair): Key { (p.name, TagOf(p.value)) }

  /** The keys that give way to `k`. */
  predicate Yields(flag: int, k: Key, to: Key) {
    k.0 == to.0 && (UniqueName(flag) || k.1 == to.1)
  }

  function TableAdd(flag: int, t: Table, p: Pair): Table {
    (map k | k in t && !Yields(flag, k, KeyOf(p)) :: t[k])[KeyOf(p) := p.value]
  }

  function TableRemoveAll(t: Table, name: seq<Byte>): Table {
    map k | k in t && k.0 != name :: t[k]
  }

  function TableRemove(t: Table, name: seq<Byte>, tag: Tag): Table {
    t - {(name, tag)}
  }

  function TableMerge(flag: int, t: Table, more: seq<Pair>): Table
    decreases more
  {
    if more == [] then t else TableMerge(flag, TableAdd(flag, t, more[0]), more[1..])
  }

  /** The pairs are those of the table, each once, and no two of them clash. */
  ghost predicate Represents(flag: int, ps: seq<Pair>, t: Table) {
    && Distinct(flag, ps)
    && (forall p :: p in ps <==> KeyOf(p) in t && t[KeyOf(p)] == p.value)
    && (forall k :: k in t ==> TagOf(t[k]) == k.1)
  }

  // ---------- removing ----------

  lemma {:induction false} DistinctTail(flag: int, ps: seq<Pair>)
    requires ps != [] && Distinct(flag, ps)
    ensures Distinct(flag, ps[1..]) && forall p :: p in ps[1..] ==> !Clash(flag, ps[0], p)
  {
  }

  lemma {:induction false} WithoutHas(ps: seq<Pair>, name: seq<Byte>, p: Pair)
    ensures p in Without(ps, name) <==> p in ps && p.name != name
  {
    if ps != [] {
      WithoutHas(ps[1..], name, p);
    }
  }

  lemma {:induction false} WithoutDistinct(flag: int, ps: seq<Pair>, name: seq<Byte>)
    requires Distinct(flag, ps)
    ensures Distinct(flag, Without(ps, name))
  {
    if ps != [] {
      DistinctTail(flag, ps);
      WithoutDistinct(flag, ps[1..], name);
      forall p | p in Without(ps[1..], name)
        ensures p in ps[1..]
      {
        WithoutHas(ps[1..], name, p);
      }
    }
  }

  lemma {:induction false} WithoutFirstDistinct(flag: int, ps: seq<Pair>, name: seq<Byte>, tag: Tag)
    requires Distinct(flag, ps)
    ensures Distinct(flag, WithoutFirst(ps, name, tag))
  {
  }

  /** With unique names, or names and types, the first one is the only one. */
  lemma {:induction false} WithoutFirstHas(flag: int, ps: seq<Pair>, name: seq<Byte>, tag: Tag, p: Pair)
    requires Distinct(flag, ps) && (UniqueName(flag) || UniqueType(flag))
    ensures p in WithoutFirst(ps, name, tag) <==> p in ps && !Matches(p, name, tag)
  {
    var k := Find(ps, name, tag);
    if k < |ps| {
      assert forall i :: 0 <= i < |ps| && i != k ==> !Matches(ps[i], name, tag);
    }
  }

  // ---------- by the bits of nvl_nvflag ----------

  /** NV_UNIQUE_NAME is the lowest bit: every pair of the name gives way.  With NV_UNIQUE_NAME_TYPE, the next one, alone
      the first pair of the name and type does, and without either nothing. */
  lemma {:induction false} AddedByFlags(flag: int, ps: seq<Pair>, p: Pair)
    ensures flag % 2 == 1 ==> forall q :: q in Added(flag, ps, p) <==> q == p || (q in ps && q.name != p.name)
    ensures flag % 4 == 2 ==>
      forall q :: q in ps && !(q.name == p.name && TagOf(q.value) == TagOf(p.value)) ==> q in Added(flag, ps, p)
    ensures flag % 4 == 2 ==>
      forall k :: FirstLike(ps, p, k) ==> Added(flag, ps, p) == ps[..k] + ps[if k < |ps| then k + 1 else k..] + [p]
    ensures flag % 4 == 0 ==> Added(flag, ps, p) == ps + [p]
  {
    if flag % 2 == 1 {
      forall q
        ensures q in Added(flag, ps, p) <==> q == p || (q in ps && q.name != p.name)
      {
        WithoutHas(ps, p.name, q);
      }
    } else if flag % 4 == 2 {
      forall k | FirstLike(ps, p, k)
        ensures Added(flag, ps, p) == ps[..k] + ps[if k < |ps| then k + 1 else k..] + [p]
      {
        var r := Find(ps, p.name, TagOf(p.value));
        assert r <= k && k <= r;
      }
    }
  }

  /** The first pair of the name and type of `p` is at `k`; there is none if that is the end. */
  predicate FirstLike(ps: seq<Pair>, p: Pair, k: int) {
    && 0 <= k <= |ps|
    && (k < |ps| ==> ps[k].name == p.name && TagOf(ps[k].value) == TagOf(p.value))
    && forall i :: 0 <= i < k ==> !(ps[i].name == p.name && TagOf(ps[i].value) == TagOf(p.value))
  }

  lemma {:induction false} DistinctByFlags(flag: int, ps: seq<Pair>)
    ensures flag % 2 == 1 ==> (Distinct(flag, ps) <==> forall i, j :: 0 <= i < j < |ps| ==> ps[i].name != ps[j].name)
    ensures flag % 4 == 2 ==> (Distinct(flag, ps) <==> forall i, j :: 0 <= i < j < |ps| ==>
      !(ps[i].name == ps[j].name && TagOf(ps[i].value) == TagOf(ps[j].value)))
    ensures flag % 4 == 0 ==> Distinct(flag, ps)
  {
  }

  /** Looking up needs one of the two bits; it finds the first pair of the name and type. */
  lemma {:induction false} LookUpByFlags(flag: int, ps: seq<Pair>, p: Pair, k: int)
    requires FirstLike(ps, p, k)
    ensures LookUp(flag, ps, p.name, TagOf(p.value))
      == if flag % 4 == 0 then Err(ENOTSUP) else if k == |ps| then Err(ENOENT) else Ok(ps[k].value)
  {
    var r := Find(ps, p.name, TagOf(p.value));
    assert r <= k && k <= r;
  }

  // ---------- the list follows the table ----------

  lemma {:induction false} RemoveAllFollows(flag: int, ps: seq<Pair>, t: Table, name: seq<Byte>)
    requires Represents(flag, ps, t)
    ensures Represents(flag, Without(ps, name), TableRemoveAll(t, name))
  {
    WithoutDistinct(flag, ps, name);
    forall p
      ensures p in Without(ps, name) <==> p in ps && p.name != name
    {
      WithoutHas(ps, name, p);
    }
  }

  lemma {:induction false} RemoveFollows(flag: int, ps: seq<Pair>, t: Table, name: seq<Byte>, tag: Tag)
    requires Represents(flag, ps, t) && (UniqueName(flag) || UniqueType(flag))
    ensures Represents(flag, WithoutFirst(ps, name, tag), TableRemove(t, name, tag))
  {
    WithoutFirstDistinct(flag, ps, name, tag);
    forall p
      ensures p in WithoutFirst(ps, name, tag) <==> p in ps && !Matches(p, name, tag)
    {
      WithoutFirstHas(flag, ps, name, tag, p);
    }
  }

  lemma {:induction false} LinkFollows(flag: int, ps: seq<Pair>, t: Table, p: Pair)
    requires Represents(flag, ps, t) && (UniqueName(flag) || UniqueType(flag))
    requires forall q :: q in ps ==> !Clash(flag, q, p)
    ensures Represents(flag, ps + [p], t[KeyOf(p) := p.value])
  {
  }

  lemma {:induction false} AddFollows(flag: int, ps: seq<Pair>, t: Table, p: Pair)
    requires Represents(flag, ps, t) && (UniqueName(flag) || UniqueType(flag))
    ensures Represents(flag, Added(flag, ps, p), TableAdd(flag, t, p))
  {
    var t' := map k | k in t && !Yields(flag, k, KeyOf(p)) :: t[k];
    if UniqueName(flag) {
      RemoveAllFollows(flag, ps, t, p.name);
      assert t' == TableRemoveAll(t, p.name);
      LinkFollows(flag, Without(ps, p.name), t', p);
    } else {
      RemoveFollows(flag, ps, t, p.name, TagOf(p.value));
      assert t' == TableRemove(t, p.name, TagOf(p.value));
      LinkFollows(flag, WithoutFirst(ps, p.name, TagOf(p.value)), t', p);
    }
  }

  lemma {:induction false} MergeFollows(flag: int, ps: seq<Pair>, t: Table, more: seq<Pair>)
    requires Represents(flag, ps, t) && (UniqueName(flag) || UniqueType(flag))
    ensures Represents(flag, Merged(flag, ps, more), TableMerge(flag, t, more))
    decreases more
  {
    if more != [] {
      AddFollows(flag, ps, t, more[0]);
      MergeFollows(flag, Added(flag, ps, more[0]), TableAdd(flag, t, more[0]), more[1..]);
    }
  }

  /** A look-up by name and type finds what the table has, and nothing else. */
  lemma {:induction false} LookUpFollows(flag: int, ps: seq<Pair>, t: Table, name: seq<Byte>, tag: Tag)
    requires Represents(flag, ps, t) && (UniqueName(flag) || UniqueType(flag))
    ensures LookUp(flag, ps, name, tag) == if (name, tag) in t then Ok(t[(name, tag)]) else Err(ENOENT)
  {
    var k := Find(ps, name, tag);
    if k < |ps| {
      assert ps[k] in ps && KeyOf(ps[k]) == (name, tag);
    } else if (name, tag) in t {
      var p := Pair(name, t[(name, tag)]);
      assert p in ps && Matches(p, name, tag);
    }
  }

  // ---------- no operation makes two pairs clash ----------

  lemma {:induction false} AddedDistinct(flag: int, ps: seq<Pair>, p: Pair)
    requires Distinct(flag, ps)
    ensures Distinct(flag, Added(flag, ps, p))
  {
    if UniqueName(flag) {
      WithoutDistinct(flag, ps, p.name);
      forall q | q in Without(ps, p.name)
        ensures q.name != p.name
      {
        WithoutHas(ps, p.name, q);
      }
    } else if UniqueType(flag) {
      WithoutFirstDistinct(flag, ps, p.name, TagOf(p.value));
      forall q | q in WithoutFirst(ps, p.name, TagOf(p.value))
        ensures !Matches(q, p.name, TagOf(p.value))
      {
        WithoutFirstHas(flag, ps, p.name, TagOf(p.value), q);
      }
    }
  }

  lemma {:induction false} MergedDistinct(flag: int, ps: seq<Pair>, more: seq<Pair>)
    requires Distinct(flag, ps)
    ensures Distinct(flag, Merged(flag, ps, more))
    decreases more
  {
    if more != [] {
      AddedDistinct(flag, ps, more[0]);
      MergedDistinct(flag, Added(flag, ps, more[0]), more[1..]);
    }
  }

  // ---------- copying ----------

  /** nvlist_copy_embedded: an embedded list is copied pair by pair into an empty list with its flags, as far as
      nvlist_init keeps them. */
  function CopiedValue(v: Value): (r: Value)
    ensures TagOf(r) == TagOf(v) && ValueSize(r) == ValueSize(v)
    decreases v
  {
    match v
    case Nested(l) => Nested(CopiedList(l))
    case NestedArray(ls) => NestedArray(CopiedLists(ls))
    case _ => v
  }

  function CopiedList(l: NvList): NvList
    decreases l
  {
    NvList(l.flag % 4, Merged(l.flag % 4, [], CopiedPairs(l.pairs)))
  }

  function CopiedLists(ls: seq<NvList>): (r: seq<NvList>)
    ensures |r| == |ls| && forall i :: 0 <= i < |ls| ==> r[i] == CopiedList(ls[i])
    decreases ls
  {
    if ls == [] then [] else [CopiedList(ls[0])] + CopiedLists(ls[1..])
  }

  function CopiedPair(p: Pair): Pair
    decreases p
  {
    Pair(p.name, CopiedValue(p.value))
  }

  function CopiedPairs(ps: seq<Pair>): (r: seq<Pair>)
    ensures |r| == |ps| && forall i :: 0 <= i < |ps| ==> r[i] == CopiedPair(ps[i])
    decreases ps
  {
    if ps == [] then [] else [CopiedPair(ps[0])] + CopiedPairs(ps[1..])
  }

  lemma {:induction false} AddedFrom(flag: int, ps: seq<Pair>, p: Pair, q: Pair)
    requires q in Added(flag, ps, p)
    ensures q in ps || q == p
  {
    WithoutHas(ps, p.name, q);
  }

  lemma {:induction false} MergedFrom(flag: int, ps: seq<Pair>, more: seq<Pair>, q: Pair)
    requires q in Merged(flag, ps, more)
    ensures q in ps || q in more
    decreases more
  {
    if more != [] {
      MergedFrom(flag, Added(flag, ps, more[0]), more[1..], q);
      if q in Added(flag, ps, more[0]) {
        AddedFrom(flag, ps, more[0], q);
      }
    }
  }

  lemma {:induction false} WithoutNone(ps: seq<Pair>, name: seq<Byte>)
    requires forall p :: p in ps ==> p.name != name
    ensures Without(ps, name) == ps
  {
    if ps != [] {
      WithoutNone(ps[1..], name);
    }
  }

  lemma {:induction false} AddedNew(flag: int, ps: seq<Pair>, p: Pair)
    requires forall q :: q in ps ==> !Clash(flag, q, p)
    ensures Added(flag, ps, p) == ps + [p]
  {
    if UniqueName(flag) {
      WithoutNone(ps, p.name);
    } else if UniqueType(flag) {
      assert forall i :: 0 <= i < |ps| ==> !Clash(flag, ps[i], p);
    }
  }

  /** Merging pairs that clash with nothing appends them. */
  lemma {:induction false} MergedNew(flag: int, ps: seq<Pair>, more: seq<Pair>)
    requires Distinct(flag, ps + more)
    ensures Merged(flag, ps, more) == ps + more
    decreases more
  {
    if more == [] {
      assert ps + more == ps;
    } else {
      var all := ps + more;
      forall q | q in ps
        ensures !Clash(flag, q, more[0])
      {
        var i :| 0 <= i < |ps| && ps[i] == q;
        assert all[i] == q && all[|ps|] == more[0];
      }
      AddedNew(flag, ps, more[0]);
      assert ps + [more[0]] + more[1..] == all;
      MergedNew(flag, ps + [more[0]], more[1..]);
    }
  }

  lemma {:induction false} AddedFull(flag: int, ps: seq<Pair>, p: Pair)
    ensures |Added(flag, ps, p)| <= |ps| + 1
    ensures |Added(flag, ps, p)| == |ps| + 1 ==> Added(flag, ps, p) == ps + [p]
  {
    if UniqueName(flag) && |Without(ps, p.name)| == |ps| {
      WithoutNone(ps, p.name);
    }
  }

  lemma {:induction false} FullStep<T>(s: seq<T>, x: T, more: seq<T>, next: seq<T>, r: seq<T>)
    requires |next| <= |s| + 1 && (|next| == |s| + 1 ==> next == s + [x])
    requires |r| <= |next| + |more| && (|r| == |next| + |more| ==> r == next + more)
    ensures |r| <= |s| + |[x] + more| && (|r| == |s| + |[x] + more| ==> r == s + ([x] + more))
  {
    assert s + [x] + more == s + ([x] + more);
  }

  /** A merge that drops nothing appends. */
  lemma {:induction false} MergedFull(flag: int, ps: seq<Pair>, more: seq<Pair>)
    ensures |Merged(flag, ps, more)| <= |ps| + |more|
    ensures |Merged(flag, ps, more)| == |ps| + |more| ==> Merged(flag, ps, more) == ps + more
    decreases more
  {
    if more == [] {
      assert ps + more == ps;
    } else {
      hide Added;
      var next := Added(flag, ps, more[0]);
      AddedFull(flag, ps, more[0]);
      MergedFull(flag, next, more[1..]);
      FullStep(ps, more[0], more[1..], next, Merged(flag, next, more[1..]));
      assert [more[0]] + more[1..] == more;
    }
  }

  /** Flags that nvlist_init keeps, and nothing that clashes, at every level. */
  predicate DeepList(l: NvList)
    decreases l
  {
    && 0 <= l.flag < 4 && Distinct(l.flag, l.pairs)
    && forall i :: 0 <= i < |l.pairs| ==> DeepValue(l.pairs[i].value)
  }

  predicate DeepValue(v: Value)
    decreases v
  {
    match v
    case Nested(l) => DeepList(l)
    case NestedArray(ls) => forall i :: 0 <= i < |ls| ==> DeepList(ls[i])
    case _ => true
  }

  lemma {:induction false} CopiedValueExactly(v: Value)
    ensures CopiedValue(v) == v <==> DeepValue(v)
    decreases v
  {
    match v
    case Nested(l) => CopiedListExactly(l);
    case NestedArray(ls) =>
      forall i | 0 <= i < |ls|
        ensures CopiedList(ls[i]) == ls[i] <==> DeepList(ls[i])
      {
        CopiedListExactly(ls[i]);
      }
      if DeepValue(v) {
        assert CopiedLists(ls) == ls;
      }
    case _ =>
  }

  lemma {:induction false} CopiedPairsExactly(ps: seq<Pair>)
    ensures CopiedPairs(ps) == ps <==> forall i :: 0 <= i < |ps| ==> DeepValue(ps[i].value)
    decreases ps, 1
  {
    forall i | 0 <= i < |ps|
      ensures CopiedPair(ps[i]) == ps[i] <==> DeepValue(ps[i].value)
    {
      CopiedValueExactly(ps[i].value);
    }
  }

  /** Merging `cs` into an empty list gives `ps` exactly when it is `ps` and no two pairs clash. */
  lemma {:induction false} MergedSame(flag: int, cs: seq<Pair>, ps: seq<Pair>)
    requires |cs| == |ps|
    ensures Merged(flag, [], cs) == ps <==> cs == ps && Distinct(flag, ps)
  {
    hide Merged, Clash;
    assert [] + cs == cs;
    MergedFull(flag, [], cs);
    if Distinct(flag, cs) {
      MergedNew(flag, [], cs);
    } else {
      MergedDistinct(flag, [], cs);
    }
  }

  /** The copy of a list is equal to it exactly when nothing clashes and no flags are lost, at every level. */
  lemma {:induction false} CopiedListExactly(l: NvList)
    ensures CopiedList(l) == l <==> DeepList(l)
    decreases l
  {
    hide Merged, CopiedPairs, Distinct;
    CopiedPairsExactly(l.pairs);
    MergedSame(l.flag % 4, CopiedPairs(l.pairs), l.pairs);
  }

  /** What is copied is in order at every level, whatever it was before; so a second copy changes nothing. */
  lemma {:induction false} CopiedListDeep(l: NvList)
    ensures DeepList(CopiedList(l)) && CopiedList(CopiedList(l)) == CopiedList(l)
    decreases l
  {
    var flag, cs := l.flag % 4, CopiedPairs(l.pairs);
    MergedDistinct(flag, [], cs);
    forall p | p in Merged(flag, [], cs)
      ensures DeepValue(p.value)
    {
      MergedFrom(flag, [], cs, p);
      var i :| 0 <= i < |cs| && cs[i] == p;
      CopiedValueDeep(l.pairs[i].value);
    }
    CopiedListExactly(CopiedList(l));
  }

  lemma {:induction false} CopiedValueDeep(v: Value)
    ensures DeepValue(CopiedValue(v))
    decreases v
  {
    match v
    case Nested(l) => CopiedListDeep(l);
    case NestedArray(ls) =>
      forall i | 0 <= i < |ls|
        ensures DeepList(CopiedLists(ls)[i])
      {
        CopiedListDeep(ls[i]);
      }
    case _ =>
  }

  // ---------- what a list can hold ----------

  /** Accepted values that can be stored, of a size that fits, at every level; any flags, and pairs may clash. */
  predicate HeldValue(v: Value)
    decreases v
  {
    match v
    case Nested(l) => HeldList(l)
    case NestedArray(ls) => forall i :: 0 <= i < |ls| ==> HeldList(ls[i])
    case _ => GoodValue(v)
  }

  predicate HeldPair(p: Pair)
    decreases p
  {
    IsText(p.name) && Storable(p.name, p.value) && HeldValue(p.value) && PairSize(p) <= INT32_MAX
  }

  predicate HeldList(l: NvList)
    decreases l
  {
    0 <= l.flag && forall i :: 0 <= i < |l.pairs| ==> HeldPair(l.pairs[i])
  }

  type Entry = p: Pair | HeldPair(p) witness Pair([], Flag)

  lemma {:induction false} CopiedPairHeld(p: Pair)
    requires HeldPair(p)
    ensures HeldPair(CopiedPair(p))
    decreases p
  {
    CopiedValueHeld(p.value);
  }

  lemma {:induction false} CopiedValueHeld(v: Value)
    requires HeldValue(v)
    ensures HeldValue(CopiedValue(v))
    decreases v
  {
    match v
    case Nested(l) => CopiedListHeld(l);
    case NestedArray(ls) =>
      forall i | 0 <= i < |ls|
        ensures HeldList(CopiedLists(ls)[i])
      {
        CopiedListHeld(ls[i]);
      }
    case _ =>
  }

  lemma {:induction false} CopiedListHeld(l: NvList)
    requires HeldList(l)
    ensures HeldList(CopiedList(l))
    decreases l
  {
    var flag, cs := l.flag % 4, CopiedPairs(l.pairs);
    forall p | p in Merged(flag, [], cs)
      ensures HeldPair(p)
    {
      MergedFrom(flag, [], cs, p);
      var i :| 0 <= i < |cs| && cs[i] == p;
      CopiedPairHeld(l.pairs[i]);
    }
  }

  /** A list the operations can build. */
  predicate BuiltList(l: NvList) {
    HeldList(l) && DeepList(l)
  }

  predicate BuiltPair(p: Pair) {
    HeldPair(p) && DeepValue(p.value)
  }

  /** A built list is one the codec takes. */
  lemma {:induction false} BuiltGood(l: NvList)
    requires BuiltList(l)
    ensures GoodList(l)
    decreases l
  {
    forall i | 0 <= i < |l.pairs|
      ensures GoodPair(l.pairs[i])
    {
      assert HeldPair(l.pairs[i]);
      BuiltGoodValue(l.pairs[i].value);
    }
  }

  lemma {:induction false} BuiltGoodValue(v: Value)
    requires HeldValue(v) && DeepValue(v)
    ensures GoodValue(v)
    decreases v
  {
    match v
    case Nested(l) => BuiltGood(l);
    case NestedArray(ls) =>
      forall i | 0 <= i < |ls|
        ensures GoodList(ls[i])
      {
        BuiltGood(ls[i]);
      }
    case _ =>
  }

  // ---------- whole runs ----------

  datatype Op = Add(p: Pair) | RemoveAll(name: seq<Byte>) | Remove(name: seq<Byte>, tag: Tag) | Merge(more: seq<Pair>)

  function Do(flag: int, ps: seq<Pair>, op: Op): seq<Pair> {
    match op
    case Add(p) => Added(flag, ps, CopiedPair(p))
    case RemoveAll(name) => Without(ps, name)
    case Remove(name, tag) => WithoutFirst(ps, name, tag)
    case Merge(more) => Merged(flag, ps, CopiedPairs(more))
  }

  function TableDo(flag: int, t: Table, op: Op): Table {
    match op
    case Add(p) => TableAdd(flag, t, CopiedPair(p))
    case RemoveAll(name) => TableRemoveAll(t, name)
    case Remove(name, tag) => TableRemove(t, name, tag)
    case Merge(more) => TableMerge(flag, t, CopiedPairs(more))
  }

  function DoAll(flag: int, ps: seq<Pair>, ops: seq<Op>): seq<Pair>
    decreases |ops|
  {
    if ops == [] then ps else DoAll(flag, Do(flag, ps, ops[0]), ops[1..])
  }

  function TableDoAll(flag: int, t: Table, ops: seq<Op>): Table
    decreases |ops|
  {
    if ops == [] then t else TableDoAll(flag, TableDo(flag, t, ops[0]), ops[1..])
  }

  /** Over every run of operations the list is the table: nothing clashes, nothing is lost, nothing stays too long. */
  lemma {:induction false} RunFollows(flag: int, ps: seq<Pair>, t: Table, ops: seq<Op>)
    requires Represents(flag, ps, t) && (UniqueName(flag) || UniqueType(flag))
    ensures Represents(flag, DoAll(flag, ps, ops), TableDoAll(flag, t, ops))
    decreases |ops|
  {
    if ops != [] {
      match ops[0] {
        case Add(p) => AddFollows(flag, ps, t, CopiedPair(p));
        case RemoveAll(name) => RemoveAllFollows(flag, ps, t, name);
        case Remove(name, tag) => RemoveFollows(flag, ps, t, name, tag);
        case Merge(more) => MergeFollows(flag, ps, t, CopiedPairs(more));
      }
      RunFollows(flag, Do(flag, ps, ops[0]), TableDo(flag, t, ops[0]), ops[1..]);
    }
  }

  /** After a run from the empty list a look-up returns the last surviving add of that name and type. */
  lemma {:induction false} RunLookUp(flag: int, ops: seq<Op>, name: seq<Byte>, tag: Tag)
    requires UniqueName(flag) || UniqueType(flag)
    ensures Distinct(flag, DoAll(flag, [], ops))
    ensures var t := TableDoAll(flag, map[], ops);
      LookUp(flag, DoAll(flag, [], ops), name, tag) == if (name, tag) in t then Ok(t[(name, tag)]) else Err(ENOENT)
  {
    RunFollows(flag, [], map[], ops);
    LookUpFollows(flag, DoAll(flag, [], ops), TableDoAll(flag, map[], ops), name, tag);
  }

  /** The last pair of `more` to which `k` yields; -1 if there is none. */
  function LastOver(flag: int, more: seq<Pair>, k: Key): (r: int)
    ensures -1 <= r < |more| && (r >= 0 ==> Yields(flag, k, KeyOf(more[r])))
    ensures forall i :: r < i < |more| ==> !Yields(flag, k, KeyOf(more[i]))
    decreases |more|
  {
    if more == [] then -1
    else if Yields(flag, k, KeyOf(more[|more| - 1])) then |more| - 1
    else LastOver(flag, more[..|more| - 1], k)
  }

  lemma {:induction false} TableMergeLast(flag: int, t: Table, more: seq<Pair>, p: Pair)
    ensures TableMerge(flag, t, more + [p]) == TableAdd(flag, TableMerge(flag, t, more), p)
    decreases more
  {
    if more == [] {
      assert more + [p] == [p];
    } else {
      assert (more + [p])[1..] == more[1..] + [p];
      TableMergeLast(flag, TableAdd(flag, t, more[0]), more[1..], p);
    }
  }

  /** Merging: for every name and type the last pair of the source it yields to decides, and where there is none
      everything stays; the pairs of the source may clash. */
  lemma {:induction false} MergePrefers(flag: int, t: Table, more: seq<Pair>, k: Key)
    ensures var m, r := TableMerge(flag, t, more), LastOver(flag, more, k);
      if r < 0 then (k in m <==> k in t) && (k in t ==> m[k] == t[k])
      else (k in m <==> KeyOf(more[r]) == k) && (k in m ==> m[k] == more[r].value)
    decreases |more|
  {
    if more != [] {
      var n := |more| - 1;
      MergePrefers(flag, t, more[..n], k);
      TableMergeLast(flag, t, more[..n], more[n]);
      assert more[..n] + [more[n]] == more;
    }
  }

  // ---------- what the operations build ----------

  /** The pairs an operation brings in. */
  function Given(op: Op): seq<Pair> {
    match op
    case Add(p) => [p]
    case Merge(more) => more
    case _ => []
  }

  /** No operation makes up a pair. */
  lemma {:induction false} DoFrom(flag: int, ps: seq<Pair>, op: Op, q: Pair)
    requires q in Do(flag, ps, op)
    ensures q in ps || exists p :: p in Given(op) && q == CopiedPair(p)
  {
    match op
    case Add(p) =>
      AddedFrom(flag, ps, CopiedPair(p), q);
      assert p in Given(op);
    case RemoveAll(name) => WithoutHas(ps, name, q);
    case Remove(name, tag) =>
    case Merge(more) =>
      MergedFrom(flag, ps, CopiedPairs(more), q);
      if q !in ps {
        var i :| 0 <= i < |more| && CopiedPairs(more)[i] == q;
        assert more[i] in Given(op);
      }
  }

  lemma {:induction false} DoDistinct(flag: int, ps: seq<Pair>, op: Op)
    requires Distinct(flag, ps)
    ensures Distinct(flag, Do(flag, ps, op))
  {
    match op
    case Add(p) => AddedDistinct(flag, ps, CopiedPair(p));
    case RemoveAll(name) => WithoutDistinct(flag, ps, name);
    case Remove(name, tag) => WithoutFirstDistinct(flag, ps, name, tag);
    case Merge(more) => MergedDistinct(flag, ps, CopiedPairs(more));
  }

  /** Whatever a run of operations makes of an empty list, with any flags, holds copies of given pairs only, and no
      two clash. */
  lemma {:induction false} RunFrom(flag: int, ps: seq<Pair>, ops: seq<Op>, ok: Pair -> bool)
    requires Distinct(flag, ps) && forall p :: p in ps ==> ok(p)
    requires forall i, p :: 0 <= i < |ops| && p in Given(ops[i]) ==> ok(CopiedPair(p))
    ensures Distinct(flag, DoAll(flag, ps, ops)) && forall p :: p in DoAll(flag, ps, ops) ==> ok(p)
    decreases |ops|
  {
    if ops != [] {
      var next := Do(flag, ps, ops[0]);
      DoDistinct(flag, ps, ops[0]);
      forall p | p in next
        ensures ok(p)
      {
        DoFrom(flag, ps, ops[0], p);
      }
      RunFrom(flag, next, ops[1..], ok);
    }
  }

  /** A run that is given pairs that can be held builds a list that is in order at every level, even if those are
      not. */
  lemma {:induction false} RunBuilt(flag: int, ops: seq<Op>)
    requires 0 <= flag < 4 && forall i, p :: 0 <= i < |ops| && p in Given(ops[i]) ==> HeldPair(p)
    ensures BuiltList(NvList(flag, DoAll(flag, [], ops)))
  {
    forall i, p | 0 <= i < |ops| && p in Given(ops[i])
      ensures BuiltPair(CopiedPair(p))
    {
      CopiedPairHeld(p);
      CopiedValueDeep(p.value);
    }
    RunFrom(flag, [], ops, BuiltPair);
    assert forall i :: 0 <= i < |DoAll(flag, [], ops)| ==> BuiltPair(DoAll(flag, [], ops)[i]);
  }

  lemma {:induction false} NamesFitEach(ps: seq<Pair>)
    ensures NamesFitPairs(ps) <==> forall p :: p in ps ==> NamesFitPair(p)
    decreases ps
  {
    if ps != [] {
      NamesFitEach(ps[1..]);
      assert ps[0] in ps && forall p :: p in ps <==> p == ps[0] || p in ps[1..];
    }
  }

  lemma {:induction false} CopiedValueFits(v: Value)
    requires NamesFitValue(v)
    ensures NamesFitValue(CopiedValue(v))
    decreases v
  {
    match v
    case Nested(l) => CopiedListFits(l);
    case NestedArray(ls) => CopiedListsFit(ls);
    case _ =>
  }

  lemma {:induction false} CopiedListsFit(ls: seq<NvList>)
    requires NamesFitLists(ls)
    ensures NamesFitLists(CopiedLists(ls))
    decreases ls
  {
    if ls != [] {
      CopiedListFits(ls[0]);
      CopiedListsFit(ls[1..]);
    }
  }

  lemma {:induction false} CopiedListFits(l: NvList)
    requires NamesFitPairs(l.pairs)
    ensures NamesFitPairs(CopiedList(l).pairs)
    decreases l
  {
    var flag, cs := l.flag % 4, CopiedPairs(l.pairs);
    NamesFitEach(l.pairs);
    forall p | p in Merged(flag, [], cs)
      ensures NamesFitPair(p)
    {
      MergedFrom(flag, [], cs, p);
      var i :| 0 <= i < |cs| && cs[i] == p;
      assert l.pairs[i] in l.pairs && NamesFitPair(l.pairs[i]);
      CopiedValueFits(l.pairs[i].value);
    }
    NamesFitEach(CopiedList(l).pairs);
  }

  /** And if their names fit, at every level, so do the names of the list. */
  lemma {:induction false} RunFits(flag: int, ops: seq<Op>)
    requires forall i, p :: 0 <= i < |ops| && p in Given(ops[i]) ==> NamesFitPair(p)
    ensures NamesFitPairs(DoAll(flag, [], ops))
  {
    forall i, p | 0 <= i < |ops| && p in Given(ops[i])
      ensures NamesFitPair(CopiedPair(p))
    {
      assert NamesFitPair(p);
      CopiedValueFits(p.value);
    }
    RunFrom(flag, [], ops, NamesFitPair);
    NamesFitEach(DoAll(flag, [], ops));
  }
}
