/**
 The harness's `deepEqual` comparison: a recursion over two object graphs that
 records in a cache, before it descends, that a pair of objects compares equal.
 Some exits leave that provisional entry behind.  The contracts below show that
 the verdict is structural equality all the same.
 */
module DeepEqual {
  import opened JsValues
  import opened Options
  import opened SortedKeys
  import opened DeepEqualSpec

  const EQUAL := 1
  const NOT_EQUAL := -1
  const MISS := 0

  ghost function AllPairs(g: Graph): set<Pair> {
    set x, y | x in g && y in g :: (x, y)
  }

  /** `Map<operand, Map<operand, verdict>>`, written for both orders of the operands. */
  class Cache {
    var table: map<nat, map<nat, int>>

    ghost function Lookup(x: nat, y: nat): int
      reads this
    {
      if x in table && y in table[x] then table[x][y] else MISS
    }

    ghost predicate Valid()
      reads this
    {
      forall x, y :: Lookup(x, y) in {EQUAL, NOT_EQUAL, MISS} && Lookup(x, y) == Lookup(y, x)
    }

    /** Every entry says EQUAL. */
    ghost predicate Optimistic()
      reads this
    {
      forall x, y :: Lookup(x, y) in {EQUAL, MISS} && Lookup(x, y) == Lookup(y, x)
    }

    /** The pairs of objects of `g` that have an entry. */
    ghost function Cached(g: Graph): set<Pair>
      reads this
    {
      set p | p in AllPairs(g) && Lookup(p.0, p.1) != MISS
    }

    constructor ()
      ensures Optimistic() && forall x, y :: Lookup(x, y) == MISS
    {
      table := map[];
    }

    method Get(left: nat, right: nat) returns (r: int)
      requires Valid()
      ensures r == Lookup(left, right)
    {
      if left in table && right in table[left] {
        r := table[left][right];
        if r != 0 { return r; }
      }
      if right in table && left in table[right] {
        r := table[right][left];
        if r != 0 { return r; }
      }
      assert Lookup(left, right) == Lookup(right, left);
      return MISS;
    }

    method Set(left: nat, right: nat, result: int)
      requires Valid() && result in {EQUAL, NOT_EQUAL}
      modifies this
      ensures forall x, y ::
        Lookup(x, y) == if (x == left && y == right) || (x == right && y == left) then result else old(Lookup(x, y))
      ensures Valid()
    {
      if left !in table { table := table[left := map[]]; }
      var oc := table[left];
      table := table[left := oc[right := result]];
      if right !in table { table := table[right := map[]]; }
      oc := table[right];
      table := table[right := oc[left := result]];
    }
  }

  // ----- what a comparison may do to the cache

  /**
   A comparison that answers EQUAL leaves a larger cache, and every pair it added
   agrees when the parts are compared by the cache as it is afterwards.
   */
  ghost predicate Grown(g: Graph, before: set<Pair>, after: set<Pair>) {
    && before <= after
    && forall p | p in after && p !in before :: ObjectsAgree(g, Relates(after), p.0, p.1)
  }

  lemma GrownTransitive(g: Graph, P: set<Pair>, Q: set<Pair>, R: set<Pair>)
    requires Grown(g, P, Q) && Grown(g, Q, R)
    ensures Grown(g, P, R)
  {
    forall p | p in R && p !in P ensures ObjectsAgree(g, Relates(R), p.0, p.1) {
      if p in Q { AgreeMonotone(g, Relates(Q), Relates(R), p.0, p.1); }
    }
  }

  /** The pair entered provisionally agrees once its parts have compared equal. */
  lemma GrownFromProvisional(g: Graph, P: set<Pair>, Q: set<Pair>, R: set<Pair>, x: nat, y: nat)
    requires Q == P + {(x, y), (y, x)}
    requires Grown(g, Q, R)
    requires forall p | p in R :: (p.1, p.0) in R
    requires ObjectsAgree(g, Relates(R), x, y)
    ensures Grown(g, P, R)
  {
    AgreeSymmetric(g, Relates(R), Relates(R), x, y);
  }

  // ----- the primitive comparisons

  function Unboxed(v: Value): Value {
    if v.Boxed? then Prim(v.p) else v
  }

  /** `__t262_deComparePrimitive` */
  function ComparePrimitive(a: Value, b: Value): (r: int)
    requires IsPrimitive(a) && IsPrimitive(b)
    ensures r == if PrimitiveEqual(a, b) then EQUAL else NOT_EQUAL
  {
    var x, y := Unboxed(a), Unboxed(b);
    if StrictEquals(x, y) then EQUAL
    else if TypeOfPrimitive(x.p) != TypeOfPrimitive(y.p) then NOT_EQUAL
    else if TypeOfPrimitive(x.p) == TypeNumber then
      if x.p.n.NaN? && y.p.n.NaN? then EQUAL else NOT_EQUAL
    else NOT_EQUAL
  }

  /** `__t262_deComparePrimPair` */
  function ComparePrimPair(x: Value, y: Value): (r: int)
    ensures r == if PrimitiveEqual(x, y) then EQUAL else NOT_EQUAL
  {
    if !IsPrimitive(x) || !IsPrimitive(y) then NOT_EQUAL else ComparePrimitive(x, y)
  }

  function IterationOf(n: Node): Option<seq<Value>> {
    match n.kind
    case Structural(_, _, it) => it
    case Container(_, it) => it
    case _ => None
  }

  predicate IsMap(n: Node) { n.kind.Container? && n.kind.flavour == MapObject }

  predicate IsSet(n: Node) { n.kind.Container? && n.kind.flavour == SetObject }

  /** Everything but Promise, WeakMap, WeakSet, Map and Set. */
  predicate IsStructural(n: Node) { !n.kind.Container? }

  /** The exits that answer NOT_EQUAL and leave the provisional EQUAL entry in the cache. */
  predicate StaleExit(a: Node, b: Node) {
    && StrictEquals(a.tag, b.tag)
    && (|| a.kind.Date? || b.kind.Date?
        || a.kind.RegExp? || b.kind.RegExp?
        || a.kind.ArrayLike? != b.kind.ArrayLike?
        || IsStructural(a) != IsStructural(b)
        || (!IsStructural(a) && IterationOf(a).Some? != IterationOf(b).Some?))
  }

  // ----- the recursive comparison

  /** `__t262_deCompare` */
  method Compare(g: Graph, a: Value, b: Value, cache: Cache) returns (r: int, ghost depth: nat)
    requires WellFormed(g) && ValueIn(g, a) && ValueIn(g, b)
    requires cache.Optimistic()
    modifies cache
    ensures r in {EQUAL, NOT_EQUAL} && cache.Valid()
    ensures old(cache.Cached(g)) <= cache.Cached(g)
    ensures r == EQUAL ==> cache.Optimistic() && Grown(g, old(cache.Cached(g)), cache.Cached(g))
    ensures r == EQUAL ==> (a, b) in Relates(cache.Cached(g))
    ensures r == NOT_EQUAL ==> (a, b) !in EqualTo(g, depth)
    decreases AllPairs(g) - cache.Cached(g), 1
  {
    depth := 1;
    var aOpt := a.Undefined? || a.Null?;
    var bOpt := b.Undefined? || b.Null?;
    if aOpt || bOpt {
      if !aOpt || !bOpt { return NOT_EQUAL, depth; }
      r := if StrictEquals(a, b) then EQUAL else NOT_EQUAL;
      return;
    }
    var aPrim := IsPrimitive(a);
    var bPrim := IsPrimitive(b);
    if aPrim || bPrim {
      if !aPrim || !bPrim { return NOT_EQUAL, depth; }
      r := ComparePrimitive(a, b);
      return;
    }
    // what is left has typeof "object" or "function"
    r, depth := CompareObject(g, a.id, b.id, cache);
  }

  /** `__t262_deCompareObject` */
  method CompareObject(g: Graph, x: nat, y: nat, cache: Cache) returns (r: int, ghost depth: nat)
    requires WellFormed(g) && x in g && y in g
    requires cache.Optimistic()
    modifies cache
    ensures r in {EQUAL, NOT_EQUAL} && cache.Valid()
    ensures old(cache.Cached(g)) <= cache.Cached(g)
    ensures r == EQUAL ==> cache.Optimistic() && Grown(g, old(cache.Cached(g)), cache.Cached(g))
    ensures r == EQUAL ==> cache.Lookup(x, y) == EQUAL
    ensures r == NOT_EQUAL ==> (Ref(x), Ref(y)) !in EqualTo(g, depth)
    ensures r == NOT_EQUAL ==> cache.Lookup(x, y) == if StaleExit(g[x], g[y]) then EQUAL else NOT_EQUAL
    decreases AllPairs(g) - cache.Cached(g), 0
  {
    DifferAtOnce(g, x, y);
    hide Relates, EqualTo, Elementwise, PropsAgree;
    depth := 1;
    r := cache.Get(x, y);
    if r != MISS { return; }
    ghost var before := cache.Cached(g);
    cache.Set(x, y, EQUAL);
    ghost var provisional := cache.Cached(g);
    assert provisional == before + {(x, y), (y, x)};
    assert (x, y) in AllPairs(g) - before;
    if x == y {
      cache.Set(x, y, EQUAL);
      assert cache.Cached(g) == provisional;
      return EQUAL, depth;
    }
    var a, b := g[x], g[y];
    if !StrictEquals(a.tag, b.tag) {
      cache.Set(x, y, NOT_EQUAL);
      return NOT_EQUAL, depth;
    }
    if a.kind.Date? || b.kind.Date? || a.kind.RegExp? || b.kind.RegExp? {
      r := CompareStamps(g, x, y, before, provisional, cache);
      return;
    }
    var mismatch: bool;
    r, mismatch, depth := CompareParts(g, x, y, cache);
    if mismatch { return NOT_EQUAL, 1; }
    depth := Settle(g, x, y, r, depth, before, provisional, cache);
  }

  /**
   The comparisons by elements, properties or iteration.  A mismatch of kinds leaves at
   once; the other verdicts are the caller's to store.
   */
  method CompareParts(g: Graph, x: nat, y: nat, cache: Cache)
    returns (r: int, mismatch: bool, ghost depth: nat)
    requires WellFormed(g) && x in g && y in g && x != y && StrictEquals(g[x].tag, g[y].tag)
    requires !g[x].kind.Date? && !g[y].kind.Date? && !g[x].kind.RegExp? && !g[y].kind.RegExp?
    requires cache.Optimistic()
    modifies cache
    ensures r in {EQUAL, NOT_EQUAL} && cache.Valid()
    ensures mismatch == StaleExit(g[x], g[y])
    ensures mismatch ==> r == NOT_EQUAL && depth == 0 && cache.table == old(cache.table)
    ensures old(cache.Cached(g)) <= cache.Cached(g)
    ensures r == EQUAL ==> cache.Optimistic() && Grown(g, old(cache.Cached(g)), cache.Cached(g))
    ensures r == EQUAL ==> ObjectsAgree(g, Relates(cache.Cached(g)), x, y)
    ensures r == NOT_EQUAL ==> !ObjectsAgree(g, EqualTo(g, depth), x, y)
    decreases AllPairs(g) - cache.Cached(g), 4
  {
    hide Relates, EqualTo, Elementwise, PropsAgree;
    depth := 0;
    mismatch := false;
    var a, b := g[x], g[y];
    if a.kind.ArrayLike? || b.kind.ArrayLike? {
      if !a.kind.ArrayLike? || !b.kind.ArrayLike? { return NOT_EQUAL, true, depth; }
      r, depth := CompareArrayLike(g, a, b, cache);
      return;
    }
    if IsStructural(a) || IsStructural(b) {
      if !IsStructural(a) || !IsStructural(b) { return NOT_EQUAL, true, depth; }
      r, depth := CompareStructural(g, a, b, cache);
      return;
    }
    if IterationOf(a).Some? || IterationOf(b).Some? {
      if !IterationOf(a).Some? || !IterationOf(b).Some? { return NOT_EQUAL, true, depth; }
      r, depth := CompareIterable(g, a, b, cache);
      return;
    }
    return NOT_EQUAL, false, depth;
  }

  /** The exits for dates and regular expressions: their verdicts do not reach the cache. */
  method CompareStamps(g: Graph, x: nat, y: nat, ghost before: set<Pair>, ghost provisional: set<Pair>, cache: Cache)
    returns (r: int)
    requires x in g && y in g && x != y && StrictEquals(g[x].tag, g[y].tag)
    requires g[x].kind.Date? || g[y].kind.Date? || g[x].kind.RegExp? || g[y].kind.RegExp?
    requires provisional == before + {(x, y), (y, x)} == cache.Cached(g) && cache.Optimistic()
    ensures r in {EQUAL, NOT_EQUAL}
    ensures r == EQUAL ==> Grown(g, before, provisional)
    ensures r == NOT_EQUAL ==> (Ref(x), Ref(y)) !in EqualTo(g, 1)
  {
    DifferAtOnce(g, x, y);
    hide Relates, EqualTo, Elementwise, PropsAgree;
    var a, b := g[x], g[y];
    if a.kind.Date? || b.kind.Date? {
      if !a.kind.Date? || !b.kind.Date? { return NOT_EQUAL; }
      r := ComparePrimPair(a.kind.timeValue, b.kind.timeValue);
      if r == EQUAL { GrownFromProvisional(g, before, provisional, provisional, x, y); }
      return;
    }
    if !a.kind.RegExp? || !b.kind.RegExp? { return NOT_EQUAL; }
    r := ComparePrimPair(a.kind.source, b.kind.source);
    if r == EQUAL { GrownFromProvisional(g, before, provisional, provisional, x, y); }
  }

  /** Objects that differ whatever their parts are differ at the first observation. */
  lemma DifferAtOnce(g: Graph, x: nat, y: nat)
    ensures !ObjectsAgree(g, EqualTo(g, 0), x, y) ==> (Ref(x), Ref(y)) !in EqualTo(g, 1)
  {
  }

  /** Stores the verdict on two objects over the provisional entry. */
  method Settle(g: Graph, x: nat, y: nat, r: int, ghost partDepth: nat, ghost before: set<Pair>,
                ghost provisional: set<Pair>, cache: Cache)
    returns (ghost depth: nat)
    requires x in g && y in g && x != y && r in {EQUAL, NOT_EQUAL} && cache.Valid()
    requires provisional == before + {(x, y), (y, x)}
    requires provisional <= cache.Cached(g)
    requires r == EQUAL ==> cache.Optimistic() && Grown(g, provisional, cache.Cached(g))
    requires r == EQUAL ==> ObjectsAgree(g, Relates(cache.Cached(g)), x, y)
    requires r == NOT_EQUAL ==> !ObjectsAgree(g, EqualTo(g, partDepth), x, y)
    modifies cache
    ensures cache.Valid() && cache.Lookup(x, y) == r
    ensures before <= cache.Cached(g)
    ensures r == EQUAL ==> cache.Optimistic() && Grown(g, before, cache.Cached(g))
    ensures r == NOT_EQUAL ==> (Ref(x), Ref(y)) !in EqualTo(g, depth)
  {
    ghost var now := cache.Cached(g);
    cache.Set(x, y, r);
    assert cache.Cached(g) == now;
    if r == EQUAL { GrownFromProvisional(g, before, provisional, now, x, y); }
    depth := partDepth + 1;
  }

  /** `__t262_deCompareArrayLike` */
  method CompareArrayLike(g: Graph, a: Node, b: Node, cache: Cache) returns (r: int, ghost depth: nat)
    requires WellFormed(g) && NodeIn(g, a) && NodeIn(g, b)
    requires a.kind.ArrayLike? && b.kind.ArrayLike?
    requires cache.Optimistic()
    modifies cache
    ensures r in {EQUAL, NOT_EQUAL} && cache.Valid()
    ensures old(cache.Cached(g)) <= cache.Cached(g)
    ensures r == EQUAL ==> cache.Optimistic() && Grown(g, old(cache.Cached(g)), cache.Cached(g))
    ensures r == EQUAL ==> Elementwise(Relates(cache.Cached(g)), a.kind.elements, b.kind.elements)
    ensures r == NOT_EQUAL ==> !Elementwise(EqualTo(g, depth), a.kind.elements, b.kind.elements)
    decreases AllPairs(g) - cache.Cached(g), 2
  {
    depth := 0;
    var s, t := a.kind.elements, b.kind.elements;
    if |s| != |t| { return NOT_EQUAL, depth; }
    ghost var start := cache.Cached(g);
    for i := 0 to |s|
      invariant cache.Optimistic() && Grown(g, start, cache.Cached(g))
      invariant forall j | 0 <= j < i :: (s[j], t[j]) in Relates(cache.Cached(g))
    {
      ghost var before := cache.Cached(g);
      r, depth := Compare(g, s[i], t[i], cache);
      if r == NOT_EQUAL { return; }
      GrownTransitive(g, start, before, cache.Cached(g));
    }
    return EQUAL, depth;
  }

  /** `__t262_deCompareStructural` */
  method CompareStructural(g: Graph, a: Node, b: Node, cache: Cache) returns (r: int, ghost depth: nat)
    requires WellFormed(g) && NodeIn(g, a) && NodeIn(g, b)
    requires a.kind.Structural? && b.kind.Structural?
    requires cache.Optimistic()
    modifies cache
    ensures r in {EQUAL, NOT_EQUAL} && cache.Valid()
    ensures old(cache.Cached(g)) <= cache.Cached(g)
    ensures r == EQUAL ==> cache.Optimistic() && Grown(g, old(cache.Cached(g)), cache.Cached(g))
    ensures r == EQUAL ==> var R := Relates(cache.Cached(g));
      PropsAgree(R, a.kind.props, b.kind.props) && IterationsAgree(R, a.kind.iteration, b.kind.iteration)
    ensures r == NOT_EQUAL ==> var R := EqualTo(g, depth);
      !(PropsAgree(R, a.kind.props, b.kind.props) && IterationsAgree(R, a.kind.iteration, b.kind.iteration))
    decreases AllPairs(g) - cache.Cached(g), 3
  {
    depth := 0;
    var aKeys, bKeys := a.kind.keys, b.kind.keys;
    if |aKeys| != |bKeys| {
      KeyCount(aKeys, a.kind.props);
      KeyCount(bKeys, b.kind.props);
      return NOT_EQUAL, depth;
    }
    aKeys, bKeys := SortBoth(aKeys, bKeys);
    r, depth := CompareProperties(g, aKeys, bKeys, a.kind.props, b.kind.props, cache);
    if r == NOT_EQUAL { return; }
    if a.kind.iteration.Some? || b.kind.iteration.Some? {
      if !a.kind.iteration.Some? || !b.kind.iteration.Some? { return NOT_EQUAL, depth; }
      ghost var before := cache.Cached(g);
      r, depth := CompareIterable(g, a, b, cache);
      if r == EQUAL {
        GrownTransitive(g, old(cache.Cached(g)), before, cache.Cached(g));
        assert Relates(before) <= Relates(cache.Cached(g));
      }
    }
  }

  /** Sorts two key lists; equal key sets come out as equal lists. */
  method SortBoth(s: seq<string>, t: seq<string>) returns (aKeys: seq<string>, bKeys: seq<string>)
    requires Distinct(s) && Distinct(t) && |s| == |t|
    ensures |aKeys| == |bKeys| == |s|
    ensures (forall k :: k in aKeys <==> k in s) && (forall k :: k in bKeys <==> k in t)
    ensures (forall k :: k in s <==> k in t) ==> aKeys == bKeys
  {
    aKeys, bKeys := Sort(s), Sort(t);
    if forall k :: k in s <==> k in t { SortedUnique(aKeys, bKeys); }
  }

  /** The part of `__t262_deCompareStructural` that walks the sorted for-in keys. */
  method CompareProperties(g: Graph, aKeys: seq<string>, bKeys: seq<string>,
                           ps: map<string, Value>, qs: map<string, Value>, cache: Cache)
    returns (r: int, ghost depth: nat)
    requires WellFormed(g)
    requires (forall k :: k in aKeys <==> k in ps) && (forall k :: k in bKeys <==> k in qs)
    requires (forall k | k in ps :: ValueIn(g, ps[k])) && (forall k | k in qs :: ValueIn(g, qs[k]))
    requires |aKeys| == |bKeys| && (ps.Keys == qs.Keys ==> aKeys == bKeys)
    requires cache.Optimistic()
    modifies cache
    ensures r in {EQUAL, NOT_EQUAL} && cache.Valid()
    ensures old(cache.Cached(g)) <= cache.Cached(g)
    ensures r == EQUAL ==> cache.Optimistic() && Grown(g, old(cache.Cached(g)), cache.Cached(g))
    ensures r == EQUAL ==> PropsAgree(Relates(cache.Cached(g)), ps, qs)
    ensures r == NOT_EQUAL ==> !PropsAgree(EqualTo(g, depth), ps, qs)
    decreases AllPairs(g) - cache.Cached(g), 2
  {
    depth := 0;
    ghost var start := cache.Cached(g);
    for i := 0 to |aKeys|
      invariant cache.Optimistic() && Grown(g, start, cache.Cached(g))
      invariant Walked(Relates(cache.Cached(g)), aKeys, bKeys, ps, qs, i)
    {
      ghost var before := cache.Cached(g);
      ghost var R := Relates(before);
      r, depth := Compare(g, Prim(Text(aKeys[i])), Prim(Text(bKeys[i])), cache);
      if r == NOT_EQUAL {
        EqualToReflexive(g, depth, Prim(Text(aKeys[i])));
        assert ps.Keys != qs.Keys;
        return;
      }
      GrownTransitive(g, start, before, cache.Cached(g));
      before := cache.Cached(g);
      assert aKeys[i] == bKeys[i] && aKeys[i] in ps && bKeys[i] in qs;
      r, depth := Compare(g, ps[aKeys[i]], qs[bKeys[i]], cache);
      if r == NOT_EQUAL {
        assert !PropsAgree(EqualTo(g, depth), ps, qs);
        return;
      }
      GrownTransitive(g, start, before, cache.Cached(g));
      WalkStep(R, Relates(cache.Cached(g)), aKeys, bKeys, ps, qs, i);
    }
    SortedWalkCovers(Relates(cache.Cached(g)), aKeys, bKeys, ps, qs);
    return EQUAL, depth;
  }

  /** The first `n` keys of both lists are the same and `R` relates the properties they name. */
  ghost predicate Walked(R: Relation, aKeys: seq<string>, bKeys: seq<string>,
                         ps: map<string, Value>, qs: map<string, Value>, n: nat)
  {
    && n <= |aKeys| && n <= |bKeys|
    && forall j | 0 <= j < n ::
         aKeys[j] == bKeys[j] && aKeys[j] in ps && aKeys[j] in qs && (ps[aKeys[j]], qs[aKeys[j]]) in R
  }

  lemma WalkStep(R: Relation, S: Relation, aKeys: seq<string>, bKeys: seq<string>,
                 ps: map<string, Value>, qs: map<string, Value>, n: nat)
    requires Walked(R, aKeys, bKeys, ps, qs, n) && R <= S
    requires n < |aKeys| && n < |bKeys| && aKeys[n] == bKeys[n]
    requires aKeys[n] in ps && aKeys[n] in qs && (ps[aKeys[n]], qs[aKeys[n]]) in S
    ensures Walked(S, aKeys, bKeys, ps, qs, n + 1)
  {
  }

  /** Walking equal sorted key lists in step compares every property of both objects. */
  lemma SortedWalkCovers(R: Relation, aKeys: seq<string>, bKeys: seq<string>,
                         ps: map<string, Value>, qs: map<string, Value>)
    requires (forall k :: k in aKeys <==> k in ps) && (forall k :: k in bKeys <==> k in qs)
    requires |aKeys| == |bKeys| && Walked(R, aKeys, bKeys, ps, qs, |aKeys|)
    ensures PropsAgree(R, ps, qs)
  {
    assert aKeys == bKeys;
  }

  lemma KeyCount(keys: seq<string>, props: map<string, Value>)
    requires Distinct(keys) && forall k :: k in keys <==> k in props
    ensures |keys| == |props.Keys|
  {
    DistinctCount(keys);
    assert props.Keys == set k | k in keys;
  }

  lemma {:induction false} DistinctCount(keys: seq<string>)
    requires Distinct(keys)
    ensures |set k | k in keys| == |keys|
  {
    if keys != [] {
      DistinctCount(keys[1..]);
      assert (set k | k in keys) == (set k | k in keys[1..]) + {keys[0]};
    }
  }

  /** `__t262_deCompareIterable` */
  method CompareIterable(g: Graph, a: Node, b: Node, cache: Cache) returns (r: int, ghost depth: nat)
    requires WellFormed(g) && NodeIn(g, a) && NodeIn(g, b)
    requires IterationOf(a).Some? && IterationOf(b).Some?
    requires cache.Optimistic()
    modifies cache
    ensures r in {EQUAL, NOT_EQUAL} && cache.Valid()
    ensures old(cache.Cached(g)) <= cache.Cached(g)
    ensures r == EQUAL ==> cache.Optimistic() && Grown(g, old(cache.Cached(g)), cache.Cached(g))
    ensures r == EQUAL ==> IterationsAgree(Relates(cache.Cached(g)), IterationOf(a), IterationOf(b))
    ensures r == NOT_EQUAL ==> !IterationsAgree(EqualTo(g, depth), IterationOf(a), IterationOf(b))
    decreases AllPairs(g) - cache.Cached(g), 2
  {
    depth := 0;
    var s, t := IterationOf(a).value, IterationOf(b).value;
    if IsMap(a) && IsMap(b) && |s| != |t| { return NOT_EQUAL, depth; }
    if IsSet(a) && IsSet(b) && |s| != |t| { return NOT_EQUAL, depth; }
    ghost var start := cache.Cached(g);
    var i := 0;
    while true
      invariant 0 <= i <= |s| && i <= |t|
      invariant cache.Optimistic() && Grown(g, start, cache.Cached(g))
      invariant forall j | 0 <= j < i :: (s[j], t[j]) in Relates(cache.Cached(g))
      decreases |s| - i
    {
      if i == |s| {
        r := if i == |t| then EQUAL else NOT_EQUAL;
        return;
      }
      if i == |t| { return NOT_EQUAL, depth; }
      ghost var before := cache.Cached(g);
      r, depth := Compare(g, s[i], t[i], cache);
      if r == NOT_EQUAL { return; }
      GrownTransitive(g, start, before, cache.Cached(g));
      i := i + 1;
    }
  }

  /**
   `__t262_deepEqual`'s verdict, over a fresh cache: EQUAL exactly for structurally
   equal values.
   */
  method CompareFresh(g: Graph, a: Value, b: Value) returns (r: int)
    requires WellFormed(g) && ValueIn(g, a) && ValueIn(g, b)
    ensures r == if DeepEqual(g, a, b) then EQUAL else NOT_EQUAL
  {
    var cache := new Cache();
    ghost var depth;
    r, depth := Compare(g, a, b, cache);
    if r == EQUAL {
      assert Bisimulation(g, cache.Cached(g));
      BisimulationIsSound(g, cache.Cached(g));
      assert (a, b) in DeepEqualRelation(g);
    }
  }

  /**
   What the cache says about two objects after their comparison.  It contradicts the
   verdict exactly when the comparison left through a stale exit, so the verdicts are
   right because each comparison starts from a fresh cache.
   */
  method CompareThenRecall(g: Graph, x: nat, y: nat) returns (r: int, recalled: int)
    requires WellFormed(g) && x in g && y in g
    ensures r == if DeepEqual(g, Ref(x), Ref(y)) then EQUAL else NOT_EQUAL
    ensures recalled == if r == EQUAL || StaleExit(g[x], g[y]) then EQUAL else NOT_EQUAL
    ensures r == NOT_EQUAL ==> (recalled == EQUAL <==>
      && StrictEquals(g[x].tag, g[y].tag)
      && match (g[x].kind, g[y].kind)
         case (ArrayLike(_), ArrayLike(_)) => false
         case (Structural(_, _, _), Structural(_, _, _)) => false
         case (Container(_, s), Container(_, t)) => s.Some? != t.Some?
         case _ => true)
  {
    var cache := new Cache();
    ghost var depth;
    r, depth := CompareObject(g, x, y, cache);
    if r == EQUAL {
      assert Bisimulation(g, cache.Cached(g));
      BisimulationIsSound(g, cache.Cached(g));
      assert (Ref(x), Ref(y)) in DeepEqualRelation(g);
    }
    recalled := cache.Get(x, y);
  }

  /** Such a pair exists: two dates with different times. */
  lemma StaleEntryExists()
    ensures exists g: Graph, x, y ::
      WellFormed(g) && x in g && y in g && StaleExit(g[x], g[y]) && !DeepEqual(g, Ref(x), Ref(y))
  {
    var d0 := Node(Undefined, Date(Prim(Num(Finite(0.0)))));
    var d1 := Node(Undefined, Date(Prim(Num(Finite(1.0)))));
    var g: Graph := map[0 := d0, 1 := d1];
    assert (Ref(0), Ref(1)) !in EqualTo(g, 1);
    assert WellFormed(g) && StaleExit(g[0], g[1]) && !DeepEqual(g, Ref(0), Ref(1));
  }
}
