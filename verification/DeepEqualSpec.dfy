/**
 What structural equality means, stated without a cache: two values are equal when
 no finite number of observations tells them apart.  Object graphs are finite but
 may be cyclic.
 */
module DeepEqualSpec {
  import opened JsValues
  import opened Options
  import opened SortedKeys

  /** What a container is to the `instanceof` probes: `Opaque` is a Promise, WeakMap or WeakSet. */
  datatype Flavour = MapObject | SetObject | Opaque

  /**
   The classes the comparison tells apart, in the order it probes for them.  `keys`
   is the for-in order of a structural object, `props` what reading each key gives,
   and an iteration is the sequence of values its iterator yields.
   */
  datatype Kind =
    | Date(timeValue: Value)
    | RegExp(source: Value)
    | ArrayLike(elements: seq<Value>)
    | Structural(keys: seq<string>, props: map<string, Value>, iteration: Option<seq<Value>>)
    | Container(flavour: Flavour, iteration: Option<seq<Value>>)

  /** `tag` is the value of `@@toStringTag`, `Undefined` when there is none. */
  datatype Node = Node(tag: Value, kind: Kind)

  type Graph = map<nat, Node>

  type Pair = (nat, nat)

  type Relation = iset<(Value, Value)>

  predicate ValueIn(g: Graph, v: Value) {
    v.Ref? ==> v.id in g
  }

  predicate AllIn(g: Graph, s: seq<Value>) {
    forall v | v in s :: ValueIn(g, v)
  }

  predicate IterationIn(g: Graph, it: Option<seq<Value>>) {
    it.Some? ==> AllIn(g, it.value)
  }

  ghost predicate NodeIn(g: Graph, n: Node) {
    match n.kind
    case Date(_) => true
    case RegExp(_) => true
    case ArrayLike(s) => AllIn(g, s)
    case Structural(ks, ps, it) =>
      && Distinct(ks)
      && (forall k :: k in ks <==> k in ps)
      && (forall k | k in ps :: ValueIn(g, ps[k]))
      && IterationIn(g, it)
    case Container(f, it) =>
      && (f != Opaque ==> it.Some?)
      && IterationIn(g, it)
  }

  /** No reference dangles, and for-in yields every key once. */
  ghost predicate WellFormed(g: Graph) {
    forall x | x in g :: NodeIn(g, g[x])
  }

  /** Strings, numbers, bigints, booleans, symbols, and the objects that wrap one. */
  predicate IsPrimitive(v: Value) {
    v.Prim? || v.Boxed?
  }

  /** Primitives are equal when they unbox to the same value up to the sign of zero; NaN equals NaN. */
  ghost predicate PrimitiveEqual(u: Value, v: Value) {
    && IsPrimitive(u)
    && IsPrimitive(v)
    && UnsignedPrimitive(u.p) == UnsignedPrimitive(v.p)
  }

  /** Equality of two values that are not both objects. */
  ghost predicate LeafEqual(u: Value, v: Value) {
    || (u.Undefined? && v.Undefined?)
    || (u.Null? && v.Null?)
    || PrimitiveEqual(u, v)
  }

  ghost predicate Elementwise(R: Relation, s: seq<Value>, t: seq<Value>) {
    && |s| == |t|
    && forall i | 0 <= i < |s| :: (s[i], t[i]) in R
  }

  ghost predicate IterationsAgree(R: Relation, s: Option<seq<Value>>, t: Option<seq<Value>>) {
    match (s, t)
    case (None, None) => true
    case (Some(s), Some(t)) => Elementwise(R, s, t)
    case _ => false
  }

  ghost predicate PropsAgree(R: Relation, ps: map<string, Value>, qs: map<string, Value>) {
    && ps.Keys == qs.Keys
    && forall k | k in ps :: (ps[k], qs[k]) in R
  }

  /** One observation of two objects finds no difference, when their parts are compared by `R`. */
  ghost predicate NodesAgree(R: Relation, a: Node, b: Node) {
    && StrictEquals(a.tag, b.tag)
    && match (a.kind, b.kind)
       case (Date(s), Date(t)) => PrimitiveEqual(s, t)
       case (RegExp(s), RegExp(t)) => PrimitiveEqual(s, t)
       case (ArrayLike(s), ArrayLike(t)) => Elementwise(R, s, t)
       case (Structural(_, ps, s), Structural(_, qs, t)) => PropsAgree(R, ps, qs) && IterationsAgree(R, s, t)
       case (Container(_, s), Container(_, t)) => s.Some? && IterationsAgree(R, s, t)
       case _ => false
  }

  /** Objects agree when they are one object or one observation finds no difference. */
  ghost predicate ObjectsAgree(g: Graph, R: Relation, x: nat, y: nat) {
    x == y || (x in g && y in g && NodesAgree(R, g[x], g[y]))
  }

  ghost predicate ValuesAgree(g: Graph, R: Relation, u: Value, v: Value) {
    if u.Ref? && v.Ref? then ObjectsAgree(g, R, u.id, v.id) else LeafEqual(u, v)
  }

  /** The pairs of values that `n` nested observations cannot tell apart. */
  ghost function EqualTo(g: Graph, n: nat): Relation {
    if n == 0 then iset u: Value, v: Value | true :: (u, v)
    else var R := EqualTo(g, n - 1); iset u: Value, v: Value | ValuesAgree(g, R, u, v) :: (u, v)
  }

  /** Structural equality: no finite number of observations tells `u` from `v`. */
  ghost predicate DeepEqual(g: Graph, u: Value, v: Value) {
    forall n: nat :: (u, v) in EqualTo(g, n)
  }

  ghost function DeepEqualRelation(g: Graph): Relation {
    iset u: Value, v: Value | DeepEqual(g, u, v) :: (u, v)
  }

  /** The values that a set of object pairs, together with identity, relates. */
  ghost function Relates(pairs: set<Pair>): Relation {
    iset u: Value, v: Value |
      (if u.Ref? && v.Ref? then u.id == v.id || (u.id, v.id) in pairs else LeafEqual(u, v)) :: (u, v)
  }

  /** A set of object pairs each of which agrees when its parts are compared by the set itself. */
  ghost predicate Bisimulation(g: Graph, pairs: set<Pair>) {
    forall p | p in pairs :: ObjectsAgree(g, Relates(pairs), p.0, p.1)
  }

  // ----- agreement as an operator on relations

  lemma AgreeMonotone(g: Graph, R: Relation, S: Relation, x: nat, y: nat)
    requires R <= S
    requires ObjectsAgree(g, R, x, y)
    ensures ObjectsAgree(g, S, x, y)
  {
  }

  lemma AgreeSymmetric(g: Graph, R: Relation, S: Relation, x: nat, y: nat)
    requires forall u, v | (u, v) in R :: (v, u) in S
    requires ObjectsAgree(g, R, x, y)
    ensures ObjectsAgree(g, S, y, x)
  {
  }

  lemma AgreeTransitive(g: Graph, R: Relation, S: Relation, T: Relation, x: nat, y: nat, z: nat)
    requires forall u, v, w | (u, v) in R && (v, w) in S :: (u, w) in T
    requires R <= T && S <= T
    requires ObjectsAgree(g, R, x, y) && ObjectsAgree(g, S, y, z)
    ensures ObjectsAgree(g, T, x, z)
  {
  }

  // ----- structural equality is an equivalence

  lemma {:induction false} EqualToReflexive(g: Graph, n: nat, u: Value)
    ensures (u, u) in EqualTo(g, n)
  {
  }

  lemma {:induction false} EqualToSymmetric(g: Graph, n: nat, u: Value, v: Value)
    requires (u, v) in EqualTo(g, n)
    ensures (v, u) in EqualTo(g, n)
  {
    if n > 0 && u.Ref? && v.Ref? {
      var R := EqualTo(g, n - 1);
      forall s, t | (s, t) in R ensures (t, s) in R { EqualToSymmetric(g, n - 1, s, t); }
      AgreeSymmetric(g, R, R, u.id, v.id);
    }
  }

  lemma {:induction false} EqualToTransitive(g: Graph, n: nat, u: Value, v: Value, w: Value)
    requires (u, v) in EqualTo(g, n) && (v, w) in EqualTo(g, n)
    ensures (u, w) in EqualTo(g, n)
  {
    if n > 0 && u.Ref? && v.Ref? && w.Ref? {
      var R := EqualTo(g, n - 1);
      forall r, s, t | (r, s) in R && (s, t) in R ensures (r, t) in R { EqualToTransitive(g, n - 1, r, s, t); }
      AgreeTransitive(g, R, R, R, u.id, v.id, w.id);
    }
  }

  lemma DeepEqualEquivalence(g: Graph)
    ensures forall u :: DeepEqual(g, u, u)
    ensures forall u, v :: DeepEqual(g, u, v) ==> DeepEqual(g, v, u)
    ensures forall u, v, w :: DeepEqual(g, u, v) && DeepEqual(g, v, w) ==> DeepEqual(g, u, w)
  {
    forall u ensures DeepEqual(g, u, u) {
      forall n: nat ensures (u, u) in EqualTo(g, n) { EqualToReflexive(g, n, u); }
    }
    forall u, v | DeepEqual(g, u, v) ensures DeepEqual(g, v, u) {
      forall n: nat ensures (v, u) in EqualTo(g, n) { EqualToSymmetric(g, n, u, v); }
    }
    forall u, v, w | DeepEqual(g, u, v) && DeepEqual(g, v, w) ensures DeepEqual(g, u, w) {
      forall n: nat ensures (u, w) in EqualTo(g, n) { EqualToTransitive(g, n, u, v, w); }
    }
  }

  // ----- structural equality is the largest bisimulation

  /** Whatever a bisimulation relates is structurally equal. */
  lemma BisimulationIsSound(g: Graph, pairs: set<Pair>)
    requires Bisimulation(g, pairs)
    ensures Relates(pairs) <= DeepEqualRelation(g)
  {
    forall n: nat ensures Relates(pairs) <= EqualTo(g, n) { BisimulationWithin(g, pairs, n); }
  }

  lemma {:induction false} BisimulationWithin(g: Graph, pairs: set<Pair>, n: nat)
    requires Bisimulation(g, pairs)
    ensures Relates(pairs) <= EqualTo(g, n)
  {
    if n > 0 {
      BisimulationWithin(g, pairs, n - 1);
      forall u, v | (u, v) in Relates(pairs) ensures (u, v) in EqualTo(g, n) {
        if u.Ref? && v.Ref? && u.id != v.id {
          var p := (u.id, v.id);
          assert p in pairs;
          AgreeMonotone(g, Relates(pairs), EqualTo(g, n - 1), p.0, p.1);
        }
      }
    }
  }

  /** Structural equality unfolds: values are equal exactly when they agree part by part. */
  lemma DeepEqualUnfolds(g: Graph, u: Value, v: Value)
    ensures DeepEqual(g, u, v) <==> ValuesAgree(g, DeepEqualRelation(g), u, v)
  {
    var D := DeepEqualRelation(g);
    if ValuesAgree(g, D, u, v) {
      forall n: nat ensures (u, v) in EqualTo(g, n) {
        if n > 0 && u.Ref? && v.Ref? { AgreeMonotone(g, D, EqualTo(g, n - 1), u.id, v.id); }
      }
    }
    if DeepEqual(g, u, v) {
      assert (u, v) in EqualTo(g, 1);
      if u.Ref? && v.Ref? && u.id != v.id { PartsDeepEqual(g, u.id, v.id); }
    }
  }

  /** The parts of structurally equal objects are structurally equal. */
  lemma PartsDeepEqual(g: Graph, x: nat, y: nat)
    requires x != y && DeepEqual(g, Ref(x), Ref(y))
    ensures ObjectsAgree(g, DeepEqualRelation(g), x, y)
  {
    assert (Ref(x), Ref(y)) in EqualTo(g, 1);
    forall n: nat ensures ObjectsAgree(g, EqualTo(g, n), x, y) {
      assert (Ref(x), Ref(y)) in EqualTo(g, n + 1);
    }
    var a, b := g[x], g[y];
    forall u, v | (forall n: nat :: (u, v) in EqualTo(g, n)) ensures (u, v) in DeepEqualRelation(g) {}
    match (a.kind, b.kind)
    case (Date(_), Date(_)) =>
    case (RegExp(_), RegExp(_)) =>
    case (ArrayLike(s), ArrayLike(t)) => ElementsDeepEqual(g, s, t);
    case (Structural(_, ps, s), Structural(_, qs, t)) =>
      forall k | k in ps ensures (ps[k], qs[k]) in DeepEqualRelation(g) {
        forall n: nat ensures (ps[k], qs[k]) in EqualTo(g, n) {
          assert PropsAgree(EqualTo(g, n), ps, qs);
        }
      }
      if s.Some? { ElementsDeepEqual(g, s.value, t.value); }
    case (Container(_, s), Container(_, t)) => ElementsDeepEqual(g, s.value, t.value);
    case _ =>
  }

  lemma ElementsDeepEqual(g: Graph, s: seq<Value>, t: seq<Value>)
    requires forall n: nat :: Elementwise(EqualTo(g, n), s, t)
    ensures Elementwise(DeepEqualRelation(g), s, t)
  {
    assert Elementwise(EqualTo(g, 0), s, t);
    forall i | 0 <= i < |s| ensures (s[i], t[i]) in DeepEqualRelation(g) {
      forall n: nat ensures (s[i], t[i]) in EqualTo(g, n) {
        assert Elementwise(EqualTo(g, n), s, t);
      }
    }
  }
}
