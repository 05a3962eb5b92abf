/**
 Structural equality kind by kind, in terms of the structural equality of the parts:
 what `deepEqual` decides for two primitives, two dates, two arrays, and so on.
 */
module DeepEqualCases {
  import opened JsValues
  import opened Options
  import opened DeepEqualSpec

  // ----- values that are not objects

  /** Numbers, boxed or not: NaN equals itself, and the two zeros are equal. */
  lemma NumbersEqual(g: Graph, u: Value, v: Value)
    requires (u.Prim? || u.Boxed?) && u.p.Num? && (v.Prim? || v.Boxed?) && v.p.Num?
    ensures DeepEqual(g, u, v) <==> NumericallyEqual(u.p.n, v.p.n) || (u.p.n.NaN? && v.p.n.NaN?)
  {
    DeepEqualUnfolds(g, u, v);
  }

  /** Other primitives, boxed or not: the same content of the same type. */
  lemma PrimitivesEqual(g: Graph, u: Value, v: Value)
    requires (u.Prim? || u.Boxed?) && (v.Prim? || v.Boxed?) && !(u.p.Num? && v.p.Num?)
    ensures DeepEqual(g, u, v) <==>
      match (u.p, v.p)
      case (Text(s), Text(t)) => s == t
      case (BigInt(i), BigInt(j)) => i == j
      case (Bool(b), Bool(c)) => b == c
      case (Symbol(k), Symbol(l)) => k == l
      case _ => false
  {
    DeepEqualUnfolds(g, u, v);
  }

  /** `undefined` and `null` equal only themselves, and no object equals a primitive. */
  lemma OtherLeavesEqual(g: Graph, u: Value, v: Value)
    requires u.Undefined? || u.Null? || (u.Ref? && !v.Ref?)
    ensures DeepEqual(g, u, v) <==> (u.Undefined? && v.Undefined?) || (u.Null? && v.Null?)
    ensures DeepEqual(g, v, u) <==> (u.Undefined? && v.Undefined?) || (u.Null? && v.Null?)
  {
    DeepEqualUnfolds(g, u, v);
    DeepEqualUnfolds(g, v, u);
  }

  // ----- objects

  /** The values of two sequences are structurally equal one by one. */
  ghost predicate AllDeepEqual(g: Graph, s: seq<Value>, t: seq<Value>) {
    |s| == |t| && forall i | 0 <= i < |s| :: DeepEqual(g, s[i], t[i])
  }

  lemma ElementwiseMeans(g: Graph, s: seq<Value>, t: seq<Value>)
    ensures Elementwise(DeepEqualRelation(g), s, t) <==> AllDeepEqual(g, s, t)
  {
    hide DeepEqual;
    if AllDeepEqual(g, s, t) {
      forall i | 0 <= i < |s| ensures (s[i], t[i]) in DeepEqualRelation(g) {}
    }
    if Elementwise(DeepEqualRelation(g), s, t) {
      forall i | 0 <= i < |s| ensures DeepEqual(g, s[i], t[i]) { assert (s[i], t[i]) in DeepEqualRelation(g); }
    }
  }

  /** Dates by their time values, regular expressions by their sources; both have to be primitive. */
  lemma StampsEqual(g: Graph, x: nat, y: nat)
    requires x in g && y in g && x != y
    ensures g[x].kind.Date? && g[y].kind.Date? ==>
      var s, t := g[x].kind.timeValue, g[y].kind.timeValue;
      DeepEqual(g, Ref(x), Ref(y)) <==>
        StrictEquals(g[x].tag, g[y].tag) && (s.Prim? || s.Boxed?) && (t.Prim? || t.Boxed?) && DeepEqual(g, s, t)
    ensures g[x].kind.RegExp? && g[y].kind.RegExp? ==>
      var s, t := g[x].kind.source, g[y].kind.source;
      DeepEqual(g, Ref(x), Ref(y)) <==>
        StrictEquals(g[x].tag, g[y].tag) && (s.Prim? || s.Boxed?) && (t.Prim? || t.Boxed?) && DeepEqual(g, s, t)
  {
    DeepEqualUnfolds(g, Ref(x), Ref(y));
    if g[x].kind.Date? && g[y].kind.Date? { DeepEqualUnfolds(g, g[x].kind.timeValue, g[y].kind.timeValue); }
    if g[x].kind.RegExp? && g[y].kind.RegExp? { DeepEqualUnfolds(g, g[x].kind.source, g[y].kind.source); }
    hide DeepEqual;
  }

  /** Array-like objects: the same length, and equal elements in the same order. */
  lemma ArraysEqual(g: Graph, x: nat, y: nat)
    requires x in g && y in g && x != y && g[x].kind.ArrayLike? && g[y].kind.ArrayLike?
    ensures DeepEqual(g, Ref(x), Ref(y)) <==>
      StrictEquals(g[x].tag, g[y].tag) && AllDeepEqual(g, g[x].kind.elements, g[y].kind.elements)
  {
    DeepEqualUnfolds(g, Ref(x), Ref(y));
    ElementwiseMeans(g, g[x].kind.elements, g[y].kind.elements);
    hide DeepEqual, AllDeepEqual, Elementwise;
  }

  /** Maps and Sets: what they iterate, in order; other containers equal only themselves. */
  lemma ContainersEqual(g: Graph, x: nat, y: nat)
    requires x in g && y in g && x != y && g[x].kind.Container? && g[y].kind.Container?
    ensures var s, t := g[x].kind.iteration, g[y].kind.iteration;
      DeepEqual(g, Ref(x), Ref(y)) <==>
        StrictEquals(g[x].tag, g[y].tag) && s.Some? && t.Some? && AllDeepEqual(g, s.value, t.value)
  {
    var s, t := g[x].kind.iteration, g[y].kind.iteration;
    DeepEqualUnfolds(g, Ref(x), Ref(y));
    if s.Some? && t.Some? { ElementwiseMeans(g, s.value, t.value); }
    hide DeepEqual, AllDeepEqual, Elementwise;
  }

  /** Structural objects: the same keys, equal under each, and equal iterations if either iterates. */
  lemma StructuresEqual(g: Graph, x: nat, y: nat)
    requires x in g && y in g && x != y && g[x].kind.Structural? && g[y].kind.Structural?
    ensures var a, b := g[x].kind, g[y].kind;
      DeepEqual(g, Ref(x), Ref(y)) <==>
        && StrictEquals(g[x].tag, g[y].tag)
        && (forall k :: k in a.props <==> k in b.props)
        && (forall k | k in a.props && k in b.props :: DeepEqual(g, a.props[k], b.props[k]))
        && (a.iteration.Some? <==> b.iteration.Some?)
        && (a.iteration.Some? && b.iteration.Some? ==> AllDeepEqual(g, a.iteration.value, b.iteration.value))
  {
    var a, b := g[x].kind, g[y].kind;
    DeepEqualUnfolds(g, Ref(x), Ref(y));
    PropsMeans(g, a.props, b.props);
    if a.iteration.Some? && b.iteration.Some? { ElementwiseMeans(g, a.iteration.value, b.iteration.value); }
    hide DeepEqual, AllDeepEqual, Elementwise, PropsAgree;
  }

  lemma PropsMeans(g: Graph, ps: map<string, Value>, qs: map<string, Value>)
    ensures PropsAgree(DeepEqualRelation(g), ps, qs) <==>
      (forall k :: k in ps <==> k in qs) && (forall k | k in ps && k in qs :: DeepEqual(g, ps[k], qs[k]))
  {
    hide DeepEqual;
    if PropsAgree(DeepEqualRelation(g), ps, qs) {
      forall k ensures k in ps <==> k in qs { assert k in ps.Keys <==> k in qs.Keys; }
      forall k | k in ps && k in qs ensures DeepEqual(g, ps[k], qs[k]) { assert (ps[k], qs[k]) in DeepEqualRelation(g); }
    }
    if (forall k :: k in ps <==> k in qs) && (forall k | k in ps && k in qs :: DeepEqual(g, ps[k], qs[k])) {
      assert ps.Keys == qs.Keys;
      forall k | k in ps ensures (ps[k], qs[k]) in DeepEqualRelation(g) { assert DeepEqual(g, ps[k], qs[k]); }
    }
  }

  /** Two objects of different kinds are never equal. */
  lemma KindsDiffer(g: Graph, x: nat, y: nat)
    requires x in g && y in g && x != y
    requires g[x].kind.Date? != g[y].kind.Date? || g[x].kind.RegExp? != g[y].kind.RegExp?
          || g[x].kind.ArrayLike? != g[y].kind.ArrayLike? || g[x].kind.Container? != g[y].kind.Container?
    ensures !DeepEqual(g, Ref(x), Ref(y))
  {
    DeepEqualUnfolds(g, Ref(x), Ref(y));
    hide DeepEqual;
  }
}
