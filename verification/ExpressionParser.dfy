/**
 A recursive-descent parser over a token array that may end anywhere.  Reading the
 kind of a token past the end throws; token values are integer-valued doubles.
 */
module ExpressionParser {
  import opened Bits
  import opened Float64

  datatype Token = Token(kind: int, value: int)

  type Tokens = seq<Token>

  const NUM := 0
  const PLUS := 1
  const STAR := 2
  const END := 3

  datatype Outcome = Value(v: int) | TypeError

  // ----- what an array of tokens denotes

  predicate IsKind(toks: Tokens, i: nat, kind: int) {
    i < |toks| && toks[i].kind == kind
  }

  /** A number token denotes its value, any other token zero. */
  function FactorAt(toks: Tokens, i: nat): int {
    if i < |toks| && toks[i].kind == NUM then toks[i].value else 0
  }

  /**
   From position `p` every second token is a factor and every second one an operator;
   the expression ends at the first that is not an operator, or past the array.
   */
  function ExprEnd(toks: Tokens, p: nat): (e: nat)
    ensures e > p && (e < |toks| ==> toks[e].kind != PLUS && toks[e].kind != STAR)
    ensures p <= |toks| ==> e <= |toks| + 1
    decreases |toks| - p
  {
    if IsKind(toks, p + 1, PLUS) || IsKind(toks, p + 1, STAR) then ExprEnd(toks, p + 2) else p + 1
  }

  function TermEnd(toks: Tokens, p: nat): (e: nat)
    ensures e > p && (e < |toks| ==> toks[e].kind != STAR)
    decreases |toks| - p
  {
    if IsKind(toks, p + 1, STAR) then TermEnd(toks, p + 2) else p + 1
  }

  /** A product of factors, and a sum of products, each never empty. */
  datatype Factors = Factor(v: int) | Times(v: int, rest: Factors)

  datatype Summands = Term(t: Factors) | Plus(t: Factors, rest: Summands)

  function WithFactor(v: int, ts: Summands): Summands {
    ts.(t := Times(v, ts.t))
  }

  /** The expression at `p`: its factors, parted into terms at each PLUS. */
  function Denotes(toks: Tokens, p: nat): Summands
    decreases |toks| - p
  {
    if IsKind(toks, p + 1, STAR) then WithFactor(FactorAt(toks, p), Denotes(toks, p + 2))
    else if IsKind(toks, p + 1, PLUS) then Plus(Factor(FactorAt(toks, p)), Denotes(toks, p + 2))
    else Term(Factor(FactorAt(toks, p)))
  }

  /** Doubles multiply and add from the left, rounding each time. */
  function ProductFrom(left: int, fs: Factors): int
    decreases fs
  {
    match fs
    case Factor(v) => Round(left * v)
    case Times(v, rest) => ProductFrom(Round(left * v), rest)
  }

  function Product(fs: Factors): int {
    match fs
    case Factor(v) => v
    case Times(v, rest) => ProductFrom(v, rest)
  }

  function SumFrom(left: int, ts: Summands): int
    decreases ts
  {
    match ts
    case Term(t) => Round(left + Product(t))
    case Plus(t, rest) => SumFrom(Round(left + Product(t)), rest)
  }

  function Sum(ts: Summands): int {
    match ts
    case Term(t) => Product(t)
    case Plus(t, rest) => SumFrom(Product(t), rest)
  }

  /** The first term of an expression, and where the rest of it starts. */
  lemma {:induction false} FirstTerm(toks: Tokens, p: nat)
    ensures var e, ts := TermEnd(toks, p), Denotes(toks, p);
            if IsKind(toks, e, PLUS)
            then ts == Plus(ts.t, Denotes(toks, e + 1)) && ExprEnd(toks, p) == ExprEnd(toks, e + 1)
            else ts == Term(ts.t) && ExprEnd(toks, p) == e
    decreases |toks| - p
  {
    if IsKind(toks, p + 1, STAR) { FirstTerm(toks, p + 2); }
  }

  // ----- exact values

  function ExactProduct(fs: Factors): int {
    match fs
    case Factor(v) => v
    case Times(v, rest) => v * ExactProduct(rest)
  }

  function ExactSum(ts: Summands): int {
    match ts
    case Term(t) => ExactProduct(t)
    case Plus(t, rest) => ExactProduct(t) + ExactSum(rest)
  }

  /** The products, each without its sign, added up. */
  function AbsSum(ts: Summands): nat {
    match ts
    case Term(t) => Abs(ExactProduct(t))
    case Plus(t, rest) => Abs(ExactProduct(t)) + AbsSum(rest)
  }

  /** A product on the way may round only if a factor that follows is zero. */
  lemma {:induction false} ProductFromExact(left: int, fs: Factors)
    requires Abs(left * ExactProduct(fs)) <= TWO53
    ensures ProductFrom(left, fs) == left * ExactProduct(fs)
    decreases fs
  {
    hide Round;
    match fs
    case Factor(v) =>
      SmallIsExact(left * v);
    case Times(v, rest) =>
      var r := ExactProduct(rest);
      MulAssoc(left, v, r);
      if r != 0 {
        FactorShrinks(left * v, r);
        SmallIsExact(left * v);
      }
      ProductFromExact(Round(left * v), rest);
  }

  lemma FactorShrinks(p: int, r: int)
    requires r != 0
    ensures Abs(p) <= Abs(p * r)
  {
    if p != 0 {
      MulAtLeast(r, Abs(p));
      if p < 0 { assert p * r == -(r * -p); }
    }
  }

  lemma ProductIsExact(fs: Factors)
    requires Abs(ExactProduct(fs)) <= TWO53
    ensures Product(fs) == ExactProduct(fs)
  {
    if fs.Times? { ProductFromExact(fs.v, fs.rest); }
  }

  lemma {:induction false} SumFromExact(left: int, ts: Summands)
    requires Abs(left) + AbsSum(ts) <= TWO53
    ensures SumFrom(left, ts) == left + ExactSum(ts)
    decreases ts
  {
    hide Round;
    ProductIsExact(ts.t);
    SmallIsExact(left + ExactProduct(ts.t));
    if ts.Plus? { SumFromExact(left + ExactProduct(ts.t), ts.rest); }
  }

  /** Whatever their signs, while the products without sign add up to at most 2^53 the value is exact. */
  lemma SumIsExact(ts: Summands)
    requires AbsSum(ts) <= TWO53
    ensures Sum(ts) == ExactSum(ts)
  {
    hide Round;
    ProductIsExact(ts.t);
    if ts.Plus? { SumFromExact(ExactProduct(ts.t), ts.rest); }
  }

  predicate NoNegative(fs: Factors) {
    fs.v >= 0 && (fs.Times? ==> NoNegative(fs.rest))
  }

  predicate NoneNegative(ts: Summands) {
    NoNegative(ts.t) && (ts.Plus? ==> NoneNegative(ts.rest))
  }

  lemma {:induction false} ProductNotNegative(fs: Factors)
    requires NoNegative(fs)
    ensures ExactProduct(fs) >= 0
  {
    if fs.Times? {
      ProductNotNegative(fs.rest);
      MulMonotone(0, fs.v, ExactProduct(fs.rest));
    }
  }

  lemma {:induction false} SumNotNegative(ts: Summands)
    requires NoneNegative(ts)
    ensures AbsSum(ts) == ExactSum(ts)
  {
    ProductNotNegative(ts.t);
    if ts.Plus? { SumNotNegative(ts.rest); }
  }

  /** Without negative factors, a value up to 2^53 is exact. */
  lemma ValueIsExact(ts: Summands)
    requires NoneNegative(ts) && ExactSum(ts) <= TWO53
    ensures Sum(ts) == ExactSum(ts)
  {
    SumNotNegative(ts);
    SumIsExact(ts);
  }

  // ----- the parser

  class Parser {
    const toks: Tokens
    var pos: nat

    constructor (toks: Tokens)
      ensures this.toks == toks && pos == 0
    {
      this.toks := toks;
      pos := 0;
    }

    /** `this.toks[this.pos].kind` */
    method Peek() returns (r: Outcome)
      ensures r == if pos < |toks| then Value(toks[pos].kind) else TypeError
    {
      if pos < |toks| { return Value(toks[pos].kind); }
      return TypeError;
    }

    /** The cursor moves even when the token is missing. */
    method Factor() returns (r: Outcome)
      modifies this
      ensures pos == old(pos) + 1
      ensures r == if old(pos) < |toks| then Value(FactorAt(toks, old(pos))) else TypeError
    {
      var t := pos;
      pos := pos + 1;
      if t >= |toks| { return TypeError; }
      if toks[t].kind == NUM { return Value(toks[t].value); }
      return Value(Round(toks[t].value * 0));
    }

    /** Stops at the first token after a factor that is not STAR; throws past the array. */
    method Term() returns (r: Outcome)
      modifies this
      ensures pos == TermEnd(toks, old(pos))
      ensures r == if pos < |toks| then Value(Product(Denotes(toks, old(pos)).t)) else TypeError
    {
      hide Round;
      ghost var goal := Denotes(toks, pos).t;
      var f := Factor();
      if f.TypeError? { return TypeError; }
      var left := f.v;
      while true
        invariant TermEnd(toks, old(pos)) == if IsKind(toks, pos, STAR) then TermEnd(toks, pos + 1) else pos
        invariant Product(goal) == if IsKind(toks, pos, STAR) then ProductFrom(left, Denotes(toks, pos + 1).t) else left
        decreases |toks| - pos
      {
        var k := Peek();
        if k.TypeError? { return TypeError; }
        if k.v != STAR { return Value(left); }
        pos := pos + 1;
        f := Factor();
        if f.TypeError? { return TypeError; }
        left := Round(left * f.v);
      }
    }

    /**
     On any token array: the cursor ends at the first token in operator position that is
     no operator, with the sum of the products, or past the array, with an exception.
     */
    method Expr() returns (r: Outcome)
      modifies this
      ensures pos == ExprEnd(toks, old(pos))
      ensures r == if pos < |toks| then Value(Sum(Denotes(toks, old(pos)))) else TypeError
    {
      hide Round, Product, FactorAt, TermEnd;
      ghost var goal := Denotes(toks, pos);
      FirstTerm(toks, pos);
      var t := Term();
      if t.TypeError? { return TypeError; }
      var left := t.v;
      while true
        invariant pos < |toks|
        invariant ExprEnd(toks, old(pos)) == if IsKind(toks, pos, PLUS) then ExprEnd(toks, pos + 1) else pos
        invariant Sum(goal) == if IsKind(toks, pos, PLUS) then SumFrom(left, Denotes(toks, pos + 1)) else left
        decreases |toks| - pos
      {
        var k := Peek();
        if k.v != PLUS { return Value(left); }
        pos := pos + 1;
        FirstTerm(toks, pos);
        t := Term();
        if t.TypeError? { return TypeError; }
        left := Round(left + t.v);
      }
    }

    /** Counts up to END; running off the array answers the negated count, even when it starts past it. */
    method Count() returns (n: int)
      modifies this
      ensures old(pos) <= pos && (pos == old(pos) || pos <= |toks|)
      ensures forall i | old(pos) <= i < pos :: toks[i].kind != END
      ensures pos < |toks| ==> toks[pos].kind == END && n == pos - old(pos)
      ensures pos >= |toks| ==> n == -(pos - old(pos))
    {
      n := 0;
      while true
        invariant old(pos) <= pos && (pos == old(pos) || pos <= |toks|) && n == pos - old(pos)
        invariant forall i | old(pos) <= i < pos :: toks[i].kind != END
        decreases |toks| - pos
      {
        var k := Peek();
        if k.TypeError? { return -n; }
        if k.v == END { return n; }
        n := n + 1;
        pos := pos + 1;
      }
    }
  }

  // ----- parsing undoes rendering

  /** Factors with STAR between them. */
  function RenderProduct(fs: Factors): Tokens {
    match fs
    case Factor(v) => [Token(NUM, v)]
    case Times(v, rest) => [Token(NUM, v), Token(STAR, 0)] + RenderProduct(rest)
  }

  /** Products with PLUS between them. */
  function RenderSum(ts: Summands): Tokens {
    match ts
    case Term(t) => RenderProduct(t)
    case Plus(t, rest) => RenderProduct(t) + ([Token(PLUS, 0)] + RenderSum(rest))
  }

  /** The tokens of `s` stand in `toks` from position `p` on. */
  ghost predicate StandsAt(s: Tokens, toks: Tokens, p: nat) {
    p + |s| <= |toks| && forall i | 0 <= i < |s| :: toks[p + i] == s[i]
  }

  lemma StandsInParts(a: Tokens, b: Tokens, toks: Tokens, p: nat)
    requires StandsAt(a + b, toks, p)
    ensures StandsAt(a, toks, p) && StandsAt(b, toks, p + |a|)
  {
    forall i | 0 <= i < |a| ensures toks[p + i] == a[i] { assert (a + b)[i] == a[i]; }
    forall i | 0 <= i < |b| ensures toks[p + |a| + i] == b[i] {
      assert (a + b)[|a| + i] == b[i];
      assert toks[p + (|a| + i)] == (a + b)[|a| + i];
    }
  }

  lemma OneStands(t: Token, toks: Tokens, p: nat)
    requires StandsAt([t], toks, p)
    ensures p < |toks| && toks[p] == t
  {
    assert toks[p + 0] == [t][0];
  }

  lemma {:induction false} ProductRead(fs: Factors, toks: Tokens, p: nat)
    requires StandsAt(RenderProduct(fs), toks, p)
    requires !IsKind(toks, p + |RenderProduct(fs)|, STAR)
    ensures Denotes(toks, p).t == fs && TermEnd(toks, p) == p + |RenderProduct(fs)|
    decreases fs
  {
    match fs
    case Factor(v) =>
      OneStands(Token(NUM, v), toks, p);
    case Times(v, rest) =>
      StandsInParts([Token(NUM, v), Token(STAR, 0)], RenderProduct(rest), toks, p);
      assert [Token(NUM, v), Token(STAR, 0)] == [Token(NUM, v)] + [Token(STAR, 0)];
      StandsInParts([Token(NUM, v)], [Token(STAR, 0)], toks, p);
      OneStands(Token(NUM, v), toks, p);
      OneStands(Token(STAR, 0), toks, p + 1);
      ProductRead(rest, toks, p + 2);
  }

  lemma {:induction false} SumRead(ts: Summands, toks: Tokens, p: nat)
    requires StandsAt(RenderSum(ts), toks, p)
    requires var e := p + |RenderSum(ts)|; !IsKind(toks, e, PLUS) && !IsKind(toks, e, STAR)
    ensures Denotes(toks, p) == ts && ExprEnd(toks, p) == p + |RenderSum(ts)|
    decreases ts
  {
    if ts.Plus? {
      var e := p + |RenderProduct(ts.t)|;
      StandsInParts(RenderProduct(ts.t), [Token(PLUS, 0)] + RenderSum(ts.rest), toks, p);
      StandsInParts([Token(PLUS, 0)], RenderSum(ts.rest), toks, e);
      OneStands(Token(PLUS, 0), toks, e);
      SumRead(ts.rest, toks, e + 1);
    }
    ProductRead(ts.t, toks, p);
    FirstTerm(toks, p);
  }

  /** Wherever a rendered sum of products is followed by another token, `expr` gives its value. */
  method ParseRendered(ts: Summands, before: Tokens, follow: Token, after: Tokens) returns (r: Outcome, end: nat)
    requires follow.kind != PLUS && follow.kind != STAR
    ensures r == Value(Sum(ts)) && end == |before| + |RenderSum(ts)|
  {
    var toks := before + RenderSum(ts) + [follow] + after;
    var p := new Parser(toks);
    p.pos := |before|;
    assert toks[|before| + |RenderSum(ts)|] == follow;
    SumRead(ts, toks, |before|);
    r := p.Expr();
    end := p.pos;
  }

  // ----- the order of the operations

  function WithLastFactor(fs: Factors, v: int): Factors {
    match fs
    case Factor(u) => Times(u, Factor(v))
    case Times(u, rest) => Times(u, WithLastFactor(rest, v))
  }

  function WithLastTerm(ts: Summands, t: Factors): Summands {
    match ts
    case Term(u) => Plus(u, Term(t))
    case Plus(u, rest) => Plus(u, WithLastTerm(rest, t))
  }

  lemma {:induction false} ProductFromLast(left: int, fs: Factors, v: int)
    ensures ProductFrom(left, WithLastFactor(fs, v)) == Round(ProductFrom(left, fs) * v)
    decreases fs
  {
    hide Round;
    if fs.Times? { ProductFromLast(Round(left * fs.v), fs.rest, v); }
  }

  lemma {:induction false} SumFromLast(left: int, ts: Summands, t: Factors)
    ensures SumFrom(left, WithLastTerm(ts, t)) == Round(SumFrom(left, ts) + Product(t))
    decreases ts
  {
    hide Round, Product;
    if ts.Plus? { SumFromLast(Round(left + Product(ts.t)), ts.rest, t); }
  }

  /** The last operation comes last: all before it, rounded, then it, rounded once more. */
  lemma LastOperation(fs: Factors, v: int, ts: Summands, t: Factors)
    ensures Product(WithLastFactor(fs, v)) == Round(Product(fs) * v)
    ensures Sum(WithLastTerm(ts, t)) == Round(Sum(ts) + Product(t))
  {
    hide Round;
    if fs.Times? { ProductFromLast(fs.v, fs.rest, v); }
    if ts.Plus? { SumFromLast(Product(ts.t), ts.rest, t); }
  }

  /** One token before the end: a number (kind 0) stands for its value, anything else for zero. */
  method ParseOne(t: Token, follow: Token) returns (r: Outcome)
    requires follow.kind != 1 && follow.kind != 2
    ensures r == Value(if t.kind == 0 then t.value else 0)
  {
    var toks := [t, follow];
    var p := new Parser(toks);
    r := p.Expr();
    assert Denotes(toks, 0) == Term(Factor(FactorAt(toks, 0)));
  }

  /** 2 + 3 * 4 + 5, with the kinds of the tokens written out: the product binds tighter. */
  method ParseExample() returns (r: Outcome, end: nat)
    ensures r == Value(19) && end == 7
  {
    var toks := [Token(0, 2), Token(1, 0), Token(0, 3), Token(2, 0), Token(0, 4), Token(1, 0), Token(0, 5), Token(3, 0)];
    var p := new Parser(toks);
    r := p.Expr();
    end := p.pos;
    ExampleRead(toks);
  }

  lemma ExampleRead(toks: Tokens)
    requires toks == [Token(0, 2), Token(1, 0), Token(0, 3), Token(2, 0), Token(0, 4), Token(1, 0), Token(0, 5), Token(3, 0)]
    ensures Sum(Denotes(toks, 0)) == 19 && ExprEnd(toks, 0) == 7
  {
    var first, second, third := Factor(2), Times(3, Factor(4)), Term(Factor(5));
    var ts := Plus(first, Plus(second, third));
    assert RenderSum(third) == [Token(0, 5)];
    assert RenderProduct(second) == [Token(0, 3), Token(2, 0), Token(0, 4)];
    assert RenderSum(Plus(second, third)) == [Token(0, 3), Token(2, 0), Token(0, 4), Token(1, 0), Token(0, 5)];
    assert RenderSum(ts) == toks[..7];
    SumRead(ts, toks, 0);
    ExampleValue();
  }

  lemma ExampleValue()
    ensures Sum(Plus(Factor(2), Plus(Times(3, Factor(4)), Term(Factor(5))))) == 19
  {
    var rest := Plus(Times(3, Factor(4)), Term(Factor(5)));
    var ts := Plus(Factor(2), rest);
    assert ExactProduct(Times(3, Factor(4))) == 12;
    assert ExactSum(rest) == 17 && ExactSum(ts) == 19;
    assert AbsSum(rest) == 17 && AbsSum(ts) == 19;
    hide Sum, SumFrom, Product, ProductFrom;
    SumIsExact(ts);
  }
}
