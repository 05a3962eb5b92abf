/**
 A maximal-munch tokenizer over UTF-16 code units: runs of digits become numbers,
 spaces part lexemes, and any other unit is a token of its own.
 */
module Tokenizer {
  import opened Float64
  import opened Texts

  datatype Token = Token(kind: int, value: int)

  const SPACE := 32
  const NUMBER := 0
  const MARK := 1
  const ENDMARK := Token(9, 0)

  predicate IsDigit(c: int) { 48 <= c <= 57 }

  /** `v * 10 + (d - 48)` in double arithmetic. */
  function Step(v: int, d: nat): int { Round(Round(v * 10) + (d - 48)) }

  datatype Scanned = Scanned(value: int, rest: Text)

  /** Reads digits onto `v` for as long as there are any. */
  function TakeNumber(v: int, s: Text): (r: Scanned)
    ensures |r.rest| <= |s|
    ensures s != [] && IsDigit(s[0]) ==> |r.rest| < |s|
    decreases |s|
  {
    if s == [] || !IsDigit(s[0]) then Scanned(v, s) else TakeNumber(Step(v, s[0]), s[1..])
  }

  function Lex(s: Text): seq<Token>
    decreases |s|
  {
    if s == [] then [ENDMARK]
    else if s[0] == SPACE then Lex(s[1..])
    else if IsDigit(s[0]) then var n := TakeNumber(0, s); [Token(NUMBER, n.value)] + Lex(n.rest)
    else [Token(MARK, s[0])] + Lex(s[1..])
  }

  // ----- layouts: what the source text is made of

  /** A number by its digits, or one other unit. */
  datatype Lexeme = Number(digits: Text) | Mark(c: nat)

  /** Lexemes with any number of spaces before each and at the end. */
  datatype Layout = Blank(gap: nat) | Lexemes(gap: nat, first: Lexeme, rest: Layout)

  predicate LexemeOk(x: Lexeme) {
    match x
    case Number(ds) => ds != [] && forall i | 0 <= i < |ds| :: IsDigit(ds[i])
    case Mark(c) => c != SPACE && !IsDigit(c)
  }

  /** Two numbers do not touch. */
  predicate LayoutOk(l: Layout) {
    l.Lexemes? ==>
      && LexemeOk(l.first)
      && (l.first.Number? && l.rest.Lexemes? && l.rest.first.Number? ==> l.rest.gap > 0)
      && LayoutOk(l.rest)
  }

  function Spaces(k: nat): Text { if k == 0 then [] else [SPACE] + Spaces(k - 1) }

  function LexemeText(x: Lexeme): Text { if x.Number? then x.digits else [x.c] }

  function Render(l: Layout): Text {
    match l
    case Blank(gap) => Spaces(gap)
    case Lexemes(gap, x, rest) => Spaces(gap) + (LexemeText(x) + Render(rest))
  }

  /** The double a string of digits adds up to, on top of `v`. */
  function Accumulate(v: int, ds: Text): int
    decreases |ds|
  {
    if ds == [] then v else Accumulate(Step(v, ds[0]), ds[1..])
  }

  function TokenOf(x: Lexeme): Token {
    match x
    case Number(ds) => Token(NUMBER, Accumulate(0, ds))
    case Mark(c) => Token(MARK, c)
  }

  function Tokens(l: Layout): seq<Token> {
    match l
    case Blank(_) => [ENDMARK]
    case Lexemes(_, x, rest) => [TokenOf(x)] + Tokens(rest)
  }

  lemma {:induction false} SpacesSkipped(k: nat, s: Text)
    ensures Lex(Spaces(k) + s) == Lex(s)
  {
    if k == 0 {
      assert Spaces(0) + s == s;
    } else {
      SpacesSkipped(k - 1, s);
      assert (Spaces(k) + s)[1..] == Spaces(k - 1) + s;
    }
  }

  lemma {:induction false} DigitsTaken(v: int, ds: Text, s: Text)
    requires forall i | 0 <= i < |ds| :: IsDigit(ds[i])
    requires s != [] ==> !IsDigit(s[0])
    ensures TakeNumber(v, ds + s) == Scanned(Accumulate(v, ds), s)
    decreases |ds|
  {
    hide Step;
    if ds == [] {
      assert ds + s == s;
    } else {
      DigitsTaken(Step(v, ds[0]), ds[1..], s);
      assert (ds + s)[1..] == ds[1..] + s;
    }
  }

  lemma RenderHead(l: Layout)
    requires LayoutOk(l) && (l.Lexemes? && l.first.Number? ==> l.gap > 0)
    ensures Render(l) != [] ==> !IsDigit(Render(l)[0])
  {
    if l.gap > 0 { assert Spaces(l.gap)[0] == SPACE; }
  }

  /** The tokenizer reads any layout lexeme by lexeme and ends with one end token. */
  lemma {:induction false} LexRendered(l: Layout)
    requires LayoutOk(l)
    ensures Lex(Render(l)) == Tokens(l)
    decreases l
  {
    match l
    case Blank(gap) =>
      SpacesSkipped(gap, []);
      assert Spaces(gap) + [] == Spaces(gap);
    case Lexemes(gap, x, rest) =>
      SpacesSkipped(gap, LexemeText(x) + Render(rest));
      LexRendered(rest);
      match x {
        case Number(ds) =>
          RenderHead(rest);
          DigitsTaken(0, ds, Render(rest));
        case Mark(c) =>
          assert ([c] + Render(rest))[1..] == Render(rest);
      }
  }

  /** Unit by unit: the space is 32 and means nothing; what is no digit is a token of kind 1; the end has kind 9. */
  lemma UnitsMean(c: nat, s: Text)
    ensures Lex([]) == [Token(9, 0)]
    ensures Lex([32] + s) == Lex(s)
    ensures c != 32 && (c < 48 || c > 57) ==> Lex([c] + s) == [Token(1, c)] + Lex(s)
  {
    assert ([32] + s)[1..] == s && ([c] + s)[1..] == s;
  }

  /** A run of digits is one token of kind 0, whatever number its digits add up to. */
  lemma DigitsMean(ds: Text, s: Text)
    requires ds != [] && forall i | 0 <= i < |ds| :: 48 <= ds[i] <= 57
    requires s != [] ==> s[0] < 48 || s[0] > 57
    ensures Lex(ds + s) == [Token(0, Accumulate(0, ds))] + Lex(s)
  {
    DigitsTaken(0, ds, s);
    assert (ds + s)[0] == ds[0];
    hide Step, TakeNumber;
  }

  lemma {:induction false} NumberSplits(v: int, s: Text) returns (ds: Text)
    ensures s == ds + TakeNumber(v, s).rest
    ensures forall i | 0 <= i < |ds| :: IsDigit(ds[i])
    ensures var r := TakeNumber(v, s).rest; r != [] ==> !IsDigit(r[0])
    decreases |s|
  {
    if s == [] || !IsDigit(s[0]) {
      ds := [];
    } else {
      var inner := NumberSplits(Step(v, s[0]), s[1..]);
      ds := [s[0]] + inner;
      assert s == [s[0]] + s[1..];
    }
  }

  /** Every text is the rendering of a layout, so the lemma above covers every input. */
  lemma {:induction false} EveryTextIsALayout(s: Text) returns (l: Layout)
    ensures LayoutOk(l) && Render(l) == s
    decreases |s|
  {
    if s == [] {
      l := Blank(0);
    } else if s[0] == SPACE {
      var m := EveryTextIsALayout(s[1..]);
      assert s == [s[0]] + s[1..];
      l := m.(gap := m.gap + 1);
      if m.Lexemes? { assert Spaces(m.gap + 1) + (LexemeText(m.first) + Render(m.rest)) == [SPACE] + Render(m); }
    } else if IsDigit(s[0]) {
      var ds := NumberSplits(0, s);
      var m := EveryTextIsALayout(TakeNumber(0, s).rest);
      l := NumberBefore(s, ds, m);
    } else {
      var m := EveryTextIsALayout(s[1..]);
      l := Lexemes(0, Mark(s[0]), m);
      assert Render(l) == [] + ([s[0]] + s[1..]) == s;
    }
  }

  /** A layout with the digits of a number put in front. */
  lemma NumberBefore(s: Text, ds: Text, m: Layout) returns (l: Layout)
    requires LayoutOk(m) && s == ds + Render(m) && s != [] && IsDigit(s[0])
    requires forall i | 0 <= i < |ds| :: IsDigit(ds[i])
    requires Render(m) != [] ==> !IsDigit(Render(m)[0])
    ensures LayoutOk(l) && Render(l) == s
  {
    hide Render;
    l := Lexemes(0, Number(ds), m);
    if m.Lexemes? && m.first.Number? && m.gap == 0 { NumberInFront(m); }
    FrontText(l, ds, m);
  }

  lemma FrontText(l: Layout, ds: Text, m: Layout)
    requires l == Lexemes(0, Number(ds), m)
    ensures Render(l) == ds + Render(m)
  {
    assert [] + (ds + Render(m)) == ds + Render(m);
  }

  lemma NumberInFront(m: Layout)
    requires LayoutOk(m) && m.Lexemes? && m.first.Number? && m.gap == 0
    ensures Render(m) != [] && IsDigit(Render(m)[0])
  {
    assert Render(m)[0] == m.first.digits[0];
  }

  // ----- decimal numerals

  function Decimal(n: nat): Text {
    if n < 10 then [48 + n] else Decimal(n / 10) + [48 + n % 10]
  }

  lemma {:induction false} AccumulateLast(v: int, ds: Text, d: nat)
    ensures Accumulate(v, ds + [d]) == Step(Accumulate(v, ds), d)
    decreases |ds|
  {
    hide Step;
    if ds == [] {
      assert [] + [d] == [d];
    } else {
      AccumulateLast(Step(v, ds[0]), ds[1..], d);
      assert (ds + [d])[1..] == ds[1..] + [d];
    }
  }

  /** What the numeral of a number is read as. */
  function ReadBack(n: nat): int { Accumulate(0, Decimal(n)) }

  lemma {:induction false} DecimalDigits(n: nat)
    ensures Decimal(n) != [] && forall i | 0 <= i < |Decimal(n)| :: IsDigit(Decimal(n)[i])
  {
    if n >= 10 { DecimalDigits(n / 10); }
  }

  /** The last digit is read onto what the others are read as. */
  lemma ReadBackStep(n: nat)
    ensures ReadBack(n) == Step(if n < 10 then 0 else ReadBack(n / 10), 48 + n % 10)
  {
    hide Step;
    if n < 10 {
      var ds := Decimal(n);
      assert ds[1..] == [] && Accumulate(0, ds) == Accumulate(Step(0, ds[0]), ds[1..]);
    } else {
      AccumulateLast(0, Decimal(n / 10), 48 + n % 10);
    }
  }

  /** The numeral of a number below 2^54 is read as that number rounded. */
  lemma {:induction false} ReadBackRounds(n: nat)
    requires n < 2 * TWO53
    ensures ReadBack(n) == Round(n)
  {
    ReadBackStep(n);
    if n >= 10 {
      ReadBackRounds(n / 10);
      SmallIsExact(n / 10);
    }
    hide ReadBack, Round;
    TensExact(n / 10);
    assert n / 10 * 10 + n % 10 == n;
  }

  lemma TensExact(v: nat)
    requires v * 10 < 2 * TWO53
    ensures Round(v * 10) == v * 10
  {
    hide Round;
    if v * 10 <= TWO53 {
      SmallIsExact(v * 10);
    } else {
      assert (v * 10) % 2 == 0;
      RoundNextBinade(v * 10);
    }
  }

  /** From 2^54 to 2^55 two digits are read wrongly onto every other multiple of four. */
  predicate DigitLost(n: nat) {
    n >= 2 * TWO53 && n % 8 == 4 && (n % 10 == 2 || n % 10 == 6)
  }

  /**
   Below 2^55 a numeral is read back exactly when its number is a double and its last
   digit is not lost; below 2^54 no digit is.
   */
  lemma ReadBackExactly(n: nat)
    requires n < 4 * TWO53
    ensures ReadBack(n) == n <==> IsDouble(n) && !DigitLost(n)
  {
    ReadIsDouble(n);
    if n < 2 * TWO53 {
      ReadBackRounds(n);
      hide ReadBack, IsDouble, Round;
      if IsDouble(n) { RoundExact(n); }
    } else if IsDouble(n) {
      hide ReadBack, IsDouble, Round, DigitLost;
      LongReadBack(n);
    }
  }

  lemma ReadIsDouble(n: nat)
    ensures IsDouble(ReadBack(n))
  {
    ReadBackStep(n);
    hide Round, IsDouble, ReadBack;
    var v := if n < 10 then 0 else ReadBack(n / 10);
    RoundIsDouble(Round(v * 10) + n % 10);
  }

  lemma LongReadBack(n: nat)
    requires IsDouble(n) && 2 * TWO53 <= n < 4 * TWO53
    ensures ReadBack(n) == n <==> !DigitLost(n)
  {
    ReadBackStep(n);
    ReadBackRounds(n / 10);
    SmallIsExact(n / 10);
    DoublesAboveAreFourfold(n);
    hide ReadBack, IsDouble, Round, DigitLost;
    LastDigit(n, n / 10, n % 10);
  }

  lemma LastDigit(n: nat, v: nat, d: nat)
    requires 2 * TWO53 <= n < 4 * TWO53 && n % 4 == 0 && n == 10 * v + d && d == n % 10
    ensures Round(Round(v * 10) + d) == n <==> !DigitLost(n)
  {
    hide Round;
    if v * 10 < 2 * TWO53 {
      FirstTens(v, d);
    } else {
      InEights(n);
      EvenDigit(n, v, d);
      assert DigitLost(n) <==> n % 8 == 4 && (d == 2 || d == 6);
      hide DigitLost;
      LastDigitInEights(n / 8, n % 8, v * 10, d);
    }
  }

  lemma InEights(n: nat)
    requires n % 4 == 0
    ensures n == 8 * (n / 8) + n % 8 && (n % 8 == 0 || n % 8 == 4)
  {
  }

  lemma EvenDigit(n: nat, v: nat, d: nat)
    requires n % 4 == 0 && n == 10 * v + d
    ensures d % 2 == 0
  {
    assert d == 2 * (2 * (n / 4) - 5 * v);
  }

  /** The numbers whose tens lie below 2^54: nothing is lost there. */
  lemma FirstTens(v: nat, d: nat)
    requires v * 10 < 2 * TWO53 <= v * 10 + d && d < 10 && (v * 10 + d) % 4 == 0
    ensures Round(Round(v * 10) + d) == v * 10 + d && !DigitLost(v * 10 + d)
  {
    hide Round;
    TensExact(v);
    assert v == 1801439850948198 && (d == 4 || d == 8);
    RoundBinadeAfter(v * 10 + d);
  }

  lemma LastDigitInEights(k: int, j: int, x: int, d: int)
    requires 2 * TWO53 <= x && 8 * k + j < 4 * TWO53 && (j == 0 || j == 4)
    requires 0 <= d < 10 && x + d == 8 * k + j && d % 2 == 0
    ensures Round(Round(x) + d) == x + d <==> !(j == 4 && (d == 2 || d == 6))
  {
    hide Round;
    if d <= j { RoundInEights(k, j - d); } else { RoundInEights(k - 1, 8 + j - d); }
    if j == 0 {
      if d == 2 { RoundInEights(k, 2); } else if d == 6 { RoundInEights(k - 1, 6); } else { RoundInEights(k, 0); }
    } else {
      if d == 2 { RoundInEights(k, 2); } else if d == 6 { RoundInEights(k, 6); } else { RoundInEights(k, 4); }
    }
  }

  lemma RoundInEights(k: int, j: int)
    requires 0 <= j < 8 && 2 * TWO53 <= 8 * k + j < 4 * TWO53
    ensures Round(8 * k + j) == 8 * k + if j <= 2 then 0 else if j <= 5 then 4 else 8
  {
    hide Round;
    RoundBinadeAfter(8 * k + j);
  }

  /** 2^53 + 1 is no double; 2^54 + 12 is one, but is not read back. */
  lemma NumeralsMisread()
    ensures ReadBack(TWO53 + 1) == TWO53
    ensures IsDouble(2 * TWO53 + 12) && ReadBack(2 * TWO53 + 12) != 2 * TWO53 + 12
  {
    hide Round, ReadBack;
    RoundNextBinade(TWO53 + 1);
    ReadBackRounds(TWO53 + 1);
    RoundBinadeAfter(2 * TWO53 + 12);
    RoundIsDouble(2 * TWO53 + 12);
    ReadBackExactly(2 * TWO53 + 12);
  }

  /** A number to write out in decimal, or one unit to write as it is. */
  datatype Item = Numeral(n: nat) | Unit(c: nat)

  predicate ItemOk(x: Item) {
    match x
    case Numeral(n) => n < 2 * TWO53
    case Unit(c) => c != SPACE && !IsDigit(c)
  }

  function Written(x: Item): Lexeme {
    match x
    case Numeral(n) => Number(Decimal(n))
    case Unit(c) => Mark(c)
  }

  function Meant(x: Item): Token {
    match x
    case Numeral(n) => Token(NUMBER, Round(n))
    case Unit(c) => Token(MARK, c)
  }

  /** Items written with one space before each. */
  function Spaced(xs: seq<Item>): Layout {
    if xs == [] then Blank(0) else Lexemes(1, Written(xs[0]), Spaced(xs[1..]))
  }

  function Meanings(xs: seq<Item>): seq<Token> {
    if xs == [] then [ENDMARK] else [Meant(xs[0])] + Meanings(xs[1..])
  }

  /** Tokenizing undoes writing, up to rounding, for numbers below 2^54. */
  lemma {:induction false} WrittenReadBack(xs: seq<Item>)
    requires forall i | 0 <= i < |xs| :: ItemOk(xs[i])
    ensures LayoutOk(Spaced(xs)) && Lex(Render(Spaced(xs))) == Meanings(xs)
  {
    SpacedTokens(xs);
    LexRendered(Spaced(xs));
  }

  lemma {:induction false} SpacedTokens(xs: seq<Item>)
    requires forall i | 0 <= i < |xs| :: ItemOk(xs[i])
    ensures LayoutOk(Spaced(xs)) && Tokens(Spaced(xs)) == Meanings(xs)
  {
    if xs != [] {
      SpacedTokens(xs[1..]);
      if xs[0].Numeral? { NumeralRead(xs[0].n); }
    }
  }

  lemma NumeralRead(n: nat)
    requires n < 2 * TWO53
    ensures LexemeOk(Number(Decimal(n))) && TokenOf(Number(Decimal(n))) == Token(NUMBER, Round(n))
  {
    hide Round;
    DecimalDigits(n);
    ReadBackRounds(n);
  }

  // ----- the loops

  lemma DigitStep(v: int, src: Text, i: nat)
    requires i < |src|
    ensures TakeNumber(v, From(src, i)) ==
            if IsDigit(src[i]) then TakeNumber(Step(v, src[i]), From(src, i + 1)) else Scanned(v, From(src, i))
  {
    hide Step;
    assert src[i..][1..] == src[i + 1..];
  }

  lemma LexStep(src: Text, i: nat)
    requires i < |src|
    ensures Lex(From(src, i)) ==
            if src[i] == SPACE then Lex(From(src, i + 1))
            else if IsDigit(src[i]) then
              [Token(NUMBER, TakeNumber(0, From(src, i)).value)] + Lex(TakeNumber(0, From(src, i)).rest)
            else [Token(MARK, src[i])] + Lex(From(src, i + 1))
  {
    assert src[i..][1..] == src[i + 1..];
  }

  lemma AtEnd(src: Text, v: int)
    ensures Lex(From(src, |src|)) == [ENDMARK]
    ensures TakeNumber(v, From(src, |src|)) == Scanned(v, From(src, |src|))
  {
  }

  /** What is still to be read at `i` follows what has been put out. */
  ghost predicate Lexed(src: Text, out: seq<Token>, i: nat) {
    Lex(src) == out + Lex(From(src, i))
  }

  lemma LexedStart(src: Text)
    ensures Lexed(src, [], 0)
  {
    assert From(src, 0) == src;
    assert [] + Lex(src) == Lex(src);
  }

  lemma LexedSpace(src: Text, out: seq<Token>, i: nat)
    requires Lexed(src, out, i) && i < |src| && src[i] == SPACE
    ensures Lexed(src, out, i + 1)
  {
    LexStep(src, i);
  }

  lemma LexedMark(src: Text, out: seq<Token>, i: nat)
    requires Lexed(src, out, i) && i < |src| && src[i] != SPACE && !IsDigit(src[i])
    ensures Lexed(src, out + [Token(MARK, src[i])], i + 1)
  {
    LexStep(src, i);
    hide Lex;
    Append(out, Token(MARK, src[i]), Lex(From(src, i + 1)));
  }

  lemma LexedNumber(src: Text, out: seq<Token>, i: nat, v: int, j: nat)
    requires Lexed(src, out, i) && i < |src| && IsDigit(src[i])
    requires TakeNumber(0, From(src, i)) == Scanned(v, From(src, j))
    ensures Lexed(src, out + [Token(NUMBER, v)], j)
  {
    LexStep(src, i);
    hide Lex;
    Append(out, Token(NUMBER, v), Lex(From(src, j)));
  }

  lemma Append(done: seq<Token>, t: Token, more: seq<Token>)
    ensures done + ([t] + more) == (done + [t]) + more
  {
  }

  method Tokenize(src: Text) returns (out: seq<Token>)
    ensures out == Lex(src)
  {
    LexedStart(src);
    out := [];
    var i := 0;
    hide Lexed, Lex, TakeNumber, From, Round;
    while i < |src|
      invariant 0 <= i <= |src|
      invariant Lexed(src, out, i)
      decreases |src| - i
    {
      var c := src[i];
      if c == SPACE {
        LexedSpace(src, out, i);
        i := i + 1;
      } else if c >= 48 && c <= 57 {
        var v := 0;
        ghost var start := i;
        while i < |src|
          invariant start <= i <= |src|
          invariant TakeNumber(v, From(src, i)) == TakeNumber(0, From(src, start))
          invariant i == start ==> IsDigit(src[i])
          decreases |src| - i
        {
          DigitStep(v, src, i);
          var d := src[i];
          if d < 48 || d > 57 { break; }
          v := Round(Round(v * 10) + (d - 48));
          i := i + 1;
        }
        if i == |src| { AtEnd(src, v); }
        LexedNumber(src, out, start, v, i);
        out := out + [Token(NUMBER, v)];
      } else {
        LexedMark(src, out, i);
        out := out + [Token(MARK, c)];
        i := i + 1;
      }
    }
    LexedEnd(src, out);
    out := out + [ENDMARK];
  }

  lemma LexedEnd(src: Text, out: seq<Token>)
    requires Lexed(src, out, |src|)
    ensures Lex(src) == out + [ENDMARK]
  {
    AtEnd(src, 0);
  }
}
