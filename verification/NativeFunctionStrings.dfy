/**
 Where a string literal ends in ECMAScript, and where the scanner ends it: a backslash
 consumes the unit after it, while the scanner looks one unit back from each quote.
 */
module NativeFunctionStrings {
  import opened NativeFunctionGrammar
  import opened NativeFunctionReading
  import opened NativeFunctionProofs
  import opened NativeFunctionScan
  import opened Options
  import opened Texts

  const CR: nat := 13
  const LF: nat := 10

  /**
   How many units one character of a literal takes: a backslash consumes the next unit,
   and CR and LF together.  What an escape sequence may stand for is not checked.
   */
  function CharLength(s: Text): (k: nat)
    requires s != []
    ensures 1 <= k <= 3
  {
    if s[0] != BACKSLASH then 1 else if |s| > 2 && s[1] == CR && s[2] == LF then 3 else 2
  }

  /**
   From the quote that ends a string literal on (section 12.9.4 of ECMA-262), given the
   text after the opening quote.  Two of the line separators may stand in a literal.
   */
  function EsEnd(q: nat, s: Text): (r: Option<Text>)
    ensures r.Some? ==> 0 < |r.value| <= |s| && r.value[0] == q
    decreases |s|
  {
    if s == [] then None
    else if s[0] == q then Some(s)
    else if s[0] == CR || s[0] == LF || CharLength(s) > |s| then None
    else EsEnd(q, s[CharLength(s)..])
  }

  /** Unit by unit: the quote ends the literal, 10 and 13 break it, and 92 takes what follows with it. */
  lemma EsUnits(q: nat, c: nat, s: Text)
    requires q == 34 || q == 39
    ensures EsEnd(q, []).None? && EsEnd(q, [92]).None?
    ensures c == q ==> EsEnd(q, [c] + s) == Some([c] + s)
    ensures c == 10 || c == 13 ==> EsEnd(q, [c] + s).None?
    ensures c !in {q, 10, 13, 92} ==> EsEnd(q, [c] + s) == EsEnd(q, s)
    ensures !(c == 13 && s != [] && s[0] == 10) ==> EsEnd(q, [92, c] + s) == EsEnd(q, s)
    ensures EsEnd(q, [92, 13, 10] + s) == EsEnd(q, s)
  {
    assert ([c] + s)[1..] == s && ([92, c] + s)[2..] == s && ([92, 13, 10] + s)[3..] == s;
  }

  /** `body` between two quotes is one string literal. */
  predicate EsBody(q: nat, body: Text) {
    EsEnd(q, body + [q]) == Some([q])
  }

  /** What a look one unit back can read: no line terminator, no backslash before the closing quote. */
  predicate Readable(previous: nat, body: Text) {
    NoNewline(body) && Preceding(previous, body, |body|) != BACKSLASH
  }

  lemma ReadableTail(previous: nat, body: Text)
    requires body != []
    ensures Readable(previous, body) <==> !IsNl(body[0]) && Readable(body[0], body[1..])
  {
    if !IsNl(body[0]) && NoNewline(body[1..]) {
      forall i | 0 <= i < |body| ensures !IsNl(body[i]) {
        if i > 0 { assert body[1..][i - 1] == body[i]; }
      }
    }
    assert Preceding(previous, body, |body|) == Preceding(body[0], body[1..], |body| - 1);
  }

  /** One step of the scanner past a unit that does not end the literal. */
  lemma StringEndStep(q: nat, previous: nat, s: Text)
    requires s != [] && (s[0] != q || previous == BACKSLASH)
    ensures StringEnd(q, previous, s) == if IsNl(s[0]) then None else StringEnd(q, s[0], s[1..])
  {
  }

  /** And past a backslash with the unit after it. */
  lemma EscapeStep(q: nat, previous: nat, s: Text)
    requires IsQuote(q) && |s| >= 2 && s[0] == BACKSLASH
    ensures StringEnd(q, previous, s) == if IsNl(s[1]) then None else StringEnd(q, s[1], s[2..])
  {
    StringEndStep(q, previous, s);
    var t := s[1..];
    assert t[1..] == s[2..];
    assert StringEnd(q, BACKSLASH, t) == if IsNl(t[0]) then None else StringEnd(q, t[0], t[1..]);
  }

  /** A literal that does not end in ECMAScript does not end for the scanner. */
  lemma {:induction false} OpenStaysOpen(q: nat, previous: nat, s: Text)
    requires IsQuote(q) && EsEnd(q, s).None?
    ensures StringEnd(q, previous, s).None?
    decreases |s|
  {
    if s != [] {
      if s[0] == BACKSLASH && |s| >= 2 {
        EscapeStep(q, previous, s);
        if !IsNl(s[1]) { OpenStaysOpen(q, s[1], s[2..]); }
      } else {
        StringEndStep(q, previous, s);
        if !IsNl(s[0]) && s[0] != BACKSLASH { OpenStaysOpen(q, s[0], s[1..]); }
      }
    }
  }

  lemma {:induction false} NoQuoteNoEnd(q: nat, previous: nat, s: Text)
    requires q !in s
    ensures StringEnd(q, previous, s).None?
    decreases |s|
  {
    if s != [] { NoQuoteNoEnd(q, s[0], s[1..]); }
  }

  /**
   A literal that ends in ECMAScript ends there for the scanner exactly when its body is
   readable; when it is not, and no further quote follows, the scanner finds no end.
   */
  lemma {:induction false} EndsTogether(q: nat, previous: nat, body: Text, end: Text)
    requires IsQuote(q) && end != [] && EsEnd(q, body + end) == Some(end)
    ensures StringEnd(q, previous, body + end) == Some(end) <==> Readable(previous, body)
    ensures !Readable(previous, body) && q !in end[1..] ==> StringEnd(q, previous, body + end).None?
    decreases |body|
  {
    if body == [] {
      assert body + end == end;
      if q !in end[1..] { NoQuoteNoEnd(q, q, end[1..]); }
    } else {
      var k := CharWithin(q, body, end);
      ReadableTail(previous, body);
      DropFront(body, end, k);
      if body[0] == BACKSLASH {
        ReadableTail(BACKSLASH, body[1..]);
        assert body[1..][1..] == body[2..];
        EscapeStep(q, previous, body + end);
        if !IsNl(body[1]) { EndsTogether(q, body[1], body[2..], end); }
      } else {
        StringEndStep(q, previous, body + end);
        if !IsNl(body[0]) { EndsTogether(q, body[0], body[1..], end); }
      }
    }
  }

  /** The first character of a literal that is not its end belongs to its body. */
  lemma CharWithin(q: nat, body: Text, end: Text) returns (k: nat)
    requires body != [] && EsEnd(q, body + end) == Some(end)
    ensures body[0] != q && 1 <= k <= |body| && EsEnd(q, body[k..] + end) == Some(end)
    ensures body[0] != BACKSLASH ==> k == 1
    ensures body[0] == BACKSLASH ==> k >= 2 && (!IsNl(body[1]) ==> k == 2)
  {
    var s := body + end;
    k := CharLength(s);
    CharConsumed(q, s);
    hide EsEnd;
    DropFront(body, end, k);
  }

  lemma DropFront(body: Text, end: Text, k: nat)
    requires k <= |body|
    ensures (body + end)[k..] == body[k..] + end
    ensures forall i | 0 <= i < |body| :: (body + end)[i] == body[i]
  {
  }

  lemma CharConsumed(q: nat, s: Text)
    requires EsEnd(q, s).Some? && |EsEnd(q, s).value| < |s|
    ensures s[0] != q && CharLength(s) <= |s| && EsEnd(q, s) == EsEnd(q, s[CharLength(s)..])
  {
  }

  // ----- all texts

  /** The text of a literal up to the quote that ends it in ECMAScript. */
  function EsContent(q: nat, s: Text): Text
    requires EsEnd(q, s).Some?
  {
    s[..|s| - |EsEnd(q, s).value|]
  }

  lemma {:induction false} EsEndIsSuffix(q: nat, s: Text)
    requires EsEnd(q, s).Some?
    ensures s == EsContent(q, s) + EsEnd(q, s).value
    decreases |s|
  {
    if s[0] != q {
      var k := CharLength(s);
      EsEndIsSuffix(q, s[k..]);
      assert EsEnd(q, s) == EsEnd(q, s[k..]);
      hide CharLength, EsEnd;
      SuffixOfDrop(s, k, EsEnd(q, s).value);
    }
  }

  lemma SuffixOfDrop(s: Text, k: nat, end: Text)
    requires k <= |s| && |end| <= |s| - k && s[k..] == s[k..][..|s| - k - |end|] + end
    ensures s == s[..|s| - |end|] + end
  {
    assert s == s[..k] + s[k..];
    assert s[..|s| - |end|] == s[..k] + s[k..][..|s| - k - |end|];
  }

  /** What follows a complete literal does not change where it ends. */
  lemma {:induction false} EsEndExtends(q: nat, s: Text, t: Text)
    requires EsEnd(q, s).Some?
    ensures EsEnd(q, s + t) == Some(EsEnd(q, s).value + t)
    decreases |s|
  {
    if s[0] != q {
      var k := CharLength(s);
      EsEndExtends(q, s[k..], t);
      CharLengthExtends(s, t);
      hide CharLength;
      assert (s + t)[k..] == s[k..] + t;
    }
  }

  lemma CharLengthExtends(s: Text, t: Text)
    requires s != [] && (|s| == 2 ==> s[0] != BACKSLASH || s[1] != CR)
    ensures CharLength(s) <= |s| ==> CharLength(s + t) == CharLength(s)
  {
  }

  /** The scanner against the language, on every text after an opening quote. */
  lemma LiteralEnds(q: nat, s: Text)
    requires IsQuote(q)
    ensures EsEnd(q, s).None? ==> StringEnd(q, q, s).None?
    ensures EsEnd(q, s).Some? ==> (StringEnd(q, q, s) == EsEnd(q, s) <==> Readable(q, EsContent(q, s)))
  {
    if EsEnd(q, s).None? {
      OpenStaysOpen(q, q, s);
    } else {
      EsEndIsSuffix(q, s);
      EndsTogether(q, q, EsContent(q, s), EsEnd(q, s).value);
    }
  }

  /** A literal in a text: it ends at its closing quote, whatever follows. */
  lemma BodyInText(q: nat, body: Text, rest: Text)
    requires EsBody(q, body)
    ensures EsEnd(q, body + ([q] + rest)) == Some([q] + rest)
  {
    EsEndExtends(q, body + [q], rest);
    assert body + [q] + rest == body + ([q] + rest);
  }

  /** A literal that ends in an escaped backslash, or holds a line terminator, is not skipped. */
  lemma UnreadableRunsOn(q: nat, body: Text, rest: Text)
    requires IsQuote(q) && EsBody(q, body) && q !in rest && !Readable(q, body)
    ensures SkipString([q] + (body + ([q] + rest))).None?
  {
    BodyInText(q, body, rest);
    EndsTogether(q, q, body, [q] + rest);
    var s := [q] + (body + ([q] + rest));
    assert s[1..] == body + ([q] + rest) && ([q] + rest)[1..] == rest;
  }

  function Backslashes(n: nat): Text {
    if n == 0 then [] else [BACKSLASH] + Backslashes(n - 1)
  }

  /** Any even run of backslashes, but no odd one, is the body of a literal. */
  lemma {:induction false} EvenRuns(q: nat, n: nat)
    requires IsQuote(q)
    ensures EsBody(q, Backslashes(n)) <==> n % 2 == 0
    ensures n > 0 ==> !Readable(q, Backslashes(n))
  {
    hide EsEnd;
    if n > 0 { LastBackslash(n); }
    if n < 2 {
      ShortRuns(q, n);
    } else {
      EvenRuns(q, n - 2);
      PairConsumed(q, Backslashes(n - 2) + [q]);
      TwoMore(q, n);
      hide *;
    }
  }

  lemma TwoMore(q: nat, n: nat)
    requires n >= 2 && EsEnd(q, [BACKSLASH, BACKSLASH] + (Backslashes(n - 2) + [q])) == EsEnd(q, Backslashes(n - 2) + [q])
    ensures EsBody(q, Backslashes(n)) <==> EsBody(q, Backslashes(n - 2))
  {
    hide EsEnd;
    assert Backslashes(n) == [BACKSLASH] + ([BACKSLASH] + Backslashes(n - 2));
    assert Backslashes(n) + [q] == [BACKSLASH, BACKSLASH] + (Backslashes(n - 2) + [q]);
  }

  lemma ShortRuns(q: nat, n: nat)
    requires IsQuote(q) && n < 2
    ensures EsBody(q, Backslashes(n)) <==> n == 0
  {
    if n == 0 {
      assert Backslashes(0) + [q] == [q];
    } else {
      LastBackslash(1);
      assert Backslashes(1) + [q] == [BACKSLASH, q];
    }
  }

  lemma PairConsumed(q: nat, s: Text)
    requires IsQuote(q)
    ensures EsEnd(q, [BACKSLASH, BACKSLASH] + s) == EsEnd(q, s)
  {
    assert ([BACKSLASH, BACKSLASH] + s)[2..] == s;
  }

  lemma {:induction false} LastBackslash(n: nat)
    requires n > 0
    ensures |Backslashes(n)| == n && Backslashes(n)[n - 1] == BACKSLASH
  {
    if n > 1 { LastBackslash(n - 1); }
  }

  // ----- whole source texts

  const TAIL: Text := [32, LBRACE, 32, LBRACKET] + NATIVE + [32] + CODE + [RBRACKET, 32, RBRACE]

  /** `function (<literal>) { [native code] }` */
  function WithLiteral(q: nat, body: Text): Text {
    FUNCTION + ([32] + ([LPAREN] + ([q] + (body + ([q] + ([RPAREN] + TAIL))))))
  }

  /** Its derivation, when the literal is one the scanner can read. */
  function LiteralSource(q: nat, body: Text): Source {
    Source([], NoAccessor, NoName, [Space(32)], [Literal(q, body)],
           [Space(32)], [Space(32)], [], [Space(32)], [], [Space(32)], [], None)
  }

  lemma OneSpace(token: Text, rest: Text)
    ensures TokenThen([Space(32)], token, rest) == [32] + (token + rest)
    ensures TokenThen([], token, rest) == token + rest
  {
    var b := [Space(32)];
    assert BlankThen(b, token + rest) == RenderTrivia(b[0]) + BlankThen(b[1..], token + rest);
    assert BlankThen(b[1..], token + rest) == token + rest;
  }

  lemma BodyText(d: Source, q: nat, body: Text)
    requires d == LiteralSource(q, body)
    ensures RenderBody(d) == TAIL
  {
    OneSpace([RBRACE], []);
    OneSpace([RBRACKET], [32] + ([RBRACE] + []));
    OneSpace(CODE, RenderEnd(d));
    OneSpace(NATIVE, [32] + (CODE + RenderEnd(d)));
    OneSpace([LBRACKET], RenderCode(d));
    OneSpace([LBRACE], [32] + ([LBRACKET] + RenderCode(d)));
    hide TokenThen;
  }

  lemma ParamsText(q: nat, body: Text, rest: Text)
    ensures ItemsThen([Literal(q, body)], rest) == [q] + (body + ([q] + rest))
  {
    assert ItemsThen([Literal(q, body)], rest) == ([q] + body + [q]) + rest;
  }

  lemma LiteralSourceText(q: nat, body: Text)
    ensures Render(LiteralSource(q, body)) == WithLiteral(q, body)
  {
    var d := LiteralSource(q, body);
    BodyText(d, q, body);
    ParamsText(q, body, [RPAREN] + TAIL);
    OneSpace([LPAREN], ItemsThen(d.params, [RPAREN] + TAIL));
    OneSpace(FUNCTION, RenderParams(d));
    hide RenderBody, ItemsThen, TokenThen;
  }

  lemma LiteralSourceOk(q: nat, body: Text)
    requires LiteralOk(q, body)
    ensures SourceOk(LiteralSource(q, body))
  {
    var d := LiteralSource(q, body);
    assert d.params[..0] == [] && d.params[..1] == d.params;
    assert Nesting(d.params, LPAREN, RPAREN) == 0;
  }

  lemma QuoteIsNoBlank(t: Text)
    requires IsQuote(Head(t))
    ensures SkipBlank(t) == Skipped(t, false)
  {
  }

  lemma ParamsStuck(t: Text)
    requires IsQuote(Head(t)) && SkipString(t).None?
    ensures !AcceptsParams([LPAREN] + t)
  {
    PunctEaten([], LPAREN, t);
    QuoteIsNoBlank(t);
    hide SkipString, SkipBlank, EatPunct;
    assert Stumble(t, RPAREN, 1).None?;
  }

  lemma FrontRead(p: Text)
    requires Head(p) == LPAREN
    ensures Accepts(FUNCTION + ([32] + p)) <==> AcceptsParams(p)
  {
    SpaceSkipped(p);
    hide *;
    FunctionEaten([32] + p);
    AcceptsAfter(FUNCTION + ([32] + p), [32] + p);
    NameAbsent([32] + p);
    StepsSkip(p);
    NameAbsent(p);
  }

  lemma AcceptsAfter(s: Text, rest: Text)
    requires NativeFunctionReading.EatWord(s, FUNCTION) == Eaten(true, rest)
    ensures Accepts(s) <==> var n := EatName(EatAccessor(rest)); n.Some? && AcceptsParams(n.value)
  {
    hide NativeFunctionReading.EatWord, EatName, EatAccessor, AcceptsParams;
  }

  lemma FunctionEaten(s: Text)
    requires !IsIdCont(Head(s))
    ensures NativeFunctionReading.EatWord(FUNCTION + s, FUNCTION) == Eaten(true, s)
  {
    KeywordsAreWords();
    WordEaten([], FUNCTION, s);
  }

  lemma SpaceSkipped(p: Text)
    requires Head(p) == LPAREN
    ensures SkipBlank([32] + p).rest == p && SkipBlank(p).rest == p
    ensures Head(SkipBlank([32] + p).rest) == Head(SkipBlank(p).rest) == LPAREN && !IsIdCont(Head([32] + p))
  {
    assert ([32] + p)[1..] == p;
  }

  /** The scanner gives up on a parameter list whose first literal does not end for it. */
  lemma StuckInLiteral(q: nat, rest: Text)
    requires IsQuote(q) && SkipString([q] + rest).None?
    ensures !Accepts(FUNCTION + ([32] + ([LPAREN] + ([q] + rest))))
  {
    hide SkipString, Accepts, AcceptsParams;
    ParamsStuck([q] + rest);
    FrontRead([LPAREN] + ([q] + rest));
  }

  /** Whatever its literal, `function (<literal>) { [native code] }` is accepted exactly when it is readable. */
  lemma LiteralParameter(q: nat, body: Text)
    requires IsQuote(q) && EsBody(q, body)
    ensures InLanguage(WithLiteral(q, body)) <==> Readable(q, body)
  {
    var tail := [RPAREN] + TAIL;
    if Readable(q, body) {
      BodyInText(q, body, tail);
      EndsTogether(q, q, body, [q] + tail);
      var p := StringEndParse(q, q, body + ([q] + tail));
      SameFront(p, body, [q] + tail);
      EscapedIsOk(q, body);
      LiteralSourceText(q, body);
      LiteralSourceOk(q, body);
    } else {
      UnreadableRunsOn(q, body, tail);
      StuckInLiteral(q, body + ([q] + tail));
      AcceptsExactlyTheLanguage(WithLiteral(q, body));
    }
  }

  lemma SameFront(p: Text, r: Text, end: Text)
    requires p + end == r + end
    ensures p == r
  {
    assert |p| == |r|;
    assert p == (p + end)[..|p|] && r == (r + end)[..|p|];
  }

  /** So the validator rejects `function ("\\") { [native code] }`, whose literal ends in a backslash. */
  method ValidateWithLiteral(q: nat, body: Text) returns (ok: bool)
    requires IsQuote(q) && EsBody(q, body)
    ensures ok <==> Readable(q, body)
  {
    LiteralParameter(q, body);
    ok := ValidateNativeFunctionSource(WithLiteral(q, body));
  }
}
