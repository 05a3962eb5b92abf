/**
 The scanner reads exactly the language: it accepts every rendering of a well-formed
 derivation, and whatever it accepts has one.
 */
module NativeFunctionProofs {
  import opened NativeFunctionGrammar
  import opened NativeFunctionReading
  import opened Options
  import opened Texts

  // ----- white space and comments

  lemma {:induction false} AfterLineReads(p: Text, nl: nat, rest: Text)
    requires NoNewline(p) && IsNl(nl)
    ensures AfterLine(p + ([nl] + rest)) == [nl] + rest
  {
    if p == [] {
      assert p + ([nl] + rest) == [nl] + rest;
    } else {
      AfterLineReads(p[1..], nl, rest);
      assert (p + ([nl] + rest))[1..] == p[1..] + ([nl] + rest);
    }
  }

  lemma {:induction false} AfterLineToEnd(p: Text)
    requires NoNewline(p)
    ensures AfterLine(p) == []
  {
    if p != [] { AfterLineToEnd(p[1..]); }
  }

  lemma {:induction false} AfterBlockReads(p: Text, rest: Text)
    requires NoBlockEnd(p)
    ensures AfterBlock(p + ([STAR, SLASH] + rest)) == Some(rest)
  {
    var s := p + ([STAR, SLASH] + rest);
    if p == [] {
      assert s[2..] == rest;
    } else {
      AfterBlockReads(p[1..], rest);
      assert s[1..] == p[1..] + ([STAR, SLASH] + rest);
      assert |p| > 1 ==> s[1] == p[1];
    }
  }

  lemma SpaceUnfolds(s: Text)
    requires s != [] && (IsWs(s[0]) || IsNl(s[0]))
    ensures SkipBlank(s) == SkipBlank(s[1..])
  {
  }

  lemma LineUnfolds(s: Text)
    requires |s| > 1 && s[0] == SLASH && s[1] == SLASH
    ensures SkipBlank(s) == SkipBlank(AfterLine(s))
  {
  }

  lemma BlockUnfolds(s: Text)
    requires |s| > 1 && s[0] == SLASH && s[1] == STAR && AfterBlock(s[2..]).Some?
    ensures SkipBlank(s) == SkipBlank(AfterBlock(s[2..]).value)
  {
  }

  /** A rendered comment or white-space unit is skipped, whatever follows. */
  lemma TriviaSkipped(t: Trivia, rest: Text)
    requires TriviaOk(t)
    ensures SkipBlank(RenderTrivia(t) + rest) == SkipBlank(rest)
  {
    hide SkipBlank;
    var s := RenderTrivia(t) + rest;
    match t
    case Space(c) =>
      SpaceUnfolds(s);
      assert s[1..] == rest;
    case LineComment(body, nl) =>
      LineSkipped(body, nl, rest);
    case BlockComment(body) =>
      assert s[2..] == body + ([STAR, SLASH] + rest);
      AfterBlockReads(body, rest);
      BlockUnfolds(s);
  }

  lemma LineSkipped(body: Text, nl: nat, rest: Text)
    requires NoNewline(body) && IsNl(nl)
    ensures SkipBlank(RenderTrivia(LineComment(body, nl)) + rest) == SkipBlank(rest)
  {
    hide SkipBlank, AfterLine;
    var p := [SLASH, SLASH] + body;
    assert RenderTrivia(LineComment(body, nl)) + rest == p + ([nl] + rest);
    AfterLineReads(p, nl, rest);
    LineUnfolds(p + ([nl] + rest));
    SpaceUnfolds([nl] + rest);
    assert ([nl] + rest)[1..] == rest;
  }

  lemma {:induction false} BlankSkipped(b: Blank, rest: Text)
    requires BlankOk(b)
    ensures SkipBlank(BlankThen(b, rest)) == SkipBlank(rest)
  {
    if b != [] {
      TriviaSkipped(b[0], BlankThen(b[1..], rest));
      BlankSkipped(b[1..], rest);
    }
  }

  lemma {:induction false} SkipBlankIdempotent(s: Text)
    ensures SkipBlank(SkipBlank(s).rest) == SkipBlank(s)
    ensures SkipBlank(s).bad <==> Stuck(SkipBlank(s).rest)
    ensures var r := Head(SkipBlank(s).rest); !IsWs(r) && !IsNl(r)
    decreases |s|
  {
    if s == [] {
    } else if IsWs(s[0]) || IsNl(s[0]) {
      SkipBlankIdempotent(s[1..]);
    } else if s[0] == SLASH && Head(s[1..]) == SLASH {
      SkipBlankIdempotent(AfterLine(s));
    } else if s[0] == SLASH && Head(s[1..]) == STAR && AfterBlock(s[2..]).Some? {
      SkipBlankIdempotent(AfterBlock(s[2..]).value);
    }
  }

  lemma BlankHead(b: Blank, rest: Text)
    requires BlankOk(b) && b != []
    ensures !IsIdCont(Head(BlankThen(b, rest)))
  {
  }

  lemma {:induction false} LineSplits(s: Text) returns (body: Text)
    ensures NoNewline(body) && s == body + AfterLine(s)
    ensures AfterLine(s) == [] || IsNl(AfterLine(s)[0])
  {
    if s == [] || IsNl(s[0]) {
      body := [];
    } else {
      var inner := LineSplits(s[1..]);
      body := [s[0]] + inner;
      assert s == [s[0]] + s[1..];
    }
  }

  lemma {:induction false} BlockSplits(s: Text) returns (body: Text)
    requires AfterBlock(s).Some?
    ensures NoBlockEnd(body) && s == body + ([STAR, SLASH] + AfterBlock(s).value)
  {
    if s[0] == STAR && s[1] == SLASH {
      body := [];
      assert s == [STAR, SLASH] + s[2..];
    } else {
      var inner := BlockSplits(s[1..]);
      body := [s[0]] + inner;
      assert s == [s[0]] + s[1..];
      assert |inner| > 0 ==> inner[0] == s[1];
    }
  }

  /** A line comment, with its line terminator unless the text ends first. */
  lemma LineParse(s: Text) returns (t: Trivia)
    requires s != [] && s[0] == SLASH && Head(s[1..]) == SLASH
    ensures t.LineComment? && NoNewline(t.body)
    ensures AfterLine(s) == [] ==> s == [SLASH, SLASH] + t.body
    ensures AfterLine(s) != [] ==> TriviaOk(t) && s == RenderTrivia(t) + AfterLine(s)[1..]
    ensures AfterLine(s) != [] ==> SkipBlank(s) == SkipBlank(AfterLine(s)[1..])
  {
    hide SkipBlank;
    var line := LineSplits(s);
    var after := AfterLine(s);
    hide AfterLine;
    LineUnfolds(s);
    LineTail(line, after);
    var body := line[2..];
    assert line == [SLASH, SLASH] + body;
    t := LineComment(body, if after == [] then 0 else after[0]);
    if after != [] {
      assert after == [after[0]] + after[1..];
      assert s == RenderTrivia(t) + after[1..];
      TriviaSkipped(t, after[1..]);
    }
  }

  /** The two slashes belong to the line, since neither ends it. */
  lemma LineTail(line: Text, after: Text)
    requires var s := line + after; s != [] && s[0] == SLASH && Head(s[1..]) == SLASH
    requires after == [] || IsNl(after[0])
    ensures |line| >= 2 && line[0] == SLASH && line[1] == SLASH
  {
  }

  lemma BlockParse(s: Text) returns (t: Trivia)
    requires s != [] && s[0] == SLASH && Head(s[1..]) == STAR && AfterBlock(s[2..]).Some?
    ensures TriviaOk(t) && s == RenderTrivia(t) + AfterBlock(s[2..]).value
    ensures SkipBlank(s) == SkipBlank(AfterBlock(s[2..]).value)
  {
    hide SkipBlank;
    BlockUnfolds(s);
    var body := BlockSplits(s[2..]);
    t := BlockComment(body);
    assert s == [SLASH, STAR] + s[2..];
  }

  /**
   What was skipped is white space and comments; only a line comment at the very end
   of the text may lack its line terminator.
   */
  lemma {:induction false} BlankParse(s: Text) returns (b: Blank, last: Option<Text>)
    requires !SkipBlank(s).bad
    ensures BlankOk(b)
    ensures last.Some? ==> NoNewline(last.value) && SkipBlank(s).rest == []
    ensures s == BlankThen(b, LastComment(last) + SkipBlank(s).rest)
    decreases |s|
  {
    b, last := [], None;
    if s == [] {
    } else if IsWs(s[0]) || IsNl(s[0]) {
      b, last := BlankParse(s[1..]);
      SpaceParse(s);
      b := Prepended(Space(s[0]), b, s, s[1..], LastComment(last) + SkipBlank(s).rest);
    } else if s[0] == SLASH && Head(s[1..]) == SLASH {
      var t := LineParse(s);
      if AfterLine(s) == [] {
        last := Some(t.body);
        AtTheEnd(s, last);
      } else {
        b, last := BlankParse(AfterLine(s)[1..]);
        b := Prepended(t, b, s, AfterLine(s)[1..], LastComment(last) + SkipBlank(s).rest);
      }
    } else if s[0] == SLASH && Head(s[1..]) == STAR {
      var t := BlockParse(s);
      b, last := BlankParse(AfterBlock(s[2..]).value);
      b := Prepended(t, b, s, AfterBlock(s[2..]).value, LastComment(last) + SkipBlank(s).rest);
    }
  }

  lemma SpaceParse(s: Text)
    requires s != []
    ensures s == RenderTrivia(Space(s[0])) + s[1..]
  {
  }

  lemma AtTheEnd(s: Text, last: Option<Text>)
    requires s == LastComment(last)
    ensures s == LastComment(last) + []
  {
  }

  lemma Prepended(t: Trivia, b: Blank, s: Text, after: Text, rest: Text) returns (c: Blank)
    requires TriviaOk(t) && BlankOk(b)
    requires s == RenderTrivia(t) + after && after == BlankThen(b, rest)
    ensures BlankOk(c) && s == BlankThen(c, rest)
  {
    c := [t] + b;
    assert c[1..] == b;
  }

  lemma NothingBefore(s: Text)
    ensures LastComment(None) + s == s
  {
  }

  /** The same, before something that is not the end of the text. */
  lemma BlankBefore(s: Text) returns (b: Blank)
    requires SkipBlank(s).rest != [] && !Stuck(SkipBlank(s).rest)
    ensures BlankOk(b) && s == BlankThen(b, SkipBlank(s).rest)
  {
    SkipBlankIdempotent(s);
    hide SkipBlank, BlankThen;
    var last;
    b, last := BlankParse(s);
    NothingBefore(SkipBlank(s).rest);
  }

  // ----- words and punctuation

  lemma {:induction false} ContinuationReads(p: Text, rest: Text)
    requires forall i | 0 <= i < |p| :: IsIdCont(p[i])
    requires !IsIdCont(Head(rest))
    ensures Continuation(p + rest) == p
  {
    if p == [] {
      assert p + rest == rest;
    } else {
      ContinuationReads(p[1..], rest);
      assert (p + rest)[1..] == p[1..] + rest;
    }
  }

  /** The word at the front of a text is the whole identifier, never a prefix of one. */
  lemma WordReads(w: Text, rest: Text)
    requires WordOk(w) && !IsIdCont(Head(rest))
    ensures Word(w + rest) == w
  {
    ContinuationReads(w[1..], rest);
    assert (w + rest)[1..] == w[1..] + rest;
  }

  /** What starts a token other than a slash stops the skipping. */
  predicate TokenStart(s: Text) {
    s != [] && !IsWs(s[0]) && !IsNl(s[0]) && s[0] != SLASH
  }

  lemma TokenReached(b: Blank, token: Text, rest: Text)
    requires BlankOk(b) && TokenStart(token)
    ensures SkipBlank(TokenThen(b, token, rest)) == Skipped(token + rest, false)
  {
    BlankSkipped(b, token + rest);
  }

  lemma WordEaten(b: Blank, w: Text, rest: Text)
    requires BlankOk(b) && WordOk(w) && !IsIdCont(Head(rest))
    ensures SkipBlank(TokenThen(b, w, rest)).rest == w + rest
    ensures Word(w + rest) == w
    ensures EatWord(TokenThen(b, w, rest), w) == Eaten(true, rest)
    ensures EatIdentifier(TokenThen(b, w, rest)) == Eaten(true, rest)
  {
    TokenReached(b, w, rest);
    WordReads(w, rest);
    assert (w + rest)[|w|..] == rest;
  }

  lemma PunctEaten(b: Blank, c: nat, rest: Text)
    requires BlankOk(b) && TokenStart([c])
    ensures SkipBlank(TokenThen(b, [c], rest)).rest == [c] + rest
    ensures EatPunct(TokenThen(b, [c], rest), c) == Eaten(true, rest)
  {
    TokenReached(b, [c], rest);
    assert ([c] + rest)[1..] == rest;
  }

  lemma WordParse(s: Text, w: Text) returns (b: Blank)
    requires EatWord(s, w).ok && w != []
    ensures BlankOk(b) && WordOk(w) && s == TokenThen(b, w, EatWord(s, w).rest)
    ensures !IsIdCont(Head(EatWord(s, w).rest))
    ensures !IsIdCont(Head(s)) ==> b != []
  {
    b := BlankBefore(s);
    var r := SkipBlank(s).rest;
    assert r == w + r[|w|..];
  }

  lemma PunctParse(s: Text, c: nat) returns (b: Blank)
    requires EatPunct(s, c).ok && c != SLASH
    ensures BlankOk(b) && s == TokenThen(b, [c], EatPunct(s, c).rest)
  {
    b := BlankBefore(s);
    var r := SkipBlank(s).rest;
    assert r == [c] + r[1..];
  }

  // ----- string literals

  function Preceding(previous: nat, p: Text, i: nat): nat
    requires i <= |p|
  {
    if i > 0 then p[i - 1] else previous
  }

  /** A backslash precedes every quote in `p`, and none ends it. */
  predicate QuotesEscaped(q: nat, previous: nat, p: Text) {
    && (forall i | 0 <= i < |p| && p[i] == q :: Preceding(previous, p, i) == BACKSLASH)
    && Preceding(previous, p, |p|) != BACKSLASH
  }

  lemma QuotesEscapedTail(q: nat, previous: nat, p: Text)
    requires p != []
    ensures QuotesEscaped(q, previous, p) <==>
            QuotesEscaped(q, p[0], p[1..]) && (p[0] == q ==> previous == BACKSLASH)
  {
    forall i | 0 < i <= |p| ensures Preceding(previous, p, i) == Preceding(p[0], p[1..], i - 1) {}
    if QuotesEscaped(q, previous, p) {
      assert p[0] == q ==> Preceding(previous, p, 0) == BACKSLASH;
      forall i | 0 <= i < |p[1..]| && p[1..][i] == q ensures Preceding(p[0], p[1..], i) == BACKSLASH {
        assert p[i + 1] == q;
        assert Preceding(previous, p, i + 1) == BACKSLASH;
      }
    }
    if QuotesEscaped(q, p[0], p[1..]) && (p[0] == q ==> previous == BACKSLASH) {
      forall i | 0 <= i < |p| && p[i] == q ensures Preceding(previous, p, i) == BACKSLASH {
        if i > 0 { assert p[1..][i - 1] == q; }
      }
    }
  }

  lemma {:induction false} StringEndReads(q: nat, previous: nat, p: Text, rest: Text)
    requires IsQuote(q) && NoNewline(p) && QuotesEscaped(q, previous, p)
    ensures StringEnd(q, previous, p + ([q] + rest)) == Some([q] + rest)
    decreases |p|
  {
    var s := p + ([q] + rest);
    if p == [] {
      assert s == [q] + rest;
    } else {
      QuotesEscapedTail(q, previous, p);
      StringEndReads(q, p[0], p[1..], rest);
      assert s[1..] == p[1..] + ([q] + rest);
    }
  }

  lemma LiteralSkipped(q: nat, body: Text, rest: Text)
    requires LiteralOk(q, body)
    ensures SkipString(RenderItem(Literal(q, body)) + rest) == Some([q] + rest)
  {
    var s := RenderItem(Literal(q, body)) + rest;
    assert s[1..] == body + ([q] + rest);
    EscapedIsOk(q, body);
    StringEndReads(q, q, body, rest);
  }

  lemma {:induction false} StringEndParse(q: nat, previous: nat, s: Text) returns (p: Text)
    requires StringEnd(q, previous, s).Some? && IsQuote(q)
    ensures NoNewline(p) && s == p + StringEnd(q, previous, s).value
    ensures QuotesEscaped(q, previous, p)
    decreases |s|
  {
    if s[0] == q && previous != BACKSLASH {
      p := [];
    } else {
      var inner := StringEndParse(q, s[0], s[1..]);
      p := [s[0]] + inner;
      QuotesEscapedTail(q, previous, p);
      assert s == [s[0]] + s[1..];
    }
  }

  // ----- bracketed text

  /** From depth `d` on, the nesting stays above zero and ends one above it. */
  ghost predicate Stays(xs: Items, opener: nat, closer: nat, d: int) {
    && d + Nesting(xs, opener, closer) == 1
    && forall k | 0 <= k <= |xs| :: d + Nesting(xs[..k], opener, closer) >= 1
  }

  lemma StaysTail(xs: Items, opener: nat, closer: nat, d: int)
    requires xs != []
    ensures Stays(xs, opener, closer, d) <==>
            d >= 1 && Stays(xs[1..], opener, closer, d + Opens(xs[0], opener, closer))
  {
    forall k | 0 < k <= |xs|
      ensures Nesting(xs[..k], opener, closer) ==
              Opens(xs[0], opener, closer) + Nesting(xs[1..][..k - 1], opener, closer)
    {
      assert xs[..k][1..] == xs[1..][..k - 1];
    }
    assert xs[..0] == [];
    var e := d + Opens(xs[0], opener, closer);
    if Stays(xs, opener, closer, d) {
      assert d + Nesting(xs[..0], opener, closer) >= 1;
      forall j | 0 <= j <= |xs[1..]| ensures e + Nesting(xs[1..][..j], opener, closer) >= 1 {
        assert d + Nesting(xs[..j + 1], opener, closer) >= 1;
      }
    }
    if d >= 1 && Stays(xs[1..], opener, closer, e) {
      forall k | 0 <= k <= |xs| ensures d + Nesting(xs[..k], opener, closer) >= 1 {
        if k > 0 { assert e + Nesting(xs[1..][..k - 1], opener, closer) >= 1; }
      }
    }
  }

  predicate IsCloser(c: nat) {
    c == RPAREN || c == RBRACKET
  }

  /** Bracketed text is read to the closer that matches, and no further. */
  lemma {:induction false} StumbleReads(xs: Items, closer: nat, depth: nat, rest: Text)
    requires ItemsOk(xs) && IsCloser(closer) && depth > 0
    requires Stays(xs, OpenerOf(closer), closer, depth)
    ensures Stumble(ItemsThen(xs, [closer] + rest), closer, depth) == Some(rest)
  {
    var s := ItemsThen(xs, [closer] + rest);
    if xs == [] {
      assert s[1..] == rest;
    } else {
      var x, tail := xs[0], ItemsThen(xs[1..], [closer] + rest);
      var inner := depth + Opens(x, OpenerOf(closer), closer);
      StaysTail(xs, OpenerOf(closer), closer, depth);
      assert inner >= 1 by { if xs[1..] != [] { StaysTail(xs[1..], OpenerOf(closer), closer, inner); } }
      StumbleReads(xs[1..], closer, inner, rest);
      if x == Plain(SLASH) { SlashStands(xs, closer, rest); }
      StumbleStep(x, tail, closer, depth, inner);
    }
  }

  /** Reading one item. */
  lemma StumbleStep(x: Item, tail: Text, closer: nat, depth: nat, inner: nat)
    requires ItemOk(x) && IsCloser(closer) && depth > 0
    requires inner > 0 && inner == depth + Opens(x, OpenerOf(closer), closer)
    requires x == Plain(SLASH) ==> Head(tail) != SLASH && Head(tail) != STAR
    ensures Stumble(RenderItem(x) + tail, closer, depth) == Stumble(tail, closer, inner)
  {
    hide SkipBlank, SkipString, StringEnd;
    match x
    case Filler(t) =>
      TriviaSkipped(t, tail);
    case Literal(q, body) =>
      LiteralStep(q, body, tail, closer, depth);
    case Plain(c) =>
      PlainStep(c, tail, closer, depth);
  }

  lemma PlainStep(c: nat, tail: Text, closer: nat, depth: nat)
    requires ItemOk(Plain(c)) && depth > 0
    requires c == SLASH ==> Head(tail) != SLASH && Head(tail) != STAR
    ensures var inner := if c == OpenerOf(closer) then depth + 1 else if c == closer then depth - 1 else depth;
            Stumble([c] + tail, closer, depth) == if inner == 0 then Some(tail) else Stumble(tail, closer, inner)
  {
    var s := [c] + tail;
    assert s[1..] == tail;
    assert SkipBlank(s) == Skipped(s, false);
  }

  lemma LiteralStep(q: nat, body: Text, tail: Text, closer: nat, depth: nat)
    requires LiteralOk(q, body) && IsCloser(closer) && depth > 0
    ensures Stumble(RenderItem(Literal(q, body)) + tail, closer, depth) == Stumble(tail, closer, depth)
  {
    var s := RenderItem(Literal(q, body)) + tail;
    LiteralSkipped(q, body, tail);
    assert SkipBlank(s) == Skipped(s, false);
    assert ([q] + tail)[1..] == tail;
  }

  /** A slash that is an item of its own does not start a comment. */
  lemma SlashStands(xs: Items, closer: nat, rest: Text)
    requires ItemsOk(xs) && IsCloser(closer) && xs != [] && xs[0] == Plain(SLASH)
    ensures var h := Head(ItemsThen(xs[1..], [closer] + rest)); h != SLASH && h != STAR
  {
    if |xs| > 1 { assert NoAccidentalComment(xs[0], xs[1]); }
  }

  function Fillers(b: Blank, xs: Items): Items {
    if b == [] then xs else [Filler(b[0])] + Fillers(b[1..], xs)
  }

  lemma {:induction false} FillersFit(b: Blank, xs: Items, opener: nat, closer: nat, d: int, rest: Text)
    requires BlankOk(b) && ItemsOk(xs) && Stays(xs, opener, closer, d)
    ensures ItemsOk(Fillers(b, xs)) && Stays(Fillers(b, xs), opener, closer, d)
    ensures ItemsThen(Fillers(b, xs), rest) == BlankThen(b, ItemsThen(xs, rest))
  {
    if b != [] {
      FillersFit(b[1..], xs, opener, closer, d, rest);
      var ys := Fillers(b, xs);
      assert ys[1..] == Fillers(b[1..], xs);
      assert Stays(ys[1..], opener, closer, d);
      assert d >= 1 by { assert ys[1..][..0] == []; assert d + Nesting(ys[1..][..0], opener, closer) >= 1; }
      StaysTail(ys, opener, closer, d);
    }
  }

  lemma ItemHead(y: Item, rest: Text)
    requires ItemOk(y)
    requires var h := Head(RenderItem(y) + rest); h != SLASH && h != STAR
    ensures forall x :: NoAccidentalComment(x, y)
  {
  }

  lemma ItemsCons(x: Item, ys: Items, opener: nat, closer: nat, d: int, rest: Text) returns (xs: Items)
    requires ItemOk(x) && ItemsOk(ys) && d >= 1
    requires Stays(ys, opener, closer, d + Opens(x, opener, closer))
    requires x == Plain(SLASH) ==> var h := Head(ItemsThen(ys, rest)); h != SLASH && h != STAR
    ensures ItemsOk(xs) && Stays(xs, opener, closer, d)
    ensures ItemsThen(xs, rest) == RenderItem(x) + ItemsThen(ys, rest)
  {
    xs := [x] + ys;
    assert xs[1..] == ys;
    StaysTail(xs, opener, closer, d);
    if x == Plain(SLASH) && ys != [] { ItemHead(ys[0], ItemsThen(ys[1..], rest)); }
  }

  /** What one round reads after its white space is one item. */
  lemma ItemParse(s: Text) returns (x: Item)
    requires !SkipBlank(s).bad
    requires var t := SkipString(SkipBlank(s).rest); t.Some? && t.value != []
    ensures ItemOk(x)
    ensures var t := SkipString(SkipBlank(s).rest).value;
            && SkipBlank(s).rest == RenderItem(x) + t[1..]
            && (x == Plain(t[0]) || (x.Literal? && IsQuote(t[0])))
            && (x == Plain(SLASH) ==> Head(t[1..]) != SLASH && Head(t[1..]) != STAR)
  {
    SkipBlankIdempotent(s);
    var here := SkipBlank(s).rest;
    var t := SkipString(here).value;
    if IsQuote(Head(here)) {
      x := LiteralParse(here);
    } else {
      x := Plain(t[0]);
      assert here == [t[0]] + t[1..];
      SlashStopped(s);
    }
  }

  lemma LiteralParse(here: Text) returns (x: Item)
    requires IsQuote(Head(here)) && SkipString(here).Some?
    ensures x.Literal? && ItemOk(x) && IsQuote(SkipString(here).value[0])
    ensures here == RenderItem(x) + SkipString(here).value[1..]
  {
    var t := SkipString(here).value;
    var body := StringEndParse(here[0], here[0], here[1..]);
    EscapedIsOk(here[0], body);
    hide *;
    x := Literal(here[0], body);
    HeadTail(here);
    HeadTail(t);
    QuotedText(here[0], body, t[1..]);
  }

  lemma HeadTail(s: Text)
    requires s != []
    ensures s == [s[0]] + s[1..]
  {
  }

  lemma QuotedText(q: nat, body: Text, tail: Text)
    ensures RenderItem(Literal(q, body)) + tail == [q] + (body + ([q] + tail))
  {
  }

  lemma EscapedIsOk(q: nat, body: Text)
    requires IsQuote(q) && NoNewline(body)
    ensures QuotesEscaped(q, q, body) <==> LiteralOk(q, body)
  {
    if QuotesEscaped(q, q, body) {
      forall i | 0 <= i < |body| && body[i] == q ensures i > 0 && body[i - 1] == BACKSLASH {
        assert Preceding(q, body, i) == BACKSLASH;
      }
    }
  }

  lemma StumbleUnfolds(s: Text, closer: nat, depth: nat) returns (t: Text)
    requires depth > 0 && Stumble(s, closer, depth).Some?
    ensures !SkipBlank(s).bad && SkipString(SkipBlank(s).rest) == Some(t)
    ensures t != [] && |t| <= |s|
    ensures SkipBlank(s).rest != [] && !Stuck(SkipBlank(s).rest)
    ensures var inner := if t[0] == OpenerOf(closer) then depth + 1 else if t[0] == closer then depth - 1 else depth;
            Stumble(s, closer, depth) == if inner == 0 then Some(t[1..]) else Stumble(t[1..], closer, inner)
  {
    SkipBlankIdempotent(s);
    t := SkipString(SkipBlank(s).rest).value;
  }

  /** Whatever was read up to the matching closer is a list of items. */
  lemma {:induction false} StumbleParse(s: Text, closer: nat, depth: nat) returns (xs: Items)
    requires IsCloser(closer) && depth > 0 && Stumble(s, closer, depth).Some?
    ensures ItemsOk(xs) && Stays(xs, OpenerOf(closer), closer, depth)
    ensures s == ItemsThen(xs, [closer] + Stumble(s, closer, depth).value)
    decreases |s|
  {
    var opener := OpenerOf(closer);
    var t := StumbleUnfolds(s, closer, depth);
    var result := [closer] + Stumble(s, closer, depth).value;
    hide Stumble, SkipBlank, SkipString, StringEnd, Stuck, ItemsThen, BlankThen, ItemsOk, Stays, RenderItem, BlankOk,
      ItemOk;
    var b := BlankBefore(s);
    var x := ItemParse(s);
    if x == Plain(closer) && depth == 1 {
      xs := [];
      NoItems(opener, closer, result);
      LastRound(x, t, result);
    } else {
      xs := StumbleParse(t[1..], closer, depth + Opens(x, opener, closer));
      xs := ItemsCons(x, xs, opener, closer, depth, result);
    }
    FillersFit(b, xs, opener, closer, depth, result);
    xs := Fillers(b, xs);
  }

  lemma NoItems(opener: nat, closer: nat, rest: Text)
    ensures ItemsOk([]) && Stays([], opener, closer, 1) && ItemsThen([], rest) == rest
  {
  }

  lemma LastRound(x: Item, t: Text, result: Text)
    requires t != [] && x == Plain(t[0]) && result == [t[0]] + t[1..]
    ensures RenderItem(x) + t[1..] == result
  {
  }

  /** Skipping that stops at a slash found no comment there. */
  lemma SlashStopped(s: Text)
    ensures var r := SkipBlank(s);
            !r.bad && Head(r.rest) == SLASH ==> Head(r.rest[1..]) != SLASH && Head(r.rest[1..]) != STAR
  {
    SkipBlankIdempotent(s);
    var r := SkipBlank(s).rest;
    if Head(r) == SLASH && Head(r[1..]) == SLASH {
      assert false;
    }
  }

  // ----- every rendering is accepted

  lemma KeywordsAreWords()
    ensures WordOk(FUNCTION) && WordOk(GET) && WordOk(SET) && WordOk(NATIVE) && WordOk(CODE)
  {
  }

  lemma EndAccepted(d: Source)
    requires SourceOk(d)
    ensures AcceptsEnd(RenderEnd(d))
    ensures !IsIdCont(Head(RenderEnd(d)))
  {
    var end := BlankThen(d.trail, LastComment(d.lastComment));
    EndReached(d);
    var brace := TokenThen(d.beforeBraceEnd, [RBRACE], end);
    PunctEaten(d.beforeBraceEnd, RBRACE, end);
    PunctEaten(d.beforeBracketEnd, RBRACKET, brace);
    HeadAfter(d.beforeBracketEnd, RBRACKET, brace);
  }

  lemma CodeAccepted(d: Source)
    requires SourceOk(d)
    ensures AcceptsCode(RenderCode(d))
  {
    KeywordsAreWords();
    EndAccepted(d);
    var code := TokenThen(d.beforeCode, CODE, RenderEnd(d));
    WordEaten(d.beforeCode, CODE, RenderEnd(d));
    BlankHead(d.beforeCode, CODE + RenderEnd(d));
    WordEaten(d.beforeNative, NATIVE, code);
  }

  lemma BodyAccepted(d: Source)
    requires SourceOk(d)
    ensures AcceptsBody(RenderBody(d))
  {
    CodeAccepted(d);
    var open := TokenThen(d.beforeBracket, [LBRACKET], RenderCode(d));
    PunctEaten(d.beforeBracket, LBRACKET, RenderCode(d));
    PunctEaten(d.beforeBrace, LBRACE, open);
  }

  lemma EndReached(d: Source)
    requires SourceOk(d)
    ensures SkipBlank(BlankThen(d.trail, LastComment(d.lastComment))).rest == []
  {
    BlankSkipped(d.trail, LastComment(d.lastComment));
    if d.lastComment.Some? { AfterLineToEnd(LastComment(d.lastComment)); }
  }

  lemma HeadAfter(b: Blank, c: nat, rest: Text)
    requires BlankOk(b) && !IsIdCont(c)
    ensures !IsIdCont(Head(TokenThen(b, [c], rest)))
  {
    if b != [] { BlankHead(b, [c] + rest); }
  }

  lemma ParamsAccepted(d: Source)
    requires SourceOk(d)
    ensures AcceptsParams(RenderParams(d))
    ensures Head(SkipBlank(RenderParams(d)).rest) == LPAREN
    ensures !IsIdCont(Head(RenderParams(d)))
  {
    var tail := ItemsThen(d.params, [RPAREN] + RenderBody(d));
    PunctEaten(d.beforeParams, LPAREN, tail);
    HeadAfter(d.beforeParams, LPAREN, tail);
    assert Stays(d.params, LPAREN, RPAREN, 1);
    StumbleReads(d.params, RPAREN, 1, RenderBody(d));
    BodyAccepted(d);
  }

  /** Skipping white space first changes none of the steps. */
  lemma StepsSkip(s: Text)
    ensures var r := SkipBlank(s).rest;
            EatName(r) == EatName(s) && EatAccessor(r) == EatAccessor(s) && AcceptsParams(r) == AcceptsParams(s)
  {
    SkipBlankIdempotent(s);
  }

  lemma AccessorAbsent(s: Text)
    requires var w := Word(SkipBlank(s).rest); w != GET && w != SET
    ensures EatAccessor(s) == SkipBlank(s).rest
  {
    SkipBlankIdempotent(s);
  }

  lemma NameAbsent(s: Text)
    requires Head(SkipBlank(s).rest) == LPAREN
    ensures EatAccessor(s) == SkipBlank(s).rest
    ensures EatName(s) == Some(SkipBlank(s).rest)
  {
    SkipBlankIdempotent(s);
  }

  lemma NameAccepted(d: Source)
    requires SourceOk(d)
    ensures var n := EatName(NameThen(d.name, RenderParams(d))); n.Some? && AcceptsParams(n.value)
    ensures !IsIdCont(Head(NameThen(d.name, RenderParams(d))))
  {
    var P := RenderParams(d);
    ParamsAccepted(d);
    match d.name
    case NoName =>
      NameAbsent(P);
      StepsSkip(P);
    case Identifier(b, w) =>
      WordEaten(b, w, P);
      BlankHead(b, w + P);
    case Computed(b, inner) =>
      ComputedEaten(b, inner, P);
  }

  lemma ComputedEaten(b: Blank, inner: Items, rest: Text)
    requires BlankOk(b) && ItemsOk(inner) && Balanced(inner, LBRACKET, RBRACKET)
    ensures EatName(NameThen(Computed(b, inner), rest)) == Some(rest)
    ensures EatAccessor(NameThen(Computed(b, inner), rest)) == SkipBlank(NameThen(Computed(b, inner), rest)).rest
    ensures !IsIdCont(Head(NameThen(Computed(b, inner), rest)))
  {
    var text := ItemsThen(inner, [RBRACKET] + rest);
    var s := TokenThen(b, [LBRACKET], text);
    PunctEaten(b, LBRACKET, text);
    HeadAfter(b, LBRACKET, text);
    SkipBlankIdempotent(s);
    assert Stays(inner, LBRACKET, RBRACKET, 1);
    StumbleReads(inner, RBRACKET, 1, rest);
    AccessorAbsent(s);
  }

  /** The accessor and the name together: `get` and `set` may be either. */
  lemma AccessorAccepted(d: Source)
    requires SourceOk(d)
    ensures var s := AccessorThen(d.accessor, NameThen(d.name, RenderParams(d)));
            !IsIdCont(Head(s)) && var n := EatName(EatAccessor(s)); n.Some? && AcceptsParams(n.value)
  {
    var P := RenderParams(d);
    var N := NameThen(d.name, P);
    NameAccepted(d);
    ParamsAccepted(d);
    match d.accessor
    case Accessor(b, w) =>
      AccessorEaten(b, w, N);
      BlankHead(b, w + N);
    case NoAccessor =>
      match d.name
      case NoName =>
        NameAbsent(P);
        StepsSkip(P);
      case Computed(b, inner) =>
        ComputedEaten(b, inner, P);
        StepsSkip(N);
      case Identifier(b, w) =>
        if w == GET || w == SET {
          AccessorEaten(b, w, P);
          NameAbsent(P);
          StepsSkip(P);
        } else {
          WordEaten(b, w, P);
          AccessorAbsent(N);
          StepsSkip(N);
        }
  }

  lemma AccessorEaten(b: Blank, w: Text, rest: Text)
    requires BlankOk(b) && (w == GET || w == SET) && !IsIdCont(Head(rest))
    ensures EatAccessor(TokenThen(b, w, rest)) == rest
  {
    WordEaten(b, w, rest);
    SkipBlankIdempotent(TokenThen(b, w, rest));
    assert (w + rest)[|w|..] == rest;
  }

  lemma RenderingAccepted(d: Source)
    requires SourceOk(d)
    ensures Accepts(Render(d))
  {
    KeywordsAreWords();
    AccessorAccepted(d);
    WordEaten(d.lead, FUNCTION, AccessorThen(d.accessor, NameThen(d.name, RenderParams(d))));
  }

  // ----- whatever is accepted has a derivation

  lemma EndParse(s: Text, d: Source) returns (e: Source)
    requires AcceptsEnd(s)
    ensures RenderEnd(e) == s
    ensures BlankOk(e.beforeBracketEnd) && BlankOk(e.beforeBraceEnd) && BlankOk(e.trail)
    ensures e.lastComment.Some? ==> NoNewline(e.lastComment.value)
    ensures e == d.(beforeBracketEnd := e.beforeBracketEnd, beforeBraceEnd := e.beforeBraceEnd,
                    trail := e.trail, lastComment := e.lastComment)
  {
    var s5 := EatPunct(s, RBRACKET).rest;
    var b5 := PunctParse(s, RBRACKET);
    var s6 := EatPunct(s5, RBRACE).rest;
    var b6 := PunctParse(s5, RBRACE);
    SkipBlankIdempotent(s6);
    var trail, last := BlankParse(s6);
    assert LastComment(last) + SkipBlank(s6).rest == LastComment(last);
    e := d.(beforeBracketEnd := b5, beforeBraceEnd := b6, trail := trail, lastComment := last);
  }

  lemma BodyParse(s: Text, d: Source) returns (e: Source)
    requires AcceptsBody(s)
    requires BlankOk(d.lead) && AccessorOk(d.accessor) && NameOk(d.name) && BlankOk(d.beforeParams)
    requires ItemsOk(d.params) && Balanced(d.params, LPAREN, RPAREN)
    ensures SourceOk(e) && RenderBody(e) == s
    ensures e.lead == d.lead && e.accessor == d.accessor && e.name == d.name
    ensures e.beforeParams == d.beforeParams && e.params == d.params
  {
    var s1 := EatPunct(s, LBRACE).rest;
    var b1 := PunctParse(s, LBRACE);
    var s2 := EatPunct(s1, LBRACKET).rest;
    var b2 := PunctParse(s1, LBRACKET);
    var s3 := EatWord(s2, NATIVE).rest;
    var b3 := WordParse(s2, NATIVE);
    var s4 := EatWord(s3, CODE).rest;
    var b4 := WordParse(s3, CODE);
    e := EndParse(s4, d.(beforeBrace := b1, beforeBracket := b2, beforeNative := b3, beforeCode := b4));
  }

  lemma ParamsParse(s: Text, d: Source) returns (e: Source)
    requires AcceptsParams(s)
    requires BlankOk(d.lead) && AccessorOk(d.accessor) && NameOk(d.name)
    ensures SourceOk(e) && RenderParams(e) == s
    ensures e.lead == d.lead && e.accessor == d.accessor && e.name == d.name
  {
    var p := EatPunct(s, LPAREN).rest;
    var b := PunctParse(s, LPAREN);
    var xs := StumbleParse(p, RPAREN, 1);
    assert Balanced(xs, LPAREN, RPAREN) by { StaysFromOne(xs, LPAREN, RPAREN); }
    e := BodyParse(Stumble(p, RPAREN, 1).value, d.(beforeParams := b, params := xs));
  }

  lemma StaysFromOne(xs: Items, opener: nat, closer: nat)
    requires Stays(xs, opener, closer, 1)
    ensures Balanced(xs, opener, closer)
  {
    forall k | 0 <= k <= |xs| ensures Nesting(xs[..k], opener, closer) >= 0 {
      assert 1 + Nesting(xs[..k], opener, closer) >= 1;
    }
  }

  lemma IdentifierParse(s: Text) returns (n: Name)
    requires EatIdentifier(s).ok
    ensures n.Identifier? && BlankOk(n.blank) && WordOk(n.word) && (!IsIdCont(Head(s)) ==> n.blank != [])
    ensures EatName(s).Some? && s == NameThen(n, EatName(s).value)
  {
    var w := Word(SkipBlank(s).rest);
    var b := WordParse(s, w);
    n := Identifier(b, w);
  }

  lemma ComputedParse(s: Text) returns (n: Name)
    requires !EatIdentifier(s).ok && Head(SkipBlank(s).rest) == LBRACKET && EatName(s).Some?
    ensures n.Computed? && NameOk(n) && s == NameThen(n, EatName(s).value)
  {
    var r := SkipBlank(s).rest;
    SkipBlankIdempotent(s);
    var b := BlankBefore(s);
    var xs := StumbleParse(r[1..], RBRACKET, 1);
    StaysFromOne(xs, LBRACKET, RBRACKET);
    assert r == [LBRACKET] + r[1..];
    n := Computed(b, xs);
  }

  /** The name part: an identifier, a computed name, or nothing but white space. */
  lemma NameParse(s: Text) returns (n: Name)
    requires EatName(s).Some? && AcceptsParams(EatName(s).value)
    requires !IsIdCont(Head(s))
    ensures NameOk(n)
    ensures n.NoName? ==> AcceptsParams(s)
    ensures !n.NoName? ==> s == NameThen(n, EatName(s).value)
  {
    if EatIdentifier(s).ok {
      n := IdentifierParse(s);
    } else if Head(SkipBlank(s).rest) == LBRACKET {
      n := ComputedParse(s);
    } else {
      SkipBlankIdempotent(s);
      StepsSkip(s);
      n := NoName;
    }
  }

  lemma AcceptedParse(s: Text) returns (d: Source)
    requires Accepts(s)
    ensures SourceOk(d) && Render(d) == s
  {
    var lead := WordParse(s, FUNCTION);
    var f := EatWord(s, FUNCTION).rest;
    var a := AccessorParse(f);
    var after := if a.NoAccessor? then f else EatAccessor(f);
    if a.NoAccessor? { StepsSkip(f); }
    var n := NameParse(after);
    var blank: Source := Source(lead, a, n, [], [], [], [], [], [], [], [], [], None);
    if n.NoName? {
      d := ParamsParse(after, blank);
    } else {
      d := ParamsParse(EatName(after).value, blank);
    }
  }

  /** What follows `function`: an accessor word, or none, and then nothing but white space is gone. */
  lemma AccessorParse(f: Text) returns (a: Accessor)
    requires !IsIdCont(Head(f))
    ensures AccessorOk(a)
    ensures a.NoAccessor? ==> EatAccessor(f) == SkipBlank(f).rest
    ensures a.Accessor? ==> f == AccessorThen(a, EatAccessor(f)) && !IsIdCont(Head(EatAccessor(f)))
  {
    var w := Word(SkipBlank(f).rest);
    if w == GET {
      var b := WordParse(f, GET);
      return Accessor(b, GET);
    }
    if w == SET {
      var b := WordParse(f, SET);
      SkipBlankIdempotent(f);
      return Accessor(b, SET);
    }
    AccessorAbsent(f);
    return NoAccessor;
  }

  /** The scanner accepts exactly the language. */
  lemma AcceptsExactlyTheLanguage(s: Text)
    ensures Accepts(s) <==> InLanguage(s)
  {
    if Accepts(s) {
      var d := AcceptedParse(s);
      assert SourceOk(d) && Render(d) == s;
    }
    if InLanguage(s) {
      var d :| SourceOk(d) && Render(d) == s;
      RenderingAccepted(d);
    }
  }
}
