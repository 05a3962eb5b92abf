/**
 What each scanner step reads, as functions from the text at the cursor to the text
 left over, and what they read of a rendered derivation.
 */
module NativeFunctionReading {
  import opened NativeFunctionGrammar
  import opened Options
  import opened Texts

  datatype Skipped = Skipped(rest: Text, bad: bool)

  /** From the first line terminator on. */
  function AfterLine(s: Text): (r: Text)
    ensures |r| <= |s|
    ensures s != [] && !IsNl(s[0]) ==> |r| < |s|
  {
    if s == [] || IsNl(s[0]) then s else AfterLine(s[1..])
  }

  /** What follows the first end of a block comment. */
  function AfterBlock(s: Text): (r: Option<Text>)
    ensures r.Some? ==> |r.value| < |s|
  {
    if |s| < 2 then None
    else if s[0] == STAR && s[1] == SLASH then Some(s[2..])
    else AfterBlock(s[1..])
  }

  /** White space and comments; `bad` when a block comment is not closed. */
  function SkipBlank(s: Text): (r: Skipped)
    ensures |r.rest| <= |s|
    decreases |s|
  {
    if s == [] then Skipped(s, false)
    else if IsWs(s[0]) || IsNl(s[0]) then SkipBlank(s[1..])
    else if s[0] == SLASH && Head(s[1..]) == SLASH then SkipBlank(AfterLine(s))
    else if s[0] == SLASH && Head(s[1..]) == STAR then
      var after := AfterBlock(s[2..]);
      if after.None? then Skipped(s, true) else SkipBlank(after.value)
    else Skipped(s, false)
  }

  /** Where a block comment starts that nothing closes: the scanner never leaves this place. */
  predicate Stuck(s: Text) {
    |s| >= 2 && s[0] == SLASH && s[1] == STAR && AfterBlock(s[2..]).None?
  }

  function Continuation(s: Text): (r: Text)
    ensures r <= s
    ensures forall i | 0 <= i < |r| :: IsIdCont(r[i])
    ensures |r| < |s| ==> !IsIdCont(s[|r|])
  {
    if s == [] || !IsIdCont(s[0]) then []
    else
      assert s == [s[0]] + s[1..];
      [s[0]] + Continuation(s[1..])
  }

  /** The longest identifier at the front of a text; empty when there is none. */
  function Word(s: Text): (r: Text)
    ensures r <= s
    ensures r != [] ==> WordOk(r) && !IsIdCont(Head(s[|r|..]))
    ensures r == [] <==> !IsIdStart(Head(s))
  {
    if !IsIdStart(Head(s)) then []
    else
      assert s == [s[0]] + s[1..];
      [s[0]] + Continuation(s[1..])
  }

  datatype Eaten = Eaten(ok: bool, rest: Text)

  function EatWord(s: Text, w: Text): Eaten {
    var r := SkipBlank(s).rest;
    if Word(r) == w then Eaten(true, r[|w|..]) else Eaten(false, r)
  }

  function EatIdentifier(s: Text): Eaten {
    var r := SkipBlank(s).rest;
    Eaten(Word(r) != [], r[|Word(r)|..])
  }

  function EatPunct(s: Text, c: nat): Eaten {
    var r := SkipBlank(s).rest;
    if Head(r) == c then Eaten(true, r[1..]) else Eaten(false, r)
  }

  /** From the quote that ends a string literal on; `previous` is the unit before `s`. */
  function StringEnd(q: nat, previous: nat, s: Text): (r: Option<Text>)
    ensures r.Some? ==> 0 < |r.value| <= |s| && r.value[0] == q
    decreases |s|
  {
    if s == [] then None
    else if s[0] == q && previous != BACKSLASH then Some(s)
    else if IsNl(s[0]) then None
    else StringEnd(q, s[0], s[1..])
  }

  /** To the end of a string literal, if one starts here. */
  function SkipString(s: Text): (r: Option<Text>)
    ensures r.Some? ==> |r.value| <= |s|
  {
    if !IsQuote(Head(s)) then Some(s) else StringEnd(s[0], s[0], s[1..])
  }

  function OpenerOf(closer: nat): nat {
    if closer == RBRACKET then LBRACKET else LPAREN
  }

  /** What follows the closer that brings the nesting from `depth` to zero. */
  function Stumble(s: Text, closer: nat, depth: nat): (r: Option<Text>)
    requires depth > 0
    ensures r.Some? ==> |r.value| < |s|
    decreases |s|
  {
    var b := SkipBlank(s);
    if b.bad then None
    else
      var t := SkipString(b.rest);
      if t.None? || t.value == [] then None
      else
        var cur, rest := t.value[0], t.value[1..];
        var inner := if cur == OpenerOf(closer) then depth + 1 else if cur == closer then depth - 1 else depth;
        if inner == 0 then Some(rest) else Stumble(rest, closer, inner)
  }

  /** An optional name: an identifier, or a bracketed expression; `None` when a bracket stays open. */
  function EatName(s: Text): Option<Text> {
    var i := EatIdentifier(s);
    if i.ok then Some(i.rest)
    else
      var p := EatPunct(i.rest, LBRACKET);
      if p.ok then Stumble(p.rest, RBRACKET, 1) else Some(p.rest)
  }

  function EatAccessor(s: Text): Text {
    var g := EatWord(s, GET);
    if g.ok then g.rest else EatWord(g.rest, SET).rest
  }

  predicate AcceptsEnd(s: Text) {
    var e := EatPunct(s, RBRACKET);
    e.ok &&
    var f := EatPunct(e.rest, RBRACE);
    f.ok && SkipBlank(f.rest).rest == []
  }

  predicate AcceptsCode(s: Text) {
    var c := EatWord(s, NATIVE);
    c.ok &&
    var d := EatWord(c.rest, CODE);
    d.ok && AcceptsEnd(d.rest)
  }

  predicate AcceptsBody(s: Text) {
    var a := EatPunct(s, LBRACE);
    a.ok &&
    var b := EatPunct(a.rest, LBRACKET);
    b.ok && AcceptsCode(b.rest)
  }

  predicate AcceptsParams(s: Text) {
    var p := EatPunct(s, LPAREN);
    p.ok &&
    var body := Stumble(p.rest, RPAREN, 1);
    body.Some? && AcceptsBody(body.value)
  }

  predicate Accepts(s: Text) {
    var f := EatWord(s, FUNCTION);
    f.ok &&
    var n := EatName(EatAccessor(f.rest));
    n.Some? && AcceptsParams(n.value)
  }
}
