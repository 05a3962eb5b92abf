/**
 The language of NativeFunction source texts (section 20.2.3.5 of ECMA-262), with
 the identifier classes narrowed to ASCII, as derivation trees that render to text.
 A text is a sequence of UTF-16 code units.
 */
module NativeFunctionGrammar {
  import opened Options
  import opened Texts

  const STAR := 42
  const SLASH := 47
  const BACKSLASH := 92

  const FUNCTION: Text := [102, 117, 110, 99, 116, 105, 111, 110]
  const GET: Text := [103, 101, 116]
  const SET: Text := [115, 101, 116]
  const NATIVE: Text := [110, 97, 116, 105, 118, 101]
  const CODE: Text := [99, 111, 100, 101]
  const LPAREN: nat := 40
  const RPAREN: nat := 41
  const LBRACKET: nat := 91
  const RBRACKET: nat := 93
  const LBRACE: nat := 123
  const RBRACE: nat := 125

  // ----- the character classes; -1 stands for the NaN read past the end

  predicate IsWs(c: int) {
    c == 32 || c == 9 || c == 11 || c == 12 || c == 160 || c == 65279
  }

  predicate IsNl(c: int) {
    c == 10 || c == 13 || c == 8232 || c == 8233
  }

  predicate IsIdStart(c: int) {
    97 <= c <= 122 || 65 <= c <= 90 || c == 95 || c == 36
  }

  predicate IsIdCont(c: int) {
    IsIdStart(c) || 48 <= c <= 57
  }

  predicate IsQuote(c: int) {
    c == 39 || c == 34
  }

  predicate NoNewline(s: Text) {
    forall i | 0 <= i < |s| :: !IsNl(s[i])
  }

  function Head(s: Text): int {
    if s == [] then -1 else s[0]
  }

  // ----- white space and comments

  /** A line comment owns the line terminator that ends it. */
  datatype Trivia = Space(c: nat) | LineComment(body: Text, newline: nat) | BlockComment(body: Text)

  predicate NoBlockEnd(s: Text) {
    forall i | 0 <= i < |s| - 1 :: !(s[i] == STAR && s[i + 1] == SLASH)
  }

  predicate TriviaOk(t: Trivia) {
    match t
    case Space(c) => IsWs(c) || IsNl(c)
    case LineComment(body, nl) => NoNewline(body) && IsNl(nl)
    case BlockComment(body) => NoBlockEnd(body)
  }

  function RenderTrivia(t: Trivia): Text {
    match t
    case Space(c) => [c]
    case LineComment(body, nl) => [SLASH, SLASH] + body + [nl]
    case BlockComment(body) => [SLASH, STAR] + body + [STAR, SLASH]
  }

  type Blank = seq<Trivia>

  predicate BlankOk(b: Blank) {
    forall i | 0 <= i < |b| :: TriviaOk(b[i])
  }

  /** `b` followed by `rest`. */
  function BlankThen(b: Blank, rest: Text): Text {
    if b == [] then rest else RenderTrivia(b[0]) + BlankThen(b[1..], rest)
  }

  // ----- what may stand between brackets

  /**
   The contents of a parameter list or of a computed name.  For the scanner a string
   literal ends at the first quote of its kind that no backslash precedes.
   */
  datatype Item = Filler(t: Trivia) | Literal(quote: nat, body: Text) | Plain(c: nat)

  predicate LiteralOk(q: nat, body: Text) {
    && IsQuote(q)
    && NoNewline(body)
    && (forall i | 0 <= i < |body| && body[i] == q :: i > 0 && body[i - 1] == BACKSLASH)
    && (body != [] ==> body[|body| - 1] != BACKSLASH)
  }

  predicate ItemOk(x: Item) {
    match x
    case Filler(t) => TriviaOk(t)
    case Literal(q, body) => LiteralOk(q, body)
    case Plain(c) => !IsWs(c) && !IsNl(c) && !IsQuote(c)
  }

  function RenderItem(x: Item): Text {
    match x
    case Filler(t) => RenderTrivia(t)
    case Literal(q, body) => [q] + body + [q]
    case Plain(c) => [c]
  }

  type Items = seq<Item>

  /** A slash that is a token of its own is not followed by one that makes it a comment. */
  predicate NoAccidentalComment(x: Item, y: Item) {
    x == Plain(SLASH) ==> !(y.Filler? && !y.t.Space?) && y != Plain(SLASH) && y != Plain(STAR)
  }

  predicate ItemsOk(xs: Items) {
    && (forall i | 0 <= i < |xs| :: ItemOk(xs[i]))
    && (forall i | 0 <= i < |xs| - 1 :: NoAccidentalComment(xs[i], xs[i + 1]))
  }

  function ItemsThen(xs: Items, rest: Text): Text {
    if xs == [] then rest else RenderItem(xs[0]) + ItemsThen(xs[1..], rest)
  }

  /** How much one item opens (or, below zero, closes) the bracket that `closer` closes. */
  function Opens(x: Item, opener: nat, closer: nat): int {
    if x == Plain(opener) then 1 else if x == Plain(closer) then -1 else 0
  }

  function Nesting(xs: Items, opener: nat, closer: nat): int {
    if xs == [] then 0 else Opens(xs[0], opener, closer) + Nesting(xs[1..], opener, closer)
  }

  /** Every bracket is closed, and none is closed before it is opened. */
  ghost predicate Balanced(xs: Items, opener: nat, closer: nat) {
    && Nesting(xs, opener, closer) == 0
    && forall k | 0 <= k <= |xs| :: Nesting(xs[..k], opener, closer) >= 0
  }

  // ----- whole source texts

  datatype Accessor = NoAccessor | Accessor(blank: Blank, word: Text)

  datatype Name = NoName | Identifier(blank: Blank, word: Text) | Computed(blank: Blank, inner: Items)

  /** function  get|set?  name?  ( parameters ) { [ native code ] } */
  datatype Source = Source(
    lead: Blank, accessor: Accessor, name: Name,
    beforeParams: Blank, params: Items,
    beforeBrace: Blank, beforeBracket: Blank, beforeNative: Blank, beforeCode: Blank,
    beforeBracketEnd: Blank, beforeBraceEnd: Blank,
    trail: Blank, lastComment: Option<Text>)

  predicate WordOk(w: Text) {
    && w != []
    && IsIdStart(w[0])
    && forall i | 0 <= i < |w| :: IsIdCont(w[i])
  }

  ghost predicate SourceOk(d: Source) {
    && BlankOk(d.lead)
    && AccessorOk(d.accessor)
    && NameOk(d.name)
    && BlankOk(d.beforeParams)
    && ItemsOk(d.params) && Balanced(d.params, LPAREN, RPAREN)
    && BlankOk(d.beforeBrace) && BlankOk(d.beforeBracket) && BlankOk(d.beforeNative)
    && BlankOk(d.beforeCode) && d.beforeCode != []
    && BlankOk(d.beforeBracketEnd) && BlankOk(d.beforeBraceEnd)
    && BlankOk(d.trail)
    && (d.lastComment.Some? ==> NoNewline(d.lastComment.value))
  }

  /** Words that stand next to each other are kept apart. */
  predicate AccessorOk(a: Accessor) {
    a.Accessor? ==> BlankOk(a.blank) && a.blank != [] && (a.word == GET || a.word == SET)
  }

  ghost predicate NameOk(n: Name) {
    match n
    case NoName => true
    case Identifier(b, w) => BlankOk(b) && b != [] && WordOk(w)
    case Computed(b, inner) => BlankOk(b) && ItemsOk(inner) && Balanced(inner, LBRACKET, RBRACKET)
  }

  /** White space, one token, and what follows. */
  function TokenThen(b: Blank, token: Text, rest: Text): Text {
    BlankThen(b, token + rest)
  }

  function AccessorThen(a: Accessor, rest: Text): Text {
    match a
    case NoAccessor => rest
    case Accessor(b, w) => TokenThen(b, w, rest)
  }

  function NameThen(n: Name, rest: Text): Text {
    match n
    case NoName => rest
    case Identifier(b, w) => TokenThen(b, w, rest)
    case Computed(b, inner) => TokenThen(b, [LBRACKET], ItemsThen(inner, [RBRACKET] + rest))
  }

  function LastComment(c: Option<Text>): Text {
    if c.Some? then [SLASH, SLASH] + c.value else []
  }

  function RenderEnd(d: Source): Text {
    TokenThen(d.beforeBracketEnd, [RBRACKET],
    TokenThen(d.beforeBraceEnd, [RBRACE],
    BlankThen(d.trail, LastComment(d.lastComment))))
  }

  function RenderCode(d: Source): Text {
    TokenThen(d.beforeNative, NATIVE, TokenThen(d.beforeCode, CODE, RenderEnd(d)))
  }

  function RenderBody(d: Source): Text {
    TokenThen(d.beforeBrace, [LBRACE], TokenThen(d.beforeBracket, [LBRACKET], RenderCode(d)))
  }

  function RenderParams(d: Source): Text {
    TokenThen(d.beforeParams, [LPAREN], ItemsThen(d.params, [RPAREN] + RenderBody(d)))
  }

  function Render(d: Source): Text {
    TokenThen(d.lead, FUNCTION, AccessorThen(d.accessor, NameThen(d.name, RenderParams(d))))
  }

  /** The language: the renderings of the well-formed derivations. */
  ghost predicate InLanguage(s: Text) {
    exists d :: SourceOk(d) && Render(d) == s
  }
}
