/**
 Which source texts of built-in functions the validator accepts, with every code unit
 written out: names, what may stand before them, accessors, parameters and comments.
 */
module NativeFunctionNames {
  import opened NativeFunctionGrammar
  import opened NativeFunctionReading
  import opened NativeFunctionProofs
  import opened NativeFunctionScan
  import opened NativeFunctionStrings
  import opened Options
  import opened Texts

  /** `function` */
  const FN: Text := [102, 117, 110, 99, 116, 105, 111, 110]

  /** ` { [native code] }` */
  const NATIVE_BODY: Text := [32, 123, 32, 91, 110, 97, 116, 105, 118, 101, 32, 99, 111, 100, 101, 93, 32, 125]

  /** `() { [native code] }` */
  const CALL: Text := [40, 41] + NATIVE_BODY

  /** a-z, A-Z, `_` and `$` */
  predicate Letter(c: nat) {
    97 <= c <= 122 || 65 <= c <= 90 || c == 95 || c == 36
  }

  /** Letters and 0-9, the first no digit. */
  predicate IsName(w: Text) {
    w != [] && Letter(w[0]) && forall i | 0 <= i < |w| :: Letter(w[i]) || 48 <= w[i] <= 57
  }

  /** The six spaces and the four line terminators. */
  predicate IsBlank(c: nat) {
    c in {9, 11, 12, 32, 160, 65279, 10, 13, 8232, 8233}
  }

  /** The units and keywords of the language. */
  lemma CodeUnits(c: nat)
    ensures IsIdStart(c) <==> Letter(c)
    ensures IsIdCont(c) <==> Letter(c) || 48 <= c <= 57
    ensures IsWs(c) || IsNl(c) <==> IsBlank(c)
    ensures IsNl(c) <==> c in {10, 13, 8232, 8233}
    ensures IsQuote(c) <==> c == 34 || c == 39
    ensures STAR == 42 && SLASH == 47 && BACKSLASH == 92 && CR == 13 && LF == 10
    ensures LPAREN == 40 && RPAREN == 41 && LBRACKET == 91 && RBRACKET == 93
    ensures FUNCTION == FN && GET == [103, 101, 116] && SET == [115, 101, 116]
    ensures TAIL == NATIVE_BODY
  {
  }

  lemma NamesAreWords(w: Text)
    ensures IsName(w) <==> WordOk(w)
  {
    if WordOk(w) {
      forall i | 0 <= i < |w| ensures Letter(w[i]) || 48 <= w[i] <= 57 { CodeUnits(w[i]); }
    }
  }

  // ----- derivations with the usual spacing

  function Usual(a: Accessor, n: Name, params: Items): Source {
    Source([], a, n, [], params, [Space(32)], [Space(32)], [], [Space(32)], [], [Space(32)], [], None)
  }

  lemma UsualText(a: Accessor, n: Name, params: Items)
    ensures Render(Usual(a, n, params)) ==
            FN + AccessorThen(a, NameThen(n, [40] + ItemsThen(params, [41] + NATIVE_BODY)))
  {
    var d := Usual(a, n, params);
    UsualBody(d);
    hide RenderBody, ItemsThen, AccessorThen, NameThen;
    OneSpace([LPAREN], ItemsThen(params, [RPAREN] + TAIL));
    OneSpace(FUNCTION, AccessorThen(a, NameThen(n, RenderParams(d))));
    hide TokenThen;
  }

  lemma UsualBody(d: Source)
    requires d == Usual(d.accessor, d.name, d.params)
    ensures RenderBody(d) == TAIL == NATIVE_BODY
  {
    OneSpace([RBRACE], []);
    OneSpace([RBRACKET], [32] + ([RBRACE] + []));
    OneSpace(CODE, RenderEnd(d));
    OneSpace(NATIVE, [32] + (CODE + RenderEnd(d)));
    OneSpace([LBRACKET], RenderCode(d));
    OneSpace([LBRACE], [32] + ([LBRACKET] + RenderCode(d)));
    hide TokenThen;
  }

  lemma NoParams()
    ensures ItemsOk([]) && Balanced([], LPAREN, RPAREN)
    ensures [40] + ItemsThen([], [41] + NATIVE_BODY) == CALL
  {
  }

  lemma UsualAccepted(a: Accessor, n: Name, params: Items)
    requires AccessorOk(a) && NameOk(n) && ItemsOk(params) && Balanced(params, LPAREN, RPAREN)
    ensures InLanguage(FN + AccessorThen(a, NameThen(n, [40] + ItemsThen(params, [41] + NATIVE_BODY))))
  {
    var d := Usual(a, n, params);
    UsualText(a, n, params);
    UsualOk(d);
    hide *;
    LanguageHas(d);
  }

  lemma UsualOk(d: Source)
    requires d == Usual(d.accessor, d.name, d.params)
    requires AccessorOk(d.accessor) && NameOk(d.name)
    requires ItemsOk(d.params) && Balanced(d.params, LPAREN, RPAREN)
    ensures SourceOk(d)
  {
    hide AccessorOk, NameOk, ItemsOk, Balanced;
  }

  lemma LanguageHas(d: Source)
    requires SourceOk(d)
    ensures InLanguage(Render(d))
  {
    hide SourceOk, Render;
  }

  // ----- brackets, unit by unit

  /** How much a unit opens or closes. */
  function Turn(u: nat, opener: nat, closer: nat): int {
    if u == opener then 1 else if u == closer then -1 else 0
  }

  /** How many brackets a text leaves open. */
  function Net(s: Text, opener: nat, closer: nat): int {
    if s == [] then 0 else Turn(s[0], opener, closer) + Net(s[1..], opener, closer)
  }

  /** From `depth` open brackets on, the text never closes the last one. */
  predicate StaysOpen(s: Text, opener: nat, closer: nat, depth: int) {
    depth >= 1 && (s != [] ==> StaysOpen(s[1..], opener, closer, depth + Turn(s[0], opener, closer)))
  }

  /** No string literals, and no slash, which could start a comment. */
  predicate Simple(s: Text) {
    forall i | 0 <= i < |s| :: s[i] != 34 && s[i] != 39 && s[i] != 47
  }

  /** A text without brackets leaves the nesting alone. */
  predicate NoTurns(s: Text, opener: nat, closer: nat) {
    forall i | 0 <= i < |s| :: s[i] != opener && s[i] != closer
  }

  /** A unit of simple text as an item between brackets. */
  function UnitItem(u: nat): Item {
    if IsBlank(u) then Filler(Space(u)) else Plain(u)
  }

  lemma UnitItemMeans(u: nat, rest: Text, closer: nat)
    requires u != 34 && u != 39 && u != 47 && IsCloser(closer)
    ensures ItemOk(UnitItem(u)) && RenderItem(UnitItem(u)) == [u] && UnitItem(u) != Plain(SLASH)
    ensures Opens(UnitItem(u), OpenerOf(closer), closer) == Turn(u, OpenerOf(closer), closer)
  {
    CodeUnits(u);
  }

  /** Text that never closes the last bracket makes the scan fail. */
  lemma {:induction false} LeftOpen(s: Text, closer: nat, depth: nat)
    requires IsCloser(closer) && Simple(s) && StaysOpen(s, OpenerOf(closer), closer, depth)
    ensures Stumble(s, closer, depth).None?
    decreases |s|
  {
    if s != [] {
      var inner := depth + Turn(s[0], OpenerOf(closer), closer);
      UnitItemMeans(s[0], s[1..], closer);
      assert s == [s[0]] + s[1..];
      LeftOpen(s[1..], closer, inner);
      hide Stumble, ItemOk, RenderItem, Opens, OpenerOf, UnitItem;
      StumbleStep(UnitItem(s[0]), s[1..], closer, depth, inner);
    }
  }

  lemma {:induction false} OpenRun(s: Text, rest: Text, opener: nat, closer: nat, depth: int)
    requires NoTurns(s, opener, closer) && StaysOpen(rest, opener, closer, depth)
    ensures StaysOpen(s + rest, opener, closer, depth)
    decreases |s|
  {
    if s == [] {
      assert s + rest == rest;
    } else {
      OpenRun(s[1..], rest, opener, closer, depth);
      assert (s + rest)[1..] == s[1..] + rest;
    }
  }

  lemma OpenTurn(u: nat, rest: Text, opener: nat, closer: nat, depth: int)
    requires depth >= 1 && StaysOpen(rest, opener, closer, depth + Turn(u, opener, closer))
    ensures StaysOpen([u] + rest, opener, closer, depth)
  {
    assert ([u] + rest)[1..] == rest;
  }

  /** Neither an opening parenthesis nor an opening bracket before `name() { [native code] }` is closed by it. */
  lemma CallLeavesOpen(w: Text)
    requires IsName(w)
    ensures Stumble(w + CALL, RPAREN, 1).None? && Stumble(w + CALL, RBRACKET, 1).None?
  {
    CallSimple(w);
    CallOpensParen(w);
    CallOpensBracket(w);
    hide StaysOpen, Stumble, Simple;
    LeftOpen(w + CALL, RPAREN, 1);
    LeftOpen(w + CALL, RBRACKET, 1);
  }

  lemma CallSimple(w: Text)
    requires IsName(w)
    ensures Simple(w + CALL) && NoTurns(w, 40, 41) && NoTurns(w, 91, 93)
  {
    forall i | 0 <= i < |w + CALL|
      ensures (w + CALL)[i] != 34 && (w + CALL)[i] != 39 && (w + CALL)[i] != 47
    {
      if i >= |w| { assert (w + CALL)[i] == CALL[i - |w|]; }
    }
  }

  lemma CallOpensParen(w: Text)
    requires NoTurns(w, 40, 41)
    ensures StaysOpen(w + CALL, 40, 41, 1)
  {
    var body := NATIVE_BODY;
    assert StaysOpen([], 40, 41, 1);
    OpenRun(body, [], 40, 41, 1);
    assert body + [] == body;
    assert CALL == [40] + ([41] + body);
    hide StaysOpen, NoTurns;
    OpenTurn(41, body, 40, 41, 2);
    OpenTurn(40, [41] + body, 40, 41, 1);
    OpenRun(w, CALL, 40, 41, 1);
  }

  lemma CallOpensBracket(w: Text)
    requires NoTurns(w, 91, 93)
    ensures StaysOpen(w + CALL, 91, 93, 1)
  {
    var front, code, end: Text := [40, 41, 32, 123, 32], [110, 97, 116, 105, 118, 101, 32, 99, 111, 100, 101], [32, 125];
    assert CALL == front + ([91] + (code + ([93] + end)));
    assert StaysOpen([], 91, 93, 1);
    OpenRun(end, [], 91, 93, 1);
    assert end + [] == end;
    assert NoTurns(front, 91, 93) && NoTurns(code, 91, 93);
    hide StaysOpen, NoTurns;
    OpenTurn(93, end, 91, 93, 2);
    OpenRun(code, [93] + end, 91, 93, 2);
    OpenTurn(91, code + ([93] + end), 91, 93, 1);
    OpenRun(front, [91] + (code + ([93] + end)), 91, 93, 1);
    OpenRun(w, CALL, 91, 93, 1);
  }

  // ----- one name

  /** A name after white space or comments is accepted. */
  lemma NameAfter(b: Blank, w: Text)
    requires BlankOk(b) && b != [] && IsName(w)
    ensures InLanguage(FN + BlankThen(b, w + CALL))
  {
    NamesAreWords(w);
    NoParams();
    hide IsName, WordOk, BlankOk, BlankThen;
    UsualAccepted(NoAccessor, Identifier(b, w), []);
  }

  /** Where a text goes on with something that is no name, bracket or parenthesis, the scan ends. */
  lemma Refused(t: Text)
    requires SkipBlank(t) == Skipped(t, false) && !IsIdStart(Head(t)) && Head(t) != LBRACKET && Head(t) != LPAREN
    ensures EatAccessor(t) == t && EatName(t) == Some(t) && !AcceptsParams(t)
  {
    assert Word(t) == [];
    AccessorAbsent(t);
    hide SkipBlank, Stumble, Word;
  }

  lemma AfterFunction(s: Text)
    requires !IsIdCont(Head(s))
    ensures InLanguage(FN + s) <==> var n := EatName(EatAccessor(s)); n.Some? && AcceptsParams(n.value)
  {
    FunctionEaten(s);
    AcceptsAfter(FUNCTION + s, s);
    AcceptsExactlyTheLanguage(FUNCTION + s);
    hide *;
  }

  /** `function` with something directly behind it. */
  function Behind(u: nat, w: Text): Text { FN + ([u] + (w + CALL)) }

  /** `function`, one unit, a name, and the rest: accepted exactly when the unit is blank. */
  lemma SeparatorIsBlank(u: nat, w: Text)
    requires IsName(w) && !Letter(u) && !(48 <= u <= 57)
    ensures InLanguage(Behind(u, w)) <==> IsBlank(u)
  {
    CodeUnits(u);
    if IsBlank(u) {
      BlankBefore(u, w + CALL);
      NameAfter([Space(u)], w);
    } else {
      var t := w + CALL;
      assert Head([u] + t) == u;
      AfterFunction([u] + t);
      if u == 40 {
        CallLeavesOpen(w);
        OpenParams(t);
      } else if u == 91 {
        CallLeavesOpen(w);
        OpenName(t);
      } else {
        UnitStops(u, t);
        Refused([u] + t);
      }
    }
  }

  lemma BlankBefore(u: nat, rest: Text)
    requires IsBlank(u)
    ensures BlankOk([Space(u)]) && BlankThen([Space(u)], rest) == [u] + rest
  {
    var b := [Space(u)];
    assert BlankThen(b, rest) == RenderTrivia(b[0]) + BlankThen(b[1..], rest);
    assert BlankThen(b[1..], rest) == rest;
  }

  /** A unit that is not blank stops the skipping; a slash does unless it starts a comment. */
  lemma UnitStops(u: nat, t: Text)
    requires !IsBlank(u) && (u == 47 ==> Head(t) != 47 && Head(t) != 42)
    ensures SkipBlank([u] + t) == Skipped([u] + t, false)
  {
    assert ([u] + t)[1..] == t;
  }

  /** A parameter list that is never closed. */
  lemma OpenParams(t: Text)
    requires Stumble(t, RPAREN, 1).None?
    ensures var s := [LPAREN] + t; var n := EatName(EatAccessor(s)); n.Some? && !AcceptsParams(n.value)
  {
    var s := [LPAREN] + t;
    UnitStops(LPAREN, t);
    NameAbsent(s);
    PunctEaten([], LPAREN, t);
    hide SkipBlank, Stumble, EatPunct, EatName, EatAccessor;
  }

  /** A computed name that is never closed. */
  lemma OpenName(t: Text)
    requires Stumble(t, RBRACKET, 1).None?
    ensures EatName(EatAccessor([LBRACKET] + t)).None?
  {
    var s := [LBRACKET] + t;
    UnitStops(LBRACKET, t);
    AccessorAbsent(s);
    PunctEaten([], LBRACKET, t);
    hide SkipBlank, Stumble, EatPunct;
  }

  // ----- any other text in place of the name

  /** `function`, a space, `w`, and the rest. */
  function Named(w: Text): Text { FN + ([32] + (w + CALL)) }

  /** No white space, and nothing that starts a comment, a computed name or the parameters. */
  predicate OneWord(w: Text) {
    w != [] && forall i | 0 <= i < |w| :: !IsBlank(w[i]) && w[i] != 47 && w[i] != 91 && w[i] != 40
  }

  /** In place of the name, a word is accepted exactly when it is a name. */
  lemma NameIsWord(w: Text)
    requires OneWord(w)
    ensures InLanguage(Named(w)) <==> IsName(w)
  {
    BlankBefore(32, w + CALL);
    if IsName(w) {
      NameAfter([Space(32)], w);
    } else {
      AfterFunction([32] + (w + CALL));
      NotAName(w);
    }
  }

  lemma NotAName(w: Text)
    requires OneWord(w) && !IsName(w)
    ensures var n := EatName(EatAccessor([32] + (w + CALL))); n.Some? && !AcceptsParams(n.value)
  {
    var s, r := [32] + (w + CALL), w + CALL;
    WordStands(w, CALL);
    SpaceBefore(r);
    var v := Word(r);
    if v == [] {
      CodeUnits(w[0]);
      Refused(r);
      AccessorAbsent(s);
    } else {
      ShortWord(w, CALL);
      var t := w[|v|..] + CALL;
      WordStands(w[|v|..], CALL);
      CodeUnits(w[|v|]);
      Refused(t);
      AfterWord(s, r, t);
    }
  }

  lemma WordStands(w: Text, rest: Text)
    requires OneWord(w)
    ensures SkipBlank(w + rest) == Skipped(w + rest, false) && Head(w + rest) == w[0]
    ensures !IsBlank(w[0]) && w[0] != 47 && w[0] != 91 && w[0] != 40
  {
    CodeUnits(w[0]);
    assert w + rest == [w[0]] + (w[1..] + rest);
    UnitStops(w[0], w[1..] + rest);
  }

  lemma SpaceBefore(r: Text)
    requires SkipBlank(r) == Skipped(r, false)
    ensures SkipBlank([32] + r) == Skipped(r, false)
  {
    assert ([32] + r)[1..] == r;
  }

  /** The identifier at the front of a word that is no name ends inside the word. */
  lemma ShortWord(w: Text, rest: Text)
    requires OneWord(w) && !IsName(w) && Word(w + rest) != []
    ensures var v := Word(w + rest);
            && 0 < |v| < |w| && OneWord(w[|v|..]) && !IsIdCont(w[|v|]) && !IsIdStart(w[|v|])
            && (w + rest)[|v|..] == w[|v|..] + rest
  {
    var v := Word(w + rest);
    hide Word;
    assert v <= w + rest && WordOk(v);
    if |v| >= |w| {
      assert forall i | 0 <= i < |w| :: w[i] == (w + rest)[i] == v[i];
      LongWord(w, v);
    }
    assert (w + rest)[|v|..] == w[|v|..] + rest;
    assert Head((w + rest)[|v|..]) == w[|v|];
  }

  lemma LongWord(w: Text, v: Text)
    requires w != [] && WordOk(v) && |v| >= |w| && forall i | 0 <= i < |w| :: w[i] == v[i]
    ensures IsName(w)
  {
    CodeUnits(v[0]);
    forall i | 0 <= i < |w| ensures Letter(w[i]) || 48 <= w[i] <= 57 { CodeUnits(v[i]); }
  }

  /** After an identifier, `get` or `set` or not, the scan stands behind it. */
  lemma AfterWord(s: Text, r: Text, t: Text)
    requires SkipBlank(s) == Skipped(r, false) && SkipBlank(r) == Skipped(r, false)
    requires Word(r) != [] && t == r[|Word(r)|..]
    requires EatName(t) == Some(t)
    ensures EatName(EatAccessor(s)) == Some(t)
  {
    if Word(r) == GET || Word(r) == SET {
      assert EatAccessor(s) == t by { hide Word, SkipBlank; }
    } else {
      assert EatAccessor(s) == r by { hide Word, SkipBlank; }
      assert EatName(r) == Some(t) by { hide Word, SkipBlank; }
    }
  }

  /** Without a name, with a space or without. */
  lemma NoNameNeeded()
    ensures InLanguage(FN + CALL) && InLanguage(Named([]))
  {
    UsualAccepted(NoAccessor, NoName, []);
    NoParams();
    assert Head(CALL) == 40 && [] + CALL == CALL;
    hide InLanguage, Named, ItemsThen;
    AfterFunction(CALL);
    UnitStops(40, [41] + NATIVE_BODY);
    assert CALL == [40] + ([41] + NATIVE_BODY);
    NameAbsent(CALL);
    FrontRead(CALL);
    AcceptsExactlyTheLanguage(FN + ([32] + CALL));
    NamedText([]);
  }

  lemma NamedText(w: Text)
    ensures Named(w) == FN + ([32] + (w + CALL))
  {
  }

  // ----- an accessor

  /** Two names in a row are accepted exactly when the first is `get` or `set`. */
  lemma AccessorIsGetOrSet(a: Text, w: Text)
    requires IsName(a) && IsName(w)
    ensures InLanguage(FN + ([32] + (a + ([32] + (w + CALL))))) <==> a == [103, 101, 116] || a == [115, 101, 116]
  {
    var t := [32] + (w + CALL);
    NamesAreWords(a);
    NamesAreWords(w);
    BlankBefore(32, w + CALL);
    BlankBefore(32, a + t);
    if a == [103, 101, 116] || a == [115, 101, 116] {
      NoParams();
      UsualAccepted(Accessor([Space(32)], a), Identifier([Space(32)], w), []);
    } else {
      AfterFunction([32] + (a + t));
      NoAccessorHere(a, w, t);
    }
  }

  lemma NoAccessorHere(a: Text, w: Text, t: Text)
    requires WordOk(a) && a != GET && a != SET && WordOk(w) && t == [32] + (w + CALL)
    ensures EatName(EatAccessor([32] + (a + t))) == Some(t) && !AcceptsParams(t)
  {
    var s, r := [32] + (a + t), a + t;
    WordReads(a, t);
    NameStands(a, t);
    SpaceBefore(r);
    assert r[|a|..] == t;
    assert EatAccessor(s) == r && EatName(r) == Some(t) by { hide Word, SkipBlank; }
    NameStands(w, CALL);
    SpaceBefore(w + CALL);
    assert !AcceptsParams(t) by { hide Word, SkipBlank, Stumble; }
  }

  lemma NameStands(w: Text, rest: Text)
    requires WordOk(w)
    ensures SkipBlank(w + rest) == Skipped(w + rest, false) && Head(w + rest) == w[0] && w[0] != 40
  {
    CodeUnits(w[0]);
    assert w + rest == [w[0]] + (w[1..] + rest);
    UnitStops(w[0], w[1..] + rest);
  }

  // ----- comments before the name

  /** `/*`, any text without an end of comment, and `*/` separate like a space. */
  lemma BlockCommentBefore(c: Text, w: Text)
    requires IsName(w) && forall i | 0 <= i < |c| - 1 :: !(c[i] == 42 && c[i + 1] == 47)
    ensures InLanguage(FN + ([47, 42] + (c + ([42, 47] + (w + CALL)))))
  {
    BlockCommentText(c, w + CALL);
    assert NoBlockEnd(c);
    NameAfter([BlockComment(c)], w);
  }

  lemma BlockCommentText(c: Text, rest: Text)
    ensures BlankThen([BlockComment(c)], rest) == [47, 42] + (c + ([42, 47] + rest))
  {
    var b := [BlockComment(c)];
    assert BlankThen(b, rest) == RenderTrivia(b[0]) + BlankThen(b[1..], rest);
    assert BlankThen(b[1..], rest) == rest;
    assert ([47, 42] + c + [42, 47]) + rest == [47, 42] + (c + ([42, 47] + rest));
  }

  /** A line comment lasts up to one of the four line terminators, and to the end without one. */
  lemma LineCommentBefore(c: Text, n: nat, w: Text)
    requires IsName(w) && forall i | 0 <= i < |c| :: c[i] !in {10, 13, 8232, 8233}
    ensures InLanguage(FN + ([47, 47] + (c + ([n] + (w + CALL))))) <==> n in {10, 13, 8232, 8233}
  {
    CodeUnits(n);
    forall i | 0 <= i < |c| ensures !IsNl(c[i]) { CodeUnits(c[i]); }
    if n in {10, 13, 8232, 8233} {
      LineCommentText(c, n, w + CALL);
      NameAfter([LineComment(c, n)], w);
    } else {
      var s := [47, 47] + (c + ([n] + (w + CALL)));
      NoLineEnd(c, n, w);
      hide InLanguage, SkipBlank, IsName;
      AfterFunction(s);
      AllSkipped(s);
      Refused([]);
    }
  }

  lemma LineCommentText(c: Text, n: nat, rest: Text)
    ensures BlankThen([LineComment(c, n)], rest) == [47, 47] + (c + ([n] + rest))
  {
    var b := [LineComment(c, n)];
    assert BlankThen(b, rest) == RenderTrivia(b[0]) + BlankThen(b[1..], rest);
    assert BlankThen(b[1..], rest) == rest;
    assert ([47, 47] + c + [n]) + rest == [47, 47] + (c + ([n] + rest));
  }

  lemma NoLineEnd(c: Text, n: nat, w: Text)
    requires IsName(w) && NoNewline(c) && !IsNl(n)
    ensures SkipBlank([47, 47] + (c + ([n] + (w + CALL)))) == Skipped([], false)
  {
    var s := [47, 47] + (c + ([n] + (w + CALL)));
    assert NoNewline(s) by {
      forall i | 0 <= i < |s| ensures !IsNl(s[i]) {
        if 2 <= i < 2 + |c| { assert s[i] == c[i - 2]; }
        if |c| + 3 <= i < |c| + 3 + |w| { assert s[i] == w[i - |c| - 3]; CodeUnits(s[i]); }
        if |c| + 3 + |w| <= i { assert s[i] == CALL[i - |c| - 3 - |w|]; }
      }
    }
    AfterLineToEnd(s);
    assert s[0] == SLASH && Head(s[1..]) == SLASH;
  }

  lemma AllSkipped(s: Text)
    requires SkipBlank(s) == Skipped([], false)
    ensures EatName(EatAccessor(s)) == Some([])
  {
    AccessorAbsent(s);
    Refused([]);
  }

  // ----- parameters and computed names

  function UnitItems(s: Text): Items {
    if s == [] then [] else [UnitItem(s[0])] + UnitItems(s[1..])
  }

  lemma {:induction false} UnitItemsText(s: Text, rest: Text)
    ensures ItemsThen(UnitItems(s), rest) == s + rest
    decreases |s|
  {
    if s == [] {
      assert s + rest == rest;
    } else {
      UnitItemsText(s[1..], rest);
      var xs := UnitItems(s);
      assert xs[1..] == UnitItems(s[1..]);
      assert s + rest == [s[0]] + (s[1..] + rest);
    }
  }

  lemma {:induction false} UnitItemsOk(s: Text)
    requires Simple(s)
    ensures forall i | 0 <= i < |UnitItems(s)| :: ItemOk(UnitItems(s)[i]) && UnitItems(s)[i] != Plain(SLASH)
    ensures ItemsOk(UnitItems(s))
    decreases |s|
  {
    if s != [] {
      UnitItemsOk(s[1..]);
      UnitItemMeans(s[0], [], RPAREN);
    }
  }

  lemma {:induction false} UnitItemsStay(s: Text, closer: nat, depth: int)
    requires IsCloser(closer) && Simple(s) && StaysOpen(s, OpenerOf(closer), closer, depth)
    requires depth + Net(s, OpenerOf(closer), closer) == 1
    ensures Stays(UnitItems(s), OpenerOf(closer), closer, depth)
    decreases |s|
  {
    if s != [] {
      UnitItemMeans(s[0], [], closer);
      UnitItemsStay(s[1..], closer, depth + Turn(s[0], OpenerOf(closer), closer));
      var xs := UnitItems(s);
      assert xs[1..] == UnitItems(s[1..]);
      hide OpenerOf, Stays;
      StaysTail(xs, OpenerOf(closer), closer, depth);
    }
  }

  /** Every bracket is closed, none before it is opened. */
  predicate Closed(s: Text, opener: nat, closer: nat) {
    StaysOpen(s, opener, closer, 1) && Net(s, opener, closer) == 0
  }

  lemma ClosedItems(s: Text, closer: nat)
    requires IsCloser(closer) && Simple(s) && Closed(s, OpenerOf(closer), closer)
    ensures ItemsOk(UnitItems(s)) && Balanced(UnitItems(s), OpenerOf(closer), closer)
  {
    UnitItemsOk(s);
    UnitItemsStay(s, closer, 1);
    StaysFromOne(UnitItems(s), OpenerOf(closer), closer);
  }

  /** `function`, a name, and simple text as the parameters. */
  function WithParams(w: Text, s: Text): Text {
    FN + ([32] + (w + ([40] + (s + ([41] + NATIVE_BODY)))))
  }

  lemma ClosedParams(w: Text, s: Text)
    requires IsName(w) && Simple(s) && Closed(s, 40, 41)
    ensures InLanguage(WithParams(w, s))
  {
    var rest := [40] + (s + ([41] + NATIVE_BODY));
    NamesAreWords(w);
    ClosedItems(s, RPAREN);
    UnitItemsText(s, [41] + NATIVE_BODY);
    BlankBefore(32, w + rest);
    hide Simple, Closed, WordOk, BlankOk, BlankThen, UnitItems;
    UsualAccepted(NoAccessor, Identifier([Space(32)], w), UnitItems(s));
  }

  /** A computed name of simple text. */
  lemma ComputedName(s: Text)
    requires Simple(s) && Closed(s, 91, 93)
    ensures InLanguage(FN + ([32] + ([91] + (s + ([93] + CALL)))))
  {
    ClosedItems(s, RBRACKET);
    UnitItemsText(s, [93] + CALL);
    BlankBefore(32, [91] + (s + ([93] + CALL)));
    NoParams();
    hide Simple, Closed, BlankThen, UnitItems;
    UsualAccepted(NoAccessor, Computed([Space(32)], UnitItems(s)), []);
  }

  // ----- parameters that are not closed, or closed early

  /** The last `|t|` units of a text. */
  predicate EndsWith(s: Text, t: Text) {
    |t| <= |s| && s[|s| - |t|..] == t
  }

  lemma {:induction false} OpenThen(s: Text, t: Text, opener: nat, closer: nat, depth: int)
    requires StaysOpen(s, opener, closer, depth) && StaysOpen(t, opener, closer, depth + Net(s, opener, closer))
    ensures StaysOpen(s + t, opener, closer, depth)
    decreases |s|
  {
    if s == [] {
      assert s + t == t;
    } else {
      OpenThen(s[1..], t, opener, closer, depth + Turn(s[0], opener, closer));
      assert (s + t)[1..] == s[1..] + t;
    }
  }

  lemma {:induction false} NetOfOpen(s: Text, opener: nat, closer: nat, depth: int)
    requires StaysOpen(s, opener, closer, depth)
    ensures depth + Net(s, opener, closer) >= 1
    decreases |s|
  {
    if s != [] { NetOfOpen(s[1..], opener, closer, depth + Turn(s[0], opener, closer)); }
  }

  /** When the last bracket is closed inside `s`, what is left ends with all that follows `s`. */
  lemma {:induction false} ClosedEarly(s: Text, t: Text, closer: nat, depth: nat)
    requires IsCloser(closer) && Simple(s) && depth >= 1 && !StaysOpen(s, OpenerOf(closer), closer, depth)
    ensures Stumble(s + t, closer, depth).Some? && EndsWith(Stumble(s + t, closer, depth).value, t)
    ensures Simple(t) ==> Simple(Stumble(s + t, closer, depth).value)
    decreases |s|
  {
    var inner := depth + Turn(s[0], OpenerOf(closer), closer);
    UnitItemMeans(s[0], s[1..], closer);
    var rest := s[1..] + t;
    assert s + t == [s[0]] + rest;
    if inner == 0 {
      CodeUnits(s[0]);
      PlainStep(s[0], rest, closer, depth);
    } else {
      ClosedEarly(s[1..], t, closer, inner);
      hide Stumble, ItemOk, RenderItem, Opens, OpenerOf, UnitItem;
      StumbleStep(UnitItem(s[0]), rest, closer, depth, inner);
    }
  }

  /** In simple text the skipping passes over blanks only. */
  lemma {:induction false} SkipKeeps(s: Text, u: nat)
    requires Simple(s) && u in s && !IsBlank(u)
    ensures Simple(SkipBlank(s).rest) && u in SkipBlank(s).rest
    decreases |s|
  {
    CodeUnits(s[0]);
    if IsWs(s[0]) || IsNl(s[0]) {
      assert s == [s[0]] + s[1..];
      SkipKeeps(s[1..], u);
    }
  }

  lemma PunctKeeps(s: Text, c: nat, u: nat)
    requires Simple(s) && u in s && !IsBlank(u) && EatPunct(s, c).ok && c != u
    ensures Simple(EatPunct(s, c).rest) && u in EatPunct(s, c).rest
  {
    SkipKeeps(s, u);
    var r := SkipBlank(s).rest;
    hide SkipBlank;
    assert r == [r[0]] + r[1..];
  }

  lemma WordKeeps(s: Text, w: Text, u: nat)
    requires Simple(s) && u in s && !IsBlank(u) && NativeFunctionReading.EatWord(s, w).ok && u !in w
    ensures Simple(NativeFunctionReading.EatWord(s, w).rest) && u in NativeFunctionReading.EatWord(s, w).rest
  {
    SkipKeeps(s, u);
    var r := SkipBlank(s).rest;
    assert w <= r;
    hide SkipBlank, Word, Simple;
    DropKeeps(r, |w|, u);
  }

  lemma DropKeeps(r: Text, k: nat, u: nat)
    requires k <= |r| && Simple(r) && u in r && u !in r[..k]
    ensures Simple(r[k..]) && u in r[k..]
  {
    assert r == r[..k] + r[k..];
  }

  lemma EndHasNoParen(s: Text)
    requires Simple(s) && 41 in s
    ensures !AcceptsEnd(s)
  {
    var e := EatPunct(s, RBRACKET);
    if e.ok {
      PunctKeeps(s, RBRACKET, 41);
      var f := EatPunct(e.rest, RBRACE);
      if f.ok {
        PunctKeeps(e.rest, RBRACE, 41);
        SkipKeeps(f.rest, 41);
      }
    }
    hide EatPunct, SkipBlank, Simple;
  }

  lemma CodeHasNoParen(s: Text)
    requires Simple(s) && 41 in s
    ensures !AcceptsCode(s)
  {
    var c := NativeFunctionReading.EatWord(s, NATIVE);
    if c.ok {
      WordKeeps(s, NATIVE, 41);
      var d := NativeFunctionReading.EatWord(c.rest, CODE);
      if d.ok {
        WordKeeps(c.rest, CODE, 41);
        EndHasNoParen(d.rest);
      }
    }
    hide NativeFunctionReading.EatWord, AcceptsEnd, Simple;
  }

  /** No simple text with a parenthesis in it is a function body. */
  lemma BodyHasNoParen(s: Text)
    requires Simple(s) && 41 in s
    ensures !AcceptsBody(s)
  {
    var a := EatPunct(s, LBRACE);
    if a.ok {
      PunctKeeps(s, LBRACE, 41);
      var b := EatPunct(a.rest, LBRACKET);
      if b.ok {
        PunctKeeps(a.rest, LBRACKET, 41);
        CodeHasNoParen(b.rest);
      }
    }
    hide EatPunct, AcceptsCode, Simple;
  }

  /** The parameters after a name, read alone. */
  lemma ParamsAlone(w: Text, t: Text)
    requires IsName(w)
    ensures InLanguage(FN + ([32] + (w + ([40] + t)))) <==>
            var p := Stumble(t, RPAREN, 1); p.Some? && AcceptsBody(p.value)
  {
    var p := [40] + t;
    NamesAreWords(w);
    NameStands(w, p);
    SpaceBefore(w + p);
    WordReads(w, p);
    UnitStops(40, t);
    assert (w + p)[|w|..] == p;
    AfterFunction([32] + (w + p));
    NameAbsent(p);
    AfterWord([32] + (w + p), w + p, p);
    PunctEaten([], LPAREN, t);
    hide EatPunct, Stumble, AcceptsBody, InLanguage, EatName, EatAccessor, SkipBlank;
    assert TokenThen([], [LPAREN], t) == p;
  }

  /** Simple text in place of the parameters is accepted exactly when its parentheses are closed. */
  lemma ParamsAreClosed(w: Text, s: Text)
    requires IsName(w) && Simple(s)
    ensures InLanguage(WithParams(w, s)) <==> Closed(s, 40, 41)
  {
    var end := [41] + NATIVE_BODY;
    assert Simple(end) && 41 in end;
    if Closed(s, 40, 41) {
      ClosedParams(w, s);
    } else {
      ParamsAlone(w, s + end);
      if StaysOpen(s, 40, 41, 1) {
        NetOfOpen(s, 40, 41, 1);
        BodyStaysOpen(1 + Net(s, 40, 41));
        OpenThen(s, end, 40, 41, 1);
        assert Simple(s + end);
        LeftOpen(s + end, RPAREN, 1);
      } else {
        ClosedEarly(s, end, RPAREN, 1);
        var rest := Stumble(s + end, RPAREN, 1).value;
        EndHas(rest, end, 41);
        BodyHasNoParen(rest);
      }
    }
  }

  lemma EndHas(s: Text, t: Text, u: nat)
    requires EndsWith(s, t) && u in t
    ensures u in s
  {
    assert s == s[..|s| - |t|] + t;
  }

  lemma BodyStaysOpen(depth: int)
    requires depth >= 2
    ensures StaysOpen([41] + NATIVE_BODY, 40, 41, depth)
  {
    var body := NATIVE_BODY;
    assert StaysOpen([], 40, 41, depth - 1);
    OpenRun(body, [], 40, 41, depth - 1);
    assert body + [] == body;
    OpenTurn(41, body, 40, 41, depth);
  }

  // ----- the validator on these texts

  /** `function w() { [native code] }` for a word `w`, such as `atan2`. */
  method ValidateNamed(w: Text) returns (ok: bool)
    requires OneWord(w)
    ensures ok <==> IsName(w)
  {
    NameIsWord(w);
    ok := ValidateNativeFunctionSource(Named(w));
  }

  /** `function w(s) { [native code] }` for simple text `s`. */
  method ValidateParams(w: Text, s: Text) returns (ok: bool)
    requires IsName(w) && Simple(s)
    ensures ok <==> Closed(s, 40, 41)
  {
    ParamsAreClosed(w, s);
    ok := ValidateNativeFunctionSource(WithParams(w, s));
  }
}
