/**
 The harness's NativeFunction matcher: a cursor with a sticky error flag.  Each
 method is specified by what it reads of the text at the cursor.
 */
module NativeFunctionScan {
  import opened NativeFunctionGrammar
  import opened NativeFunctionReading
  import opened NativeFunctionProofs
  import opened Options
  import opened Texts

  /** `charCodeAt`, with -1 for NaN. */
  function CharCodeAt(src: Text, i: nat): int {
    if i < |src| then src[i] else -1
  }

  lemma CharIsHead(src: Text, i: nat)
    ensures CharCodeAt(src, i) == Head(From(src, i))
  {
  }

  // ----- one step of each scan, in terms of cursor positions

  lemma SpaceStep(src: Text, i: nat)
    requires i < |src| && (IsWs(CharCodeAt(src, i)) || IsNl(CharCodeAt(src, i)))
    ensures SkipBlank(From(src, i)) == SkipBlank(From(src, i + 1))
    ensures !Stuck(From(src, i))
  {
    FromDrop(src, i, 1);
  }

  lemma InLineStep(src: Text, k: nat)
    requires k < |src| && !IsNl(CharCodeAt(src, k))
    ensures AfterLine(From(src, k)) == AfterLine(From(src, k + 1))
  {
    FromDrop(src, k, 1);
  }

  lemma LineStep(src: Text, i: nat, k: nat)
    requires CharCodeAt(src, i) == SLASH && CharCodeAt(src, i + 1) == SLASH
    requires AfterLine(From(src, i)) == AfterLine(From(src, k))
    requires k < |src| ==> IsNl(CharCodeAt(src, k))
    ensures SkipBlank(From(src, i)) == SkipBlank(From(src, k))
    ensures !Stuck(From(src, i))
  {
    FromDrop(src, i, 1);
    FromEnd(src, k);
  }

  lemma InBlockStep(src: Text, j: nat)
    requires j + 1 < |src|
    ensures AfterBlock(From(src, j)) ==
            if CharCodeAt(src, j) == STAR && CharCodeAt(src, j + 1) == SLASH then Some(From(src, j + 2))
            else AfterBlock(From(src, j + 1))
  {
    FromDrop(src, j, 1);
    FromDrop(src, j, 2);
  }

  lemma BlockUnclosed(src: Text, j: nat)
    requires |src| <= j + 1
    ensures AfterBlock(From(src, j)).None?
  {
  }

  lemma BlockStep(src: Text, i: nat)
    requires CharCodeAt(src, i) == SLASH && CharCodeAt(src, i + 1) == STAR
    ensures i + 1 < |src|
    ensures var after := AfterBlock(From(src, i + 2));
            SkipBlank(From(src, i)) == if after.None? then Skipped(From(src, i), true) else SkipBlank(after.value)
    ensures Stuck(From(src, i)) <==> AfterBlock(From(src, i + 2)).None?
  {
    FromDrop(src, i, 1);
    FromDrop(src, i, 2);
  }

  lemma BlankStops(src: Text, i: nat)
    requires var c := CharCodeAt(src, i); !IsWs(c) && !IsNl(c)
    requires CharCodeAt(src, i) == SLASH ==> CharCodeAt(src, i + 1) != SLASH && CharCodeAt(src, i + 1) != STAR
    ensures SkipBlank(From(src, i)) == Skipped(From(src, i), false)
    ensures !Stuck(From(src, i))
  {
    if i < |src| { FromDrop(src, i, 1); }
  }

  /** The loop of `peekIdentifier` stops at the end of the identifier that starts at `start`. */
  lemma {:induction false} ContinuationEnds(src: Text, start: nat, end: nat)
    requires start <= end <= |src|
    requires forall k | start <= k < end :: IsIdCont(src[k])
    requires end < |src| ==> !IsIdCont(src[end])
    ensures Continuation(src[start..]) == src[start..end]
    decreases end - start
  {
    if start < end {
      ContinuationEnds(src, start + 1, end);
      assert src[start..][1..] == src[start + 1..];
    }
  }

  lemma WordEnds(src: Text, start: nat, end: nat)
    requires start < end <= |src| && IsIdStart(src[start])
    requires forall k | start < k < end :: IsIdCont(src[k])
    requires end < |src| ==> !IsIdCont(src[end])
    ensures Word(From(src, start)) == src[start..end]
  {
    ContinuationEnds(src, start + 1, end);
    assert src[start..][1..] == src[start + 1..];
  }

  lemma InStringStep(src: Text, q: nat, i: nat)
    requires 0 < i < |src|
    ensures StringEnd(q, src[i - 1], From(src, i)) ==
            if src[i] == q && src[i - 1] != BACKSLASH then Some(From(src, i))
            else if IsNl(src[i]) then None
            else StringEnd(q, src[i], From(src, i + 1))
  {
    FromDrop(src, i, 1);
  }

  lemma StringStart(src: Text, i: nat)
    requires IsQuote(CharCodeAt(src, i))
    ensures i < |src|
    ensures SkipString(From(src, i)) == StringEnd(src[i], src[i], From(src, i + 1))
  {
    FromDrop(src, i, 1);
  }

  lemma StringUnclosed(src: Text, q: nat, previous: nat, i: nat)
    requires i >= |src|
    ensures StringEnd(q, previous, From(src, i)).None?
  {
  }

  /** One round of `stumbleUntil` after its white space and string literal, which end at `i`. */
  lemma StumbleRound(s: Text, src: Text, i: nat, closer: nat, depth: nat)
    requires depth > 0 && i <= |src|
    requires !SkipBlank(s).bad && SkipString(SkipBlank(s).rest) == Some(From(src, i))
    ensures i == |src| ==> Stumble(s, closer, depth).None?
    ensures i < |src| ==>
      var cur := CharCodeAt(src, i);
      var inner := if cur == OpenerOf(closer) then depth + 1 else if cur == closer then depth - 1 else depth;
      Stumble(s, closer, depth) ==
      if inner == 0 then Some(From(src, i + 1)) else Stumble(From(src, i + 1), closer, inner)
  {
    if i < |src| { FromDrop(src, i, 1); }
  }

  lemma StumbleFails(s: Text, closer: nat, depth: nat)
    requires depth > 0
    requires SkipBlank(s).bad || SkipString(SkipBlank(s).rest).None?
    ensures Stumble(s, closer, depth).None?
  {
  }

  lemma StumbleAtEnd(src: Text, closer: nat, depth: nat)
    requires depth > 0
    ensures Stumble(From(src, |src|), closer, depth).None?
  {
  }

  lemma StuckIsNoLiteral(s: Text)
    requires Stuck(s)
    ensures s != [] && Head(s) == SLASH && SkipString(s) == Some(s)
  {
  }

  class Scan {
    const src: Text
    var pos: nat
    var bad: bool

    constructor (src: Text)
      ensures this.src == src && pos == 0 && !bad
      ensures Valid() && Rest() == src
    {
      this.src := src;
      pos, bad := 0, false;
    }

    /** The text at the cursor. */
    ghost function Rest(): Text
      reads this
    {
      From(src, pos)
    }

    /** The error flag is up only at a block comment that nothing closes. */
    ghost predicate Valid()
      reads this
    {
      bad ==> Stuck(Rest())
    }

    /** The part of `eatWhitespace` that passes over a line comment. */
    method EatLineComment()
      requires CharCodeAt(src, pos) == SLASH && CharCodeAt(src, pos + 1) == SLASH
      modifies this`pos
      ensures old(pos) < pos <= |src|
      ensures SkipBlank(Rest()) == SkipBlank(old(Rest()))
    {
      assert !IsNl(CharCodeAt(src, pos)) && pos < |src|;
      hide SkipBlank, AfterLine, Stuck, From;
      while pos < |src| && !IsNl(CharCodeAt(src, pos))
        invariant old(pos) <= pos <= |src|
        invariant AfterLine(Rest()) == AfterLine(old(Rest()))
        decreases |src| - pos
      {
        InLineStep(src, pos);
        pos := pos + 1;
      }
      LineStep(src, old(pos), pos);
    }

    /** The part of `eatWhitespace` that passes over a block comment, or finds it unclosed. */
    method EatBlockComment() returns (closed: bool)
      requires CharCodeAt(src, pos) == SLASH && CharCodeAt(src, pos + 1) == STAR
      modifies this
      ensures closed ==> old(pos) < pos <= |src| && bad == old(bad)
      ensures closed ==> SkipBlank(Rest()) == SkipBlank(old(Rest())) && !Stuck(old(Rest()))
      ensures !closed ==> pos == old(pos) && bad && Stuck(Rest())
      ensures !closed ==> SkipBlank(Rest()) == Skipped(Rest(), true)
    {
      hide SkipBlank, AfterBlock, Stuck, From, Head;
      BlockStep(src, pos);
      var j := pos + 2;
      closed := false;
      while j + 1 < |src|
        invariant pos == old(pos) && bad == old(bad)
        invariant pos + 2 <= j <= |src| && !closed
        invariant AfterBlock(From(src, j)) == AfterBlock(From(src, pos + 2))
        decreases |src| - j
      {
        InBlockStep(src, j);
        if CharCodeAt(src, j) == STAR && CharCodeAt(src, j + 1) == SLASH {
          closed := true;
          break;
        }
        j := j + 1;
      }
      if !closed {
        BlockUnclosed(src, j);
        bad := true;
        return;
      }
      pos := j + 2;
    }

    method EatWhitespace()
      requires Valid()
      modifies this
      ensures Valid() && Rest() == SkipBlank(old(Rest())).rest
      ensures bad == SkipBlank(old(Rest())).bad
      ensures old(pos) <= pos && (old(pos) <= |src| ==> pos <= |src|)
    {
      hide SkipBlank, Stuck, From;
      while pos < |src|
        invariant old(pos) <= pos && (old(pos) <= |src| ==> pos <= |src|)
        invariant SkipBlank(Rest()) == SkipBlank(old(Rest()))
        invariant bad ==> Stuck(Rest())
        decreases |src| - pos
      {
        var c := CharCodeAt(src, pos);
        if IsWs(c) || IsNl(c) {
          SpaceStep(src, pos);
          pos := pos + 1;
          continue;
        }
        if c == SLASH && CharCodeAt(src, pos + 1) == SLASH {
          if bad { LineStuck(src, pos); }
          EatLineComment();
          continue;
        }
        if c == SLASH && CharCodeAt(src, pos + 1) == STAR {
          var closed := EatBlockComment();
          if !closed { return; }
          continue;
        }
        break;
      }
      if pos >= |src| { FromEnd(src, pos); }
      BlankStops(src, pos);
    }

    /** The identifier after white space, not consumed; empty when there is none. */
    method PeekIdentifier() returns (name: Text)
      requires Valid()
      modifies this
      ensures Valid() && Rest() == SkipBlank(old(Rest())).rest
      ensures bad == SkipBlank(old(Rest())).bad
      ensures name == Word(Rest())
      ensures old(pos) <= pos && (old(pos) <= |src| ==> pos <= |src|)
    {
      EatWhitespace();
      var start := pos;
      var end := pos;
      if !IsIdStart(CharCodeAt(src, end)) { return []; }
      hide SkipBlank, Stuck, Word;
      end := end + 1;
      while end < |src| && IsIdCont(CharCodeAt(src, end))
        invariant start < end <= |src|
        invariant forall k | start < k < end :: IsIdCont(src[k])
        decreases |src| - end
      {
        end := end + 1;
      }
      WordEnds(src, start, end);
      return src[start..end];
    }

    method EatIdentifier() returns (ok: bool)
      requires Valid()
      modifies this
      ensures Valid()
      ensures var e := NativeFunctionReading.EatIdentifier(old(Rest())); ok == e.ok && Rest() == e.rest
      ensures old(pos) <= pos && (old(pos) <= |src| ==> pos <= |src|)
    {
      hide SkipBlank, Stuck, Word, From;
      var n := PeekIdentifier();
      if n == [] { return false; }
      if bad { StuckIsNoLiteral(Rest()); }
      FromDrop(src, pos, |n|);
      pos := pos + |n|;
      return true;
    }

    method EatWord(w: Text) returns (ok: bool)
      requires Valid() && w != []
      modifies this
      ensures Valid()
      ensures var e := NativeFunctionReading.EatWord(old(Rest()), w); ok == e.ok && Rest() == e.rest
      ensures old(pos) <= pos && (old(pos) <= |src| ==> pos <= |src|)
    {
      hide SkipBlank, Stuck, Word, From;
      var n := PeekIdentifier();
      if n == w {
        if bad { StuckIsNoLiteral(Rest()); }
        FromDrop(src, pos, |w|);
        pos := pos + |w|;
        return true;
      }
      return false;
    }

    method EatPunct(c: nat) returns (ok: bool)
      requires Valid() && c != SLASH
      modifies this
      ensures Valid() && (ok ==> !bad)
      ensures var e := NativeFunctionReading.EatPunct(old(Rest()), c); ok == e.ok && Rest() == e.rest
      ensures old(pos) <= pos && (old(pos) <= |src| ==> pos <= |src|)
      ensures ok ==> pos <= |src|
    {
      hide SkipBlank, Stuck, From;
      EatWhitespace();
      CharIsHead(src, pos);
      if CharCodeAt(src, pos) == c {
        if bad { StuckIsNoLiteral(Rest()); }
        FromEnd(src, pos);
        FromDrop(src, pos, 1);
        pos := pos + 1;
        return true;
      }
      return false;
    }

    /** Leaves the cursor on the closing quote. */
    method EatStringLiteral()
      requires Valid() && pos <= |src|
      modifies this
      ensures bad <==> old(bad) || SkipString(old(Rest())).None?
      ensures !bad ==> Rest() == SkipString(old(Rest())).value
      ensures old(pos) <= pos <= |src|
    {
      CharIsHead(src, pos);
      var q := CharCodeAt(src, pos);
      if q != 39 && q != 34 { return; }
      if bad { StuckIsNoLiteral(Rest()); }
      StringStart(src, pos);
      hide StringEnd, SkipString, Stuck, From;
      pos := pos + 1;
      EatToQuote(q);
    }

    /** The loop of `eatStringLiteral`. */
    method EatToQuote(q: nat)
      requires !bad && 0 < pos <= |src|
      modifies this
      ensures bad <==> StringEnd(q, src[old(pos) - 1], old(Rest())).None?
      ensures !bad ==> Rest() == StringEnd(q, src[old(pos) - 1], old(Rest())).value
      ensures old(pos) <= pos <= |src|
    {
      hide StringEnd, Stuck, From, Head;
      while pos < |src|
        invariant old(pos) <= pos <= |src| && !bad
        invariant StringEnd(q, src[pos - 1], Rest()) == StringEnd(q, src[old(pos) - 1], old(Rest()))
        decreases |src| - pos
      {
        InStringStep(src, q, pos);
        if CharCodeAt(src, pos) == q && CharCodeAt(src, pos - 1) != BACKSLASH { return; }
        if IsNl(CharCodeAt(src, pos)) {
          bad := true;
          return;
        }
        pos := pos + 1;
      }
      StringUnclosed(src, q, src[pos - 1], pos);
      bad := true;
    }

    /**
     Advances past the closer that balances the bracket already consumed.  Only an
     unsuccessful call can leave the cursor past the end, and then by one.
     */
    method StumbleUntil(closer: nat) returns (ok: bool)
      requires !bad && pos <= |src| && IsCloser(closer)
      modifies this
      ensures ok <==> Stumble(old(Rest()), closer, 1).Some?
      ensures ok ==> !bad && pos <= |src| && Rest() == Stumble(old(Rest()), closer, 1).value
      ensures ok ==> pos > old(pos) && src[pos - 1] == closer
      ensures old(pos) <= pos <= |src| + 1
    {
      hide SkipBlank, SkipString, Stumble, Stuck, From;
      var opener := if closer == RBRACKET then LBRACKET else LPAREN;
      var nesting: nat := 1;
      while pos < |src|
        invariant old(pos) <= pos <= |src| + 1 && !bad && nesting >= 1
        invariant pos <= |src| ==> Stumble(Rest(), closer, nesting) == Stumble(old(Rest()), closer, 1)
        invariant pos > |src| ==> Stumble(old(Rest()), closer, 1).None?
        decreases |src| + 1 - pos
      {
        ghost var here := Rest();
        EatWhitespace();
        EatStringLiteral();
        if bad {
          StumbleFails(here, closer, nesting);
          return false;
        }
        StumbleRound(here, src, pos, closer, nesting);
        var cur := CharCodeAt(src, pos);
        if cur == opener {
          nesting := nesting + 1;
        } else if cur == closer {
          nesting := nesting - 1;
        }
        pos := pos + 1;
        if nesting == 0 { return true; }
      }
      if pos == |src| { StumbleAtEnd(src, closer, nesting); }
      return false;
    }
  }

  lemma LineStuck(src: Text, i: nat)
    requires CharCodeAt(src, i + 1) == SLASH
    ensures !Stuck(From(src, i))
  {
    if i + 1 < |src| { assert From(src, i)[1] == src[i + 1]; }
  }

  /** `__t262_validateNativeFunctionSource` accepts exactly the NativeFunction language. */
  method ValidateNativeFunctionSource(source: Text) returns (ok: bool)
    ensures ok <==> InLanguage(source)
  {
    AcceptsExactlyTheLanguage(source);
    ok := RunScan(source);
  }

  /** The driver: every step must succeed, except the optional accessor and name. */
  method RunScan(source: Text) returns (ok: bool)
    ensures ok <==> Accepts(source)
  {
    hide SkipBlank, Stumble, Stuck, Word, From, NativeFunctionReading.EatWord,
      NativeFunctionReading.EatIdentifier, NativeFunctionReading.EatPunct;
    var s := new Scan(source);
    var eaten := s.EatWord(FUNCTION);
    if !eaten { return false; }
    eaten := s.EatWord(GET);
    if !eaten { var _ := s.EatWord(SET); }
    eaten := s.EatIdentifier();
    if !eaten {
      eaten := s.EatPunct(LBRACKET);
      if eaten {
        eaten := s.StumbleUntil(RBRACKET);
        if !eaten { return false; }
      }
    }
    eaten := s.EatPunct(LPAREN);
    if !eaten { return false; }
    eaten := s.StumbleUntil(RPAREN);
    if !eaten { return false; }
    eaten := s.EatPunct(LBRACE);
    if !eaten { return false; }
    eaten := s.EatPunct(LBRACKET);
    if !eaten { return false; }
    eaten := s.EatWord(NATIVE);
    if !eaten { return false; }
    eaten := s.EatWord(CODE);
    if !eaten { return false; }
    eaten := s.EatPunct(RBRACKET);
    if !eaten { return false; }
    eaten := s.EatPunct(RBRACE);
    if !eaten { return false; }
    s.EatWhitespace();
    FromEnd(source, s.pos);
    if s.bad {
      StuckIsNoLiteral(s.Rest());
      return false;
    }
    return s.pos == |s.src|;
  }
}
