/**
 `Array.prototype.sort` on the property names of one object: distinct strings in
 lexicographic order of their units.
 */
module SortedKeys {

  predicate Before(a: string, b: string) {
    if b == [] then false
    else if a == [] then true
    else if a[0] != b[0] then a[0] < b[0]
    else Before(a[1..], b[1..])
  }

  /** The first position at which two strings differ decides; a prefix comes first. */
  lemma {:induction false} BeforeMeans(a: string, b: string)
    ensures Before(a, b) <==> a < b || exists i :: FirstDifference(a, b, i) && a[i] < b[i]
  {
    if a != [] && b != [] && a[0] == b[0] {
      BeforeMeans(a[1..], b[1..]);
      assert a == [a[0]] + a[1..] && b == [b[0]] + b[1..];
      forall i | 0 <= i < |a| && i < |b| && i > 0
        ensures FirstDifference(a, b, i) <==> FirstDifference(a[1..], b[1..], i - 1)
      {
        DifferenceInTail(a, b, i);
      }
      if exists i :: FirstDifference(a[1..], b[1..], i) && a[1..][i] < b[1..][i] {
        var i :| FirstDifference(a[1..], b[1..], i) && a[1..][i] < b[1..][i];
        assert FirstDifference(a, b, i + 1);
      }
    } else if a != [] && b != [] {
      assert FirstDifference(a, b, 0);
    }
  }

  ghost predicate FirstDifference(a: string, b: string, i: int) {
    0 <= i < |a| && i < |b| && a[i] != b[i] && forall j | 0 <= j < i :: a[j] == b[j]
  }

  lemma DifferenceInTail(a: string, b: string, i: int)
    requires 0 < i < |a| && i < |b| && a[0] == b[0]
    ensures FirstDifference(a, b, i) <==> FirstDifference(a[1..], b[1..], i - 1)
  {
    if FirstDifference(a[1..], b[1..], i - 1) {
      forall j | 0 <= j < i ensures a[j] == b[j] {
        if j > 0 { assert a[1..][j - 1] == b[1..][j - 1]; }
      }
    }
  }

  lemma {:induction false} BeforeTotal(a: string, b: string)
    ensures a == b || Before(a, b) || Before(b, a)
  {
    if a != [] && b != [] && a[0] == b[0] {
      BeforeTotal(a[1..], b[1..]);
      assert a == [a[0]] + a[1..] && b == [b[0]] + b[1..];
    }
  }

  lemma {:induction false} BeforeTransitive(a: string, b: string, c: string)
    requires Before(a, b) && Before(b, c)
    ensures Before(a, c)
  {
    if a != [] && a[0] == b[0] == c[0] { BeforeTransitive(a[1..], b[1..], c[1..]); }
  }

  lemma {:induction false} BeforeIrreflexive(a: string)
    ensures !Before(a, a)
  {
    if a != [] { BeforeIrreflexive(a[1..]); }
  }

  predicate Sorted(s: seq<string>) {
    forall i, j | 0 <= i < j < |s| :: Before(s[i], s[j])
  }

  function Insert(k: string, s: seq<string>): (r: seq<string>)
    requires Sorted(s) && k !in s
    ensures Sorted(r) && |r| == |s| + 1
    ensures forall x :: x in r <==> x == k || x in s
  {
    if s == [] then [k]
    else if Before(k, s[0]) then
      assert forall x | x in s[1..] :: Before(k, x) by {
        forall x | x in s[1..] ensures Before(k, x) { BeforeTransitive(k, s[0], x); }
      }
      [k] + s
    else
      assert Before(s[0], k) by { BeforeTotal(k, s[0]); }
      var rest := Insert(k, s[1..]);
      assert forall x | x in rest :: Before(s[0], x);
      [s[0]] + rest
  }

  predicate Distinct(s: seq<string>) {
    forall i, j | 0 <= i < j < |s| :: s[i] != s[j]
  }

  function Sort(s: seq<string>): (r: seq<string>)
    requires Distinct(s)
    ensures Sorted(r) && |r| == |s|
    ensures forall x :: x in r <==> x in s
  {
    if s == [] then []
    else
      assert s == [s[0]] + s[1..];
      Insert(s[0], Sort(s[1..]))
  }

  /** Sorting forgets the enumeration order: only the set of keys is left. */
  lemma {:induction false} SortedUnique(s: seq<string>, t: seq<string>)
    requires Sorted(s) && Sorted(t)
    requires forall x :: x in s <==> x in t
    ensures s == t
  {
    if s == [] || t == [] {
      EmptyMembers(s);
      EmptyMembers(t);
    } else {
      HeadsEqual(s, t);
      forall x ensures x in s[1..] <==> x in t[1..] {
        TailMembers(s, x);
        TailMembers(t, x);
      }
      SortedUnique(s[1..], t[1..]);
      assert s == [s[0]] + s[1..] && t == [t[0]] + t[1..];
    }
  }

  lemma EmptyMembers(s: seq<string>)
    ensures s == [] <==> forall x :: x !in s
  {
    if s != [] { assert s[0] in s; }
  }

  lemma HeadsEqual(s: seq<string>, t: seq<string>)
    requires s != [] && t != [] && Sorted(s) && Sorted(t)
    requires forall x :: x in s <==> x in t
    ensures s[0] == t[0]
  {
    assert s[0] in t && t[0] in s;
    if s[0] != t[0] {
      assert Before(t[0], s[0]) && Before(s[0], t[0]);
      BeforeTransitive(s[0], t[0], s[0]);
      BeforeIrreflexive(s[0]);
    }
  }

  lemma TailMembers(s: seq<string>, x: string)
    requires s != [] && Sorted(s)
    ensures x in s[1..] <==> x in s && x != s[0]
  {
    BeforeIrreflexive(x);
    assert s == [s[0]] + s[1..];
  }
}
