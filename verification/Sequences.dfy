/** Reversal, sequences without duplicates, and the lexicographic order. */
module Sequences {
  function Reversed<T>(s: seq<T>): seq<T>
  {
    if s == [] then [] else [s[|s| - 1]] + Reversed(s[..|s| - 1])
  }

  predicate Distinct<T(==)>(s: seq<T>)
  {
    forall i, j :: 0 <= i < j < |s| ==> s[i] != s[j]
  }

  lemma DistinctJoin<T>(s: seq<T>, t: seq<T>)
    requires Distinct(s) && Distinct(t) && forall x :: x in s ==> x !in t
    ensures Distinct(s + t)
  {
    forall i, j | 0 <= i < j < |s + t|
      ensures (s + t)[i] != (s + t)[j]
    {
      if i < |s| <= j {
        assert s[i] in s && t[j - |s|] in t;
      }
    }
  }

  /** The lexicographic order. */
  predicate Less(a: seq<int>, b: seq<int>) {
    b != [] && (a == [] || a[0] < b[0] || (a[0] == b[0] && Less(a[1..], b[1..])))
  }

  lemma {:induction false} LessTrichotomy(a: seq<int>, b: seq<int>)
    ensures Less(a, b) || a == b || Less(b, a)
  {
    if a != [] && b != [] && a[0] == b[0] {
      LessTrichotomy(a[1..], b[1..]);
      assert a == [a[0]] + a[1..] && b == [b[0]] + b[1..];
    }
  }

  lemma {:induction false} LessTransitive(a: seq<int>, b: seq<int>, c: seq<int>)
    requires Less(a, b) && Less(b, c)
    ensures Less(a, c)
  {
    if a != [] && a[0] == b[0] == c[0] {
      LessTransitive(a[1..], b[1..], c[1..]);
    }
  }

  lemma {:induction false} LessIrreflexive(a: seq<int>)
    ensures !Less(a, a)
  {
    if a != [] {
      LessIrreflexive(a[1..]);
    }
  }

  /** At `i`: nothing has differed, and `a` ends or is smaller there. */
  predicate DecidesAt(a: seq<int>, b: seq<int>, i: nat)
  {
    i <= |a| && i < |b| && a[..i] == b[..i] && (i == |a| || a[i] < b[i])
  }

  /** `a` is a proper prefix of `b`, or smaller where they first differ. */
  ghost predicate Precedes(a: seq<int>, b: seq<int>)
  {
    exists i: nat :: DecidesAt(a, b, i)
  }

  lemma {:induction false} LessDecides(a: seq<int>, b: seq<int>) returns (i: nat)
    requires Less(a, b)
    ensures DecidesAt(a, b, i)
  {
    i := 0;
    if a != [] && a[0] == b[0] {
      var j := LessDecides(a[1..], b[1..]);
      i := j + 1;
      assert a[..i] == [a[0]] + a[1..][..j] && b[..i] == [b[0]] + b[1..][..j];
    }
  }

  lemma {:induction false} DecidedLess(a: seq<int>, b: seq<int>, i: nat)
    requires DecidesAt(a, b, i)
    ensures Less(a, b)
  {
    if i > 0 {
      assert a[0] == a[..i][0] == b[..i][0] == b[0];
      assert a[1..][..i - 1] == a[..i][1..] && b[1..][..i - 1] == b[..i][1..];
      DecidedLess(a[1..], b[1..], i - 1);
    }
  }

  /** The order is what its name says. */
  lemma LessIff(a: seq<int>, b: seq<int>)
    ensures Less(a, b) <==> Precedes(a, b)
  {
    if Less(a, b) {
      var _ := LessDecides(a, b);
    }
    if Precedes(a, b) {
      var i: nat :| DecidesAt(a, b, i);
      DecidedLess(a, b, i);
    }
  }

  /** One of three. */
  lemma OneOfThree(a: seq<int>, b: seq<int>)
    ensures Precedes(a, b) || a == b || Precedes(b, a)
    ensures !(Precedes(a, b) && Precedes(b, a)) && (a == b ==> !Precedes(a, b))
  {
    LessIff(a, b);
    LessIff(b, a);
    LessTrichotomy(a, b);
    LessIrreflexive(a);
    if Less(a, b) && Less(b, a) {
      LessTransitive(a, b, a);
    }
  }

  /** Between sequences that start with others of one length, those decide first. */
  lemma {:induction false} LessAppended(s: seq<int>, t: seq<int>, u: seq<int>, v: seq<int>)
    requires |s| == |t|
    ensures Less(s + u, t + v) <==> Less(s, t) || (s == t && Less(u, v))
  {
    if s == [] {
      assert s + u == u && t + v == v;
      LessIrreflexive(s);
    } else {
      assert (s + u)[1..] == s[1..] + u && (t + v)[1..] == t[1..] + v;
      assert s == [s[0]] + s[1..] && t == [t[0]] + t[1..];
      LessAppended(s[1..], t[1..], u, v);
    }
  }

  lemma PrecedesAppended(s: seq<int>, t: seq<int>, u: seq<int>, v: seq<int>)
    requires |s| == |t|
    ensures Precedes(s + u, t + v) <==> Precedes(s, t) || (s == t && Precedes(u, v))
  {
    LessIff(s + u, t + v);
    LessIff(s, t);
    LessIff(u, v);
    LessAppended(s, t, u, v);
  }
}
