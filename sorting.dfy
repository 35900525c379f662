/**
 * A stand-in for sets.SortedList over strings: the members of a set listed
 * once each, in ascending lexicographic order. Go compares strings byte by
 * byte in UTF-8, which orders them as their sequences of code points; a
 * Dafny string is a sequence of code points, compared element by element.
 */
module Sorting {

  /** Lexicographic "less than or equal" on strings. */
  predicate Below(a: string, b: string)
    decreases |a|
  {
    |a| == 0 || (|b| != 0 && (a[0] < b[0] || (a[0] == b[0] && Below(a[1..], b[1..]))))
  }

  lemma {:induction false} BelowReflexive(a: string)
    ensures Below(a, a)
    decreases |a|
  {
    if |a| != 0 {
      BelowReflexive(a[1..]);
    }
  }

  lemma {:induction false} BelowTotal(a: string, b: string)
    ensures Below(a, b) || Below(b, a)
    decreases |a|
  {
    if |a| != 0 && |b| != 0 && a[0] == b[0] {
      BelowTotal(a[1..], b[1..]);
    }
  }

  lemma {:induction false} BelowAntisymmetric(a: string, b: string)
    requires Below(a, b) && Below(b, a)
    ensures a == b
    decreases |a|
  {
    if |a| != 0 {
      BelowAntisymmetric(a[1..], b[1..]);
      assert a == [a[0]] + a[1..] && b == [b[0]] + b[1..];
    }
  }

  lemma {:induction false} BelowTransitive(a: string, b: string, c: string)
    requires Below(a, b) && Below(b, c)
    ensures Below(a, c)
    decreases |a|
  {
    if |a| != 0 && a[0] == b[0] && b[0] == c[0] {
      BelowTransitive(a[1..], b[1..], c[1..]);
    }
  }

  /** Every element of r strictly precedes every later element. */
  predicate StrictlyAscending(r: seq<string>) {
    forall i, j :: 0 <= i < j < |r| ==> Below(r[i], r[j]) && r[i] != r[j]
  }

  predicate IsMin(m: string, s: set<string>) {
    m in s && forall y :: y in s ==> Below(m, y)
  }

  lemma {:induction false} MinExists(s: set<string>)
    requires s != {}
    ensures exists m :: IsMin(m, s)
    decreases |s|
  {
    var x :| x in s;
    if s == {x} {
      BelowReflexive(x);
      assert IsMin(x, s);
    } else {
      MinExists(s - {x});
      var m :| IsMin(m, s - {x});
      BelowTotal(x, m);
      if Below(x, m) {
        forall y | y in s
          ensures Below(x, y)
        {
          if y == x {
            BelowReflexive(x);
          } else {
            BelowTransitive(x, m, y);
          }
        }
        assert IsMin(x, s);
      } else {
        assert IsMin(m, s);
      }
    }
  }

  /** The sorted listing of a set: its least element, then the rest. */
  ghost function Sorted(s: set<string>): seq<string>
    decreases |s|
  {
    if s == {} then []
    else
      MinExists(s);
      var m :| IsMin(m, s);
      [m] + Sorted(s - {m})
  }

  /** The least element comes first, whichever way it was found. */
  lemma SortedUnfold(s: set<string>, m: string)
    requires IsMin(m, s)
    ensures Sorted(s) == [m] + Sorted(s - {m})
  {
    MinExists(s);
    var c :| IsMin(c, s) && Sorted(s) == [c] + Sorted(s - {c});
    BelowAntisymmetric(c, m);
  }

  /** The sorted listing holds each member of the set exactly once, in strictly ascending order. */
  lemma {:induction false} SortedSpec(s: set<string>)
    ensures |Sorted(s)| == |s|
    ensures forall x :: x in Sorted(s) <==> x in s
    ensures StrictlyAscending(Sorted(s))
    decreases |s|
  {
    if s != {} {
      MinExists(s);
      var m :| IsMin(m, s);
      SortedUnfold(s, m);
      SortedSpec(s - {m});
      var r := Sorted(s);
      forall i, j | 0 <= i < j < |r|
        ensures Below(r[i], r[j]) && r[i] != r[j]
      {
        if i == 0 {
          assert r[j] in Sorted(s - {m});
        } else {
          assert r[i] == Sorted(s - {m})[i - 1] && r[j] == Sorted(s - {m})[j - 1];
        }
      }
    }
  }

  /** Lists a set in ascending order by repeatedly taking its least remaining element. */
  method SortedList(s: set<string>) returns (r: seq<string>)
    ensures r == Sorted(s)
  {
    var rest := s;
    r := [];
    while rest != {}
      invariant r + Sorted(rest) == Sorted(s)
      decreases |rest|
    {
      MinExists(rest);
      var m :| IsMin(m, rest);
      SortedUnfold(rest, m);
      r := r + [m];
      rest := rest - {m};
    }
  }
}
