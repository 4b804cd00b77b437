// The ordering Go's `slices.Sort` puts strings in, and the sorted
// sequences the resolver joins into its output fields.
//
// Go compares strings byte by byte; for well-formed UTF-8 that is the same
// order as comparing code points one by one, which is what `LessEq` does on
// Dafny's `char`s.
module StringOrder {

  /** Lexicographic `a <= b`, the order of Go's `<=` on strings. */
  predicate LessEq(a: string, b: string)
    decreases |a|
  {
    a == [] || (b != [] && (a[0] < b[0] || (a[0] == b[0] && LessEq(a[1..], b[1..]))))
  }

  lemma {:induction false} LessEqReflexive(a: string)
    ensures LessEq(a, a)
    decreases |a|
  {
    if a != [] {
      LessEqReflexive(a[1..]);
    }
  }

  lemma {:induction false} LessEqAntisymmetric(a: string, b: string)
    requires LessEq(a, b) && LessEq(b, a)
    ensures a == b
    decreases |a|
  {
    if a != [] {
      LessEqAntisymmetric(a[1..], b[1..]);
      assert a == [a[0]] + a[1..] && b == [b[0]] + b[1..];
    }
  }

  lemma {:induction false} LessEqTransitive(a: string, b: string, c: string)
    requires LessEq(a, b) && LessEq(b, c)
    ensures LessEq(a, c)
    decreases |a|
  {
    if a != [] && a[0] == b[0] && b[0] == c[0] {
      LessEqTransitive(a[1..], b[1..], c[1..]);
    }
  }

  lemma {:induction false} LessEqTotal(a: string, b: string)
    ensures LessEq(a, b) || LessEq(b, a)
    decreases |a|
  {
    if a != [] && b != [] && a[0] == b[0] {
      LessEqTotal(a[1..], b[1..]);
    }
  }

  /** Non-decreasing: what `slices.Sort` leaves behind. */
  ghost predicate Sorted(s: seq<string>)
  {
    forall i, j :: 0 <= i < j < |s| ==> LessEq(s[i], s[j])
  }

  /** Strictly ascending, hence free of duplicates. */
  ghost predicate StrictlySorted(s: seq<string>)
  {
    forall i, j :: 0 <= i < j < |s| ==> LessEq(s[i], s[j]) && s[i] != s[j]
  }

  ghost predicate IsLeast(m: string, s: set<string>)
  {
    m in s && forall y :: y in s ==> LessEq(m, y)
  }

  lemma {:induction false} PrependSorted(x: string, s: seq<string>)
    requires Sorted(s)
    requires forall y :: y in s ==> LessEq(x, y)
    ensures Sorted([x] + s)
  {
    var t := [x] + s;
    forall i, j | 0 <= i < j < |t| ensures LessEq(t[i], t[j]) {
      if i > 0 {
        assert t[i] == s[i - 1] && t[j] == s[j - 1];
      } else {
        assert t[j] == s[j - 1] && t[j] in s;
      }
    }
  }

  /** Every element of a sorted sequence is at least its first. */
  lemma HeadIsLeast(s: seq<string>, y: string)
    requires Sorted(s) && y in s
    ensures LessEq(s[0], y)
  {
    var k :| 0 <= k < |s| && s[k] == y;
    if k == 0 {
      LessEqReflexive(y);
    }
  }

  lemma InsertFront(x: string, s: seq<string>)
    requires Sorted(s) && s != [] && LessEq(x, s[0])
    ensures Sorted([x] + s)
  {
    forall y | y in s ensures LessEq(x, y) {
      HeadIsLeast(s, y);
      LessEqTransitive(x, s[0], y);
    }
    PrependSorted(x, s);
  }

  lemma InsertBehind(x: string, s: seq<string>, t: seq<string>)
    requires Sorted(s) && s != [] && !LessEq(x, s[0])
    requires Sorted(t) && multiset(t) == multiset(s[1..]) + multiset{x}
    ensures Sorted([s[0]] + t)
  {
    forall y | y in t ensures LessEq(s[0], y) {
      assert y in multiset(t);
      if y == x {
        LessEqTotal(x, s[0]);
      } else {
        assert y in multiset(s[1..]);
        var k :| 0 <= k < |s[1..]| && s[1..][k] == y;
        assert s[k + 1] == y;
      }
    }
    PrependSorted(s[0], t);
  }

  /** Insertion of one string into a sorted sequence. */
  function Insert(x: string, s: seq<string>): (r: seq<string>)
    requires Sorted(s)
    ensures Sorted(r)
    ensures multiset(r) == multiset(s) + multiset{x}
  {
    if s == [] then [x]
    else
      assert s == [s[0]] + s[1..];
      if LessEq(x, s[0]) then
        InsertFront(x, s);
        [x] + s
      else
        var t := Insert(x, s[1..]);
        InsertBehind(x, s, t);
        [s[0]] + t
  }

  /** A sorted permutation of `s`: the specification of `slices.Sort`. */
  function SortSeq(s: seq<string>): (r: seq<string>)
    ensures Sorted(r)
    ensures multiset(r) == multiset(s)
  {
    if s == [] then []
    else
      assert s == [s[0]] + s[1..];
      Insert(s[0], SortSeq(s[1..]))
  }

  /** Two sorted arrangements of the same strings start alike. */
  lemma SortedSameHead(a: seq<string>, b: seq<string>)
    requires Sorted(a) && Sorted(b) && a != []
    requires multiset(a) == multiset(b)
    ensures b != [] && a[0] == b[0]
  {
    assert a[0] in multiset(b);
    assert b[0] in multiset(a);
    HeadIsLeast(a, b[0]);
    HeadIsLeast(b, a[0]);
    LessEqAntisymmetric(a[0], b[0]);
  }

  /** Removing the same first element leaves the same strings. */
  lemma SameTails(a: seq<string>, b: seq<string>)
    requires a != [] && b != [] && a[0] == b[0]
    requires multiset(a) == multiset(b)
    ensures multiset(a[1..]) == multiset(b[1..])
  {
    assert a == [a[0]] + a[1..] && b == [b[0]] + b[1..];
    assert multiset(a) == multiset{a[0]} + multiset(a[1..]);
    assert multiset(b) == multiset{a[0]} + multiset(b[1..]);
    assert multiset(a[1..]) == multiset(a) - multiset{a[0]};
    assert multiset(b[1..]) == multiset(b) - multiset{a[0]};
  }

  /** Two sorted arrangements of the same strings are the same sequence,
    * so `slices.Sort` has exactly one possible outcome. */
  lemma {:induction false} SortedUnique(a: seq<string>, b: seq<string>)
    requires Sorted(a) && Sorted(b)
    requires multiset(a) == multiset(b)
    ensures a == b
    decreases |a|
  {
    if a == [] {
      assert |multiset(b)| == 0;
    } else {
      SortedSameHead(a, b);
      SameTails(a, b);
      SortedUnique(a[1..], b[1..]);
      assert a == [a[0]] + a[1..] && b == [b[0]] + b[1..];
    }
  }

  lemma {:induction false} HasLeast(s: set<string>)
    requires s != {}
    ensures exists m :: IsLeast(m, s)
  {
    var x :| x in s;
    if s == {x} {
      LessEqReflexive(x);
      assert IsLeast(x, s);
    } else {
      HasLeast(s - {x});
      var m :| IsLeast(m, s - {x});
      LessEqTotal(x, m);
      if LessEq(x, m) {
        forall y | y in s ensures LessEq(x, y) {
          if y == x {
            LessEqReflexive(x);
          } else {
            LessEqTransitive(x, m, y);
          }
        }
        assert IsLeast(x, s);
      } else {
        assert IsLeast(m, s);
      }
    }
  }

  lemma {:induction false} PrependLeast(m: string, s: set<string>, rest: seq<string>)
    requires IsLeast(m, s)
    requires StrictlySorted(rest) && multiset(rest) == multiset(s - {m})
    ensures StrictlySorted([m] + rest) && multiset([m] + rest) == multiset(s)
  {
    forall i | 0 <= i < |rest| ensures LessEq(m, rest[i]) && m != rest[i] {
      assert rest[i] in multiset(s - {m});
    }
    var t := [m] + rest;
    forall i, j | 0 <= i < j < |t| ensures LessEq(t[i], t[j]) && t[i] != t[j] {
      if i > 0 {
        assert t[i] == rest[i - 1] && t[j] == rest[j - 1];
      } else {
        assert t[j] == rest[j - 1];
      }
    }
    assert s == (s - {m}) + {m};
    assert multiset(s) == multiset(s - {m}) + multiset{m};
  }

  /** The elements of a finite set of strings in ascending order: what the
    * source obtains by copying a map's keys into a slice and sorting it. */
  ghost function Ordered(s: set<string>): (r: seq<string>)
    ensures StrictlySorted(r)
    ensures multiset(r) == multiset(s)
    decreases |s|
  {
    if s == {} then []
    else
      HasLeast(s);
      var m :| IsLeast(m, s);
      var rest := Ordered(s - {m});
      PrependLeast(m, s, rest);
      [m] + rest
  }

  /** A strictly ascending sequence is determined by the set of its
    * elements: it can only be `Ordered` of that set. */
  lemma {:induction false} StrictlySortedIsOrdered(a: seq<string>, s: set<string>)
    requires StrictlySorted(a)
    requires multiset(a) == multiset(s)
    ensures a == Ordered(s)
  {
    assert Sorted(a);
    assert Sorted(Ordered(s));
    SortedUnique(a, Ordered(s));
  }

  /** No string occurs twice. */
  ghost predicate Distinct(s: seq<string>)
  {
    forall i, j :: 0 <= i < j < |s| ==> s[i] != s[j]
  }

  lemma {:induction false} DistinctMultiplicity(s: seq<string>, x: string)
    requires Distinct(s)
    ensures multiset(s)[x] <= 1
    decreases |s|
  {
    if s != [] {
      var init := s[..|s| - 1];
      DistinctMultiplicity(init, x);
      assert s == init + [s[|s| - 1]];
      if x == s[|s| - 1] {
        assert x !in init;
      }
    }
  }

  lemma RepeatMultiplicity(t: seq<string>, i: nat, j: nat)
    requires i < j < |t| && t[i] == t[j]
    ensures multiset(t)[t[i]] >= 2
  {
    assert t == t[..i] + [t[i]] + t[i + 1..j] + [t[j]] + t[j + 1..];
  }

  /** Sorting strings that are pairwise distinct gives a strictly ascending
    * sequence. */
  lemma SortedDistinctIsStrict(t: seq<string>, s: seq<string>)
    requires Sorted(t) && multiset(t) == multiset(s) && Distinct(s)
    ensures StrictlySorted(t)
  {
    forall i, j | 0 <= i < j < |t| ensures t[i] != t[j] {
      if t[i] == t[j] {
        RepeatMultiplicity(t, i, j);
        DistinctMultiplicity(s, t[i]);
      }
    }
  }
}
