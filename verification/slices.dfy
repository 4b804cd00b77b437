// In-place slice operations of Go's `slices` package as the resolver uses
// them: `slices.Sort` and `slices.Compact` on a slice of strings, modelled
// on an `array<string>`.
module Slices {
  import opened StringOrder

  /** The first `n` strings of `c` are in order. */
  ghost predicate SortedPrefix(c: seq<string>, n: int)
    requires 0 <= n <= |c|
  {
    forall p, q :: 0 <= p < q < n ==> LessEq(c[p], c[q])
  }

  /** The state of insertion while `c[j]` moves down through `c[..i + 1]`:
    * the other strings of `c[..i + 1]` are in order, and `c[j]` is at most
    * every string above it. */
  ghost predicate Sinking(c: seq<string>, i: int, j: int)
    requires 0 <= j <= i < |c|
  {
    (forall p, q :: 0 <= p < q <= i && p != j && q != j ==> LessEq(c[p], c[q])) &&
    (forall q :: j < q <= i ==> LessEq(c[j], c[q]))
  }

  lemma SinkStart(c: seq<string>, i: int)
    requires 0 <= i < |c| && SortedPrefix(c, i)
    ensures Sinking(c, i, i)
  {
  }

  /** Swapping `c[j]` with a larger predecessor moves it one place down. */
  lemma SinkStep(c: seq<string>, i: int, j: int)
    requires 0 < j <= i < |c| && Sinking(c, i, j) && !LessEq(c[j - 1], c[j])
    ensures Sinking(c[j - 1 := c[j]][j := c[j - 1]], i, j - 1)
  {
    var d := c[j - 1 := c[j]][j := c[j - 1]];
    LessEqTotal(c[j - 1], c[j]);
    forall q | j - 1 < q <= i ensures LessEq(d[j - 1], d[q]) {
      if q > j {
        LessEqTransitive(c[j], c[j - 1], c[q]);
      }
    }
  }

  /** Once `c[j]` has stopped, `c[..i + 1]` is in order. */
  lemma SinkDone(c: seq<string>, i: int, j: int)
    requires 0 <= j <= i < |c| && Sinking(c, i, j)
    requires j == 0 || LessEq(c[j - 1], c[j])
    ensures SortedPrefix(c, i + 1)
  {
    forall p, q | 0 <= p < q <= i ensures LessEq(c[p], c[q]) {
      if q == j && p < j - 1 {
        LessEqTransitive(c[p], c[j - 1], c[j]);
      }
    }
  }

  /** `slices.Sort`: afterwards the array is sorted and holds the same strings. */
  method SortInPlace(a: array<string>)
    modifies a
    ensures Sorted(a[..])
    ensures multiset(a[..]) == multiset(old(a[..]))
  {
    var i := 0;
    while i < a.Length
      invariant 0 <= i <= a.Length
      invariant SortedPrefix(a[..], i)
      invariant multiset(a[..]) == multiset(old(a[..]))
    {
      SinkStart(a[..], i);
      var j := i;
      while j > 0 && !LessEq(a[j - 1], a[j])
        invariant 0 <= j <= i
        invariant Sinking(a[..], i, j)
        invariant multiset(a[..]) == multiset(old(a[..]))
      {
        SinkStep(a[..], i, j);
        a[j - 1], a[j] := a[j], a[j - 1];
        j := j - 1;
      }
      SinkDone(a[..], i, j);
      i := i + 1;
    }
  }

  /** `s` with every element that equals its predecessor removed: the
    * slice `slices.Compact` returns. */
  function Dedup(s: seq<string>): (r: seq<string>)
    ensures |r| <= |s|
    ensures |s| > 0 ==> |r| > 0 && r[|r| - 1] == s[|s| - 1]
    decreases |s|
  {
    if |s| <= 1 then s
    else Dedup(s[..|s| - 1]) + (if s[|s| - 1] == s[|s| - 2] then [] else [s[|s| - 1]])
  }

  /** Compaction keeps exactly the strings that were there. */
  lemma {:induction false} DedupElements(s: seq<string>, x: string)
    ensures x in Dedup(s) <==> x in s
    decreases |s|
  {
    if |s| > 1 {
      var init := s[..|s| - 1];
      DedupElements(init, x);
      assert s == init + [s[|s| - 1]];
      if s[|s| - 1] == s[|s| - 2] {
        assert s[|s| - 1] == init[|init| - 1];
      }
    }
  }

  /** Compacting a sorted sequence leaves it strictly ascending. */
  lemma {:induction false} DedupOfSorted(s: seq<string>)
    requires Sorted(s)
    ensures StrictlySorted(Dedup(s))
    decreases |s|
  {
    if |s| > 1 {
      var init := s[..|s| - 1];
      assert Sorted(init);
      DedupOfSorted(init);
      var d := Dedup(init);
      var x := s[|s| - 1];
      if x != s[|s| - 2] {
        var r := d + [x];
        assert d[|d| - 1] == s[|s| - 2];
        forall i, j | 0 <= i < j < |r| ensures LessEq(r[i], r[j]) && r[i] != r[j] {
          if j == |r| - 1 && i < |d| - 1 {
            assert LessEq(d[i], d[|d| - 1]) && d[i] != d[|d| - 1];
            LessEqTransitive(d[i], s[|s| - 2], x);
            if d[i] == x {
              LessEqAntisymmetric(x, s[|s| - 2]);
            }
          }
        }
      }
    }
  }

  /** Without adjacent duplicates there is nothing to compact. */
  lemma {:induction false} DedupIdentity(s: seq<string>)
    requires forall i :: 0 < i < |s| ==> s[i] != s[i - 1]
    ensures Dedup(s) == s
    decreases |s|
  {
    if |s| > 1 {
      var init := s[..|s| - 1];
      DedupIdentity(init);
      assert Dedup(s) == Dedup(init) + [s[|s| - 1]];
      assert s == init + [s[|s| - 1]];
    }
  }

  /** `c` is a possible content of the slice after `slices.Compact(s)` when
    * the caller ignores the returned length: the compacted prefix, then a
    * tail whose cells Go 1.22 and later clear to "" and earlier Go versions
    * leave as they were. */
  ghost predicate IsCompaction(c: seq<string>, s: seq<string>)
  {
    |c| == |s| && c[..|Dedup(s)|] == Dedup(s) &&
    forall i :: |Dedup(s)| <= i < |s| ==> c[i] == "" || c[i] == s[i]
  }

  /** `slices.Compact` on a slice whose returned length is discarded. The
    * contract admits the tail of every Go version. */
  method Compact(a: array<string>) returns (k: nat)
    modifies a
    ensures k == |Dedup(old(a[..]))|
    ensures IsCompaction(a[..], old(a[..]))
  {
    if a.Length < 2 {
      return a.Length;
    }
    ghost var s := a[..];
    var w, r := 1, 1;
    while r < a.Length
      invariant 1 <= w <= r <= a.Length
      invariant a[..w] == Dedup(s[..r])
      invariant a[w..] == s[w..]
    {
      ghost var before, w0 := a[..], w;
      CompactReads(before, s, w, r);
      if a[r] != a[r - 1] {
        if w != r {
          a[w] := a[r];
        }
        w := w + 1;
      }
      assert a[..] == if s[r] != s[r - 1] then before[w0 := s[r]] else before;
      CompactLoopStep(before, a[..], s, w0, r);
      r := r + 1;
    }
    assert s[..a.Length] == s;
    CompactionOfLoop(a[..], s, w);
    k := w;
  }

  /** In the loop state, the cells the loop compares still hold the
    * original strings. */
  lemma CompactReads(c: seq<string>, s: seq<string>, w: nat, r: nat)
    requires 1 <= w <= r < |s| && |c| == |s|
    requires c[..w] == Dedup(s[..r]) && c[w..] == s[w..]
    ensures c[r] == s[r] && c[r - 1] == s[r - 1]
  {
    assert c[r] == c[w..][r - w];
    if w < r {
      assert c[r - 1] == c[w..][r - 1 - w];
    } else {
      assert c[w - 1] == c[..w][w - 1] == s[..r][r - 1];
    }
  }

  /** One turn of the compaction loop keeps its invariant: the prefix up
    * to the write position is the compaction of what was read, and the
    * rest is untouched. */
  lemma CompactLoopStep(before: seq<string>, after: seq<string>, s: seq<string>, w: nat, r: nat)
    requires 1 <= w <= r < |s| && |before| == |s|
    requires before[..w] == Dedup(s[..r]) && before[w..] == s[w..]
    requires after == if s[r] != s[r - 1] then before[w := s[r]] else before
    ensures var next := if s[r] != s[r - 1] then w + 1 else w;
      |after| == |s| && next <= r + 1 && after[..next] == Dedup(s[..r + 1]) && after[next..] == s[next..]
  {
    DedupStep(s, r);
    if s[r] != s[r - 1] {
      assert after[..w + 1] == before[..w] + [s[r]];
      assert after[w + 1..] == before[w + 1..];
      assert before[w + 1..] == before[w..][1..];
    }
  }

  /** The state the compaction loop ends in is a compaction. */
  lemma CompactionOfLoop(c: seq<string>, s: seq<string>, w: nat)
    requires |c| == |s| && w <= |c| && c[..w] == Dedup(s)
    requires c[w..] == s[w..]
    ensures IsCompaction(c, s)
  {
    forall i | w <= i < |s| ensures c[i] == s[i] {
      assert c[i] == c[w..][i - w];
    }
  }

  /** Compacting one more element of `s` appends it unless it repeats
    * its predecessor. */
  lemma DedupStep(s: seq<string>, r: nat)
    requires 0 < r < |s|
    ensures Dedup(s[..r + 1]) == Dedup(s[..r]) + if s[r] == s[r - 1] then [] else [s[r]]
  {
    assert s[..r + 1][..r] == s[..r];
  }

  /** Every cell left after compaction is "" or one of the original strings. */
  lemma CompactionElements(c: seq<string>, s: seq<string>, i: nat)
    requires IsCompaction(c, s) && i < |c|
    ensures c[i] == "" || c[i] in s
  {
    if i < |Dedup(s)| {
      assert c[i] == Dedup(s)[i];
      DedupElements(s, c[i]);
    }
  }

  /** Nothing present before compaction is lost: every string of `s`
    * is still among the leading, deduplicated part of `c`. */
  lemma CompactionCovers(c: seq<string>, s: seq<string>, x: string)
    requires IsCompaction(c, s) && x in s
    ensures x in c[..|Dedup(s)|]
  {
    DedupElements(s, x);
  }

  /** Compacting a strictly ascending slice changes nothing, whatever the
    * Go version. */
  lemma CompactionOfStrict(c: seq<string>, s: seq<string>)
    requires StrictlySorted(s) && IsCompaction(c, s)
    ensures c == s
  {
    DedupIdentity(s);
    assert c == c[..|s|];
  }

  /** Compaction does not leave a sorted, duplicate-free slice behind. With
    * the tail kept as it was (Go before 1.22), the sorted `[a, a, a, b]`
    * may become `[a, b, a, b]`. */
  lemma CompactionKeepsStaleTail(a: string, b: string)
    requires a != b
    ensures LessEq(a, b) ==> Sorted([a, a, a, b])
    ensures IsCompaction([a, b, a, b], [a, a, a, b])
    ensures !Sorted([a, b, a, b]) && !Distinct([a, b, a, b])
  {
    LessEqReflexive(a);
    DedupOfTriple(a, b);
    if Sorted([a, b, a, b]) {
      assert LessEq([a, b, a, b][0], [a, b, a, b][1]);
      assert LessEq([a, b, a, b][1], [a, b, a, b][2]);
      LessEqAntisymmetric(a, b);
    }
  }

  /** A run of three `a` followed by a different `b` compacts to `[a, b]`. */
  lemma DedupOfTriple(a: string, b: string)
    requires a != b
    ensures Dedup([a, a, a, b]) == [a, b]
  {
    assert [a, a][..1] == [a];
    assert Dedup([a, a]) == [a];
    assert [a, a, a][..2] == [a, a];
    assert Dedup([a, a, a]) == [a];
    assert [a, a, a, b][..3] == [a, a, a];
  }

  /** With the tail cleared (Go 1.22 on), the sorted `[a, a, b]` may become
    * `[a, b, ""]`, which is out of order as soon as `b` is not empty. */
  lemma CompactionClearsTail(a: string, b: string)
    requires a != b && b != ""
    ensures LessEq(a, b) ==> Sorted([a, a, b])
    ensures IsCompaction([a, b, ""], [a, a, b])
    ensures !Sorted([a, b, ""])
  {
    LessEqReflexive(a);
    assert Dedup([a, a, b]) == [a, b] by {
      assert [a, a, b][..2] == [a, a];
      assert [a, a][..1] == [a];
    }
    assert !LessEq([a, b, ""][1], [a, b, ""][2]);
  }
}
