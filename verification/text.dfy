// The pieces of Go's `strings` and `strconv` packages the tool relies on:
// `strings.Join`, `strings.ToLower`, `strings.TrimSuffix`,
// `strings.TrimSpace`, `strconv.Atoi`, and the decimal formatting of
// `fmt.Sprintf("%d")`. `Split` is the inverse of `Join` that the hostname
// grammar is stated with.
module Text {
  import opened Common

  /** `strings.Join`: the parts with `sep` between consecutive ones. */
  function Join(parts: seq<string>, sep: string): string
  {
    if |parts| == 0 then ""
    else if |parts| == 1 then parts[0]
    else parts[0] + sep + Join(parts[1..], sep)
  }

  /** `strings.Split` on one separator character: always one more piece
    * than there are separators. */
  function Split(s: string, c: char): (r: seq<string>)
    ensures |r| >= 1
    ensures forall k :: 0 <= k < |r| ==> c !in r[k]
    decreases |s|
  {
    if s == [] then [""]
    else if s[0] == c then [""] + Split(s[1..], c)
    else
      var rest := Split(s[1..], c);
      [[s[0]] + rest[0]] + rest[1..]
  }

  /** Splitting and joining again on the same character gives the string back. */
  lemma {:induction false} JoinSplit(s: string, c: char)
    ensures Join(Split(s, c), [c]) == s
    decreases |s|
  {
    if s != [] {
      JoinSplit(s[1..], c);
      var rest := Split(s[1..], c);
      if s[0] == c {
        assert Split(s, c) == [""] + rest;
        assert ([""] + rest)[1..] == rest;
      } else {
        var r := Split(s, c);
        assert r == [[s[0]] + rest[0]] + rest[1..];
        if |rest| == 1 {
          assert rest == [rest[0]];
        } else {
          assert r[1..] == rest[1..];
          assert Join(rest, [c]) == rest[0] + [c] + Join(rest[1..], [c]);
        }
        assert s == [s[0]] + s[1..];
      }
    }
  }

  /** Joining pieces free of the separator and splitting again gives the
    * pieces back. */
  lemma {:induction false} SplitJoin(parts: seq<string>, c: char)
    requires |parts| >= 1
    requires forall k :: 0 <= k < |parts| ==> c !in parts[k]
    ensures Split(Join(parts, [c]), c) == parts
    decreases |parts|, |parts[0]|
  {
    var p := parts[0];
    if p == [] {
      if |parts| > 1 {
        SplitJoin(parts[1..], c);
        assert Join(parts, [c]) == [c] + Join(parts[1..], [c]);
        assert parts == [""] + parts[1..];
      }
    } else {
      var shorter := [p[1..]] + parts[1..];
      assert forall k :: 0 <= k < |shorter| ==> c !in shorter[k] by {
        forall k | 0 <= k < |shorter| ensures c !in shorter[k] {
          if k == 0 {
            assert forall x :: x in p[1..] ==> x in p;
          } else {
            assert shorter[k] == parts[k];
          }
        }
      }
      SplitJoin(shorter, c);
      assert p[0] != c by {
        assert p[0] in p;
      }
      var j := Join(parts, [c]);
      JoinFirstChar(parts, [c]);
      assert j[1..] == Join(shorter, [c]);
      assert shorter[1..] == parts[1..];
      assert p == [p[0]] + p[1..];
      assert parts == [p] + parts[1..];
      assert Split(j, c) == [[p[0]] + Split(j[1..], c)[0]] + Split(j[1..], c)[1..];
    }
  }

  /** The joined string starts with the first character of the first piece,
    * followed by the join of the pieces without it. */
  lemma JoinFirstChar(parts: seq<string>, sep: string)
    requires |parts| >= 1 && parts[0] != []
    ensures Join(parts, sep) == [parts[0][0]] + Join([parts[0][1..]] + parts[1..], sep)
  {
    var p := parts[0];
    var shorter := [p[1..]] + parts[1..];
    assert p == [p[0]] + p[1..];
    if |parts| == 1 {
      assert Join(shorter, sep) == p[1..];
    } else {
      assert shorter[1..] == parts[1..];
    }
  }

  predicate IsUpper(c: char)
  {
    'A' <= c <= 'Z'
  }

  /** `unicode.ToLower` restricted to ASCII letters. */
  function LowerChar(c: char): (r: char)
    ensures !IsUpper(r)
    ensures IsUpper(c) ==> r as int == c as int + 32
    ensures !IsUpper(c) ==> r == c
  {
    if IsUpper(c) then (c as int + 32) as char else c
  }

  /** `strings.ToLower`, letter by letter. */
  function ToLower(s: string): (r: string)
    ensures |r| == |s|
    ensures forall k :: 0 <= k < |r| ==> r[k] == LowerChar(s[k])
  {
    seq(|s|, k requires 0 <= k < |s| => LowerChar(s[k]))
  }

  /** `strings.TrimSuffix`: `s` without `suffix` if it ends with it, else `s`. */
  function TrimSuffix(s: string, suffix: string): (r: string)
    ensures r + suffix == s || r == s
    ensures |suffix| <= |s| && s[|s| - |suffix|..] == suffix ==> r + suffix == s
  {
    if |suffix| <= |s| && s[|s| - |suffix|..] == suffix then s[..|s| - |suffix|] else s
  }

  /** `unicode.IsSpace`: the Latin-1 spaces and the Unicode White_Space
    * characters above Latin-1. */
  predicate IsSpace(c: char)
  {
    c == '\t' || c == '\n' || c == '\U{B}' || c == '\U{C}' || c == '\r' || c == ' '
    || c == '\U{85}' || c == '\U{A0}' || c == '\U{1680}'
    || ('\U{2000}' <= c <= '\U{200A}') || c == '\U{2028}' || c == '\U{2029}'
    || c == '\U{202F}' || c == '\U{205F}' || c == '\U{3000}'
  }

  function TrimLeft(s: string): (r: string)
    ensures |r| <= |s| && r == s[|s| - |r|..]
    ensures r == [] || !IsSpace(r[0])
    ensures forall k :: 0 <= k < |s| - |r| ==> IsSpace(s[k])
    decreases |s|
  {
    if s != [] && IsSpace(s[0]) then
      var t := TrimLeft(s[1..]);
      LeadingSpaces(s, |s| - 1 - |t|);
      assert s[1..][|s| - 1 - |t|..] == s[|s| - |t|..];
      t
    else s
  }

  /** White space at the head of `s`, followed by `n` more in its tail. */
  lemma LeadingSpaces(s: string, n: nat)
    requires s != [] && IsSpace(s[0]) && n < |s|
    requires forall k :: 0 <= k < n ==> IsSpace(s[1..][k])
    ensures forall k :: 0 <= k < n + 1 ==> IsSpace(s[k])
  {
    forall k | 0 < k < n + 1 ensures IsSpace(s[k]) {
      assert s[k] == s[1..][k - 1];
    }
  }

  function TrimRight(s: string): (r: string)
    ensures |r| <= |s| && r == s[..|r|]
    ensures r == [] || !IsSpace(r[|r| - 1])
    ensures forall k :: |r| <= k < |s| ==> IsSpace(s[k])
    decreases |s|
  {
    if s != [] && IsSpace(s[|s| - 1]) then TrimRight(s[..|s| - 1]) else s
  }

  /** `strings.TrimSpace`: `s` without its leading and trailing white space. */
  function TrimSpace(s: string): (r: string)
    ensures r == [] || (!IsSpace(r[0]) && !IsSpace(r[|r| - 1]))
    ensures (forall k :: 0 <= k < |s| ==> !IsSpace(s[k])) ==> r == s
  {
    TrimRight(TrimLeft(s))
  }

  /** `r` is `s` without its first `lead` characters and some last
    * characters, all of them white space. */
  predicate TrimmedAt(s: string, r: string, lead: nat)
  {
    lead + |r| <= |s| && r == s[lead..lead + |r|] &&
    (forall k :: 0 <= k < lead ==> IsSpace(s[k])) &&
    (forall k :: lead + |r| <= k < |s| ==> IsSpace(s[k]))
  }

  /** `TrimSpace` removes white space at the two ends and nothing else. */
  lemma TrimSpaceRemovesEdges(s: string)
    ensures exists lead: nat :: TrimmedAt(s, TrimSpace(s), lead)
  {
    var left := TrimLeft(s);
    var r := TrimRight(left);
    TrimmedTwice(s, left, r);
    assert TrimmedAt(s, TrimSpace(s), |s| - |left|);
  }

  /** Trimming a prefix of white space and then a suffix of it. */
  lemma TrimmedTwice(s: string, left: string, r: string)
    requires |left| <= |s| && left == s[|s| - |left|..]
    requires forall k :: 0 <= k < |s| - |left| ==> IsSpace(s[k])
    requires |r| <= |left| && r == left[..|r|]
    requires forall k :: |r| <= k < |left| ==> IsSpace(left[k])
    ensures TrimmedAt(s, r, |s| - |left|)
  {
    var lead := |s| - |left|;
    forall k | lead + |r| <= k < |s| ensures IsSpace(s[k]) {
      assert s[k] == left[k - lead];
    }
  }

  /** A leading white-space character is trimmed away. */
  lemma TrimSpaceSkipsLeading(c: char, s: string)
    requires IsSpace(c)
    ensures TrimSpace([c] + s) == TrimSpace(s)
  {
    assert ([c] + s)[1..] == s;
  }

  /** Trimming twice trims nothing more. */
  lemma TrimSpaceIdempotent(s: string)
    ensures TrimSpace(TrimSpace(s)) == TrimSpace(s)
  {
    var r := TrimSpace(s);
    if r != [] {
      assert TrimLeft(r) == r;
      assert TrimRight(r) == r;
    }
  }

  const MinInt64: int := -0x8000_0000_0000_0000
  const MaxInt64: int := 0x7FFF_FFFF_FFFF_FFFF

  predicate IsDigit(c: char)
  {
    '0' <= c <= '9'
  }

  function DigitChar(d: nat): (c: char)
    requires d < 10
    ensures IsDigit(c)
  {
    ('0' as int + d) as char
  }

  function DigitValue(c: char): nat
    requires IsDigit(c)
  {
    c as int - '0' as int
  }

  predicate AllDigits(s: string)
  {
    forall k :: 0 <= k < |s| ==> IsDigit(s[k])
  }

  /** The value of a string of decimal digits. */
  function DigitsValue(s: string): nat
    requires AllDigits(s)
  {
    if s == [] then 0 else DigitsValue(s[..|s| - 1]) * 10 + DigitValue(s[|s| - 1])
  }

  /** The decimal text `fmt.Sprintf("%d", n)` gives for a natural number. */
  function Itoa(n: nat): (r: string)
    ensures |r| >= 1 && AllDigits(r)
    ensures r[0] == '0' ==> n == 0
  {
    if n < 10 then [DigitChar(n)] else Itoa(n / 10) + [DigitChar(n % 10)]
  }

  /** Reading the decimal text back gives the number: `Itoa` loses nothing. */
  lemma {:induction false} DigitsValueItoa(n: nat)
    ensures DigitsValue(Itoa(n)) == n
  {
    if n >= 10 {
      DigitsValueItoa(n / 10);
      var t := Itoa(n);
      assert t[..|t| - 1] == Itoa(n / 10);
    }
  }

  /** Different numbers are printed differently. */
  lemma ItoaInjective(m: nat, n: nat)
    requires Itoa(m) == Itoa(n)
    ensures m == n
  {
    DigitsValueItoa(m);
    DigitsValueItoa(n);
  }

  /** `strconv.Atoi` on a 64-bit platform: an optional sign followed by at
    * least one decimal digit, whose value fits in an `int64`; anything else
    * is an error (`None`). */
  function Atoi(s: string): (r: Option<int>)
    ensures r.Some? ==> MinInt64 <= r.value <= MaxInt64
    ensures r.Some? ==> |s| >= 1
  {
    var signed := |s| > 0 && (s[0] == '+' || s[0] == '-');
    var digits := if signed then s[1..] else s;
    if digits == [] || !AllDigits(digits) then None
    else
      var v: int := if signed && s[0] == '-' then 0 - DigitsValue(digits) as int else DigitsValue(digits);
      if MinInt64 <= v <= MaxInt64 then Some(v) else None
  }

  /** `strconv.Atoi` reads back what `%d` prints, over the whole `int64` range
    * of natural numbers. */
  lemma AtoiItoa(n: nat)
    requires n <= MaxInt64
    ensures Atoi(Itoa(n)) == Some(n)
  {
    DigitsValueItoa(n);
    var t := Itoa(n);
    assert IsDigit(t[0]);
  }

  /** A string with a character that is neither a digit nor a leading sign
    * is not a number. */
  lemma AtoiRejectsNonDigit(s: string, k: nat)
    requires 0 < k < |s| && !IsDigit(s[k])
    ensures Atoi(s) == None
  {
    var signed := |s| > 0 && (s[0] == '+' || s[0] == '-');
    var digits := if signed then s[1..] else s;
    if signed {
      assert digits[k - 1] == s[k];
    } else {
      assert digits[k] == s[k];
    }
  }
}
