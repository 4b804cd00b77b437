// The driver `process` of roundtrip.go, without its file and terminal
// output: the row-width check, the choice of the input column, the names
// of the three derived columns, the hostname grammar, and the loop that
// classifies each row and resolves or discards it.
module Driver {
  import opened Common
  import opened Text
  import opened StringOrder
  import opened Slices
  import opened Roundtrip

  /** The conditions under which the source calls `ErrorExit`. `MissingHeader`
    * stands for the index-out-of-range panic on an input without any row. */
  datatype Fatal =
    | MissingHeader
    | WidthMismatch(record: nat, got: nat, want: nat)
    | ColumnNotFound(selector: string)
    | ColumnOutOfRange(column: int)

  // ---- Row widths ----

  /** Every data row is as wide as the header. */
  ghost predicate WidthsAgree(header: seq<string>, rows: seq<seq<string>>)
  {
    forall i :: 0 <= i < |rows| ==> |rows[i]| == |header|
  }

  /** Row `i` is the first whose width differs from the header's. */
  ghost predicate FirstBadWidth(header: seq<string>, rows: seq<seq<string>>, i: nat)
  {
    i < |rows| && |rows[i]| != |header| && forall j :: 0 <= j < i ==> |rows[j]| == |header|
  }

  /** The index of the first data row whose width differs from the
    * header's, if there is one. */
  method CheckWidths(header: seq<string>, rows: seq<seq<string>>) returns (bad: Option<nat>)
    ensures bad.None? <==> WidthsAgree(header, rows)
    ensures bad.Some? ==> FirstBadWidth(header, rows, bad.value)
  {
    for i := 0 to |rows|
      invariant forall j :: 0 <= j < i ==> |rows[j]| == |header|
    {
      if |rows[i]| != |header| {
        return Some(i);
      }
    }
    return None;
  }

  // ---- Column selection ----

  /** The index of the last occurrence of `x` in `s`. */
  function LastIndexOf(s: seq<string>, x: string): (r: Option<nat>)
    ensures r.Some? ==> r.value < |s| && s[r.value] == x
    decreases |s|
  {
    if s == [] then None
    else if s[|s| - 1] == x then Some(|s| - 1)
    else LastIndexOf(s[..|s| - 1], x)
  }

  lemma {:induction false} LastIndexOfIsLast(s: seq<string>, x: string)
    ensures LastIndexOf(s, x).None? <==> x !in s
    ensures LastIndexOf(s, x).Some? ==> forall j :: LastIndexOf(s, x).value < j < |s| ==> s[j] != x
    decreases |s|
  {
    if s != [] && s[|s| - 1] != x {
      var init := s[..|s| - 1];
      LastIndexOfIsLast(init, x);
      assert s == init + [s[|s| - 1]];
    }
  }

  /** The zero-based input column a `--column` value selects: a number
    * n means column n (n - 1 from zero), anything else the last header
    * equal to it. */
  function SelectedColumn(header: seq<string>, selector: string): Result<nat, Fatal>
  {
    match Atoi(selector)
    case Some(v) =>
      var column := v - 1;
      if column == -1 then Err(ColumnNotFound(selector))
      else if column < 0 || column >= |header| then Err(ColumnOutOfRange(column + 1))
      else Ok(column)
    case None =>
      match LastIndexOf(header, selector)
      case None => Err(ColumnNotFound(selector))
      case Some(k) => Ok(k)
  }

  /** The selection as the source performs it: the scan over the header
    * overwrites its answer at every match and never stops early. */
  method SelectColumn(header: seq<string>, selector: string) returns (result: Result<nat, Fatal>)
    ensures result == SelectedColumn(header, selector)
  {
    var inCol := -1;
    var parsed := Atoi(selector);
    if parsed.Some? {
      inCol := parsed.value - 1;
    } else {
      for i := 0 to |header|
        invariant -1 <= inCol < i
        invariant inCol == -1 <==> selector !in header[..i]
        invariant inCol >= 0 ==> LastIndexOf(header[..i], selector) == Some(inCol)
      {
        assert header[..i + 1][..i] == header[..i];
        LastIndexOfIsLast(header[..i], selector);
        if header[i] == selector {
          inCol := i;
        }
      }
      assert header[..|header|] == header;
      LastIndexOfIsLast(header, selector);
    }
    if inCol == -1 {
      return Err(ColumnNotFound(selector));
    }
    if inCol < 0 || inCol >= |header| {
      return Err(ColumnOutOfRange(inCol + 1));
    }
    return Ok(inCol);
  }

  /** What a selector means: a number n in 1..|header| picks index n - 1
    * and any other number is fatal; a non-number picks the last header
    * equal to it, and is fatal when no header is. */
  lemma SelectedColumnMeaning(header: seq<string>, selector: string)
    ensures SelectedColumn(header, selector).Ok? ==> SelectedColumn(header, selector).value < |header|
    ensures Atoi(selector).Some? ==>
      (SelectedColumn(header, selector).Ok? <==> 1 <= Atoi(selector).value <= |header|)
    ensures Atoi(selector).Some? && SelectedColumn(header, selector).Ok? ==>
      SelectedColumn(header, selector).value == Atoi(selector).value - 1
    ensures Atoi(selector).None? ==> (SelectedColumn(header, selector).Ok? <==> selector in header)
    ensures Atoi(selector).None? && SelectedColumn(header, selector).Ok? ==>
      var k := SelectedColumn(header, selector).value;
      header[k] == selector && forall j :: k < j < |header| ==> header[j] != selector
  {
    LastIndexOfIsLast(header, selector);
  }

  /** Selector "0" is refused: it becomes column -1, which reads as "not found". */
  lemma ColumnZeroRejected(header: seq<string>)
    ensures SelectedColumn(header, "0") == Err(ColumnNotFound("0"))
  {
    AtoiItoa(0);
    assert Itoa(0) == "0";
  }

  // ---- Derived column names ----

  /** The base names of the three columns the tool appends. */
  const DerivedBases: seq<string> := ["ips_from_forward_dns", "hostnames_from_reverse_dns", "roundtrip_ok"]

  /** `fmt.Sprintf("%s_%d", base, n)`. */
  function Suffixed(base: string, n: nat): string
  {
    base + "_" + Itoa(n)
  }

  /** `name` is the name a derived column with base `base` gets when the
    * header so far is `before`: the base itself if free, otherwise the base
    * with the least suffix _n (n >= 1) that is free. */
  ghost predicate FreshFor(before: seq<string>, base: string, name: string)
  {
    if base !in before then name == base
    else exists n: nat :: 1 <= n && name == Suffixed(base, n) && name !in before &&
                          forall m: nat :: 1 <= m < n ==> Suffixed(base, m) in before
  }

  /** `names` is the output header: `header` followed by the three derived
    * names, each chosen against the header built so far. */
  ghost predicate Renamed(header: seq<string>, names: seq<string>)
  {
    |names| == |header| + |DerivedBases| && names[..|header|] == header &&
    forall k :: 0 <= k < |DerivedBases| ==>
      FreshFor(names[..|header| + k], DerivedBases[k], names[|header| + k])
  }

  lemma SuffixedInjective(base: string, m: nat, n: nat)
    requires Suffixed(base, m) == Suffixed(base, n)
    ensures m == n
  {
    assert Itoa(m) == Suffixed(base, m)[|base| + 1..];
    assert Itoa(n) == Suffixed(base, n)[|base| + 1..];
    ItoaInjective(m, n);
  }

  lemma {:induction false} SuffixedSetSize(base: string, n: nat)
    requires n >= 1
    ensures |set m: nat | 1 <= m < n :: Suffixed(base, m)| == n - 1
  {
    if n > 1 {
      SuffixedSetSize(base, n - 1);
      var smaller := set m: nat | 1 <= m < n - 1 :: Suffixed(base, m);
      SuffixedSetStep(base, n);
      if Suffixed(base, n - 1) in smaller {
        var m: nat :| 1 <= m < n - 1 && Suffixed(base, m) == Suffixed(base, n - 1);
        SuffixedInjective(base, m, n - 1);
      }
    }
  }

  /** The suffixed names below `n` are those below `n - 1` and one more. */
  lemma SuffixedSetStep(base: string, n: nat)
    requires n > 1
    ensures (set m: nat | 1 <= m < n :: Suffixed(base, m)) ==
      (set m: nat | 1 <= m < n - 1 :: Suffixed(base, m)) + {Suffixed(base, n - 1)}
  {
  }

  lemma {:induction false} ElementsSize(s: seq<string>)
    ensures |set x | x in s| <= |s|
  {
    if s != [] {
      var init := s[..|s| - 1];
      ElementsSize(init);
      assert (set x | x in s) == (set x | x in init) + {s[|s| - 1]};
    }
  }

  /** A header of length L holds at most L of the names base_1, base_2, ...,
    * so the search for a free suffix ends. */
  lemma SuffixBound(names: seq<string>, base: string, n: nat)
    requires n >= 1
    requires forall m :: 1 <= m < n ==> Suffixed(base, m) in names
    ensures n - 1 <= |names|
  {
    var taken := set m: nat | 1 <= m < n :: Suffixed(base, m);
    var present := set x | x in names;
    assert taken <= present;
    SuffixedSetSize(base, n);
    ElementsSize(names);
    assert |present| == |taken| + |present - taken|;
  }

  /** The three derived column names, computed as the source does. */
  method RenameColumns(header: seq<string>) returns (names: seq<string>)
    ensures Renamed(header, names)
  {
    names := header;
    for b := 0 to |DerivedBases|
      invariant |names| == |header| + b && names[..|header|] == header
      invariant forall k :: 0 <= k < b ==>
        FreshFor(names[..|header| + k], DerivedBases[k], names[|header| + k])
    {
      var base := DerivedBases[b];
      var name := base;
      if base in names {
        var spin: nat := 1;
        while Suffixed(base, spin) in names
          invariant 1 <= spin <= |names| + 1
          invariant forall m :: 1 <= m < spin ==> Suffixed(base, m) in names
          decreases |names| + 1 - spin
        {
          SuffixBound(names, base, spin + 1);
          spin := spin + 1;
        }
        name := Suffixed(base, spin);
      }
      ghost var before := names;
      names := names + [name];
      assert names[..|header| + b] == before;
      forall k | 0 <= k < b
        ensures FreshFor(names[..|header| + k], DerivedBases[k], names[|header| + k])
      {
        assert names[..|header| + k] == before[..|header| + k];
      }
    }
  }

  /** Each derived name differs from every column before it, so the output
    * header has no clashes with the input header. */
  lemma RenamedFresh(header: seq<string>, names: seq<string>, k: nat)
    requires Renamed(header, names) && k < |DerivedBases|
    ensures names[|header| + k] !in names[..|header| + k]
  {
    assert FreshFor(names[..|header| + k], DerivedBases[k], names[|header| + k]);
  }

  lemma FreshForUnique(before: seq<string>, base: string, a: string, b: string)
    requires FreshFor(before, base, a) && FreshFor(before, base, b)
    ensures a == b
  {
    if base in before {
      var n1: nat :| 1 <= n1 && a == Suffixed(base, n1) && a !in before &&
        forall m: nat :: 1 <= m < n1 ==> Suffixed(base, m) in before;
      var n2: nat :| 1 <= n2 && b == Suffixed(base, n2) && b !in before &&
        forall m: nat :: 1 <= m < n2 ==> Suffixed(base, m) in before;
    }
  }

  /** The derived names depend on the header alone. */
  lemma RenamedUnique(header: seq<string>, a: seq<string>, b: seq<string>)
    requires Renamed(header, a) && Renamed(header, b)
    ensures a == b
  {
    var h := |header|;
    for k := 0 to |DerivedBases|
      invariant a[..h + k] == b[..h + k]
    {
      FreshForUnique(a[..h + k], DerivedBases[k], a[h + k], b[h + k]);
      assert a[..h + k + 1] == a[..h + k] + [a[h + k]];
      assert b[..h + k + 1] == b[..h + k] + [b[h + k]];
    }
    assert a == a[..h + |DerivedBases|] && b == b[..h + |DerivedBases|];
  }

  // ---- Hostname grammar ----

  /** A character of `[a-zA-Z0-9_-]`. */
  predicate IsLabelChar(c: char)
  {
    'a' <= c <= 'z' || 'A' <= c <= 'Z' || '0' <= c <= '9' || c == '_' || c == '-'
  }

  /** `[a-zA-Z0-9_-]{1,63}`. */
  predicate IsLabel(part: string)
  {
    1 <= |part| <= 63 && forall k :: 0 <= k < |part| ==> IsLabelChar(part[k])
  }

  /** `^[a-zA-Z0-9_-]{1,63}(?:\.[a-zA-Z0-9_-]{1,63})+\.?$`: at least two
    * labels separated by dots, and at most one dot at the end. */
  predicate IsHostname(s: string)
  {
    var body := if |s| > 0 && s[|s| - 1] == '.' then s[..|s| - 1] else s;
    var labels := Split(body, '.');
    |labels| >= 2 && forall k :: 0 <= k < |labels| ==> IsLabel(labels[k])
  }

  lemma {:induction false} SplitEndingInSeparator(s: string, c: char)
    requires |s| > 0 && s[|s| - 1] == c
    ensures Split(s, c)[|Split(s, c)| - 1] == ""
    decreases |s|
  {
    if |s| > 1 {
      SplitEndingInSeparator(s[1..], c);
    }
  }

  lemma {:induction false} JoinCharacters(parts: seq<string>, c: char, x: char)
    requires x in Join(parts, [c])
    ensures x == c || exists k :: 0 <= k < |parts| && x in parts[k]
    decreases |parts|
  {
    if |parts| > 1 {
      if x !in parts[0] && x != c {
        assert x in Join(parts[1..], [c]);
        JoinCharacters(parts[1..], c, x);
        var k :| 0 <= k < |parts[1..]| && x in parts[1..][k];
        assert x in parts[k + 1];
      }
    }
  }

  /** Two or more labels joined by dots form a hostname, with or without
    * one trailing dot. */
  lemma HostnameFromLabels(labels: seq<string>)
    requires |labels| >= 2 && forall k :: 0 <= k < |labels| ==> IsLabel(labels[k])
    ensures IsHostname(Join(labels, "."))
    ensures IsHostname(Join(labels, ".") + ".")
  {
    forall k | 0 <= k < |labels| ensures '.' !in labels[k] {
      forall j | 0 <= j < |labels[k]| ensures labels[k][j] != '.' {
        assert IsLabelChar(labels[k][j]);
      }
    }
    SplitJoin(labels, '.');
    var s := Join(labels, ".");
    if |s| > 0 && s[|s| - 1] == '.' {
      SplitEndingInSeparator(s, '.');
      assert false;
    }
    assert (s + ".")[..|s|] == s;
  }

  /** Every hostname is two or more labels joined by dots, perhaps with one
    * trailing dot. */
  lemma HostnameLabels(s: string)
    requires IsHostname(s)
    ensures var labels := Split(if s[|s| - 1] == '.' then s[..|s| - 1] else s, '.');
      |labels| >= 2 && (forall k :: 0 <= k < |labels| ==> IsLabel(labels[k])) &&
      (s == Join(labels, ".") || s == Join(labels, ".") + ".")
  {
    var body := if s[|s| - 1] == '.' then s[..|s| - 1] else s;
    JoinSplit(body, '.');
    assert s == body || s == body + ".";
  }

  /** A hostname consists of label characters and dots only. */
  lemma HostnameCharacters(s: string, i: nat)
    requires IsHostname(s) && i < |s|
    ensures s[i] == '.' || IsLabelChar(s[i])
  {
    var body := if s[|s| - 1] == '.' then s[..|s| - 1] else s;
    if i < |body| {
      assert s[i] == body[i];
      var labels := Split(body, '.');
      assert body == Join(labels, ".") by {
        JoinSplit(body, '.');
      }
      LabelsCharacters(labels, body[i]);
    }
  }

  /** Labels joined by dots contain label characters and dots only. */
  lemma LabelsCharacters(labels: seq<string>, x: char)
    requires forall k :: 0 <= k < |labels| ==> IsLabel(labels[k])
    requires x in Join(labels, ".")
    ensures x == '.' || IsLabelChar(x)
  {
    JoinCharacters(labels, '.', x);
    if x != '.' {
      var k :| 0 <= k < |labels| && x in labels[k];
      var j :| 0 <= j < |labels[k]| && labels[k][j] == x;
      assert IsLabelChar(labels[k][j]);
    }
  }

  // ---- Classification ----

  /** How the driver treats the selected cell of a row. */
  datatype Kind = Address(canonical: string) | Hostname(name: string) | Invalid

  /** Trim the cell; an IP address (in its canonical text) goes to
    * `handleIP`, else a grammatical hostname goes to `handleName`, else the
    * row is discarded. `parseIP` stands for `net.ParseIP` followed by
    * `String()`. */
  function Classify(parseIP: string -> Option<string>, cell: string): (k: Kind)
    ensures k.Address? <==> parseIP(TrimSpace(cell)).Some?
    ensures k.Address? ==> parseIP(TrimSpace(cell)) == Some(k.canonical)
    ensures k.Hostname? <==> parseIP(TrimSpace(cell)).None? && IsHostname(TrimSpace(cell))
    ensures k.Hostname? ==> k.name == TrimSpace(cell)
  {
    var input := TrimSpace(cell);
    match parseIP(input)
    case Some(canonical) => Address(canonical)
    case None => if IsHostname(input) then Hostname(input) else Invalid
  }

  /** White space around a cell never changes how it is treated: the cell
    * and its trimmed form are classified alike. */
  lemma ClassifyIgnoresEdgeSpace(parseIP: string -> Option<string>, cell: string)
    ensures Classify(parseIP, cell) == Classify(parseIP, TrimSpace(cell))
  {
    TrimSpaceIdempotent(cell);
  }

  /** A white-space character in front of a cell changes nothing. */
  lemma ClassifyPadded(parseIP: string -> Option<string>, c: char, cell: string)
    requires IsSpace(c)
    ensures Classify(parseIP, [c] + cell) == Classify(parseIP, cell)
  {
    TrimSpaceSkipsLeading(c, cell);
    ClassifyIgnoresEdgeSpace(parseIP, [c] + cell);
    ClassifyIgnoresEdgeSpace(parseIP, cell);
  }

  /** A cell resolved by name holds no white space at all. */
  lemma HostnameHasNoSpace(parseIP: string -> Option<string>, cell: string, i: nat)
    requires Classify(parseIP, cell).Hostname? && i < |Classify(parseIP, cell).name|
    ensures !IsSpace(Classify(parseIP, cell).name[i])
  {
    HostnameCharacters(Classify(parseIP, cell).name, i);
  }

  /** The rows that are resolved, in input order. */
  function Kept(parseIP: string -> Option<string>, rows: seq<seq<string>>, col: nat): seq<seq<string>>
    requires forall i :: 0 <= i < |rows| ==> col < |rows[i]|
  {
    if rows == [] then []
    else
      var last := rows[|rows| - 1];
      Kept(parseIP, rows[..|rows| - 1], col) + if Classify(parseIP, last[col]).Invalid? then [] else [last]
  }

  /** The rows that are discarded, in input order. */
  function Discarded(parseIP: string -> Option<string>, rows: seq<seq<string>>, col: nat): seq<seq<string>>
    requires forall i :: 0 <= i < |rows| ==> col < |rows[i]|
  {
    if rows == [] then []
    else
      var last := rows[|rows| - 1];
      Discarded(parseIP, rows[..|rows| - 1], col) + if Classify(parseIP, last[col]).Invalid? then [last] else []
  }

  /** Every row is either kept or discarded, and none is lost. */
  lemma {:induction false} KeptDiscardedPartition(parseIP: string -> Option<string>, rows: seq<seq<string>>, col: nat)
    requires forall i :: 0 <= i < |rows| ==> col < |rows[i]|
    ensures |Kept(parseIP, rows, col)| + |Discarded(parseIP, rows, col)| == |rows|
    ensures multiset(Kept(parseIP, rows, col)) + multiset(Discarded(parseIP, rows, col)) == multiset(rows)
    decreases |rows|
  {
    if rows != [] {
      var init := rows[..|rows| - 1];
      KeptDiscardedPartition(parseIP, init, col);
      PartitionStep(parseIP, rows, col);
      MultisetOfLast(rows);
    }
  }

  lemma MultisetOfLast<T>(s: seq<T>)
    requires s != []
    ensures multiset(s) == multiset(s[..|s| - 1]) + multiset{s[|s| - 1]}
  {
    assert s == s[..|s| - 1] + [s[|s| - 1]];
  }

  /** The last row goes to exactly one of the two lists. */
  lemma PartitionStep(parseIP: string -> Option<string>, rows: seq<seq<string>>, col: nat)
    requires rows != [] && forall i :: 0 <= i < |rows| ==> col < |rows[i]|
    ensures var init, last := rows[..|rows| - 1], rows[|rows| - 1];
      multiset(Kept(parseIP, rows, col)) + multiset(Discarded(parseIP, rows, col)) ==
        multiset(Kept(parseIP, init, col)) + multiset(Discarded(parseIP, init, col)) + multiset{last} &&
      |Kept(parseIP, rows, col)| + |Discarded(parseIP, rows, col)| ==
        |Kept(parseIP, init, col)| + |Discarded(parseIP, init, col)| + 1
  {
  }

  /** Every kept row has an address or a hostname in its selected cell. */
  lemma {:induction false} KeptAreResolvable(parseIP: string -> Option<string>, rows: seq<seq<string>>, col: nat)
    requires forall i :: 0 <= i < |rows| ==> col < |rows[i]|
    ensures forall i :: 0 <= i < |Kept(parseIP, rows, col)| ==>
      col < |Kept(parseIP, rows, col)[i]| && !Classify(parseIP, Kept(parseIP, rows, col)[i][col]).Invalid?
    decreases |rows|
  {
    if rows != [] {
      var init := rows[..|rows| - 1];
      KeptAreResolvable(parseIP, init, col);
      var k, k0 := Kept(parseIP, rows, col), Kept(parseIP, init, col);
      forall i | 0 <= i < |k| ensures col < |k[i]| && !Classify(parseIP, k[i][col]).Invalid? {
        if i < |k0| {
          assert k[i] == k0[i];
        } else {
          assert k[i] == rows[|rows| - 1];
        }
      }
    }
  }

  /** Every discarded row has neither an address nor a hostname in its
    * selected cell. */
  lemma {:induction false} DiscardedAreInvalid(parseIP: string -> Option<string>, rows: seq<seq<string>>, col: nat)
    requires forall i :: 0 <= i < |rows| ==> col < |rows[i]|
    ensures forall i :: 0 <= i < |Discarded(parseIP, rows, col)| ==>
      col < |Discarded(parseIP, rows, col)[i]| && Classify(parseIP, Discarded(parseIP, rows, col)[i][col]).Invalid?
    decreases |rows|
  {
    if rows != [] {
      var init := rows[..|rows| - 1];
      DiscardedAreInvalid(parseIP, init, col);
      var d, d0 := Discarded(parseIP, rows, col), Discarded(parseIP, init, col);
      forall i | 0 <= i < |d| ensures col < |d[i]| && Classify(parseIP, d[i][col]).Invalid? {
        if i < |d0| {
          assert d[i] == d0[i];
        } else {
          assert d[i] == rows[|rows| - 1];
        }
      }
    }
  }

  /** The verdict field: "yes" or "no". */
  function YesNo(ok: bool): string
  {
    if ok then "yes" else "no"
  }

  /** The three fields a resolved row gets: forward, reverse, and "yes" or
    * "no" as the resolver's verdict. */
  ghost predicate Outcome(r: Resolver, kind: Kind, fields: seq<string>)
  {
    |fields| == 3 &&
    match kind
    case Address(ip) => exists names, ok :: IPRun(r, ip, names, fields[0], fields[1], ok) && fields[2] == YesNo(ok)
    case Hostname(name) => exists addrs, ok :: NameRun(r, name, addrs, fields[0], fields[1], ok) && fields[2] == YesNo(ok)
    case Invalid => false
  }

  /** `processed` holds, in order, each kept row followed by its three
    * derived fields. */
  ghost predicate ResolvedRows(r: Resolver, parseIP: string -> Option<string>, rows: seq<seq<string>>, col: nat,
                               processed: seq<seq<string>>)
    requires forall i :: 0 <= i < |rows| ==> col < |rows[i]|
  {
    FieldsFollow(r, parseIP, Kept(parseIP, rows, col), col, processed)
  }

  /** `processed` holds, in order, each row of `kept` followed by its three
    * derived fields. */
  ghost predicate FieldsFollow(r: Resolver, parseIP: string -> Option<string>, kept: seq<seq<string>>, col: nat,
                               processed: seq<seq<string>>)
  {
    |processed| == |kept| &&
    forall i :: 0 <= i < |processed| ==>
      |processed[i]| == |kept[i]| + 3 && processed[i][..|kept[i]|] == kept[i] && col < |kept[i]| &&
      Outcome(r, Classify(parseIP, kept[i][col]), processed[i][|kept[i]|..])
  }

  /** Resolve one cell as the loop body does. */
  method ResolveCell(r: Resolver, parseIP: string -> Option<string>, cell: string)
    returns (kept: bool, fields: seq<string>)
    ensures kept <==> !Classify(parseIP, cell).Invalid?
    ensures kept ==> Outcome(r, Classify(parseIP, cell), fields)
  {
    var input := TrimSpace(cell);
    var ip := parseIP(input);
    var forward, reverse, ok;
    if ip.Some? {
      ghost var names;
      forward, reverse, ok, names := HandleIP(r, ip.value);
    } else if IsHostname(input) {
      ghost var addrs;
      forward, reverse, ok, addrs := HandleName(r, input);
    } else {
      return false, [];
    }
    var roundtripOK := YesNo(ok);
    fields := [forward, reverse, roundtripOK];
    assert fields[0] == forward && fields[1] == reverse && fields[2] == YesNo(ok);
    return true, fields;
  }

  /** The main loop: every row is resolved or discarded, in input order. */
  method ResolveRows(r: Resolver, parseIP: string -> Option<string>, rows: seq<seq<string>>, col: nat)
    returns (processed: seq<seq<string>>, discarded: seq<seq<string>>)
    requires forall i :: 0 <= i < |rows| ==> col < |rows[i]|
    ensures discarded == Discarded(parseIP, rows, col)
    ensures ResolvedRows(r, parseIP, rows, col, processed)
  {
    processed, discarded := [], [];
    for n := 0 to |rows|
      invariant discarded == Discarded(parseIP, rows[..n], col)
      invariant ResolvedRows(r, parseIP, rows[..n], col, processed)
    {
      var record := rows[n];
      var kept, fields := ResolveCell(r, parseIP, record[col]);
      KeptStep(parseIP, rows, col, n);
      DiscardedStep(parseIP, rows, col, n);
      if !kept {
        discarded := discarded + [record];
      } else {
        FieldsAppend(r, parseIP, Kept(parseIP, rows[..n], col), col, processed, record, fields);
        processed := processed + [record + fields];
      }
    }
    assert rows[..|rows|] == rows;
  }

  /** The kept rows of a longer prefix. */
  lemma KeptStep(parseIP: string -> Option<string>, rows: seq<seq<string>>, col: nat, n: nat)
    requires forall i :: 0 <= i < |rows| ==> col < |rows[i]|
    requires n < |rows|
    ensures Kept(parseIP, rows[..n + 1], col) ==
      Kept(parseIP, rows[..n], col) + if Classify(parseIP, rows[n][col]).Invalid? then [] else [rows[n]]
  {
    var prefix := rows[..n + 1];
    assert prefix[..n] == rows[..n] && prefix[n] == rows[n];
  }

  /** The discarded rows of a longer prefix. */
  lemma DiscardedStep(parseIP: string -> Option<string>, rows: seq<seq<string>>, col: nat, n: nat)
    requires forall i :: 0 <= i < |rows| ==> col < |rows[i]|
    requires n < |rows|
    ensures Discarded(parseIP, rows[..n + 1], col) ==
      Discarded(parseIP, rows[..n], col) + if Classify(parseIP, rows[n][col]).Invalid? then [rows[n]] else []
  {
    var prefix := rows[..n + 1];
    assert prefix[..n] == rows[..n] && prefix[n] == rows[n];
  }

  /** A kept row followed by its fields extends the processed rows. */
  lemma FieldsAppend(r: Resolver, parseIP: string -> Option<string>, kept: seq<seq<string>>, col: nat,
                     processed: seq<seq<string>>, record: seq<string>, fields: seq<string>)
    requires FieldsFollow(r, parseIP, kept, col, processed)
    requires col < |record| && Outcome(r, Classify(parseIP, record[col]), fields)
    ensures FieldsFollow(r, parseIP, kept + [record], col, processed + [record + fields])
  {
    var after := kept + [record];
    var longer := processed + [record + fields];
    forall i | 0 <= i < |longer|
      ensures |longer[i]| == |after[i]| + 3 && longer[i][..|after[i]|] == after[i] && col < |after[i]|
      ensures Outcome(r, Classify(parseIP, after[i][col]), longer[i][|after[i]|..])
    {
      if i == |processed| {
        assert (record + fields)[..|record|] == record && (record + fields)[|record|..] == fields;
      } else {
        assert longer[i] == processed[i] && after[i] == kept[i];
      }
    }
  }

  /** The output of a run: the header to write, the resolved rows, and the
    * discarded rows. */
  datatype Table = Table(header: seq<string>, rows: seq<seq<string>>, discarded: seq<seq<string>>)

  /** `process`: fatal errors first (no header, a row of the wrong width,
    * a selector that selects nothing), then the derived header and the
    * resolved and discarded rows. */
  method Process(r: Resolver, parseIP: string -> Option<string>, records: seq<seq<string>>, selector: string)
    returns (result: Result<Table, Fatal>)
    ensures records == [] ==> result == Err(MissingHeader)
    ensures records != [] && !WidthsAgree(records[0], records[1..]) ==>
      exists i: nat :: FirstBadWidth(records[0], records[1..], i) &&
        result == Err(WidthMismatch(i + 2, |records[1..][i]|, |records[0]|))
    ensures records != [] && WidthsAgree(records[0], records[1..]) ==>
      match SelectedColumn(records[0], selector)
      case Err(e) => result == Err(e)
      case Ok(col) =>
        col < |records[0]| &&
        result.Ok? && Renamed(records[0], result.value.header) &&
        result.value.discarded == Discarded(parseIP, records[1..], col) &&
        ResolvedRows(r, parseIP, records[1..], col, result.value.rows)
  {
    if records == [] {
      return Err(MissingHeader);
    }
    var colNames := records[0];
    var rows := records[1..];
    var bad := CheckWidths(colNames, rows);
    if bad.Some? {
      var i := bad.value;
      return Err(WidthMismatch(i + 2, |rows[i]|, |colNames|));
    }
    var selected := SelectColumn(colNames, selector);
    if selected.Err? {
      return Err(selected.error);
    }
    var inCol := selected.value;
    SelectedColumnMeaning(colNames, selector);
    var newColNames := RenameColumns(colNames);
    var processed, discarded := ResolveRows(r, parseIP, rows, inCol);
    return Ok(Table(newColNames, processed, discarded));
  }
}
