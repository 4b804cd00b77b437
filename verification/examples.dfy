// Worked cases: an end-to-end run of a three-row file (header `id,host`,
// rows for example.com, 192.0.2.5 and "bad host") against a resolver where
// example.com and 192.0.2.5 point at each other, the precedence of the IP
// check over the hostname grammar, the trimming and discarding of cells,
// and the renaming of a clashing derived column. The concrete strings are
// passed in as parameters fixed by a precondition.
module Examples {
  import opened Common
  import opened Text
  import opened StringOrder
  import opened Slices
  import opened Roundtrip
  import opened Driver

  /** The two lookups the example relies on: example.com has the address
    * 192.0.2.5, and that address points back at example.com. */
  predicate RoundTrips(r: Resolver)
  {
    r.lookupHost("example.com") == Found(["192.0.2.5"]) &&
    r.lookupAddr("192.0.2.5") == Found(["example.com"])
  }

  /** An address parser that accepts 192.0.2.5 and rejects the other two
    * cells of the example. */
  predicate Parses(parseIP: string -> Option<string>)
  {
    parseIP("192.0.2.5") == Some("192.0.2.5") &&
    parseIP("example.com") == None && parseIP("bad host") == None
  }

  lemma OrderedSingleton(x: string)
    ensures Ordered({x}) == [x]
  {
    StrictlySortedIsOrdered([x], {x});
  }

  /** A cell that trimming leaves alone and that is not an address is
    * resolved by name exactly when it matches the grammar. */
  lemma ClassifyByGrammar(parseIP: string -> Option<string>, cell: string)
    requires TrimSpace(cell) == cell && parseIP(cell) == None
    ensures IsHostname(cell) ==> Classify(parseIP, cell) == Hostname(cell)
    ensures !IsHostname(cell) ==> Classify(parseIP, cell) == Invalid
  {
  }

  /** Trimming leaves a string alone whose first and last characters are
    * not white space. */
  lemma NoEdgeSpace(s: string)
    requires s != [] && !IsSpace(s[0]) && !IsSpace(s[|s| - 1])
    ensures TrimSpace(s) == s
  {
    assert TrimLeft(s) == s;
  }

  /** A cell with a space inside it never matches the grammar. */
  lemma InnerSpaceNotHostname(cell: string, i: nat)
    requires i < |cell| && cell[i] == ' '
    ensures !IsHostname(cell)
  {
    if IsHostname(cell) {
      HostnameCharacters(cell, i);
      assert false;
    }
  }

  lemma ExampleComIsHostname(s: string)
    requires s == "example.com"
    ensures IsHostname(s)
  {
    assert IsLabel("example") && IsLabel("com");
    HostnameFromLabels(["example", "com"]);
    assert Join(["example", "com"], ".") == s;
  }

  /** An IPv4 address in dotted form also matches the hostname grammar:
    * all-digit labels are allowed. */
  lemma DottedQuadMatchesGrammar(s: string)
    requires s == "192.0.2.1"
    ensures IsHostname(s)
  {
    var labels := ["192", "0", "2", "1"];
    assert IsLabel("192") && IsLabel("0") && IsLabel("2") && IsLabel("1");
    HostnameFromLabels(labels);
    assert Join(labels, ".") == s;
  }

  /** Yet it is classified as an address, because the IP check comes first. */
  lemma DottedQuadIsAddress(parseIP: string -> Option<string>, s: string)
    requires s == "192.0.2.1" && parseIP(s) == Some(s)
    ensures IsHostname(s) && Classify(parseIP, s) == Address(s)
  {
    DottedQuadMatchesGrammar(s);
    NoEdgeSpace(s);
  }

  /** A cell with a character outside the grammar that is not an address is
    * discarded, never resolved. */
  lemma MalformedIsDiscarded(parseIP: string -> Option<string>, s: string)
    requires s == "not a host!" && parseIP(s) == None
    ensures Classify(parseIP, s) == Invalid
  {
    NoEdgeSpace(s);
    InnerSpaceNotHostname(s, 3);
    ClassifyByGrammar(parseIP, s);
  }

  lemma ExampleComKind(parseIP: string -> Option<string>, s: string)
    requires Parses(parseIP) && s == "example.com"
    ensures Classify(parseIP, s) == Hostname(s)
  {
    ExampleComIsHostname(s);
    NoEdgeSpace(s);
    ClassifyByGrammar(parseIP, s);
  }

  /** A leading space does not make a cell malformed: ` example.com` is
    * trimmed and resolved by name. */
  lemma PaddedNameKind(parseIP: string -> Option<string>, s: string)
    requires Parses(parseIP) && s == "example.com"
    ensures Classify(parseIP, [' '] + s) == Hostname(s)
  {
    ClassifyPadded(parseIP, ' ', s);
    ExampleComKind(parseIP, s);
  }

  lemma AddressKind(parseIP: string -> Option<string>, s: string)
    requires Parses(parseIP) && s == "192.0.2.5"
    ensures Classify(parseIP, s) == Address(s)
  {
    NoEdgeSpace(s);
  }

  lemma BadHostKind(parseIP: string -> Option<string>, s: string)
    requires Parses(parseIP) && s == "bad host"
    ensures Classify(parseIP, s) == Invalid
  {
    assert TrimSpace(s) == s by {
      NoEdgeSpace(s);
    }
    assert !IsHostname(s) by {
      InnerSpaceNotHostname(s, 3);
    }
    ClassifyByGrammar(parseIP, s);
  }

  /** Compacting the sorted copy of a one-element slice leaves that element. */
  lemma SingletonCompaction(c: seq<string>, x: string)
    requires IsCompaction(c, SortSeq([x]))
    ensures c == [x]
  {
    assert SortSeq([x]) == [x];
    assert Dedup([x]) == [x];
  }

  /** A second hop over one key that resolves. */
  lemma SingletonHop(lookup: string -> Lookup, x: string, values: seq<string>)
    requires lookup(x) == Found(values)
    ensures FirstFailure(lookup, [x]) == None
    ensures Union(lookup, [x]) == set v | v in values
  {
    assert [x][..0] == [];
  }

  lemma ExampleComNormal(s: string)
    requires s == "example.com"
    ensures Normalize(s) == s
    ensures NormalizeAll([s]) == [s]
  {
  }

  /** The derived fields the example expects of a resolved row. */
  predicate ExpectedFields(f: seq<string>)
  {
    |f| == 3 && f[0] == "192.0.2.5" && f[1] == "example.com" && f[2] == "yes"
  }

  /** Resolving the name example.com. */
  lemma ExampleComRun(r: Resolver, name: string, addrs: seq<string>, forward: string, reverse: string, ok: bool)
    requires RoundTrips(r) && name == "example.com"
    requires NameRun(r, name, addrs, forward, reverse, ok)
    ensures forward == "192.0.2.5" && reverse == "example.com" && ok
  {
    ExampleComNormal(name);
    SingletonCompaction(addrs, "192.0.2.5");
    var g := NormalizedReverse(r);
    assert g("192.0.2.5") == Found(["example.com"]);
    SingletonHop(g, "192.0.2.5", ["example.com"]);
    assert Union(g, addrs) == {"example.com"};
    OrderedSingleton("example.com");
  }

  /** Resolving the address 192.0.2.5. */
  lemma AddressRun(r: Resolver, ip: string, names: seq<string>, forward: string, reverse: string, ok: bool)
    requires RoundTrips(r) && ip == "192.0.2.5"
    requires IPRun(r, ip, names, forward, reverse, ok)
    ensures forward == "192.0.2.5" && reverse == "example.com" && ok
  {
    assert names == ["example.com"] by {
      ExampleComNormal("example.com");
      SingletonCompaction(names, "example.com");
    }
    assert FirstFailure(r.lookupHost, names) == None && Union(r.lookupHost, names) == {"192.0.2.5"} by {
      SingletonHop(r.lookupHost, "example.com", ["192.0.2.5"]);
    }
    OrderedSingleton("192.0.2.5");
  }

  /** The example.com row: forward 192.0.2.5, reverse example.com, "yes". */
  lemma ExampleComRow(r: Resolver, name: string, fields: seq<string>)
    requires RoundTrips(r) && name == "example.com"
    requires Outcome(r, Hostname(name), fields)
    ensures ExpectedFields(fields)
  {
    var addrs, ok :| NameRun(r, name, addrs, fields[0], fields[1], ok) && fields[2] == YesNo(ok);
    ExampleComRun(r, name, addrs, fields[0], fields[1], ok);
  }

  /** The 192.0.2.5 row: forward 192.0.2.5, reverse example.com, "yes". */
  lemma AddressRow(r: Resolver, ip: string, fields: seq<string>)
    requires RoundTrips(r) && ip == "192.0.2.5"
    requires Outcome(r, Address(ip), fields)
    ensures ExpectedFields(fields)
  {
    var names, ok :| IPRun(r, ip, names, fields[0], fields[1], ok) && fields[2] == YesNo(ok);
    AddressRun(r, ip, names, fields[0], fields[1], ok);
  }

  lemma ExampleComRows(r: Resolver, name: string)
    requires RoundTrips(r) && name == "example.com"
    ensures forall f :: Outcome(r, Hostname(name), f) ==> ExpectedFields(f)
  {
    forall f | Outcome(r, Hostname(name), f) ensures ExpectedFields(f) {
      ExampleComRow(r, name, f);
    }
  }

  lemma AddressRows(r: Resolver, ip: string)
    requires RoundTrips(r) && ip == "192.0.2.5"
    ensures forall f :: Outcome(r, Address(ip), f) ==> ExpectedFields(f)
  {
    forall f | Outcome(r, Address(ip), f) ensures ExpectedFields(f) {
      AddressRow(r, ip, f);
    }
  }

  /** One more row extends the kept rows exactly when it is resolvable. */
  lemma KeptAppend(parseIP: string -> Option<string>, rows: seq<seq<string>>, row: seq<string>, col: nat)
    requires forall i :: 0 <= i < |rows| ==> col < |rows[i]|
    requires col < |row|
    ensures forall i :: 0 <= i < |rows + [row]| ==> col < |(rows + [row])[i]|
    ensures Kept(parseIP, rows + [row], col) ==
      Kept(parseIP, rows, col) + if Classify(parseIP, row[col]).Invalid? then [] else [row]
  {
    var longer := rows + [row];
    assert longer[..|longer| - 1] == rows && longer[|longer| - 1] == row;
  }

  /** One more row extends the discarded rows exactly when it is not. */
  lemma DiscardedAppend(parseIP: string -> Option<string>, rows: seq<seq<string>>, row: seq<string>, col: nat)
    requires forall i :: 0 <= i < |rows| ==> col < |rows[i]|
    requires col < |row|
    ensures forall i :: 0 <= i < |rows + [row]| ==> col < |(rows + [row])[i]|
    ensures Discarded(parseIP, rows + [row], col) ==
      Discarded(parseIP, rows, col) + if Classify(parseIP, row[col]).Invalid? then [row] else []
  {
    var longer := rows + [row];
    assert longer[..|longer| - 1] == rows && longer[|longer| - 1] == row;
  }

  /** Two resolvable rows are both kept ... */
  lemma KeptOfTwo(parseIP: string -> Option<string>, a: seq<string>, b: seq<string>, col: nat)
    requires col < |a| && col < |b|
    requires !Classify(parseIP, a[col]).Invalid? && !Classify(parseIP, b[col]).Invalid?
    ensures Kept(parseIP, [a, b], col) == [a, b]
  {
    assert Kept(parseIP, [a], col) == [a] by {
      KeptAppend(parseIP, [], a, col);
      assert [] + [a] == [a] by {}
    }
    KeptAppend(parseIP, [a], b, col);
    assert [a] + [b] == [a, b] by {}
  }

  /** ... and none is discarded. */
  lemma NoneDiscarded(parseIP: string -> Option<string>, a: seq<string>, b: seq<string>, col: nat)
    requires col < |a| && col < |b|
    requires !Classify(parseIP, a[col]).Invalid? && !Classify(parseIP, b[col]).Invalid?
    ensures Discarded(parseIP, [a, b], col) == []
  {
    assert Discarded(parseIP, [a], col) == [] by {
      DiscardedAppend(parseIP, [], a, col);
      assert [] + [a] == [a] by {}
    }
    DiscardedAppend(parseIP, [a], b, col);
    assert [a] + [b] == [a, b] by {}
  }

  /** A third row that is not resolvable leaves the kept rows alone ... */
  lemma KeptOfThree(parseIP: string -> Option<string>, a: seq<string>, b: seq<string>, c: seq<string>, col: nat)
    requires col < |a| && col < |b| && col < |c|
    requires Kept(parseIP, [a, b], col) == [a, b]
    requires Classify(parseIP, c[col]).Invalid?
    ensures Kept(parseIP, [a, b, c], col) == [a, b]
  {
    ThreeRowsWide(a, b, c, col);
    DropLast(a, b, c);
    assert Kept(parseIP, [a, b, c], col) == Kept(parseIP, [a, b], col);
  }

  /** ... and is discarded. */
  lemma DiscardedOfThree(parseIP: string -> Option<string>, a: seq<string>, b: seq<string>, c: seq<string>, col: nat)
    requires col < |a| && col < |b| && col < |c|
    requires Discarded(parseIP, [a, b], col) == []
    requires Classify(parseIP, c[col]).Invalid?
    ensures Discarded(parseIP, [a, b, c], col) == [c]
  {
    ThreeRowsWide(a, b, c, col);
    DropLast(a, b, c);
    assert Discarded(parseIP, [a, b, c], col) == Discarded(parseIP, [a, b], col) + [c];
  }

  /** Three rows all wide enough for column `col`. */
  lemma ThreeRowsWide(a: seq<string>, b: seq<string>, c: seq<string>, col: nat)
    requires col < |a| && col < |b| && col < |c|
    ensures forall i :: 0 <= i < |[a, b, c]| ==> col < |[a, b, c][i]|
  {
    var rows := [a, b, c];
    assert rows[0] == a && rows[1] == b && rows[2] == c;
  }

  /** The first two rows of three. */
  lemma DropLast<T>(x: T, y: T, z: T)
    ensures [x, y, z][..2] == [x, y]
  {
  }

  /** Two kept rows whose derived fields are determined. */
  lemma ResolvedPair(r: Resolver, parseIP: string -> Option<string>, a: seq<string>, b: seq<string>, c: seq<string>,
                     processed: seq<seq<string>>)
    requires |a| == 2 && |b| == 2 && |c| == 2
    requires Kept(parseIP, [a, b, c], 1) == [a, b]
    requires ResolvedRows(r, parseIP, [a, b, c], 1, processed)
    requires forall f :: Outcome(r, Classify(parseIP, a[1]), f) ==> ExpectedFields(f)
    requires forall f :: Outcome(r, Classify(parseIP, b[1]), f) ==> ExpectedFields(f)
    ensures processed == [a + ["192.0.2.5", "example.com", "yes"], b + ["192.0.2.5", "example.com", "yes"]]
  {
    var rows := [a, b, c];
    KeptRowFields(r, parseIP, rows, processed, 0, a);
    KeptRowFields(r, parseIP, rows, processed, 1, b);
    PairOf(processed, a + ["192.0.2.5", "example.com", "yes"], b + ["192.0.2.5", "example.com", "yes"]);
  }

  /** A kept row whose resolution can only give the expected fields is
    * followed by them. */
  lemma KeptRowFields(r: Resolver, parseIP: string -> Option<string>, rows: seq<seq<string>>,
                      processed: seq<seq<string>>, i: nat, row: seq<string>)
    requires forall j :: 0 <= j < |rows| ==> 1 < |rows[j]|
    requires ResolvedRows(r, parseIP, rows, 1, processed)
    requires i < |processed| && Kept(parseIP, rows, 1)[i] == row && |row| == 2
    requires forall f :: Outcome(r, Classify(parseIP, row[1]), f) ==> ExpectedFields(f)
    ensures processed[i] == row + ["192.0.2.5", "example.com", "yes"]
  {
    var p := processed[i];
    assert p[..2] == row && Outcome(r, Classify(parseIP, row[1]), p[2..]);
    RowWithFields(p, row);
  }

  /** A two-element sequence is the display of its two elements. */
  lemma PairOf<T>(p: seq<T>, x: T, y: T)
    requires |p| == 2 && p[0] == x && p[1] == y
    ensures p == [x, y]
  {
  }

  /** The header `id,host` does not clash with any derived name. */
  lemma ScenarioHeader(h: seq<string>, names: seq<string>)
    requires h == ["id", "host"]
    requires Renamed(h, names)
    ensures names == h + DerivedBases
  {
    var expected := h + DerivedBases;
    forall k | 0 <= k < |DerivedBases|
      ensures FreshFor(expected[..|h| + k], DerivedBases[k], expected[|h| + k])
    {
      assert expected[..|h| + k] == h + DerivedBases[..k];
      assert DerivedBases[k] !in expected[..|h| + k];
    }
    assert expected[..|h|] == h;
    RenamedUnique(h, names, expected);
  }

  lemma ScenarioColumn(h: seq<string>, selector: string)
    requires h == ["id", "host"] && selector == "host"
    ensures SelectedColumn(h, selector) == Ok(1)
  {
    AtoiRejectsNonDigit(selector, 1);
    assert LastIndexOf(h, selector) == Some(1);
  }

  /** A kept row of the example followed by its derived fields. */
  lemma RowWithFields(p: seq<string>, row: seq<string>)
    requires |row| == 2 && |p| >= 2 && p[..2] == row && ExpectedFields(p[2..])
    ensures p == row + ["192.0.2.5", "example.com", "yes"]
  {
    assert p == p[..2] + p[2..];
  }

  /** The table of the example, spelled out. */
  lemma ScenarioTable(records: seq<seq<string>>, t: Table)
    requires records == [["id", "host"], ["1", "example.com"], ["2", "192.0.2.5"], ["3", "bad host"]]
    requires t.header == records[0] + DerivedBases
    requires t.rows == [records[1] + ["192.0.2.5", "example.com", "yes"], records[2] + ["192.0.2.5", "example.com", "yes"]]
    requires t.discarded == [records[3]]
    ensures t == Table(
      ["id", "host", "ips_from_forward_dns", "hostnames_from_reverse_dns", "roundtrip_ok"],
      [["1", "example.com", "192.0.2.5", "example.com", "yes"],
       ["2", "192.0.2.5", "192.0.2.5", "example.com", "yes"]],
      [["3", "bad host"]])
  {
    assert records[0] + DerivedBases ==
      ["id", "host", "ips_from_forward_dns", "hostnames_from_reverse_dns", "roundtrip_ok"];
    assert records[1] + ["192.0.2.5", "example.com", "yes"] ==
      ["1", "example.com", "192.0.2.5", "example.com", "yes"];
    assert records[2] + ["192.0.2.5", "example.com", "yes"] ==
      ["2", "192.0.2.5", "192.0.2.5", "example.com", "yes"];
  }

  /** The example.com and 192.0.2.5 rows are kept, the "bad host" row is
    * discarded. */
  lemma ScenarioPartition(parseIP: string -> Option<string>, a: seq<string>, b: seq<string>, c: seq<string>)
    requires Parses(parseIP)
    requires a == ["1", "example.com"] && b == ["2", "192.0.2.5"] && c == ["3", "bad host"]
    ensures Kept(parseIP, [a, b, c], 1) == [a, b] && Discarded(parseIP, [a, b, c], 1) == [c]
  {
    ExampleComKind(parseIP, a[1]);
    AddressKind(parseIP, b[1]);
    BadHostKind(parseIP, c[1]);
    KeptOfTwo(parseIP, a, b, 1);
    NoneDiscarded(parseIP, a, b, 1);
    KeptOfThree(parseIP, a, b, c, 1);
    DiscardedOfThree(parseIP, a, b, c, 1);
  }

  /** Both kept rows get the forward address, the reverse name and "yes". */
  lemma ScenarioRows(r: Resolver, parseIP: string -> Option<string>, a: seq<string>, b: seq<string>, c: seq<string>,
                     processed: seq<seq<string>>)
    requires RoundTrips(r) && Parses(parseIP)
    requires |a| == 2 && |b| == 2 && |c| == 2 && a[1] == "example.com" && b[1] == "192.0.2.5"
    requires Kept(parseIP, [a, b, c], 1) == [a, b]
    requires ResolvedRows(r, parseIP, [a, b, c], 1, processed)
    ensures processed == [a + ["192.0.2.5", "example.com", "yes"], b + ["192.0.2.5", "example.com", "yes"]]
  {
    assert forall f :: Outcome(r, Classify(parseIP, a[1]), f) ==> ExpectedFields(f) by {
      ExampleComKind(parseIP, a[1]);
      ExampleComRows(r, a[1]);
    }
    assert forall f :: Outcome(r, Classify(parseIP, b[1]), f) ==> ExpectedFields(f) by {
      AddressKind(parseIP, b[1]);
      AddressRows(r, b[1]);
    }
    ResolvedPair(r, parseIP, a, b, c, processed);
  }

  /** What `process` promises about the example file determines the whole
    * table. */
  lemma ScenarioOutcome(r: Resolver, parseIP: string -> Option<string>, records: seq<seq<string>>, t: Table)
    requires RoundTrips(r) && Parses(parseIP)
    requires records == [["id", "host"], ["1", "example.com"], ["2", "192.0.2.5"], ["3", "bad host"]]
    requires Renamed(records[0], t.header)
    requires t.discarded == Discarded(parseIP, records[1..], 1)
    requires ResolvedRows(r, parseIP, records[1..], 1, t.rows)
    ensures t == Table(
      ["id", "host", "ips_from_forward_dns", "hostnames_from_reverse_dns", "roundtrip_ok"],
      [["1", "example.com", "192.0.2.5", "example.com", "yes"],
       ["2", "192.0.2.5", "192.0.2.5", "example.com", "yes"]],
      [["3", "bad host"]])
  {
    var rows := records[1..];
    var a, b, c := rows[0], rows[1], rows[2];
    assert rows == [a, b, c];
    ScenarioHeader(records[0], t.header);
    ScenarioPartition(parseIP, a, b, c);
    ScenarioRows(r, parseIP, a, b, c, t.rows);
    ScenarioTable(records, t);
  }

  /** The example file: rows for example.com and 192.0.2.5 are resolved
    * to "yes", and the "bad host" row is discarded. */
  method Scenario(r: Resolver, parseIP: string -> Option<string>, records: seq<seq<string>>)
    returns (result: Result<Table, Fatal>)
    requires RoundTrips(r) && Parses(parseIP)
    requires records == [["id", "host"], ["1", "example.com"], ["2", "192.0.2.5"], ["3", "bad host"]]
    ensures result == Ok(Table(
      ["id", "host", "ips_from_forward_dns", "hostnames_from_reverse_dns", "roundtrip_ok"],
      [["1", "example.com", "192.0.2.5", "example.com", "yes"],
       ["2", "192.0.2.5", "192.0.2.5", "example.com", "yes"]],
      [["3", "bad host"]]))
  {
    assert WidthsAgree(records[0], records[1..]);
    ScenarioColumn(records[0], "host");
    result := Process(r, parseIP, records, "host");
    ScenarioOutcome(r, parseIP, records, result.value);
  }

  /** A derived name always starts with its base. */
  lemma FreshForStartsWithBase(before: seq<string>, base: string, name: string)
    requires FreshFor(before, base, name)
    ensures |base| <= |name| && name[..|base|] == base
  {
  }

  /** A header that already holds `roundtrip_ok` gets `roundtrip_ok_1`
    * as its verdict column when that name is free. */
  lemma VerdictColumnRenamed(header: seq<string>, names: seq<string>)
    requires Renamed(header, names)
    requires "roundtrip_ok" in header && "roundtrip_ok_1" !in header
    ensures names[|header| + 2] == "roundtrip_ok_1"
  {
    var h := |header|;
    var base := "roundtrip_ok";
    assert DerivedBases[2] == base;
    assert names[..h] == header;
    FreshForStartsWithBase(names[..h], DerivedBases[0], names[h]);
    FreshForStartsWithBase(names[..h + 1], DerivedBases[1], names[h + 1]);
    var before := names[..h + 2];
    assert before == header + [names[h], names[h + 1]];
    assert "roundtrip_ok_1" !in before by {
      assert names[h][0] == 'i' && names[h + 1][0] == 'h';
    }
    assert base in before;
    assert Itoa(1) == "1";
    assert Suffixed(base, 1) == "roundtrip_ok_1";
    assert FreshFor(before, base, names[h + 2]);
  }
}
