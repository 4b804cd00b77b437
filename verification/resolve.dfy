// The round-trip resolver: `handleIP` and `handleName` of roundtrip.go.
//
// DNS is abstract. A `Resolver` is a pair of total functions standing for
// `net.LookupAddr` (address to names) and `net.LookupHost` (name to
// addresses); each answers with the strings found or with an error.
module Roundtrip {
  import opened Common
  import opened Text
  import opened StringOrder
  import opened Slices

  datatype Lookup = Found(values: seq<string>) | Failed(message: string)

  datatype Resolver = Resolver(lookupAddr: string -> Lookup, lookupHost: string -> Lookup)

  /** The text `fmt.Sprintf("ERROR: %s", err)` puts in an output field. */
  function ErrorText(message: string): string
  {
    "ERROR: " + message
  }

  /** `strings.TrimSuffix(strings.ToLower(name), ".")`: lower case, and at
    * most one trailing dot removed. */
  function Normalize(name: string): (r: string)
    ensures forall k :: 0 <= k < |r| ==> !IsUpper(r[k])
    ensures |name| > 0 && name[|name| - 1] == '.' ==> r + "." == ToLower(name)
    ensures |name| == 0 || name[|name| - 1] != '.' ==> r == ToLower(name)
  {
    TrimSuffix(ToLower(name), ".")
  }

  function NormalizeAll(names: seq<string>): (r: seq<string>)
    ensures |r| == |names|
    ensures forall k :: 0 <= k < |r| ==> r[k] == Normalize(names[k])
  {
    seq(|names|, k requires 0 <= k < |names| => Normalize(names[k]))
  }

  /** The reverse lookup with every name it finds normalised, as the second
    * hop of `handleName` records them. */
  function NormalizedReverse(r: Resolver): string -> Lookup
  {
    addr => match r.lookupAddr(addr)
            case Found(names) => Found(NormalizeAll(names))
            case Failed(e) => Failed(e)
  }

  /** The strings a lookup contributed: none when it failed. */
  function Values(l: Lookup): set<string>
  {
    if l.Found? then set x | x in l.values else {}
  }

  /** The union of the lookups of all `keys`: the keys of the map the
    * source fills in its second hop. */
  function Union(lookup: string -> Lookup, keys: seq<string>): set<string>
  {
    if keys == [] then {} else Union(lookup, keys[..|keys| - 1]) + Values(lookup(keys[|keys| - 1]))
  }

  /** The message of the first key whose lookup failed, if any. */
  function FirstFailure(lookup: string -> Lookup, keys: seq<string>): Option<string>
  {
    if keys == [] then None
    else match FirstFailure(lookup, keys[..|keys| - 1])
      case Some(e) => Some(e)
      case None =>
        match lookup(keys[|keys| - 1])
        case Failed(e) => Some(e)
        case Found(_) => None
  }

  lemma {:induction false} UnionMembership(lookup: string -> Lookup, keys: seq<string>, x: string)
    ensures x in Union(lookup, keys) <==>
      exists i :: 0 <= i < |keys| && lookup(keys[i]).Found? && x in lookup(keys[i]).values
    decreases |keys|
  {
    if keys != [] {
      var init := keys[..|keys| - 1];
      UnionMembership(lookup, init, x);
      if x in Union(lookup, keys) && x !in Union(lookup, init) {
        var i := |keys| - 1;
        assert lookup(keys[i]).Found? && x in lookup(keys[i]).values;
      }
      if exists i :: 0 <= i < |keys| && lookup(keys[i]).Found? && x in lookup(keys[i]).values {
        var i :| 0 <= i < |keys| && lookup(keys[i]).Found? && x in lookup(keys[i]).values;
        if i < |init| {
          assert init[i] == keys[i];
        }
      }
    }
  }

  /** `FirstFailure` finds the earliest failed lookup, and finds nothing
    * exactly when every lookup succeeds. */
  lemma {:induction false} FirstFailureIsFirst(lookup: string -> Lookup, keys: seq<string>)
    ensures FirstFailure(lookup, keys) == None <==> forall i :: 0 <= i < |keys| ==> lookup(keys[i]).Found?
    ensures FirstFailure(lookup, keys).Some? ==>
      exists i :: 0 <= i < |keys| && lookup(keys[i]) == Failed(FirstFailure(lookup, keys).value) &&
        forall j :: 0 <= j < i ==> lookup(keys[j]).Found?
    decreases |keys|
  {
    if keys != [] {
      var init := keys[..|keys| - 1];
      FirstFailureIsFirst(lookup, init);
      assert forall j :: 0 <= j < |init| ==> init[j] == keys[j];
      if FirstFailure(lookup, init).Some? {
        var i :| 0 <= i < |init| && lookup(init[i]) == Failed(FirstFailure(lookup, init).value) &&
          forall j :: 0 <= j < i ==> lookup(init[j]).Found?;
        assert lookup(keys[i]) == Failed(FirstFailure(lookup, keys).value);
      }
    }
  }

  /** A failure among the first keys is the failure of the whole list. */
  lemma {:induction false} FirstFailurePrefix(lookup: string -> Lookup, keys: seq<string>, n: nat)
    requires n <= |keys| && FirstFailure(lookup, keys[..n]).Some?
    ensures FirstFailure(lookup, keys) == FirstFailure(lookup, keys[..n])
    decreases |keys| - n
  {
    if n < |keys| {
      assert keys[..n + 1][..n] == keys[..n];
      FirstFailurePrefix(lookup, keys, n + 1);
    } else {
      assert keys[..n] == keys;
    }
  }

  /** The second hop of both resolvers: look up every key in turn and
    * collect what is found into a set, giving up at the first failure. */
  method Hop(lookup: string -> Lookup, keys: seq<string>) returns (result: Result<set<string>, string>)
    ensures FirstFailure(lookup, keys).Some? ==> result == Err(FirstFailure(lookup, keys).value)
    ensures FirstFailure(lookup, keys).None? ==> result == Ok(Union(lookup, keys))
  {
    var found: set<string> := {};
    for i := 0 to |keys|
      invariant found == Union(lookup, keys[..i])
      invariant FirstFailure(lookup, keys[..i]) == None
    {
      assert keys[..i + 1][..i] == keys[..i];
      var answer := lookup(keys[i]);
      if answer.Failed? {
        FirstFailurePrefix(lookup, keys, i + 1);
        return Err(answer.message);
      }
      for j := 0 to |answer.values|
        invariant found == Union(lookup, keys[..i]) + Values(Found(answer.values[..j]))
      {
        assert answer.values[..j + 1] == answer.values[..j] + [answer.values[j]];
        found := found + {answer.values[j]};
      }
      assert answer.values[..|answer.values|] == answer.values;
    }
    assert keys[..|keys|] == keys;
    return Ok(found);
  }

  /** Copying the keys of a map into a slice and sorting it: the keys in
    * ascending order, whatever order the map was iterated in. */
  method SortedKeys(keys: set<string>) returns (sorted: seq<string>)
    ensures sorted == Ordered(keys)
  {
    var collected: seq<string> := [];
    var rest := keys;
    while rest != {}
      invariant multiset(collected) + multiset(rest) == multiset(keys)
      decreases |rest|
    {
      var x :| x in rest;
      assert rest == (rest - {x}) + {x};
      assert multiset(rest) == multiset(rest - {x}) + multiset{x};
      collected := collected + [x];
      rest := rest - {x};
    }
    var a := new string[|collected|](k requires 0 <= k < |collected| => collected[k]);
    assert a[..] == collected;
    SortInPlace(a);
    SortedUnique(a[..], Ordered(keys));
    sorted := a[..];
  }

  /** What `handleIP(ip)` may return, given the slice `names` it is left
    * with after `slices.Compact`. */
  ghost predicate IPRun(r: Resolver, ip: string, names: seq<string>, forward: string, reverse: string, ok: bool)
  {
    match r.lookupAddr(ip)
    case Failed(e) => forward == "" && reverse == ErrorText(e) && !ok
    case Found(found) =>
      IsCompaction(names, SortSeq(NormalizeAll(found))) &&
      match FirstFailure(r.lookupHost, names)
      case Some(e) => forward == ErrorText(e) && reverse == "" && !ok
      case None =>
        var ips := Union(r.lookupHost, names);
        ok == (ip in ips) && forward == Join(Ordered(ips), " ") && reverse == Join(names, " ")
  }

  /** Replaces every name of `a` by its normal form, in place. */
  method NormalizeInPlace(a: array<string>)
    modifies a
    ensures a[..] == NormalizeAll(old(a[..]))
  {
    for i := 0 to a.Length
      invariant forall k :: 0 <= k < i ==> a[k] == Normalize(old(a[k]))
      invariant forall k :: i <= k < a.Length ==> a[k] == old(a[k])
    {
      a[i] := Normalize(a[i]);
    }
  }

  /** `handleIP`: reverse-resolve `ip`, normalise, sort and compact the
    * names, forward-resolve each name, and report whether `ip` came back.
    * `names` is the slice the source joins into the reverse field. */
  method HandleIP(r: Resolver, ip: string) returns (forward: string, reverse: string, ok: bool, ghost names: seq<string>)
    ensures r.lookupAddr(ip).Failed? ==> forward == "" && reverse == ErrorText(r.lookupAddr(ip).message) && !ok
    ensures IPRun(r, ip, names, forward, reverse, ok)
  {
    var looked := r.lookupAddr(ip);
    if looked.Failed? {
      return "", ErrorText(looked.message), false, [];
    }
    var found := looked.values;
    var a := new string[|found|](k requires 0 <= k < |found| => found[k]);
    assert a[..] == found;
    NormalizeInPlace(a);
    SortInPlace(a);
    SortedUnique(a[..], SortSeq(NormalizeAll(found)));
    var _ := Compact(a);
    var compacted := a[..];
    names := compacted;
    assert IsCompaction(names, SortSeq(NormalizeAll(found)));
    var hop := Hop(r.lookupHost, compacted);
    if hop.Err? {
      return ErrorText(hop.error), "", false, names;
    }
    var ips := hop.value;
    ok := ip in ips;
    var addresses := SortedKeys(ips);
    forward := Join(addresses, " ");
    reverse := Join(compacted, " ");
  }

  /** What `handleName(name)` may return, given the slice `addrs` it is
    * left with after `slices.Compact`. */
  ghost predicate NameRun(r: Resolver, name: string, addrs: seq<string>, forward: string, reverse: string, ok: bool)
  {
    var query := Normalize(name);
    match r.lookupHost(query)
    case Failed(e) => forward == ErrorText(e) && reverse == "" && !ok
    case Found(found) =>
      IsCompaction(addrs, SortSeq(found)) &&
      match FirstFailure(NormalizedReverse(r), addrs)
      case Some(e) => forward == "" && reverse == ErrorText(e) && !ok
      case None =>
        var hosts := Union(NormalizedReverse(r), addrs);
        ok == (query in hosts) && forward == Join(addrs, " ") && reverse == Join(Ordered(hosts), " ")
  }

  /** `handleName`: normalise `name`, forward-resolve it, sort and compact
    * the addresses, reverse-resolve each, and report whether the normalised
    * name came back. `addrs` is the slice the source joins into the forward
    * field. */
  method HandleName(r: Resolver, name: string) returns (forward: string, reverse: string, ok: bool, ghost addrs: seq<string>)
    ensures r.lookupHost(Normalize(name)).Failed? ==>
      forward == ErrorText(r.lookupHost(Normalize(name)).message) && reverse == "" && !ok
    ensures NameRun(r, name, addrs, forward, reverse, ok)
  {
    var query := Normalize(name);
    var looked := r.lookupHost(query);
    if looked.Failed? {
      return ErrorText(looked.message), "", false, [];
    }
    var found := looked.values;
    var a := new string[|found|](k requires 0 <= k < |found| => found[k]);
    assert a[..] == found;
    SortInPlace(a);
    SortedUnique(a[..], SortSeq(found));
    var _ := Compact(a);
    var compacted := a[..];
    addrs := compacted;
    assert IsCompaction(addrs, SortSeq(found));
    var hop := Hop(NormalizedReverse(r), compacted);
    if hop.Err? {
      return "", ErrorText(hop.error), false, addrs;
    }
    var hostnames := hop.value;
    ok := query in hostnames;
    var hosts := SortedKeys(hostnames);
    forward := Join(compacted, " ");
    reverse := Join(hosts, " ");
  }

  /** The failure at index `i`, when every earlier lookup succeeded, is the
    * one reported: the second hop stops there and aggregates nothing. */
  lemma FirstFailureAt(lookup: string -> Lookup, keys: seq<string>, i: nat)
    requires i < |keys| && lookup(keys[i]).Failed?
    requires forall j :: 0 <= j < i ==> lookup(keys[j]).Found?
    ensures FirstFailure(lookup, keys) == Some(lookup(keys[i]).message)
  {
    FirstFailureIsFirst(lookup, keys);
    var e := FirstFailure(lookup, keys).value;
    var i' :| 0 <= i' < |keys| && lookup(keys[i']) == Failed(e) &&
      forall j :: 0 <= j < i' ==> lookup(keys[j]).Found?;
    assert i' == i;
  }

  /** Normalising the names a reverse lookup finds does not change whether
    * and where it fails. */
  lemma {:induction false} FirstFailureNormalized(r: Resolver, keys: seq<string>)
    ensures FirstFailure(NormalizedReverse(r), keys) == FirstFailure(r.lookupAddr, keys)
    decreases |keys|
  {
    if keys != [] {
      FirstFailureNormalized(r, keys[..|keys| - 1]);
    }
  }

  /** The sorted keys of a map filled from lookups: strictly ascending, and
    * holding exactly the strings some lookup found. */
  lemma OrderedUnion(lookup: string -> Lookup, keys: seq<string>)
    ensures StrictlySorted(Ordered(Union(lookup, keys)))
    ensures forall x :: x in Ordered(Union(lookup, keys)) <==>
      exists i :: 0 <= i < |keys| && lookup(keys[i]).Found? && x in lookup(keys[i]).values
  {
    var u := Union(lookup, keys);
    forall x ensures x in Ordered(u) <==>
      exists i :: 0 <= i < |keys| && lookup(keys[i]).Found? && x in lookup(keys[i]).values
    {
      assert x in Ordered(u) <==> x in multiset(u);
      UnionMembership(lookup, keys, x);
    }
  }

  // ---- handleIP ----

  /** `handleIP` answers yes exactly when every lookup succeeded and `ip`
    * is among the addresses of one of the names its reverse lookup gave. */
  lemma IPVerdict(r: Resolver, ip: string, names: seq<string>, forward: string, reverse: string, ok: bool)
    requires IPRun(r, ip, names, forward, reverse, ok)
    ensures ok <==>
      r.lookupAddr(ip).Found? &&
      (forall i :: 0 <= i < |names| ==> r.lookupHost(names[i]).Found?) &&
      exists i :: 0 <= i < |names| && ip in r.lookupHost(names[i]).values
  {
    if r.lookupAddr(ip).Found? {
      FirstFailureIsFirst(r.lookupHost, names);
      UnionMembership(r.lookupHost, names, ip);
    }
  }

  /** On success the forward field joins the union of all forward lookups,
    * strictly ascending; the reverse field joins the compacted names. */
  lemma IPFields(r: Resolver, ip: string, names: seq<string>, forward: string, reverse: string, ok: bool)
    requires IPRun(r, ip, names, forward, reverse, ok)
    requires r.lookupAddr(ip).Found? && forall i :: 0 <= i < |names| ==> r.lookupHost(names[i]).Found?
    ensures reverse == Join(names, " ")
    ensures exists addresses ::
      forward == Join(addresses, " ") && StrictlySorted(addresses) &&
      forall x :: x in addresses <==> exists i :: 0 <= i < |names| && x in r.lookupHost(names[i]).values
  {
    FirstFailureIsFirst(r.lookupHost, names);
    OrderedUnion(r.lookupHost, names);
  }

  /** A failed reverse lookup fills the reverse field with the error; a
    * failed forward lookup of any name, the first one failing, fills the
    * forward field with its error. */
  lemma IPErrors(r: Resolver, ip: string, names: seq<string>, forward: string, reverse: string, ok: bool, i: nat)
    requires IPRun(r, ip, names, forward, reverse, ok)
    requires r.lookupAddr(ip).Found?
    requires i < |names| && r.lookupHost(names[i]).Failed?
    requires forall j :: 0 <= j < i ==> r.lookupHost(names[j]).Found?
    ensures forward == ErrorText(r.lookupHost(names[i]).message) && reverse == "" && !ok
  {
    FirstFailureAt(r.lookupHost, names, i);
  }

  /** Every name `handleIP` looks up is a normalised reverse-lookup name,
    * or the "" newer Go versions leave in the compacted tail. */
  lemma IPNamesLookedUp(r: Resolver, ip: string, names: seq<string>, forward: string, reverse: string, ok: bool, i: nat)
    requires IPRun(r, ip, names, forward, reverse, ok)
    requires r.lookupAddr(ip).Found? && i < |names|
    ensures names[i] == "" || names[i] in NormalizeAll(r.lookupAddr(ip).values)
  {
    var s := NormalizeAll(r.lookupAddr(ip).values);
    CompactionElements(names, SortSeq(s), i);
    assert names[i] in SortSeq(s) ==> names[i] in multiset(s);
  }

  /** Conversely, every name the reverse lookup found, once normalised,
    * is among the names handed to the forward lookups. */
  lemma IPNamesCovered(r: Resolver, ip: string, names: seq<string>, forward: string, reverse: string, ok: bool, x: string)
    requires IPRun(r, ip, names, forward, reverse, ok)
    requires r.lookupAddr(ip).Found? && x in NormalizeAll(r.lookupAddr(ip).values)
    ensures x in names
  {
    var s := NormalizeAll(r.lookupAddr(ip).values);
    assert x in multiset(SortSeq(s));
    CompactionCovers(names, SortSeq(s), x);
  }

  /** When the reverse lookup yields no name twice (after normalisation),
    * nothing is compacted and `handleIP` has exactly one outcome. */
  lemma IPRunUnique(r: Resolver, ip: string,
                    names1: seq<string>, forward1: string, reverse1: string, ok1: bool,
                    names2: seq<string>, forward2: string, reverse2: string, ok2: bool)
    requires IPRun(r, ip, names1, forward1, reverse1, ok1)
    requires IPRun(r, ip, names2, forward2, reverse2, ok2)
    requires r.lookupAddr(ip).Found? && Distinct(NormalizeAll(r.lookupAddr(ip).values))
    ensures names1 == names2 && forward1 == forward2 && reverse1 == reverse2 && ok1 == ok2
  {
    var s := NormalizeAll(r.lookupAddr(ip).values);
    SortedDistinctIsStrict(SortSeq(s), s);
    CompactionOfStrict(names1, SortSeq(s));
    CompactionOfStrict(names2, SortSeq(s));
  }

  /** The compaction's result is discarded, so two reverse names that
    * normalise alike are not merged: the slice keeps its length and its
    * second cell is either "" or the same name again. */
  lemma IPDuplicateKept(r: Resolver, ip: string, names: seq<string>, forward: string, reverse: string, ok: bool)
    requires IPRun(r, ip, names, forward, reverse, ok)
    requires r.lookupAddr(ip).Found? && |r.lookupAddr(ip).values| == 2
    requires Normalize(r.lookupAddr(ip).values[0]) == Normalize(r.lookupAddr(ip).values[1])
    ensures var n := Normalize(r.lookupAddr(ip).values[0]);
      names == [n, ""] || names == [n, n]
  {
    var n := Normalize(r.lookupAddr(ip).values[0]);
    var s := NormalizeAll(r.lookupAddr(ip).values);
    assert s == [n, n];
    SortedPair(n);
    PairCompaction(names, n);
  }

  /** Sorting two equal names leaves them as they are. */
  lemma SortedPair(n: string)
    ensures SortSeq([n, n]) == [n, n]
  {
    LessEqReflexive(n);
    SortedUnique([n, n], SortSeq([n, n]));
  }

  /** The two possible contents of a compacted pair of equal strings. */
  lemma PairCompaction(c: seq<string>, n: string)
    requires IsCompaction(c, [n, n])
    ensures c == [n, ""] || c == [n, n]
  {
    assert Dedup([n, n]) == [n] by {
      assert [n, n][..1] == [n];
    }
    assert c[0] == c[..1][0] == n;
    if c[1] == "" {
      assert c == [n, ""];
    } else {
      assert c == [n, n];
    }
  }

  // ---- handleName ----

  /** `handleName` answers yes exactly when every lookup succeeded and one
    * of the names found for the addresses of `name` normalises to the
    * same string as `name`. */
  lemma NameVerdict(r: Resolver, name: string, addrs: seq<string>, forward: string, reverse: string, ok: bool)
    requires NameRun(r, name, addrs, forward, reverse, ok)
    ensures ok <==>
      r.lookupHost(Normalize(name)).Found? &&
      (forall i :: 0 <= i < |addrs| ==> r.lookupAddr(addrs[i]).Found?) &&
      exists i, k :: 0 <= i < |addrs| && 0 <= k < |r.lookupAddr(addrs[i]).values| &&
        Normalize(r.lookupAddr(addrs[i]).values[k]) == Normalize(name)
  {
    if r.lookupHost(Normalize(name)).Found? {
      FirstFailureNormalized(r, addrs);
      FirstFailureIsFirst(r.lookupAddr, addrs);
      NormalizedUnionMembership(r, addrs, Normalize(name));
    }
  }

  /** A name is among the hostnames `handleName` collects exactly when it
    * is the normalised form of a name some reverse lookup found. */
  lemma NormalizedUnionMembership(r: Resolver, addrs: seq<string>, x: string)
    ensures x in Union(NormalizedReverse(r), addrs) <==>
      exists i, k :: 0 <= i < |addrs| && r.lookupAddr(addrs[i]).Found? && 0 <= k < |r.lookupAddr(addrs[i]).values| &&
        Normalize(r.lookupAddr(addrs[i]).values[k]) == x
  {
    var g := NormalizedReverse(r);
    UnionMembership(g, addrs, x);
    if exists i, k :: 0 <= i < |addrs| && r.lookupAddr(addrs[i]).Found? && 0 <= k < |r.lookupAddr(addrs[i]).values| &&
        Normalize(r.lookupAddr(addrs[i]).values[k]) == x {
      var i, k :| 0 <= i < |addrs| && r.lookupAddr(addrs[i]).Found? && 0 <= k < |r.lookupAddr(addrs[i]).values| &&
        Normalize(r.lookupAddr(addrs[i]).values[k]) == x;
      assert g(addrs[i]).values[k] == x;
    }
    if x in Union(g, addrs) {
      var i :| 0 <= i < |addrs| && g(addrs[i]).Found? && x in g(addrs[i]).values;
      var k :| 0 <= k < |g(addrs[i]).values| && g(addrs[i]).values[k] == x;
      assert Normalize(r.lookupAddr(addrs[i]).values[k]) == x;
    }
  }

  /** On success the reverse field joins the normalised names found for all
    * addresses, strictly ascending; the forward field joins the compacted
    * addresses. */
  lemma NameFields(r: Resolver, name: string, addrs: seq<string>, forward: string, reverse: string, ok: bool)
    requires NameRun(r, name, addrs, forward, reverse, ok)
    requires r.lookupHost(Normalize(name)).Found? && forall i :: 0 <= i < |addrs| ==> r.lookupAddr(addrs[i]).Found?
    ensures forward == Join(addrs, " ")
    ensures exists hosts ::
      reverse == Join(hosts, " ") && StrictlySorted(hosts) &&
      forall x :: x in hosts <==> exists i :: 0 <= i < |addrs| && x in NormalizeAll(r.lookupAddr(addrs[i]).values)
  {
    var g := NormalizedReverse(r);
    assert FirstFailure(g, addrs) == None by {
      FirstFailureNormalized(r, addrs);
      FirstFailureIsFirst(r.lookupAddr, addrs);
    }
    OrderedUnion(g, addrs);
    var hosts := Ordered(Union(g, addrs));
    forall x ensures x in hosts <==> exists i :: 0 <= i < |addrs| && x in NormalizeAll(r.lookupAddr(addrs[i]).values) {
      if x in hosts {
        var i :| 0 <= i < |addrs| && g(addrs[i]).Found? && x in g(addrs[i]).values;
        assert g(addrs[i]).values == NormalizeAll(r.lookupAddr(addrs[i]).values);
      }
      if exists i :: 0 <= i < |addrs| && x in NormalizeAll(r.lookupAddr(addrs[i]).values) {
        var i :| 0 <= i < |addrs| && x in NormalizeAll(r.lookupAddr(addrs[i]).values);
        assert g(addrs[i]) == Found(NormalizeAll(r.lookupAddr(addrs[i]).values));
      }
    }
    assert reverse == Join(hosts, " ");
  }

  /** A failed forward lookup of `name` fills the forward field with the
    * error; the first failed reverse lookup of an address fills the reverse
    * field with its error. */
  lemma NameErrors(r: Resolver, name: string, addrs: seq<string>, forward: string, reverse: string, ok: bool, i: nat)
    requires NameRun(r, name, addrs, forward, reverse, ok)
    requires r.lookupHost(Normalize(name)).Found?
    requires i < |addrs| && r.lookupAddr(addrs[i]).Failed?
    requires forall j :: 0 <= j < i ==> r.lookupAddr(addrs[j]).Found?
    ensures forward == "" && reverse == ErrorText(r.lookupAddr(addrs[i]).message) && !ok
  {
    FirstFailureNormalized(r, addrs);
    FirstFailureAt(r.lookupAddr, addrs, i);
  }

  /** Every address `handleName` reverse-resolves was found for `name`, or
    * is the "" newer Go versions leave in the compacted tail. */
  lemma NameAddrsLookedUp(r: Resolver, name: string, addrs: seq<string>, forward: string, reverse: string, ok: bool, i: nat)
    requires NameRun(r, name, addrs, forward, reverse, ok)
    requires r.lookupHost(Normalize(name)).Found? && i < |addrs|
    ensures addrs[i] == "" || addrs[i] in r.lookupHost(Normalize(name)).values
  {
    var s := r.lookupHost(Normalize(name)).values;
    CompactionElements(addrs, SortSeq(s), i);
    assert addrs[i] in SortSeq(s) ==> addrs[i] in multiset(s);
  }

  /** Conversely, every address the forward lookup found is among the
    * addresses handed to the reverse lookups. */
  lemma NameAddrsCovered(r: Resolver, name: string, addrs: seq<string>, forward: string, reverse: string, ok: bool, x: string)
    requires NameRun(r, name, addrs, forward, reverse, ok)
    requires r.lookupHost(Normalize(name)).Found? && x in r.lookupHost(Normalize(name)).values
    ensures x in addrs
  {
    var s := r.lookupHost(Normalize(name)).values;
    assert x in multiset(SortSeq(s));
    CompactionCovers(addrs, SortSeq(s), x);
  }

  /** When the forward lookup yields no address twice, nothing is compacted
    * and `handleName` has exactly one outcome. */
  lemma NameRunUnique(r: Resolver, name: string,
                      addrs1: seq<string>, forward1: string, reverse1: string, ok1: bool,
                      addrs2: seq<string>, forward2: string, reverse2: string, ok2: bool)
    requires NameRun(r, name, addrs1, forward1, reverse1, ok1)
    requires NameRun(r, name, addrs2, forward2, reverse2, ok2)
    requires r.lookupHost(Normalize(name)).Found? && Distinct(r.lookupHost(Normalize(name)).values)
    ensures addrs1 == addrs2 && forward1 == forward2 && reverse1 == reverse2 && ok1 == ok2
  {
    var s := r.lookupHost(Normalize(name)).values;
    SortedDistinctIsStrict(SortSeq(s), s);
    CompactionOfStrict(addrs1, SortSeq(s));
    CompactionOfStrict(addrs2, SortSeq(s));
  }
}
