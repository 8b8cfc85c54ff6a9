/**
  The prefix-and-suffix resolver of `udral_pnp.py`: given the port names of a remote
  node, a service prefix and the suffixes its specification defines per kind, it
  groups the matching ports by instance key (the text between `prefix.` and `.suffix`),
  lists the instances in lexicographic order and rebuilds every port's full name.
  `PortMapping.match` then picks the named ports out of a full assignment.
 */
module UdralPnp {
  import opened Wrappers
  import opened OrderedDict
  import opened Strings
  import opened Ports

  // PortMapping.match

  /** `{k: cp[k] for k in names}`: fails with the first name `cp` lacks (a `KeyError`). */
  function Pick(names: seq<string>, cp: Dict<string, int>): Result<Dict<string, int>, string> {
    if names == [] then Success(Empty())
    else
      match Pick(names[..|names| - 1], cp)
      case Failure(e) => Failure(e)
      case Success(d) =>
        var n := names[|names| - 1];
        if n in cp.items then Success(Put(d, n, cp.items[n])) else Failure(n)
  }

  /** `PortMapping.match(cp)`: the four comprehensions evaluated pub, sub, cln, srv; the first `KeyError` wins. */
  function Match(pm: PortMapping, cp: NonFixedPorts): Result<NonFixedPorts, string> {
    var p, s, c, v := Pick(Values(pm.pub), cp.pub), Pick(Values(pm.sub), cp.sub),
                      Pick(Values(pm.cln), cp.cln), Pick(Values(pm.srv), cp.srv);
    if p.Failure? then Failure(p.error)
    else if s.Failure? then Failure(s.error)
    else if c.Failure? then Failure(c.error)
    else if v.Failure? then Failure(v.error)
    else Success(KindMaps(p.value, s.value, c.value, v.value))
  }

  /** Every name is a key of `cp`. */
  predicate Present(names: seq<string>, cp: Dict<string, int>) {
    forall n :: n in names ==> n in cp.items
  }

  /** The comprehension succeeds exactly when every name is present in `cp`. */
  lemma {:induction false} PickSucceeds(names: seq<string>, cp: Dict<string, int>)
    ensures Pick(names, cp).Success? <==> Present(names, cp)
  {
    if names != [] {
      var names' := names[..|names| - 1];
      assert names == names' + [names[|names| - 1]];
      PickSucceeds(names', cp);
    }
  }

  /** On success it holds the named entries, IDs unchanged, keyed in the order of the names. */
  lemma {:induction false} PickContents(names: seq<string>, cp: Dict<string, int>)
    requires Pick(names, cp).Success?
    ensures var d := Pick(names, cp).value;
            && d.keys == Dedup(names)
            && (forall n :: n in d.items <==> n in names)
            && (forall n :: n in d.items ==> n in cp.items && d.items[n] == cp.items[n])
  {
    if names != [] {
      var names' := names[..|names| - 1];
      var n := names[|names| - 1];
      assert names == names' + [n];
      PickContents(names', cp);
      DedupSnoc(names', n);
    }
  }

  /** A failure reports the first name that `cp` lacks: every name before it is present. */
  lemma {:induction false} PickFailure(names: seq<string>, cp: Dict<string, int>)
    requires Pick(names, cp).Failure?
    ensures exists j :: 0 <= j < |names| && names[j] == Pick(names, cp).error &&
                        names[j] !in cp.items && Present(names[..j], cp)
  {
    var last := |names| - 1;
    var names' := names[..last];
    if Pick(names', cp).Failure? {
      PickFailure(names', cp);
      var j :| 0 <= j < |names'| && names'[j] == Pick(names', cp).error &&
               names'[j] !in cp.items && Present(names'[..j], cp);
      assert names'[..j] == names[..j];
      assert names[j] == names'[j];
    } else {
      PickSucceeds(names', cp);
      assert names[..last] == names';
    }
  }

  /** All named ports of every kind are present. */
  predicate AllPresent(pm: PortMapping, cp: NonFixedPorts) {
    && Present(Values(pm.pub), cp.pub) && Present(Values(pm.sub), cp.sub)
    && Present(Values(pm.cln), cp.cln) && Present(Values(pm.srv), cp.srv)
  }

  /** `match` succeeds exactly when every full name of the mapping is present in the argument's dict of that kind. */
  lemma MatchSucceeds(pm: PortMapping, cp: NonFixedPorts)
    ensures Match(pm, cp).Success? <==> AllPresent(pm, cp)
  {
    PickSucceeds(Values(pm.pub), cp.pub);
    PickSucceeds(Values(pm.sub), cp.sub);
    PickSucceeds(Values(pm.cln), cp.cln);
    PickSucceeds(Values(pm.srv), cp.srv);
  }

  /** On success, the result's dict of kind `k` is that kind's comprehension. */
  lemma MatchKind(pm: PortMapping, cp: NonFixedPorts, k: Kind)
    requires Match(pm, cp).Success?
    ensures Pick(Values(pm.Of(k)), cp.Of(k)).Success?
    ensures Match(pm, cp).value.Of(k) == Pick(Values(pm.Of(k)), cp.Of(k)).value
  {
    match k
    case Pub =>
    case Sub =>
    case Cln =>
    case Srv =>
  }

  /** On success, each kind of the result holds exactly the named entries, with their IDs. */
  lemma MatchContents(pm: PortMapping, cp: NonFixedPorts, k: Kind)
    requires Match(pm, cp).Success?
    ensures var d := Match(pm, cp).value.Of(k);
            && (forall n :: n in d.items <==> n in Values(pm.Of(k)))
            && (forall n :: n in d.items ==> n in cp.Of(k).items && d.items[n] == cp.Of(k).items[n])
  {
    MatchKind(pm, cp, k);
    PickContents(Values(pm.Of(k)), cp.Of(k));
  }

  /** The kind whose comprehension fails first, in the order pub, sub, cln, srv. */
  function FailingKind(pm: PortMapping, cp: NonFixedPorts): (k: Kind)
    requires Match(pm, cp).Failure?
    ensures Pick(Values(pm.Of(k)), cp.Of(k)).Failure?
    ensures Match(pm, cp).error == Pick(Values(pm.Of(k)), cp.Of(k)).error
  {
    if Pick(Values(pm.pub), cp.pub).Failure? then Pub
    else if Pick(Values(pm.sub), cp.sub).Failure? then Sub
    else if Pick(Values(pm.cln), cp.cln).Failure? then Cln
    else Srv
  }

  /** A failure names a port of the mapping that the argument's dict of that kind lacks. */
  lemma MatchFailure(pm: PortMapping, cp: NonFixedPorts)
    requires Match(pm, cp).Failure?
    ensures exists k: Kind :: Match(pm, cp).error in Values(pm.Of(k)) && Match(pm, cp).error !in cp.Of(k).items
  {
    var k := FailingKind(pm, cp);
    PickFailure(Values(pm.Of(k)), cp.Of(k));
  }

  // group

  /** The key `pn[len(prefix) + 1 : -(len(suf) + 1)]`: what lies between `prefix.` and `.suf`. */
  function KeyOf(prefix: string, pn: string, suf: string): string {
    PySlice(pn, |prefix| + 1, -(|suf| + 1))
  }

  /** `pn.startswith(prefix + ".")` and `pn.endswith("." + suf)` */
  predicate Contributes(prefix: string, pn: string, suf: string) {
    StartsWith(pn, prefix + ".") && EndsWith(pn, "." + suf)
  }

  /** One `out.setdefault(key, []).append(suf)` of `group`. */
  datatype Hit = Hit(key: string, suffix: string)

  /** Port `pn` yields hit `h`: the suffix is one of `sufs`, the port carries it, and the key is the one extracted. */
  predicate Yields(prefix: string, pn: string, sufs: seq<string>, h: Hit) {
    h.suffix in sufs && Contributes(prefix, pn, h.suffix) && h.key == KeyOf(prefix, pn, h.suffix)
  }

  /** Inner loop of `group` for one port: its hits, in the iteration order of the suffixes. */
  function PortHits(prefix: string, pn: string, sufs: seq<string>): seq<Hit> {
    if sufs == [] then []
    else
      var suf := sufs[|sufs| - 1];
      PortHits(prefix, pn, sufs[..|sufs| - 1])
        + (if EndsWith(pn, "." + suf) then [Hit(KeyOf(prefix, pn, suf), suf)] else [])
  }

  /** Outer loop of `group`: the hits of all ports starting with `prefix.`, in port order. */
  function Hits(prefix: string, names: seq<string>, sufs: seq<string>): seq<Hit> {
    if names == [] then []
    else
      var pn := names[|names| - 1];
      Hits(prefix, names[..|names| - 1], sufs)
        + (if StartsWith(pn, prefix + ".") then PortHits(prefix, pn, sufs) else [])
  }

  function Append(out: Dict<string, seq<string>>, h: Hit): Dict<string, seq<string>> {
    Put(out, h.key, GetOr(out, h.key, []) + [h.suffix])
  }

  /** The hits appended to `out`, one after the other. */
  function Collect(out: Dict<string, seq<string>>, hs: seq<Hit>): Dict<string, seq<string>> {
    if hs == [] then out else Append(Collect(out, hs[..|hs| - 1]), hs[|hs| - 1])
  }

  /** The dict `group(names, sufs)` returns. */
  function Grouped(prefix: string, names: seq<string>, sufs: seq<string>): Dict<string, seq<string>> {
    Collect(Empty(), Hits(prefix, names, sufs))
  }

  lemma {:induction false} CollectConcat(out: Dict<string, seq<string>>, a: seq<Hit>, b: seq<Hit>)
    ensures Collect(Collect(out, a), b) == Collect(out, a + b)
  {
    if b == [] {
      assert a + b == a;
    } else {
      assert (a + b)[..|a + b| - 1] == a + b[..|b| - 1];
      CollectConcat(out, a, b[..|b| - 1]);
    }
  }

  /** One more suffix: its hit, if the port ends with it, follows those of the suffixes before it. */
  lemma PortHitsSnoc(prefix: string, pn: string, sufs: seq<string>, m: nat)
    requires m < |sufs|
    ensures PortHits(prefix, pn, sufs[..m + 1]) ==
            PortHits(prefix, pn, sufs[..m]) + (if EndsWith(pn, "." + sufs[m]) then [Hit(KeyOf(prefix, pn, sufs[m]), sufs[m])] else [])
  {
    assert sufs[..m + 1][..m] == sufs[..m];
  }

  /** The inner loop of `group`: `for suf in suffixes: if pn.endswith("." + suf): …append(suf)`. */
  method AppendMatches(out: Dict<string, seq<string>>, prefix: string, pn: string, sufs: seq<string>)
    returns (r: Dict<string, seq<string>>)
    ensures r == Collect(out, PortHits(prefix, pn, sufs))
  {
    r := out;
    var m := 0;
    while m < |sufs|
      invariant m <= |sufs|
      invariant r == Collect(out, PortHits(prefix, pn, sufs[..m]))
    {
      var suf := sufs[m];
      PortHitsSnoc(prefix, pn, sufs, m);
      if EndsWith(pn, "." + suf) {
        var key := KeyOf(prefix, pn, suf);
        CollectConcat(out, PortHits(prefix, pn, sufs[..m]), [Hit(key, suf)]);
        assert Collect(r, [Hit(key, suf)]) == Append(r, Hit(key, suf)) by {
          assert [Hit(key, suf)][..0] == [];
        }
        r := Put(r, key, GetOr(r, key, []) + [suf]);
      } else {
        assert PortHits(prefix, pn, sufs[..m]) + [] == PortHits(prefix, pn, sufs[..m]);
      }
      m := m + 1;
    }
    assert sufs[..m] == sufs;
  }

  /** One more port: its hits follow those of the ports before it, if it starts with `prefix.`. */
  lemma HitsSnoc(prefix: string, names: seq<string>, sufs: seq<string>, n: nat)
    requires n < |names|
    ensures Hits(prefix, names[..n + 1], sufs) ==
            Hits(prefix, names[..n], sufs) + (if StartsWith(names[n], prefix + ".") then PortHits(prefix, names[n], sufs) else [])
  {
    assert names[..n + 1][..n] == names[..n];
  }

  /** `group(port_names, suffixes)`: nested loops appending to `out` in place. */
  method GroupPorts(prefix: string, names: seq<string>, sufs: seq<string>) returns (out: Dict<string, seq<string>>)
    ensures out == Grouped(prefix, names, sufs)
  {
    out := Empty();
    var n := 0;
    while n < |names|
      invariant n <= |names|
      invariant out == Collect(Empty(), Hits(prefix, names[..n], sufs))
    {
      var pn := names[n];
      HitsSnoc(prefix, names, sufs, n);
      if StartsWith(pn, prefix + ".") {
        CollectConcat(Empty(), Hits(prefix, names[..n], sufs), PortHits(prefix, pn, sufs));
        out := AppendMatches(out, prefix, pn, sufs);
      } else {
        assert Hits(prefix, names[..n], sufs) + [] == Hits(prefix, names[..n], sufs);
      }
      n := n + 1;
    }
    assert names[..n] == names;
  }

  // What `group` builds.

  /** The keys of the hits, in order. */
  function HitKeys(hs: seq<Hit>): (r: seq<string>)
    ensures |r| == |hs|
    ensures forall j :: 0 <= j < |hs| ==> r[j] == hs[j].key
  {
    if hs == [] then [] else HitKeys(hs[..|hs| - 1]) + [hs[|hs| - 1].key]
  }

  /** The suffixes of the hits with key `key`, in order. */
  function SuffixesFor(hs: seq<Hit>, key: string): seq<string> {
    if hs == [] then []
    else SuffixesFor(hs[..|hs| - 1], key) + (if hs[|hs| - 1].key == key then [hs[|hs| - 1].suffix] else [])
  }

  /** Keys are listed in first-hit order, and each key holds the suffixes of its hits in order. */
  lemma {:induction false} CollectShape(hs: seq<Hit>)
    ensures Collect(Empty(), hs).keys == Dedup(HitKeys(hs))
    ensures forall key :: GetOr(Collect(Empty(), hs), key, []) == SuffixesFor(hs, key)
  {
    if hs != [] {
      var hs' := hs[..|hs| - 1];
      var h := hs[|hs| - 1];
      CollectShape(hs');
      assert HitKeys(hs) == HitKeys(hs') + [h.key];
      DedupSnoc(HitKeys(hs'), h.key);
      forall key
        ensures GetOr(Collect(Empty(), hs), key, []) == SuffixesFor(hs, key)
      {
      }
    }
  }

  lemma {:induction false} SuffixesForMember(hs: seq<Hit>, key: string, suf: string)
    ensures suf in SuffixesFor(hs, key) <==> Hit(key, suf) in hs
  {
    if hs != [] {
      var hs' := hs[..|hs| - 1];
      SuffixesForMember(hs', key, suf);
      assert hs == hs' + [hs[|hs| - 1]];
    }
  }

  lemma {:induction false} PortHitsIff(prefix: string, pn: string, sufs: seq<string>, h: Hit)
    ensures h in PortHits(prefix, pn, sufs) <==>
            h.suffix in sufs && EndsWith(pn, "." + h.suffix) && h.key == KeyOf(prefix, pn, h.suffix)
  {
    if sufs != [] {
      var sufs' := sufs[..|sufs| - 1];
      PortHitsIff(prefix, pn, sufs', h);
      assert sufs == sufs' + [sufs[|sufs| - 1]];
    }
  }

  /** A hit is recorded exactly when some port yields it. */
  lemma {:induction false} HitsIff(prefix: string, names: seq<string>, sufs: seq<string>, h: Hit)
    ensures h in Hits(prefix, names, sufs) <==> exists pn :: pn in names && Yields(prefix, pn, sufs, h)
  {
    if names != [] {
      var names' := names[..|names| - 1];
      var pn := names[|names| - 1];
      var block := if StartsWith(pn, prefix + ".") then PortHits(prefix, pn, sufs) else [];
      assert names == names' + [pn];
      assert Hits(prefix, names, sufs) == Hits(prefix, names', sufs) + block;
      HitsIff(prefix, names', sufs, h);
      PortHitsIff(prefix, pn, sufs, h);
      if h in Hits(prefix, names, sufs) {
        if h in Hits(prefix, names', sufs) {
          var q :| q in names' && Yields(prefix, q, sufs, h);
          assert q in names;
        } else {
          assert h in block;
          assert Yields(prefix, pn, sufs, h);
        }
      }
      if exists q :: q in names && Yields(prefix, q, sufs, h) {
        var q :| q in names && Yields(prefix, q, sufs, h);
        if q in names' {
          assert h in Hits(prefix, names', sufs);
        } else {
          assert q == pn;
          assert h in block;
        }
      }
    }
  }

  // make_item and the result assembly.

  /** `"".join((prefix, f".{k}." if k else ".", suffix))` */
  function MakeName(prefix: string, key: string, suffix: string): string {
    prefix + (if key != "" then "." + key + "." else ".") + suffix
  }

  /** `make_item(k, suffix)` */
  function MakeItem(prefix: string, key: string, suffix: string): (string, string) {
    (suffix, MakeName(prefix, key, suffix))
  }

  /** `dict(make_item(key, s) for s in sufs)` */
  function KindDict(prefix: string, key: string, sufs: seq<string>): Dict<string, string> {
    if sufs == [] then Empty()
    else
      var item := MakeItem(prefix, key, sufs[|sufs| - 1]);
      Put(KindDict(prefix, key, sufs[..|sufs| - 1]), item.0, item.1)
  }

  /** The four groups, one per kind. */
  type KindGroups = KindMaps<seq<string>>

  /** The `PortMapping` built for `key`. */
  function MappingFor(prefix: string, g: KindGroups, key: string): PortMapping {
    KindMaps(KindDict(prefix, key, GetOr(g.pub, key, [])), KindDict(prefix, key, GetOr(g.sub, key, [])),
             KindDict(prefix, key, GetOr(g.cln, key, [])), KindDict(prefix, key, GetOr(g.srv, key, [])))
  }

  /** `{key: PortMapping(…) for key in keys}` */
  function Instances(prefix: string, keys: seq<string>, g: KindGroups): Dict<string, PortMapping> {
    if keys == [] then Empty()
    else Put(Instances(prefix, keys[..|keys| - 1], g), keys[|keys| - 1], MappingFor(prefix, g, keys[|keys| - 1]))
  }

  /** Strictly increasing in Python's string order. */
  predicate Increasing(s: seq<string>) {
    forall i, j :: 0 <= i < j < |s| ==> LexLess(s[i], s[j])
  }

  /** Insert `x` into an increasing list, unless it is already there. */
  function Insert(s: seq<string>, x: string): seq<string> {
    if s == [] then [x]
    else if s[0] == x then s
    else if LexLess(x, s[0]) then [x] + s
    else [s[0]] + Insert(s[1..], x)
  }

  /** `list(sorted(set(xs)))` */
  function SortedSet(xs: seq<string>): seq<string> {
    if xs == [] then [] else Insert(SortedSet(xs[..|xs| - 1]), xs[|xs| - 1])
  }

  /** The four groups of `detect_service_instances`. */
  function Groups(remote: NonFixedPorts, prefix: string,
                  pub: seq<string>, sub: seq<string>, cln: seq<string>, srv: seq<string>): KindGroups {
    KindMaps(Grouped(prefix, remote.pub.keys, pub), Grouped(prefix, remote.sub.keys, sub),
             Grouped(prefix, remote.cln.keys, cln), Grouped(prefix, remote.srv.keys, srv))
  }

  /** `all_keys`: the union of the groups' keys, sorted. */
  function AllKeys(g: KindGroups): seq<string> {
    SortedSet(g.pub.keys + g.sub.keys + g.cln.keys + g.srv.keys)
  }

  /** The result `detect_service_instances(remote, prefix, pub, sub, cln, srv)` returns. */
  function Detect(remote: NonFixedPorts, prefix: string,
                  pub: seq<string>, sub: seq<string>, cln: seq<string>, srv: seq<string>): Dict<string, PortMapping> {
    var g := Groups(remote, prefix, pub, sub, cln, srv);
    Instances(prefix, AllKeys(g), g)
  }

  /**
    `detect_service_instances`: the four calls of `group`, then the sorted comprehension.
    The suffix sets are taken as sequences in their iteration order.
   */
  method DetectServiceInstances(remote: NonFixedPorts, prefix: string,
                                pub: seq<string>, sub: seq<string>, cln: seq<string>, srv: seq<string>)
    returns (r: Dict<string, PortMapping>)
    ensures r == Detect(remote, prefix, pub, sub, cln, srv)
  {
    var gPub := GroupPorts(prefix, remote.pub.keys, pub);
    var gSub := GroupPorts(prefix, remote.sub.keys, sub);
    var gCln := GroupPorts(prefix, remote.cln.keys, cln);
    var gSrv := GroupPorts(prefix, remote.srv.keys, srv);
    var g := KindMaps(gPub, gSub, gCln, gSrv);
    r := Instances(prefix, AllKeys(g), g);
  }

  // Sorting.

  lemma {:induction false} InsertSpec(s: seq<string>, x: string)
    requires Increasing(s)
    ensures Increasing(Insert(s, x))
    ensures forall y :: y in Insert(s, x) <==> y in s || y == x
  {
    if s != [] && s[0] != x && !LexLess(x, s[0]) {
      var t := Insert(s[1..], x);
      assert Increasing(s[1..]) by {
        forall i, j | 0 <= i < j < |s[1..]|
          ensures LexLess(s[1..][i], s[1..][j])
        {
          assert s[1..][i] == s[i + 1] && s[1..][j] == s[j + 1];
        }
      }
      InsertSpec(s[1..], x);
      LexLessTotal(x, s[0]);
      assert forall y :: y in t ==> LexLess(s[0], y) by {
        forall y | y in t
          ensures LexLess(s[0], y)
        {
          if y != x {
            var j :| 1 <= j < |s| && s[j] == y;
          }
        }
      }
      assert forall y :: y in s <==> y == s[0] || y in s[1..] by {
        assert s == [s[0]] + s[1..];
      }
      forall i, j | 0 <= i < j < |[s[0]] + t|
        ensures LexLess(([s[0]] + t)[i], ([s[0]] + t)[j])
      {
        if i == 0 {
          assert ([s[0]] + t)[j] == t[j - 1];
        } else {
          assert ([s[0]] + t)[i] == t[i - 1] && ([s[0]] + t)[j] == t[j - 1];
        }
      }
    } else if s != [] && s[0] != x {
      forall i, j | 0 <= i < j < |[x] + s|
        ensures LexLess(([x] + s)[i], ([x] + s)[j])
      {
        if i == 0 && j > 1 {
          LexLessTransitive(x, s[0], s[j - 1]);
        }
      }
    }
  }

  /** `sorted(set(xs))` is strictly increasing and holds exactly the elements of `xs`. */
  lemma {:induction false} SortedSetSpec(xs: seq<string>)
    ensures Increasing(SortedSet(xs))
    ensures forall y :: y in SortedSet(xs) <==> y in xs
  {
    if xs != [] {
      var xs' := xs[..|xs| - 1];
      assert xs == xs' + [xs[|xs| - 1]];
      SortedSetSpec(xs');
      InsertSpec(SortedSet(xs'), xs[|xs| - 1]);
    }
  }

  lemma IncreasingNoDup(s: seq<string>)
    requires Increasing(s)
    ensures NoDup(s)
  {
    forall i, j | 0 <= i < j < |s|
      ensures s[i] != s[j]
    {
      if s[i] == s[j] {
        LexLessIrreflexive(s[i]);
      }
    }
  }

  // The result assembly.

  lemma {:induction false} KindDictShape(prefix: string, key: string, sufs: seq<string>)
    ensures KindDict(prefix, key, sufs).keys == Dedup(sufs)
    ensures forall s :: s in KindDict(prefix, key, sufs).items <==> s in sufs
    ensures forall s :: s in KindDict(prefix, key, sufs).items ==> KindDict(prefix, key, sufs).items[s] == MakeName(prefix, key, s)
  {
    if sufs != [] {
      var sufs' := sufs[..|sufs| - 1];
      assert sufs == sufs' + [sufs[|sufs| - 1]];
      KindDictShape(prefix, key, sufs');
    }
  }

  lemma InstancesShape(prefix: string, keys: seq<string>, g: KindGroups)
    ensures Instances(prefix, keys, g).keys == Dedup(keys)
    ensures forall key :: key in Instances(prefix, keys, g).items <==> key in keys
    ensures forall key :: key in Instances(prefix, keys, g).items ==> Instances(prefix, keys, g).items[key] == MappingFor(prefix, g, key)
  {
    InstancesKeys(prefix, keys, g);
    InstancesValues(prefix, keys, g);
  }

  lemma {:induction false} InstancesKeys(prefix: string, keys: seq<string>, g: KindGroups)
    ensures Instances(prefix, keys, g).keys == Dedup(keys)
  {
    if keys != [] {
      var keys' := keys[..|keys| - 1];
      var x := keys[|keys| - 1];
      InstancesKeys(prefix, keys', g);
    }
  }

  lemma {:induction false} InstancesValues(prefix: string, keys: seq<string>, g: KindGroups)
    ensures forall key :: key in Instances(prefix, keys, g).items <==> key in keys
    ensures forall key :: key in Instances(prefix, keys, g).items ==> Instances(prefix, keys, g).items[key] == MappingFor(prefix, g, key)
  {
    if keys != [] {
      var keys' := keys[..|keys| - 1];
      var x := keys[|keys| - 1];
      assert keys == keys' + [x];
      InstancesValues(prefix, keys', g);
    }
  }

  /** Some port of `names` yields a hit with key `key`. */
  predicate Provides(prefix: string, names: seq<string>, sufs: seq<string>, key: string) {
    exists pn, suf :: pn in names && suf in sufs && Yields(prefix, pn, sufs, Hit(key, suf))
  }

  /** A key is grouped exactly when some port provides it. */
  lemma GroupedKeyIff(prefix: string, names: seq<string>, sufs: seq<string>, key: string)
    ensures key in Grouped(prefix, names, sufs).items <==> Provides(prefix, names, sufs, key)
  {
    if key in Grouped(prefix, names, sufs).items {
      GroupedKeyProvided(prefix, names, sufs, key);
    }
    if Provides(prefix, names, sufs, key) {
      ProvidedKeyGrouped(prefix, names, sufs, key);
    }
  }

  lemma GroupedKeyProvided(prefix: string, names: seq<string>, sufs: seq<string>, key: string)
    requires key in Grouped(prefix, names, sufs).items
    ensures Provides(prefix, names, sufs, key)
  {
    var hs := Hits(prefix, names, sufs);
    CollectShape(hs);
    assert key in HitKeys(hs);
    var j :| 0 <= j < |hs| && HitKeys(hs)[j] == key;
    var h := hs[j];
    HitsIff(prefix, names, sufs, h);
    var pn :| pn in names && Yields(prefix, pn, sufs, h);
    assert h == Hit(key, h.suffix);
  }

  lemma ProvidedKeyGrouped(prefix: string, names: seq<string>, sufs: seq<string>, key: string)
    requires Provides(prefix, names, sufs, key)
    ensures key in Grouped(prefix, names, sufs).items
  {
    var hs := Hits(prefix, names, sufs);
    var pn, suf :| pn in names && suf in sufs && Yields(prefix, pn, sufs, Hit(key, suf));
    HitsIff(prefix, names, sufs, Hit(key, suf));
    var j :| 0 <= j < |hs| && hs[j] == Hit(key, suf);
    CollectShape(hs);
    assert HitKeys(hs)[j] == key;
  }

  // Properties of the result.

  /**
    The result keys are strictly increasing in Python's string order, and a key is
    present exactly when some port of some kind provides it.
   */
  lemma ResultKeys(remote: NonFixedPorts, prefix: string,
                   pub: seq<string>, sub: seq<string>, cln: seq<string>, srv: seq<string>)
    ensures Increasing(Detect(remote, prefix, pub, sub, cln, srv).keys)
    ensures forall key :: key in Detect(remote, prefix, pub, sub, cln, srv).items <==>
                          exists k: Kind :: Provides(prefix, remote.Of(k).keys, NamesOf(k, pub, sub, cln, srv), key)
  {
    var g := Groups(remote, prefix, pub, sub, cln, srv);
    var keys := AllKeys(g);
    SortedSetSpec(g.pub.keys + g.sub.keys + g.cln.keys + g.srv.keys);
    IncreasingNoDup(keys);
    DedupOfNoDup(keys);
    InstancesShape(prefix, keys, g);
    forall key
      ensures key in Detect(remote, prefix, pub, sub, cln, srv).items <==>
              exists k: Kind :: Provides(prefix, remote.Of(k).keys, NamesOf(k, pub, sub, cln, srv), key)
    {
      GroupedKeyIff(prefix, remote.pub.keys, pub, key);
      GroupedKeyIff(prefix, remote.sub.keys, sub, key);
      GroupedKeyIff(prefix, remote.cln.keys, cln, key);
      GroupedKeyIff(prefix, remote.srv.keys, srv, key);
      if exists k: Kind :: Provides(prefix, remote.Of(k).keys, NamesOf(k, pub, sub, cln, srv), key) {
        var k: Kind :| Provides(prefix, remote.Of(k).keys, NamesOf(k, pub, sub, cln, srv), key);
        match k
        case Pub => assert key in g.pub.keys;
        case Sub => assert key in g.sub.keys;
        case Cln => assert key in g.cln.keys;
        case Srv => assert key in g.srv.keys;
      }
      if key in Detect(remote, prefix, pub, sub, cln, srv).items {
        if key in g.pub.items {
          assert Provides(prefix, remote.Of(Pub).keys, NamesOf(Pub, pub, sub, cln, srv), key);
        } else if key in g.sub.items {
          assert Provides(prefix, remote.Of(Sub).keys, NamesOf(Sub, pub, sub, cln, srv), key);
        } else if key in g.cln.items {
          assert Provides(prefix, remote.Of(Cln).keys, NamesOf(Cln, pub, sub, cln, srv), key);
        } else {
          assert Provides(prefix, remote.Of(Srv).keys, NamesOf(Srv, pub, sub, cln, srv), key);
        }
      }
    }
  }

  /**
    Within one instance, a kind dict lists the suffixes of its hits in the remote
    node's port order (then suffix order within one port), each once, and maps each to
    the name `make_item` rebuilds.
   */
  lemma ResultSlot(remote: NonFixedPorts, prefix: string,
                   pub: seq<string>, sub: seq<string>, cln: seq<string>, srv: seq<string>, key: string, k: Kind)
    requires key in Detect(remote, prefix, pub, sub, cln, srv).items
    ensures var d := Detect(remote, prefix, pub, sub, cln, srv).items[key].Of(k);
            && d.keys == Dedup(SuffixesFor(Hits(prefix, remote.Of(k).keys, NamesOf(k, pub, sub, cln, srv)), key))
            && forall suf :: suf in d.items ==> d.items[suf] == MakeName(prefix, key, suf)
  {
    var g := Groups(remote, prefix, pub, sub, cln, srv);
    InstancesShape(prefix, AllKeys(g), g);
    var hs := Hits(prefix, remote.Of(k).keys, NamesOf(k, pub, sub, cln, srv));
    CollectShape(hs);
    assert GetOr(g.Of(k), key, []) == SuffixesFor(hs, key) by {
      match k
      case Pub =>
      case Sub =>
      case Cln =>
      case Srv =>
    }
    KindDictShape(prefix, key, SuffixesFor(hs, key));
    assert Detect(remote, prefix, pub, sub, cln, srv).items[key].Of(k) == KindDict(prefix, key, SuffixesFor(hs, key)) by {
      match k
      case Pub =>
      case Sub =>
      case Cln =>
      case Srv =>
    }
  }

  /**
    A port contributes exactly when it starts with `prefix.` and ends with `.suf` for a
    suffix of its kind's set: slot `out[key].<k>[suf]` exists exactly when such a port
    of kind `k` has key `key`. So every reported suffix belongs to the caller's set.
   */
  lemma DetectIff(remote: NonFixedPorts, prefix: string,
                  pub: seq<string>, sub: seq<string>, cln: seq<string>, srv: seq<string>,
                  k: Kind, key: string, suf: string)
    ensures (key in Detect(remote, prefix, pub, sub, cln, srv).items &&
             suf in Detect(remote, prefix, pub, sub, cln, srv).items[key].Of(k).items) <==>
            exists pn :: pn in remote.Of(k).keys && Yields(prefix, pn, NamesOf(k, pub, sub, cln, srv), Hit(key, suf))
  {
    var r := Detect(remote, prefix, pub, sub, cln, srv);
    var names := remote.Of(k).keys;
    var sufs := NamesOf(k, pub, sub, cln, srv);
    var hs := Hits(prefix, names, sufs);
    HitsIff(prefix, names, sufs, Hit(key, suf));
    SuffixesForMember(hs, key, suf);
    if key in r.items {
      ResultSlot(remote, prefix, pub, sub, cln, srv, key, k);
    }
    if exists pn :: pn in names && Yields(prefix, pn, sufs, Hit(key, suf)) {
      var pn :| pn in names && Yields(prefix, pn, sufs, Hit(key, suf));
      ResultKeys(remote, prefix, pub, sub, cln, srv);
      assert Provides(prefix, remote.Of(k).keys, NamesOf(k, pub, sub, cln, srv), key);
      ResultSlot(remote, prefix, pub, sub, cln, srv, key, k);
    }
  }

  /** Every suffix of a returned mapping belongs to the caller-supplied set of that kind. */
  lemma SuffixesFromCallerSet(remote: NonFixedPorts, prefix: string,
                              pub: seq<string>, sub: seq<string>, cln: seq<string>, srv: seq<string>,
                              k: Kind, key: string, suf: string)
    requires key in Detect(remote, prefix, pub, sub, cln, srv).items
    requires suf in Detect(remote, prefix, pub, sub, cln, srv).items[key].Of(k).items
    ensures suf in NamesOf(k, pub, sub, cln, srv)
  {
    DetectIff(remote, prefix, pub, sub, cln, srv, k, key, suf);
  }

  /** A non-empty extracted key rebuilds the original port name. */
  lemma MakeNameRebuilds(prefix: string, pn: string, suf: string)
    requires Contributes(prefix, pn, suf) && KeyOf(prefix, pn, suf) != ""
    ensures MakeName(prefix, KeyOf(prefix, pn, suf), suf) == pn
  {
    var a := |prefix| + 1;
    var b := |pn| - (|suf| + 1);
    assert pn[..a] == prefix + ".";
    assert pn[b..] == "." + suf;
    assert 0 <= b && a < b;
    assert KeyOf(prefix, pn, suf) == pn[a..b];
    assert pn == pn[..a] + pn[a..b] + pn[b..];
  }

  /** The unnamed instance: a port `prefix.suf` has the empty key and is rebuilt as itself. */
  lemma UnnamedInstance(prefix: string, suf: string)
    ensures var pn := prefix + "." + suf;
            Contributes(prefix, pn, suf) && KeyOf(prefix, pn, suf) == "" && MakeName(prefix, "", suf) == pn
  {
    var pn := prefix + "." + suf;
    assert pn[..|prefix| + 1] == prefix + ".";
    assert pn[|pn| - |"." + suf|..] == "." + suf;
  }

  /**
    An empty key does not always come from `prefix.suf`: `a..x` carries suffix `x` of
    prefix `a` with the empty key, and is rebuilt as `a.x`, a name the node does not have.
   */
  lemma UnnamedRebuildDiffers(pn: string)
    requires pn == "a..x"
    ensures Contributes("a", pn, "x") && KeyOf("a", pn, "x") == "" && MakeName("a", "", "x") != pn
  {
    assert pn[..2] == "a.";
    assert pn[2..] == ".x";
  }
}
