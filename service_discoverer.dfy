/**
  Discovery of service instances from the node's own service-discovery registers
  (`service_discoverer.py`). The registry maps a service name to the instance names
  the node declares for it; a port is reported only when its name is exactly
  `instance.suffix` (one dot) for a declared instance, and it is then filed under
  every service that declares that instance. Everything else is ignored.
 */
module ServiceDiscoverer {
  import opened Wrappers
  import opened OrderedDict
  import opened Strings
  import opened Ports
  import opened Grouping

  /** `service_instance_prefixes`: service name to the instance prefixes it declares. */
  type Registry = Dict<string, seq<string>>

  /** `ins.strip(".")` */
  function Trimmed(ins: string): string {
    Strip(ins, {'.'})
  }

  /** `len(components := pn.split(".")) == 2 and ins == components[0]` */
  predicate Fits(pn: string, ins: string) {
    var c := Split(pn, '.');
    |c| == 2 && ins == c[0]
  }

  // The generator `_split`, loop by loop.

  /** Innermost loop: the ports of `names` that belong to instance `ins` of service `svc`. */
  function PortTuples(k: Kind, svc: string, ins: string, names: seq<string>): seq<Entry> {
    if names == [] then []
    else
      var pn := names[|names| - 1];
      PortTuples(k, svc, ins, names[..|names| - 1])
        + (if Fits(pn, ins) then [Entry(k, svc, ins, Split(pn, '.')[1], pn)] else [])
  }

  /** Middle loop: over the declared instances of service `svc`, each stripped of dots. */
  function InstanceTuples(k: Kind, svc: string, inss: seq<string>, names: seq<string>): seq<Entry> {
    if inss == [] then []
    else InstanceTuples(k, svc, inss[..|inss| - 1], names) + PortTuples(k, svc, Trimmed(inss[|inss| - 1]), names)
  }

  /** Outer loop: over the registry's `(service, instances)` pairs, in registry order. */
  function ItemTuples(k: Kind, items: seq<(string, seq<string>)>, names: seq<string>): seq<Entry> {
    if items == [] then []
    else
      var (svc, inss) := items[|items| - 1];
      ItemTuples(k, items[..|items| - 1], names) + InstanceTuples(k, svc, inss, names)
  }

  /** Everything `_split(reg, names)` yields, in order. */
  function SplitTuples(k: Kind, reg: Registry, names: seq<string>): seq<Entry> {
    ItemTuples(k, Items(reg), names)
  }

  /** The innermost loop of `_split`, over the port names for one stripped instance. */
  method MatchPorts(k: Kind, svc: string, ins: string, names: seq<string>) returns (es: seq<Entry>)
    ensures es == PortTuples(k, svc, ins, names)
  {
    es := [];
    var c := 0;
    while c < |names|
      invariant c <= |names|
      invariant es == PortTuples(k, svc, ins, names[..c])
    {
      var pn := names[c];
      var components := Split(pn, '.');
      assert names[..c + 1][..c] == names[..c];
      if |components| == 2 && ins == components[0] {
        es := es + [Entry(k, svc, ins, components[1], pn)];
      }
      c := c + 1;
    }
    assert names[..c] == names;
  }

  /** The middle loop of `_split`, over the declared instances of one service. */
  method MatchInstances(k: Kind, svc: string, inss: seq<string>, names: seq<string>) returns (es: seq<Entry>)
    ensures es == InstanceTuples(k, svc, inss, names)
  {
    es := [];
    var b := 0;
    while b < |inss|
      invariant b <= |inss|
      invariant es == InstanceTuples(k, svc, inss[..b], names)
    {
      var ins := Trimmed(inss[b]);
      var found := MatchPorts(k, svc, ins, names);
      assert inss[..b + 1][..b] == inss[..b];
      es := es + found;
      b := b + 1;
    }
    assert inss[..b] == inss;
  }

  lemma ItemTuplesSnoc(k: Kind, items: seq<(string, seq<string>)>, a: nat, names: seq<string>)
    requires a < |items|
    ensures ItemTuples(k, items[..a + 1], names) ==
            ItemTuples(k, items[..a], names) + InstanceTuples(k, items[a].0, items[a].1, names)
  {
    assert items[..a + 1][..a] == items[..a];
  }

  /** The generator `_split`: the outer loop over the registry's pairs, in registry order. */
  method SplitRegistered(k: Kind, reg: Registry, names: seq<string>) returns (es: seq<Entry>)
    ensures es == SplitTuples(k, reg, names)
  {
    var items := Items(reg);
    es := [];
    var a := 0;
    while a < |items|
      invariant a <= |items|
      invariant es == ItemTuples(k, items[..a], names)
    {
      var (svc, inss) := items[a];
      var found := MatchInstances(k, svc, inss, names);
      ItemTuplesSnoc(k, items, a, names);
      es := es + found;
      a := a + 1;
    }
    assert items[..a] == items;
  }

  /** The stream the four loops of `discover_service_instances` consume: pub, then sub, cln, srv. */
  function Stream(reg: Registry, pub: seq<string>, sub: seq<string>, cln: seq<string>, srv: seq<string>): seq<Entry> {
    SplitTuples(Pub, reg, pub) + SplitTuples(Sub, reg, sub) + SplitTuples(Cln, reg, cln) + SplitTuples(Srv, reg, srv)
  }

  /** The result `discover_service_instances` returns, as a fold over its input. */
  function Discover(reg: Registry, pub: seq<string>, sub: seq<string>, cln: seq<string>, srv: seq<string>): Groups {
    Group(Stream(reg, pub, sub, cln, srv))
  }

  /** `discover_service_instances(reg, pub=…, sub=…, cln=…, srv=…)`: four loops filling `out` in place. */
  method DiscoverServiceInstances(reg: Registry, pub: seq<string>, sub: seq<string>, cln: seq<string>, srv: seq<string>)
    returns (out: Groups)
    ensures out == Discover(reg, pub, sub, cln, srv)
  {
    out := Empty();
    var es := SplitRegistered(Pub, reg, pub);
    out := AssignAll(out, es);
    es := SplitRegistered(Sub, reg, sub);
    out := AssignAll(out, es);
    es := SplitRegistered(Cln, reg, cln);
    out := AssignAll(out, es);
    es := SplitRegistered(Srv, reg, srv);
    out := AssignAll(out, es);
    var a, b, c, d := SplitTuples(Pub, reg, pub), SplitTuples(Sub, reg, sub), SplitTuples(Cln, reg, cln), SplitTuples(Srv, reg, srv);
    GroupFromConcat(Empty(), a, b);
    GroupFromConcat(Empty(), a + b, c);
    GroupFromConcat(Empty(), a + b + c, d);
  }

  // Reference definitions, stated on the inputs alone.

  /** Port `i.suf` is well formed (exactly one dot) and listed in `names`. */
  predicate Reportable(names: seq<string>, i: string, suf: string) {
    '.' !in i && '.' !in suf && i + "." + suf in names
  }

  /** Some declared instance of `inss` strips to `i`. */
  predicate Listed(inss: seq<string>, i: string) {
    exists ins :: ins in inss && Trimmed(ins) == i
  }

  /** The registry declares instance `i` (after stripping) for service `s`. */
  predicate Registered(reg: Registry, s: string, i: string) {
    s in reg.items && Listed(reg.items[s], i)
  }

  /** The same, over a list of registry pairs. */
  predicate RegisteredIn(items: seq<(string, seq<string>)>, s: string, i: string) {
    exists j :: 0 <= j < |items| && items[j].0 == s && Listed(items[j].1, i)
  }

  /** Some port of `names` belongs to instance `ins`. */
  predicate AnyFits(names: seq<string>, ins: string) {
    exists pn :: pn in names && Fits(pn, ins)
  }

  /** The suffixes of the ports of `names` that belong to instance `i`, in order. */
  function FittingSuffixes(names: seq<string>, i: string): seq<string> {
    if names == [] then []
    else
      var pn := names[|names| - 1];
      FittingSuffixes(names[..|names| - 1], i) + (if Fits(pn, i) then [Split(pn, '.')[1]] else [])
  }

  /** The stripped instances of `inss` that own at least one port of `names`, in declaration order. */
  function MatchedInstances(inss: seq<string>, names: seq<string>): seq<string> {
    if inss == [] then []
    else
      var ins := Trimmed(inss[|inss| - 1]);
      MatchedInstances(inss[..|inss| - 1], names) + (if AnyFits(names, ins) then [ins] else [])
  }

  /** The registered services that own at least one port of `names`, in registry order. */
  function MatchedServices(items: seq<(string, seq<string>)>, names: seq<string>): seq<string> {
    if items == [] then []
    else
      var (svc, inss) := items[|items| - 1];
      MatchedServices(items[..|items| - 1], names) + (if MatchedInstances(inss, names) != [] then [svc] else [])
  }

  /** The services of the registry pairs, in order. */
  function KeysOf(items: seq<(string, seq<string>)>): (r: seq<string>)
    ensures |r| == |items|
    ensures forall j :: 0 <= j < |items| ==> r[j] == items[j].0
  {
    seq(|items|, j requires 0 <= j < |items| => items[j].0)
  }

  /**
    `s` holds the elements of `xs` only and, through first occurrences, lists them in
    the order of `xs` when `present` holds, and is empty otherwise.
   */
  predicate OrderedLike(s: seq<string>, xs: seq<string>, present: bool) {
    && (forall y :: y in s ==> y in xs)
    && Dedup(s) == (if present then Dedup(xs) else [])
  }

  // The pattern.

  /** A name splits into `[i, suf]` exactly when it is `i.suf` with no other dot. */
  lemma FitsIff(pn: string, i: string, suf: string)
    ensures Split(pn, '.') == [i, suf] <==> pn == i + "." + suf && '.' !in i && '.' !in suf
  {
    if Split(pn, '.') == [i, suf] {
      JoinSplit(pn, '.');
      assert Join([i, suf], '.') == i + "." + suf;
    }
    if pn == i + "." + suf && '.' !in i && '.' !in suf {
      SplitJoin([i, suf], '.');
      assert Join([i, suf], '.') == i + "." + suf;
    }
  }

  lemma ListedSnoc(inss: seq<string>, i: string)
    requires inss != []
    ensures Listed(inss, i) <==> Listed(inss[..|inss| - 1], i) || Trimmed(inss[|inss| - 1]) == i
  {
    var inss' := inss[..|inss| - 1];
    assert inss == inss' + [inss[|inss| - 1]];
    if Listed(inss', i) {
      var ins :| ins in inss' && Trimmed(ins) == i;
      assert ins in inss;
    }
  }

  lemma RegisteredInSnoc(items: seq<(string, seq<string>)>, s: string, i: string)
    requires items != []
    ensures var last := items[|items| - 1];
            RegisteredIn(items, s, i) <==> RegisteredIn(items[..|items| - 1], s, i) || (last.0 == s && Listed(last.1, i))
  {
    var items' := items[..|items| - 1];
    if RegisteredIn(items, s, i) {
      var j :| 0 <= j < |items| && items[j].0 == s && Listed(items[j].1, i);
      if j < |items'| {
        assert items'[j] == items[j];
      }
    }
    if RegisteredIn(items', s, i) {
      var j :| 0 <= j < |items'| && items'[j].0 == s && Listed(items'[j].1, i);
      assert items[j] == items'[j];
    }
  }

  lemma AnyFitsSnoc(names: seq<string>, ins: string)
    requires names != []
    ensures AnyFits(names, ins) <==> AnyFits(names[..|names| - 1], ins) || Fits(names[|names| - 1], ins)
  {
    var names' := names[..|names| - 1];
    assert names == names' + [names[|names| - 1]];
    if AnyFits(names', ins) {
      var pn :| pn in names' && Fits(pn, ins);
      assert pn in names;
    }
  }

  /** The registry pairs list the registry exactly. */
  lemma RegisteredInItems(reg: Registry, s: string, i: string)
    ensures RegisteredIn(Items(reg), s, i) <==> Registered(reg, s, i)
  {
    var items := Items(reg);
    if Registered(reg, s, i) {
      var j :| 0 <= j < |reg.keys| && reg.keys[j] == s;
      assert items[j].0 == s;
    }
  }

  /** Joining two pieces that are each ordered like `xs` (or empty) gives a piece ordered like `xs`. */
  lemma OrderedLikeJoin(a: seq<string>, b: seq<string>, xs: seq<string>, pa: bool, pb: bool)
    requires OrderedLike(a, xs, pa) && OrderedLike(b, xs, pb)
    ensures OrderedLike(a + b, xs, pa || pb)
  {
    DedupEmpty(a);
    DedupEmpty(b);
    if !pb {
      assert a + b == a;
    } else if !pa {
      assert a + b == b;
    } else {
      assert forall y :: y in b ==> y in a by {
        forall y | y in b
          ensures y in a
        {
          assert y in Dedup(a);
        }
      }
      DedupAppendSeen(a, b);
    }
  }

  /** Pieces with the same first-occurrence orders join to the same first-occurrence order. */
  lemma DedupCongruent(a: seq<string>, b: seq<string>, a': seq<string>, b': seq<string>)
    requires Dedup(a) == Dedup(a') && Dedup(b) == Dedup(b')
    ensures Dedup(a + b) == Dedup(a' + b')
  {
    DedupOfDedup(a, b);
    DedupOfDedup(a', b);
    DedupOfDedupRight(a', b);
    DedupOfDedupRight(a', b');
  }

  /** A run of one element contributes that element once. */
  lemma DedupRunCollapse(a: seq<string>, b: seq<string>, x: string)
    requires b != []
    requires forall j :: 0 <= j < |b| ==> b[j] == x
    ensures Dedup(a + b) == Dedup(a + [x])
  {
    DedupSnoc(a, x);
    if x in a {
      assert forall y :: y in b ==> y in a;
      DedupAppendSeen(a, b);
    } else {
      DedupAppendRun(a, b, x);
    }
  }

  // Innermost loop.

  lemma {:induction false} PortTuplesShape(k: Kind, svc: string, ins: string, names: seq<string>)
    ensures var es := PortTuples(k, svc, ins, names);
            && (forall j :: 0 <= j < |es| ==> es[j].kind == k && es[j].service == svc && es[j].instance == ins)
            && (es != [] <==> AnyFits(names, ins))
  {
    if names != [] {
      PortTuplesShape(k, svc, ins, names[..|names| - 1]);
      AnyFitsSnoc(names, ins);
    }
  }

  lemma {:induction false} LastPortOfPorts(k': Kind, svc: string, ins: string, names: seq<string>,
                                           k: Kind, s: string, i: string, suf: string)
    ensures LastPort(PortTuples(k', svc, ins, names), k, s, i, suf) ==
            if k' == k && svc == s && ins == i && Reportable(names, i, suf) then Some(i + "." + suf) else None
  {
    if names != [] {
      var names' := names[..|names| - 1];
      var pn := names[|names| - 1];
      var block := if Fits(pn, ins) then [Entry(k', svc, ins, Split(pn, '.')[1], pn)] else [];
      LastPortOfPorts(k', svc, ins, names', k, s, i, suf);
      LastPortConcat(PortTuples(k', svc, ins, names'), block, k, s, i, suf);
      FitsIff(pn, i, suf);
      assert names == names' + [pn];
      assert block != [] ==> block[..0] == [];
    }
  }

  lemma {:induction false} SuffixesOfPorts(k': Kind, svc: string, ins: string, names: seq<string>,
                                           k: Kind, s: string, i: string)
    ensures SuffixesOf(PortTuples(k', svc, ins, names), k, s, i) ==
            if k' == k && svc == s && ins == i then FittingSuffixes(names, i) else []
  {
    if names != [] {
      var names' := names[..|names| - 1];
      var pn := names[|names| - 1];
      var block := if Fits(pn, ins) then [Entry(k', svc, ins, Split(pn, '.')[1], pn)] else [];
      SuffixesOfPorts(k', svc, ins, names', k, s, i);
      SuffixesConcat(PortTuples(k', svc, ins, names'), block, k, s, i);
      assert block != [] ==> block[..0] == [];
    }
  }

  // Middle loop.

  lemma {:induction false} InstanceTuplesShape(k: Kind, svc: string, inss: seq<string>, names: seq<string>)
    ensures forall e :: e in InstanceTuples(k, svc, inss, names) ==> e.kind == k && e.service == svc && Listed(inss, e.instance)
  {
    if inss != [] {
      var inss' := inss[..|inss| - 1];
      var x := inss[|inss| - 1];
      var a := InstanceTuples(k, svc, inss', names);
      var b := PortTuples(k, svc, Trimmed(x), names);
      var es := InstanceTuples(k, svc, inss, names);
      assert es == a + b;
      InstanceTuplesShape(k, svc, inss', names);
      PortTuplesShape(k, svc, Trimmed(x), names);
      forall e | e in es
        ensures e.kind == k && e.service == svc && Listed(inss, e.instance)
      {
        ListedSnoc(inss, e.instance);
        if e in a {
          assert Listed(inss', e.instance);
        } else {
          assert e in b;
          var j :| 0 <= j < |b| && b[j] == e;
        }
      }
    }
  }

  lemma {:induction false} InstanceTuplesEmpty(k: Kind, svc: string, inss: seq<string>, names: seq<string>)
    ensures InstanceTuples(k, svc, inss, names) != [] <==> MatchedInstances(inss, names) != []
  {
    if inss != [] {
      var x := inss[|inss| - 1];
      InstanceTuplesEmpty(k, svc, inss[..|inss| - 1], names);
      PortTuplesShape(k, svc, Trimmed(x), names);
    }
  }

  lemma {:induction false} LastPortOfInstances(k': Kind, svc: string, inss: seq<string>, names: seq<string>,
                                               k: Kind, s: string, i: string, suf: string)
    ensures LastPort(InstanceTuples(k', svc, inss, names), k, s, i, suf) ==
            if k' == k && svc == s && Listed(inss, i) && Reportable(names, i, suf) then Some(i + "." + suf) else None
  {
    if inss != [] {
      var inss' := inss[..|inss| - 1];
      var x := inss[|inss| - 1];
      LastPortOfInstances(k', svc, inss', names, k, s, i, suf);
      LastPortConcat(InstanceTuples(k', svc, inss', names), PortTuples(k', svc, Trimmed(x), names), k, s, i, suf);
      LastPortOfPorts(k', svc, Trimmed(x), names, k, s, i, suf);
      ListedSnoc(inss, i);
    }
  }

  lemma {:induction false} SuffixesOfInstances(k': Kind, svc: string, inss: seq<string>, names: seq<string>,
                                               k: Kind, s: string, i: string)
    ensures OrderedLike(SuffixesOf(InstanceTuples(k', svc, inss, names), k, s, i), FittingSuffixes(names, i),
                        k' == k && svc == s && Listed(inss, i))
  {
    if inss != [] {
      var inss' := inss[..|inss| - 1];
      var x := inss[|inss| - 1];
      var a := InstanceTuples(k', svc, inss', names);
      var b := PortTuples(k', svc, Trimmed(x), names);
      SuffixesOfInstances(k', svc, inss', names, k, s, i);
      SuffixesConcat(a, b, k, s, i);
      SuffixesOfPorts(k', svc, Trimmed(x), names, k, s, i);
      ListedSnoc(inss, i);
      OrderedLikeJoin(SuffixesOf(a, k, s, i), SuffixesOf(b, k, s, i), FittingSuffixes(names, i),
                      k' == k && svc == s && Listed(inss', i), k' == k && svc == s && Trimmed(x) == i);
    }
  }

  lemma {:induction false} InstancesOfInstances(k: Kind, svc: string, inss: seq<string>, names: seq<string>, s: string)
    ensures Dedup(InstancesOf(InstanceTuples(k, svc, inss, names), s)) ==
            if svc == s then Dedup(MatchedInstances(inss, names)) else []
  {
    if inss != [] {
      var inss' := inss[..|inss| - 1];
      var x := Trimmed(inss[|inss| - 1]);
      var a := InstanceTuples(k, svc, inss', names);
      var b := PortTuples(k, svc, x, names);
      InstancesOfInstances(k, svc, inss', names, s);
      InstancesConcat(a, b, s);
      PortTuplesShape(k, svc, x, names);
      InstancesOfUniform(b, svc, x, s);
      var xa := InstancesOf(a, s);
      var xb := InstancesOf(b, s);
      var m' := MatchedInstances(inss', names);
      if xb == [] {
        assert xa + xb == xa;
        if svc == s {
          assert !AnyFits(names, x);
          assert MatchedInstances(inss, names) == m';
        }
      } else {
        DedupRunCollapse(xa, xb, x);
        DedupOfDedup(xa, [x]);
        DedupOfDedup(m', [x]);
      }
    }
  }

  // Outer loop.

  lemma {:induction false} ItemTuplesRegistered(k: Kind, items: seq<(string, seq<string>)>, names: seq<string>)
    ensures forall e :: e in ItemTuples(k, items, names) ==> e.kind == k && RegisteredIn(items, e.service, e.instance)
  {
    if items != [] {
      var items' := items[..|items| - 1];
      var (svc, inss) := items[|items| - 1];
      var a := ItemTuples(k, items', names);
      var b := InstanceTuples(k, svc, inss, names);
      var es := ItemTuples(k, items, names);
      assert es == a + b;
      ItemTuplesRegistered(k, items', names);
      InstanceTuplesShape(k, svc, inss, names);
      forall e | e in es
        ensures e.kind == k && RegisteredIn(items, e.service, e.instance)
      {
        RegisteredInSnoc(items, e.service, e.instance);
        if e !in a {
          assert e in b;
          assert items[|items| - 1] == (svc, inss);
        }
      }
    }
  }

  lemma {:induction false} LastPortOfItems(k': Kind, items: seq<(string, seq<string>)>, names: seq<string>,
                                           k: Kind, s: string, i: string, suf: string)
    ensures LastPort(ItemTuples(k', items, names), k, s, i, suf) ==
            if k' == k && RegisteredIn(items, s, i) && Reportable(names, i, suf) then Some(i + "." + suf) else None
  {
    if items != [] {
      var items' := items[..|items| - 1];
      var (svc, inss) := items[|items| - 1];
      LastPortOfItems(k', items', names, k, s, i, suf);
      LastPortConcat(ItemTuples(k', items', names), InstanceTuples(k', svc, inss, names), k, s, i, suf);
      LastPortOfInstances(k', svc, inss, names, k, s, i, suf);
      RegisteredInSnoc(items, s, i);
    }
  }

  lemma {:induction false} SuffixesOfItems(k': Kind, items: seq<(string, seq<string>)>, names: seq<string>,
                                           k: Kind, s: string, i: string)
    ensures OrderedLike(SuffixesOf(ItemTuples(k', items, names), k, s, i), FittingSuffixes(names, i),
                        k' == k && RegisteredIn(items, s, i))
  {
    if items != [] {
      var items' := items[..|items| - 1];
      var (svc, inss) := items[|items| - 1];
      var a := ItemTuples(k', items', names);
      var b := InstanceTuples(k', svc, inss, names);
      SuffixesOfItems(k', items', names, k, s, i);
      SuffixesConcat(a, b, k, s, i);
      SuffixesOfInstances(k', svc, inss, names, k, s, i);
      RegisteredInSnoc(items, s, i);
      OrderedLikeJoin(SuffixesOf(a, k, s, i), SuffixesOf(b, k, s, i), FittingSuffixes(names, i),
                      k' == k && RegisteredIn(items', s, i), k' == k && svc == s && Listed(inss, i));
    }
  }

  lemma {:induction false} ServicesOfItems(k: Kind, items: seq<(string, seq<string>)>, names: seq<string>)
    requires NoDup(KeysOf(items))
    ensures var xs := Services(ItemTuples(k, items, names));
            && (forall x :: x in xs ==> x in KeysOf(items))
            && Dedup(xs) == MatchedServices(items, names)
  {
    if items != [] {
      var items' := items[..|items| - 1];
      var (svc, inss) := items[|items| - 1];
      var a := ItemTuples(k, items', names);
      var b := InstanceTuples(k, svc, inss, names);
      assert ItemTuples(k, items, names) == a + b;
      assert KeysOf(items) == KeysOf(items') + [svc];
      assert NoDup(KeysOf(items'));
      ServicesOfItems(k, items', names);
      ServicesConcat(a, b);
      InstanceTuplesShape(k, svc, inss, names);
      InstanceTuplesEmpty(k, svc, inss, names);
      var xa := Services(a);
      var xb := Services(b);
      assert forall j :: 0 <= j < |xb| ==> xb[j] == svc;
      if xb == [] {
        assert xa + xb == xa;
      } else {
        assert svc !in KeysOf(items');
        DedupAppendRun(xa, xb, svc);
      }
    }
  }

  /** A service the items do not declare gets no instance tuples. */
  lemma {:induction false} InstancesOfAbsent(k: Kind, items: seq<(string, seq<string>)>, names: seq<string>, s: string)
    requires forall j :: 0 <= j < |items| ==> items[j].0 != s
    ensures InstancesOf(ItemTuples(k, items, names), s) == []
  {
    if items != [] {
      var items' := items[..|items| - 1];
      var (svc, inss) := items[|items| - 1];
      assert forall j :: 0 <= j < |items'| ==> items'[j] == items[j];
      InstancesOfAbsent(k, items', names, s);
      InstancesConcat(ItemTuples(k, items', names), InstanceTuples(k, svc, inss, names), s);
      InstancesOfInstances(k, svc, inss, names, s);
      DedupEmpty(InstancesOf(InstanceTuples(k, svc, inss, names), s));
    }
  }

  /** The instance tuples of a declared service are those of its one entry among the items. */
  lemma {:induction false} InstancesOfItems(k: Kind, items: seq<(string, seq<string>)>, names: seq<string>, s: string, j: nat)
    requires NoDup(KeysOf(items)) && j < |items| && items[j].0 == s
    ensures Dedup(InstancesOf(ItemTuples(k, items, names), s)) == Dedup(MatchedInstances(items[j].1, names))
  {
    var items' := items[..|items| - 1];
    var (svc, inss) := items[|items| - 1];
    var a := ItemTuples(k, items', names);
    var b := InstanceTuples(k, svc, inss, names);
    assert ItemTuples(k, items, names) == a + b;
    KeysOfInit(items);
    InstancesConcat(a, b, s);
    InstancesOfInstances(k, svc, inss, names, s);
    var xa := InstancesOf(a, s);
    var xb := InstancesOf(b, s);
    if j == |items| - 1 {
      InstancesOfAbsent(k, items', names, s);
      assert xa + xb == xb;
    } else {
      assert items'[j] == items[j];
      DedupEmpty(xb);
      assert xa + xb == xa;
      InstancesOfItems(k, items', names, s, j);
    }
  }

  /** Distinct keys stay distinct without the last item, and none of the others is the last one's. */
  lemma KeysOfInit(items: seq<(string, seq<string>)>)
    requires NoDup(KeysOf(items)) && items != []
    ensures var items' := items[..|items| - 1];
            && NoDup(KeysOf(items'))
            && forall t :: 0 <= t < |items'| ==> items'[t].0 != items[|items| - 1].0
  {
    var items' := items[..|items| - 1];
    assert KeysOf(items) == KeysOf(items') + [items[|items| - 1].0];
    forall t | 0 <= t < |items'|
      ensures items'[t].0 != items[|items| - 1].0
    {
      assert KeysOf(items)[t] == items'[t].0;
    }
  }

  lemma ItemsDistinct(reg: Registry)
    ensures KeysOf(Items(reg)) == reg.keys
  {
  }

  // Properties of the result.

  /**
    Every slot `out[s][i].<k>[suf]` holds the port `i.suf` exactly when that name is
    listed among the ports of kind `k`, neither `i` nor `suf` contains a dot, and the
    registry declares an instance of `s` that strips to `i`; otherwise it is absent.
   */
  lemma DiscoverSlot(reg: Registry, pub: seq<string>, sub: seq<string>, cln: seq<string>, srv: seq<string>,
                     k: Kind, s: string, i: string, suf: string)
    ensures Lookup(Discover(reg, pub, sub, cln, srv), k, s, i, suf) ==
            if Registered(reg, s, i) && Reportable(NamesOf(k, pub, sub, cln, srv), i, suf)
            then Some(i + "." + suf) else None
  {
    var items := Items(reg);
    var a, b, c, d := SplitTuples(Pub, reg, pub), SplitTuples(Sub, reg, sub), SplitTuples(Cln, reg, cln), SplitTuples(Srv, reg, srv);
    LookupIsLastPort(a + b + c + d, k, s, i, suf);
    LastPortConcat(a + b + c, d, k, s, i, suf);
    LastPortConcat(a + b, c, k, s, i, suf);
    LastPortConcat(a, b, k, s, i, suf);
    LastPortOfItems(Pub, items, pub, k, s, i, suf);
    LastPortOfItems(Sub, items, sub, k, s, i, suf);
    LastPortOfItems(Cln, items, cln, k, s, i, suf);
    LastPortOfItems(Srv, items, srv, k, s, i, suf);
    RegisteredInItems(reg, s, i);
  }

  /** A name without exactly one dot is never reported, whatever the registry says. */
  lemma MalformedNeverReported(reg: Registry, pub: seq<string>, sub: seq<string>, cln: seq<string>, srv: seq<string>,
                               k: Kind, s: string, i: string, suf: string, pn: string)
    requires |Split(pn, '.')| != 2
    ensures Lookup(Discover(reg, pub, sub, cln, srv), k, s, i, suf) != Some(pn)
  {
    DiscoverSlot(reg, pub, sub, cln, srv, k, s, i, suf);
    FitsIff(i + "." + suf, i, suf);
  }

  /** Only registered services appear, and under them only instances the registry declares. */
  lemma ResultIsRegistered(reg: Registry, pub: seq<string>, sub: seq<string>, cln: seq<string>, srv: seq<string>,
                           s: string, i: string)
    ensures s in Discover(reg, pub, sub, cln, srv).items ==> s in reg.items
    ensures i in InnerOf(Discover(reg, pub, sub, cln, srv), s).items ==> Registered(reg, s, i)
  {
    var es := Stream(reg, pub, sub, cln, srv);
    StreamRegistered(reg, pub, sub, cln, srv);
    if s in Discover(reg, pub, sub, cln, srv).items {
      ServiceOrder(es);
      assert s in Services(es);
      var j :| 0 <= j < |es| && Services(es)[j] == s;
      assert es[j] in es;
      RegisteredInItems(reg, s, es[j].instance);
    }
    if i in InnerOf(Discover(reg, pub, sub, cln, srv), s).items {
      InstanceOrder(es, s);
      InstanceHasEntry(es, s, i);
      var j :| 0 <= j < |es| && es[j].service == s && es[j].instance == i;
      assert es[j] in es;
      RegisteredInItems(reg, s, i);
    }
  }

  lemma StreamRegistered(reg: Registry, pub: seq<string>, sub: seq<string>, cln: seq<string>, srv: seq<string>)
    ensures forall e :: e in Stream(reg, pub, sub, cln, srv) ==> RegisteredIn(Items(reg), e.service, e.instance)
  {
    var items := Items(reg);
    ItemTuplesRegistered(Pub, items, pub);
    ItemTuplesRegistered(Sub, items, sub);
    ItemTuplesRegistered(Cln, items, cln);
    ItemTuplesRegistered(Srv, items, srv);
  }

  /** An instance of the stream's view comes from a tuple of that service. */
  lemma {:induction false} InstanceHasEntry(es: seq<Entry>, s: string, i: string)
    requires i in InstancesOf(es, s)
    ensures exists j :: 0 <= j < |es| && es[j].service == s && es[j].instance == i
  {
    var es' := es[..|es| - 1];
    var e := es[|es| - 1];
    if !(e.service == s && e.instance == i) {
      InstanceHasEntry(es', s, i);
      var j :| 0 <= j < |es'| && es'[j].service == s && es'[j].instance == i;
      assert es[j] == es'[j];
    }
  }

  /**
    Services appear in registry order: the result lists, in first-occurrence order, the
    services owning a pub port in registry order, then those owning a sub port, and so on.
   */
  lemma ServiceKeyOrder(reg: Registry, pub: seq<string>, sub: seq<string>, cln: seq<string>, srv: seq<string>)
    ensures Discover(reg, pub, sub, cln, srv).keys ==
            Dedup(MatchedServices(Items(reg), pub) + MatchedServices(Items(reg), sub)
                  + MatchedServices(Items(reg), cln) + MatchedServices(Items(reg), srv))
  {
    var items := Items(reg);
    var a, b, c, d := SplitTuples(Pub, reg, pub), SplitTuples(Sub, reg, sub), SplitTuples(Cln, reg, cln), SplitTuples(Srv, reg, srv);
    ServiceOrder(a + b + c + d);
    assert Services(a + b + c + d) == Services(a) + Services(b) + Services(c) + Services(d) by {
      ServicesConcat(a + b + c, d);
      ServicesConcat(a + b, c);
      ServicesConcat(a, b);
    }
    ServicesOfSplit(Pub, reg, pub);
    ServicesOfSplit(Sub, reg, sub);
    ServicesOfSplit(Cln, reg, cln);
    ServicesOfSplit(Srv, reg, srv);
    DedupOfParts(Services(a), Services(b), Services(c), Services(d),
                 MatchedServices(items, pub), MatchedServices(items, sub),
                 MatchedServices(items, cln), MatchedServices(items, srv));
  }

  lemma ServicesOfSplit(k: Kind, reg: Registry, names: seq<string>)
    ensures Dedup(Services(SplitTuples(k, reg, names))) == Dedup(MatchedServices(Items(reg), names))
  {
    ItemsDistinct(reg);
    ServicesOfItems(k, Items(reg), names);
    DedupIdempotent(Services(SplitTuples(k, reg, names)));
  }

  /** Four parts in a row, each replaced by one with the same first-occurrence order. */
  lemma DedupOfParts(a: seq<string>, b: seq<string>, c: seq<string>, d: seq<string>,
                     a': seq<string>, b': seq<string>, c': seq<string>, d': seq<string>)
    requires Dedup(a) == Dedup(a') && Dedup(b) == Dedup(b') && Dedup(c) == Dedup(c') && Dedup(d) == Dedup(d')
    ensures Dedup(a + b + c + d) == Dedup(a' + b' + c' + d')
  {
    DedupCongruent(a, b, a', b');
    DedupCongruent(a + b, c, a' + b', c');
    DedupCongruent(a + b + c, d, a' + b' + c', d');
  }

  /**
    Within a registered service, instances appear in declaration order: first-occurrence
    order over the instances owning a pub port, then a sub port, and so on.
   */
  lemma InstanceKeyOrder(reg: Registry, pub: seq<string>, sub: seq<string>, cln: seq<string>, srv: seq<string>,
                         s: string)
    requires s in reg.items
    ensures var inss := reg.items[s];
            InnerOf(Discover(reg, pub, sub, cln, srv), s).keys ==
            Dedup(MatchedInstances(inss, pub) + MatchedInstances(inss, sub)
                  + MatchedInstances(inss, cln) + MatchedInstances(inss, srv))
  {
    var items := Items(reg);
    var inss := reg.items[s];
    ItemsDistinct(reg);
    var j :| 0 <= j < |reg.keys| && reg.keys[j] == s;
    assert items[j] == (s, inss);
    var a, b, c, d := SplitTuples(Pub, reg, pub), SplitTuples(Sub, reg, sub), SplitTuples(Cln, reg, cln), SplitTuples(Srv, reg, srv);
    InstanceOrder(a + b + c + d, s);
    InstancesConcat(a + b + c, d, s);
    InstancesConcat(a + b, c, s);
    InstancesConcat(a, b, s);
    InstancesOfItems(Pub, items, pub, s, j);
    InstancesOfItems(Sub, items, sub, s, j);
    InstancesOfItems(Cln, items, cln, s, j);
    InstancesOfItems(Srv, items, srv, s, j);
    DedupOfParts(InstancesOf(a, s), InstancesOf(b, s), InstancesOf(c, s), InstancesOf(d, s),
                 MatchedInstances(inss, pub), MatchedInstances(inss, sub),
                 MatchedInstances(inss, cln), MatchedInstances(inss, srv));
  }

  /**
    Within one kind dict, suffixes appear in the order of that kind's port list; the
    dict is empty unless the registry declares the instance for the service.
   */
  lemma SuffixKeyOrder(reg: Registry, pub: seq<string>, sub: seq<string>, cln: seq<string>, srv: seq<string>,
                       k: Kind, s: string, i: string)
    ensures MapsOf(Discover(reg, pub, sub, cln, srv), s, i).Of(k).keys ==
            if Registered(reg, s, i) then Dedup(FittingSuffixes(NamesOf(k, pub, sub, cln, srv), i)) else []
  {
    var xs := FittingSuffixes(NamesOf(k, pub, sub, cln, srv), i);
    var a, b, c, d := SplitTuples(Pub, reg, pub), SplitTuples(Sub, reg, sub), SplitTuples(Cln, reg, cln), SplitTuples(Srv, reg, srv);
    SuffixOrder(a + b + c + d, k, s, i);
    SuffixesConcat(a + b + c, d, k, s, i);
    SuffixesConcat(a + b, c, k, s, i);
    SuffixesConcat(a, b, k, s, i);
    var r := Registered(reg, s, i);
    SuffixPiece(Pub, reg, pub, k, s, i, xs);
    SuffixPiece(Sub, reg, sub, k, s, i, xs);
    SuffixPiece(Cln, reg, cln, k, s, i, xs);
    SuffixPiece(Srv, reg, srv, k, s, i, xs);
    var sa, sb, sc, sd := SuffixesOf(a, k, s, i), SuffixesOf(b, k, s, i), SuffixesOf(c, k, s, i), SuffixesOf(d, k, s, i);
    OrderedLikeJoin(sa, sb, xs, k == Pub && r, k == Sub && r);
    OrderedLikeJoin(sa + sb, sc, xs, (k == Pub && r) || (k == Sub && r), k == Cln && r);
    OrderedLikeJoin(sa + sb + sc, sd, xs, (k == Pub && r) || (k == Sub && r) || (k == Cln && r), k == Srv && r);
  }

  /**
    The suffixes one kind's pass contributes: those fitting `i`, in their order, for the
    kind asked about and a registered instance; none otherwise.
   */
  lemma SuffixPiece(k': Kind, reg: Registry, names: seq<string>, k: Kind, s: string, i: string, xs: seq<string>)
    requires k' == k ==> xs == FittingSuffixes(names, i)
    ensures OrderedLike(SuffixesOf(SplitTuples(k', reg, names), k, s, i), xs, k' == k && Registered(reg, s, i))
  {
    var piece := SuffixesOf(SplitTuples(k', reg, names), k, s, i);
    SuffixesOfItems(k', Items(reg), names, k, s, i);
    RegisteredInItems(reg, s, i);
    DedupEmpty(piece);
  }

  /** An empty registry discovers nothing, whatever the ports. */
  lemma EmptyRegistry(reg: Registry, pub: seq<string>, sub: seq<string>, cln: seq<string>, srv: seq<string>)
    requires reg.keys == []
    ensures Discover(reg, pub, sub, cln, srv).keys == []
  {
    assert Items(reg) == [];
    assert Stream(reg, pub, sub, cln, srv) == [];
  }
}
