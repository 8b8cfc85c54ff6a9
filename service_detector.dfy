/**
  Heuristic detection of service instances from port names alone
  (`service_detector.py`). A name `service.instance.suffix` is split on its first two
  dots; a two-part name has an empty instance and a one-part name an empty service.
  Every port is kept: names that fit no pattern land in the "" service.
 */
module ServiceDetector {
  import opened Wrappers
  import opened OrderedDict
  import opened Strings
  import opened Ports
  import opened Grouping

  datatype Triple = Triple(service: string, instance: string, suffix: string)

  /** The body of `_split` for one name: `p = pn.split(".", 2)` and its three cases. */
  function SplitName(pn: string): Triple {
    var p := SplitMax2(pn, '.');
    if |p| > 2 then Triple(p[0], p[1], p[2])
    else if |p| > 1 then Triple(p[0], "", p[1])
    else Triple("", "", p[0])
  }

  /** The tuple `_split` yields for `pn`, tagged with the kind of the consuming loop. */
  function EntryOf(k: Kind, pn: string): Entry {
    var t := SplitName(pn);
    Entry(k, t.service, t.instance, t.suffix, pn)
  }

  /** Everything `_split(names)` yields, in order. */
  function SplitEntries(k: Kind, names: seq<string>): (es: seq<Entry>)
    ensures |es| == |names|
  {
    if names == [] then [] else SplitEntries(k, names[..|names| - 1]) + [EntryOf(k, names[|names| - 1])]
  }

  /** The generator `_split`: one tuple per name, in input order. */
  method SplitPorts(k: Kind, names: seq<string>) returns (es: seq<Entry>)
    ensures es == SplitEntries(k, names)
  {
    es := [];
    var n := 0;
    while n < |names|
      invariant n <= |names|
      invariant es == SplitEntries(k, names[..n])
    {
      SplitEntriesSnoc(k, names, n);
      es := es + [EntryOf(k, names[n])];
      n := n + 1;
    }
    assert names[..n] == names;
  }

  /** One more name adds its tuple at the end. */
  lemma SplitEntriesSnoc(k: Kind, names: seq<string>, n: nat)
    requires n < |names|
    ensures SplitEntries(k, names[..n + 1]) == SplitEntries(k, names[..n]) + [EntryOf(k, names[n])]
  {
    assert names[..n + 1][..n] == names[..n];
  }

  /** The stream the four loops of `detect_service_instances` consume: pub, then sub, cln, srv. */
  function Stream(pub: seq<string>, sub: seq<string>, cln: seq<string>, srv: seq<string>): seq<Entry> {
    SplitEntries(Pub, pub) + SplitEntries(Sub, sub) + SplitEntries(Cln, cln) + SplitEntries(Srv, srv)
  }

  /** The result `detect_service_instances` returns, as a fold over its input. */
  function Detect(pub: seq<string>, sub: seq<string>, cln: seq<string>, srv: seq<string>): Groups {
    Group(Stream(pub, sub, cln, srv))
  }

  /** `detect_service_instances(pub, sub, cln, srv)`: four loops filling `out` in place. */
  method DetectServiceInstances(pub: seq<string>, sub: seq<string>, cln: seq<string>, srv: seq<string>)
    returns (out: Groups)
    ensures out == Detect(pub, sub, cln, srv)
  {
    out := Empty();
    var es := SplitPorts(Pub, pub);
    out := AssignAll(out, es);
    es := SplitPorts(Sub, sub);
    out := AssignAll(out, es);
    es := SplitPorts(Cln, cln);
    out := AssignAll(out, es);
    es := SplitPorts(Srv, srv);
    out := AssignAll(out, es);
    GroupFromConcat(Empty(), SplitEntries(Pub, pub), SplitEntries(Sub, sub));
    GroupFromConcat(Empty(), SplitEntries(Pub, pub) + SplitEntries(Sub, sub), SplitEntries(Cln, cln));
    GroupFromConcat(Empty(), SplitEntries(Pub, pub) + SplitEntries(Sub, sub) + SplitEntries(Cln, cln),
                    SplitEntries(Srv, srv));
  }

  // The split of one name.

  /**
    At most two dots are consumed: with the full split `p`, three or more parts give
    (p0, p1, rest joined back), two parts give (p0, "", p1), one part gives ("", "", name).
   */
  lemma SplitNameCases(pn: string)
    ensures var p := Split(pn, '.');
            && (|p| >= 3 ==> SplitName(pn) == Triple(p[0], p[1], Join(p[2..], '.')))
            && (|p| == 2 ==> SplitName(pn) == Triple(p[0], "", p[1]))
            && (|p| == 1 ==> SplitName(pn) == Triple("", "", pn))
  {
    SplitMax2AgreesWithSplit(pn, '.');
    var p := Split(pn, '.');
    if |p| == 1 {
      JoinSplit(pn, '.');
    }
  }

  /** Service and instance never contain a dot; the suffix may (`heater.state`). */
  lemma SplitNameParts(pn: string)
    ensures '.' !in SplitName(pn).service && '.' !in SplitName(pn).instance
  {
    SplitNameCases(pn);
  }

  // Views of the stream in terms of the input names.

  /** The services of `names`, in order. */
  function ServiceNames(names: seq<string>): seq<string> {
    if names == [] then [] else ServiceNames(names[..|names| - 1]) + [SplitName(names[|names| - 1]).service]
  }

  /** The instances of service `s` among `names`, in order. */
  function InstanceNames(names: seq<string>, s: string): seq<string> {
    if names == [] then []
    else
      var t := SplitName(names[|names| - 1]);
      InstanceNames(names[..|names| - 1], s) + (if t.service == s then [t.instance] else [])
  }

  /** The suffixes of the names of service `s` and instance `i`, in order. */
  function SuffixNames(names: seq<string>, s: string, i: string): seq<string> {
    if names == [] then []
    else
      var t := SplitName(names[|names| - 1]);
      SuffixNames(names[..|names| - 1], s, i) + (if t.service == s && t.instance == i then [t.suffix] else [])
  }

  /** The last of `names` that splits to `t`. */
  function LastWithTriple(names: seq<string>, t: Triple): Option<string> {
    if names == [] then None
    else if SplitName(names[|names| - 1]) == t then Some(names[|names| - 1])
    else LastWithTriple(names[..|names| - 1], t)
  }

  lemma {:induction false} ServicesOfSplit(k: Kind, names: seq<string>)
    ensures Services(SplitEntries(k, names)) == ServiceNames(names)
  {
    if names != [] {
      var es := SplitEntries(k, names);
      ServicesOfSplit(k, names[..|names| - 1]);
      assert es[..|es| - 1] == SplitEntries(k, names[..|names| - 1]);
    }
  }

  lemma {:induction false} InstancesOfSplit(k: Kind, names: seq<string>, s: string)
    ensures InstancesOf(SplitEntries(k, names), s) == InstanceNames(names, s)
  {
    if names != [] {
      var es := SplitEntries(k, names);
      InstancesOfSplit(k, names[..|names| - 1], s);
      assert es[..|es| - 1] == SplitEntries(k, names[..|names| - 1]);
    }
  }

  lemma {:induction false} SuffixesOfSplit(k: Kind, names: seq<string>, k': Kind, s: string, i: string)
    ensures SuffixesOf(SplitEntries(k, names), k', s, i) == if k == k' then SuffixNames(names, s, i) else []
  {
    if names != [] {
      var es := SplitEntries(k, names);
      SuffixesOfSplit(k, names[..|names| - 1], k', s, i);
      assert es[..|es| - 1] == SplitEntries(k, names[..|names| - 1]);
    }
  }

  lemma {:induction false} LastPortOfSplit(k: Kind, names: seq<string>, k': Kind, t: Triple)
    ensures LastPort(SplitEntries(k, names), k', t.service, t.instance, t.suffix) ==
            if k == k' then LastWithTriple(names, t) else None
  {
    if names != [] {
      var es := SplitEntries(k, names);
      LastPortOfSplit(k, names[..|names| - 1], k', t);
      assert es[..|es| - 1] == SplitEntries(k, names[..|names| - 1]);
    }
  }

  lemma {:induction false} LastWithTripleSound(names: seq<string>, t: Triple)
    ensures LastWithTriple(names, t).Some? ==>
            LastWithTriple(names, t).value in names && SplitName(LastWithTriple(names, t).value) == t
  {
    if names != [] && SplitName(names[|names| - 1]) != t {
      LastWithTripleSound(names[..|names| - 1], t);
    }
  }

  lemma {:induction false} LastWithTripleFound(names: seq<string>, pn: string)
    requires pn in names
    ensures LastWithTriple(names, SplitName(pn)).Some?
  {
    if SplitName(names[|names| - 1]) != SplitName(pn) {
      assert pn in names[..|names| - 1];
      LastWithTripleFound(names[..|names| - 1], pn);
    }
  }

  // Properties of the result.

  /**
    Every slot `out[svc][ins].<k>[suf]` holds the LAST port of kind `k` that splits to
    (svc, ins, suf), and is absent when no such port exists. Names from one kind never
    reach another kind's dicts; names splitting alike (`a.b`, `a..b`) share one slot.
   */
  lemma DetectSlot(pub: seq<string>, sub: seq<string>, cln: seq<string>, srv: seq<string>, k: Kind, t: Triple)
    ensures Lookup(Detect(pub, sub, cln, srv), k, t.service, t.instance, t.suffix) ==
            LastWithTriple(NamesOf(k, pub, sub, cln, srv), t)
  {
    var a, b, c, d := SplitEntries(Pub, pub), SplitEntries(Sub, sub), SplitEntries(Cln, cln), SplitEntries(Srv, srv);
    LookupIsLastPort(a + b + c + d, k, t.service, t.instance, t.suffix);
    LastPortConcat(a + b + c, d, k, t.service, t.instance, t.suffix);
    LastPortConcat(a + b, c, k, t.service, t.instance, t.suffix);
    LastPortConcat(a, b, k, t.service, t.instance, t.suffix);
    LastPortOfSplit(Pub, pub, k, t);
    LastPortOfSplit(Sub, sub, k, t);
    LastPortOfSplit(Cln, cln, k, t);
    LastPortOfSplit(Srv, srv, k, t);
  }

  /** No port is dropped: each input name is stored under its own split, in its own kind. */
  lemma NoPortDropped(pub: seq<string>, sub: seq<string>, cln: seq<string>, srv: seq<string>, k: Kind, pn: string)
    requires pn in NamesOf(k, pub, sub, cln, srv)
    ensures var t := SplitName(pn);
            Lookup(Detect(pub, sub, cln, srv), k, t.service, t.instance, t.suffix).Some?
  {
    DetectSlot(pub, sub, cln, srv, k, SplitName(pn));
    LastWithTripleFound(NamesOf(k, pub, sub, cln, srv), pn);
  }

  /** Each stored name is an input name of that kind, and re-splits to the slot it is stored under. */
  lemma StoredNameResplits(pub: seq<string>, sub: seq<string>, cln: seq<string>, srv: seq<string>,
                           k: Kind, s: string, i: string, suf: string)
    ensures var r := Lookup(Detect(pub, sub, cln, srv), k, s, i, suf);
            r.Some? ==> r.value in NamesOf(k, pub, sub, cln, srv) && SplitName(r.value) == Triple(s, i, suf)
  {
    DetectSlot(pub, sub, cln, srv, k, Triple(s, i, suf));
    LastWithTripleSound(NamesOf(k, pub, sub, cln, srv), Triple(s, i, suf));
  }

  /** Services appear in first-encounter order while scanning pub, then sub, cln and srv. */
  lemma ServiceKeyOrder(pub: seq<string>, sub: seq<string>, cln: seq<string>, srv: seq<string>)
    ensures Detect(pub, sub, cln, srv).keys ==
            Dedup(ServiceNames(pub) + ServiceNames(sub) + ServiceNames(cln) + ServiceNames(srv))
  {
    var a, b, c, d := SplitEntries(Pub, pub), SplitEntries(Sub, sub), SplitEntries(Cln, cln), SplitEntries(Srv, srv);
    ServiceOrder(a + b + c + d);
    ServicesConcat(a + b + c, d);
    ServicesConcat(a + b, c);
    ServicesConcat(a, b);
    ServicesOfSplit(Pub, pub);
    ServicesOfSplit(Sub, sub);
    ServicesOfSplit(Cln, cln);
    ServicesOfSplit(Srv, srv);
  }

  /** Within a service, instances appear in first-encounter order over pub, sub, cln, srv. */
  lemma InstanceKeyOrder(pub: seq<string>, sub: seq<string>, cln: seq<string>, srv: seq<string>, s: string)
    ensures InnerOf(Detect(pub, sub, cln, srv), s).keys ==
            Dedup(InstanceNames(pub, s) + InstanceNames(sub, s) + InstanceNames(cln, s) + InstanceNames(srv, s))
  {
    var a, b, c, d := SplitEntries(Pub, pub), SplitEntries(Sub, sub), SplitEntries(Cln, cln), SplitEntries(Srv, srv);
    InstanceOrder(a + b + c + d, s);
    InstancesConcat(a + b + c, d, s);
    InstancesConcat(a + b, c, s);
    InstancesConcat(a, b, s);
    InstancesOfSplit(Pub, pub, s);
    InstancesOfSplit(Sub, sub, s);
    InstancesOfSplit(Cln, cln, s);
    InstancesOfSplit(Srv, srv, s);
  }

  /** Within one kind dict, suffixes appear in first-encounter order of that kind's list. */
  lemma SuffixKeyOrder(pub: seq<string>, sub: seq<string>, cln: seq<string>, srv: seq<string>,
                       k: Kind, s: string, i: string)
    ensures MapsOf(Detect(pub, sub, cln, srv), s, i).Of(k).keys ==
            Dedup(SuffixNames(NamesOf(k, pub, sub, cln, srv), s, i))
  {
    SuffixOrder(Stream(pub, sub, cln, srv), k, s, i);
    SuffixesOfStream(pub, sub, cln, srv, k, s, i);
  }

  lemma SuffixesOfStream(pub: seq<string>, sub: seq<string>, cln: seq<string>, srv: seq<string>,
                         k: Kind, s: string, i: string)
    ensures SuffixesOf(Stream(pub, sub, cln, srv), k, s, i) == SuffixNames(NamesOf(k, pub, sub, cln, srv), s, i)
  {
    var a, b, c, d := SplitEntries(Pub, pub), SplitEntries(Sub, sub), SplitEntries(Cln, cln), SplitEntries(Srv, srv);
    var sa, sb, sc, sd := SuffixesOf(a, k, s, i), SuffixesOf(b, k, s, i), SuffixesOf(c, k, s, i), SuffixesOf(d, k, s, i);
    SuffixesConcat(a + b + c, d, k, s, i);
    SuffixesConcat(a + b, c, k, s, i);
    SuffixesConcat(a, b, k, s, i);
    assert SuffixesOf(Stream(pub, sub, cln, srv), k, s, i) == sa + sb + sc + sd;
    SuffixesOfSplit(Pub, pub, k, s, i);
    SuffixesOfSplit(Sub, sub, k, s, i);
    SuffixesOfSplit(Cln, cln, k, s, i);
    SuffixesOfSplit(Srv, srv, k, s, i);
    OnlyOneNonEmpty(sa, sb, sc, sd);
  }

  /** Three of four parts are empty: the concatenation is the fourth (a separate lemma keeps `SuffixesOfStream` cheap). */
  lemma OnlyOneNonEmpty<T>(a: seq<T>, b: seq<T>, c: seq<T>, d: seq<T>)
    ensures b == [] && c == [] && d == [] ==> a + b + c + d == a
    ensures a == [] && c == [] && d == [] ==> a + b + c + d == b
    ensures a == [] && b == [] && d == [] ==> a + b + c + d == c
    ensures a == [] && b == [] && c == [] ==> a + b + c + d == d
  {
  }

  lemma SplitOfDottedPair()
    ensures SplitName("a.b") == Triple("a", "", "b") && SplitName("a..b") == Triple("a", "", "b")
  {
  }

  /** Of two ports that split alike (such as `a.b` and `a..b`), the later one is the value stored... */
  lemma SameSplitOverwrites(x: string, y: string)
    requires SplitName(x) == SplitName(y)
    ensures var t := SplitName(x);
            Lookup(Detect([x, y], [], [], []), Pub, t.service, t.instance, t.suffix) == Some(y)
  {
    DetectSlot([x, y], [], [], [], Pub, SplitName(x));
  }

  /** ...and their suffix is listed once. */
  lemma SameSplitKeepsOneKey(x: string, y: string)
    requires SplitName(x) == SplitName(y)
    ensures var t := SplitName(x);
            MapsOf(Detect([x, y], [], [], []), t.service, t.instance).pub.keys == [t.suffix]
  {
    var t := SplitName(x);
    assert SuffixNames([x, y], t.service, t.instance) == [t.suffix, t.suffix] by {
      assert [x, y][..1] == [x];
      assert [x][..0] == [];
      assert SuffixNames([x], t.service, t.instance) == [t.suffix];
    }
    assert Dedup([t.suffix, t.suffix]) == [t.suffix] by {
      assert [t.suffix, t.suffix][..1] == [t.suffix];
      assert [t.suffix][..0] == [];
      assert Dedup([t.suffix]) == [t.suffix];
    }
    SuffixKeyOrder([x, y], [], [], [], Pub, t.service, t.instance);
  }

  /** Empty inputs give an empty result. */
  lemma EmptyInputs()
    ensures Detect([], [], [], []).keys == []
  {
  }
}
