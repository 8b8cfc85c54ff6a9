/**
  The grouping step both name resolvers share: a stream of yielded tuples
  (service, instance, suffix, full port name), each consumed by the loop of one port
  kind, is folded into `out: dict[service, dict[instance, PortSuffixMapping]]` through
  `out.setdefault(svc, {}).setdefault(ins, PortSuffixMapping()).<kind>[suf] = port`.

  The lemmas describe the folded result through views of the stream alone: the key
  order at each of the three levels is the first-occurrence order of the stream, and
  each slot holds the port of the last tuple that addressed it.
 */
module Grouping {
  import opened Wrappers
  import opened OrderedDict
  import opened Ports

  /** One yielded tuple, tagged with the kind of the loop that consumes it. */
  datatype Entry = Entry(kind: Kind, service: string, instance: string, suffix: string, port: string)

  type Groups = Dict<string, Dict<string, PortSuffixMapping>>

  /** `out.get(s, {})` */
  function InnerOf(out: Groups, s: string): Dict<string, PortSuffixMapping> {
    GetOr(out, s, Empty())
  }

  /** `out.get(s, {}).get(i, PortSuffixMapping())` */
  function MapsOf(out: Groups, s: string, i: string): PortSuffixMapping {
    GetOr(InnerOf(out, s), i, NoPorts())
  }

  /** The full port name stored at `out[s][i].<k>[suf]`, if any. */
  function Lookup(out: Groups, k: Kind, s: string, i: string, suf: string): Option<string> {
    var d := MapsOf(out, s, i).Of(k);
    if suf in d.items then Some(d.items[suf]) else None
  }

  /** `psm(e.service, e.instance).<e.kind>[e.suffix] = e.port` */
  function Assign(out: Groups, e: Entry): Groups {
    var inner := InnerOf(out, e.service);
    var m := MapsOf(out, e.service, e.instance);
    var m' := m.With(e.kind, Put(m.Of(e.kind), e.suffix, e.port));
    Put(out, e.service, Put(inner, e.instance, m'))
  }

  /** The stream folded into `out`, one assignment after the other. */
  function GroupFrom(out: Groups, es: seq<Entry>): Groups {
    if es == [] then out else Assign(GroupFrom(out, es[..|es| - 1]), es[|es| - 1])
  }

  /** The stream folded into an initially empty `out`. */
  function Group(es: seq<Entry>): Groups {
    GroupFrom(Empty(), es)
  }

  /** The loop `for svc, ins, suf, port in <stream>: psm(svc, ins).<kind>[suf] = port`. */
  method AssignAll(out: Groups, es: seq<Entry>) returns (r: Groups)
    ensures r == GroupFrom(out, es)
  {
    r := out;
    var n := 0;
    while n < |es|
      invariant n <= |es|
      invariant r == GroupFrom(out, es[..n])
    {
      assert es[..n + 1][..n] == es[..n];
      r := Assign(r, es[n]);
      n := n + 1;
    }
    assert es[..n] == es;
  }

  /** Consuming two streams one after the other is consuming their concatenation. */
  lemma {:induction false} GroupFromConcat(out: Groups, a: seq<Entry>, b: seq<Entry>)
    ensures GroupFrom(GroupFrom(out, a), b) == GroupFrom(out, a + b)
  {
    if b == [] {
      assert a + b == a;
    } else {
      assert (a + b)[..|a + b| - 1] == a + b[..|b| - 1];
      GroupFromConcat(out, a, b[..|b| - 1]);
    }
  }

  // Views of the stream.

  /** The services of the stream, in stream order. */
  function Services(es: seq<Entry>): (r: seq<string>)
    ensures |r| == |es|
    ensures forall j :: 0 <= j < |es| ==> r[j] == es[j].service
  {
    if es == [] then [] else Services(es[..|es| - 1]) + [es[|es| - 1].service]
  }

  /** The instances of service `s` in the stream, in stream order. */
  function InstancesOf(es: seq<Entry>, s: string): seq<string> {
    if es == [] then []
    else
      var e := es[|es| - 1];
      InstancesOf(es[..|es| - 1], s) + (if e.service == s then [e.instance] else [])
  }

  /** A stream whose tuples all carry one service and instance has that instance once per tuple, or none. */
  lemma {:induction false} InstancesOfUniform(es: seq<Entry>, svc: string, ins: string, s: string)
    requires forall j :: 0 <= j < |es| ==> es[j].service == svc && es[j].instance == ins
    ensures var xs := InstancesOf(es, s);
            && |xs| == (if svc == s then |es| else 0)
            && forall j :: 0 <= j < |xs| ==> xs[j] == ins
  {
    if es != [] {
      InstancesOfUniform(es[..|es| - 1], svc, ins, s);
    }
  }

  /** The suffixes of kind `k` stream tuples for service `s` and instance `i`, in stream order. */
  function SuffixesOf(es: seq<Entry>, k: Kind, s: string, i: string): seq<string> {
    if es == [] then []
    else
      var e := es[|es| - 1];
      SuffixesOf(es[..|es| - 1], k, s, i)
        + (if e.kind == k && e.service == s && e.instance == i then [e.suffix] else [])
  }

  /** The port of the last stream tuple that addresses slot (k, s, i, suf). */
  function LastPort(es: seq<Entry>, k: Kind, s: string, i: string, suf: string): Option<string> {
    if es == [] then None
    else
      var e := es[|es| - 1];
      if e.kind == k && e.service == s && e.instance == i && e.suffix == suf then Some(e.port)
      else LastPort(es[..|es| - 1], k, s, i, suf)
  }

  /** One assignment touches exactly the dict of the tuple's slot. */
  lemma MapsAfterAssign(out: Groups, e: Entry, s: string, i: string, k: Kind)
    ensures MapsOf(Assign(out, e), s, i).Of(k) ==
            if e.service == s && e.instance == i && e.kind == k
            then Put(MapsOf(out, s, i).Of(k), e.suffix, e.port)
            else MapsOf(out, s, i).Of(k)
  {
    RecordAfterAssign(out, e, s, i);
  }

  /** One assignment replaces exactly the record of the tuple's service and instance. */
  lemma RecordAfterAssign(out: Groups, e: Entry, s: string, i: string)
    ensures var m := MapsOf(out, e.service, e.instance);
            MapsOf(Assign(out, e), s, i) ==
            if e.service == s && e.instance == i then m.With(e.kind, Put(m.Of(e.kind), e.suffix, e.port))
            else MapsOf(out, s, i)
  {
    var m := MapsOf(out, e.service, e.instance);
    var m' := m.With(e.kind, Put(m.Of(e.kind), e.suffix, e.port));
    if e.service == s && e.instance == i {
      assert MapsOf(Assign(out, e), s, i) == m';
    } else if e.service == s {
      assert InnerOf(Assign(out, e), s) == Put(InnerOf(out, s), e.instance, m');
    }
  }

  // What the fold builds.

  /** Top-level keys: the services, in the order they are first met in the stream. */
  lemma {:induction false} ServiceOrder(es: seq<Entry>)
    ensures Group(es).keys == Dedup(Services(es))
  {
    if es != [] {
      var es' := es[..|es| - 1];
      ServiceOrder(es');
      assert Services(es)[..|es| - 1] == Services(es');
    }
  }

  /** Second-level keys: the instances of a service, in the order first met in the stream. */
  lemma {:induction false} InstanceOrder(es: seq<Entry>, s: string)
    ensures InnerOf(Group(es), s).keys == Dedup(InstancesOf(es, s))
  {
    if es != [] {
      var es' := es[..|es| - 1];
      var e := es[|es| - 1];
      InstanceOrder(es', s);
      if e.service == s {
        var xs := InstancesOf(es, s);
        assert xs[..|xs| - 1] == InstancesOf(es', s);
      } else {
        assert InstancesOf(es, s) == InstancesOf(es', s);
      }
    }
  }

  /** Third-level keys: the suffixes of one kind dict, in the order first met in the stream. */
  lemma {:induction false} SuffixOrder(es: seq<Entry>, k: Kind, s: string, i: string)
    ensures MapsOf(Group(es), s, i).Of(k).keys == Dedup(SuffixesOf(es, k, s, i))
  {
    if es != [] {
      var es' := es[..|es| - 1];
      var e := es[|es| - 1];
      SuffixOrder(es', k, s, i);
      MapsAfterAssign(Group(es'), e, s, i, k);
      if e.kind == k && e.service == s && e.instance == i {
        DedupSnoc(SuffixesOf(es', k, s, i), e.suffix);
      } else {
        assert SuffixesOf(es, k, s, i) == SuffixesOf(es', k, s, i);
      }
    }
  }

  /** Every slot holds the port of the last tuple addressing it, and is absent when none does. */
  lemma {:induction false} LookupIsLastPort(es: seq<Entry>, k: Kind, s: string, i: string, suf: string)
    ensures Lookup(Group(es), k, s, i, suf) == LastPort(es, k, s, i, suf)
  {
    if es != [] {
      LookupIsLastPort(es[..|es| - 1], k, s, i, suf);
      MapsAfterAssign(Group(es[..|es| - 1]), es[|es| - 1], s, i, k);
    }
  }

  // The views over concatenated streams.

  lemma {:induction false} ServicesConcat(a: seq<Entry>, b: seq<Entry>)
    ensures Services(a + b) == Services(a) + Services(b)
  {
    if b == [] {
      assert a + b == a;
    } else {
      assert (a + b)[..|a + b| - 1] == a + b[..|b| - 1];
      ServicesConcat(a, b[..|b| - 1]);
    }
  }

  lemma {:induction false} InstancesConcat(a: seq<Entry>, b: seq<Entry>, s: string)
    ensures InstancesOf(a + b, s) == InstancesOf(a, s) + InstancesOf(b, s)
  {
    if b == [] {
      assert a + b == a;
    } else {
      assert (a + b)[..|a + b| - 1] == a + b[..|b| - 1];
      InstancesConcat(a, b[..|b| - 1], s);
    }
  }

  lemma {:induction false} SuffixesConcat(a: seq<Entry>, b: seq<Entry>, k: Kind, s: string, i: string)
    ensures SuffixesOf(a + b, k, s, i) == SuffixesOf(a, k, s, i) + SuffixesOf(b, k, s, i)
  {
    if b == [] {
      assert a + b == a;
    } else {
      assert (a + b)[..|a + b| - 1] == a + b[..|b| - 1];
      SuffixesConcat(a, b[..|b| - 1], k, s, i);
    }
  }

  lemma {:induction false} LastPortConcat(a: seq<Entry>, b: seq<Entry>, k: Kind, s: string, i: string, suf: string)
    ensures LastPort(a + b, k, s, i, suf) ==
            if LastPort(b, k, s, i, suf).Some? then LastPort(b, k, s, i, suf) else LastPort(a, k, s, i, suf)
  {
    if b == [] {
      assert a + b == a;
    } else {
      assert (a + b)[..|a + b| - 1] == a + b[..|b| - 1];
      LastPortConcat(a, b[..|b| - 1], k, s, i, suf);
    }
  }

  /** A tuple the slot holds was yielded with that slot. */
  lemma {:induction false} LastPortWitness(es: seq<Entry>, k: Kind, s: string, i: string, suf: string)
    requires LastPort(es, k, s, i, suf).Some?
    ensures exists j :: 0 <= j < |es| && es[j] == Entry(k, s, i, suf, LastPort(es, k, s, i, suf).value)
  {
    var e := es[|es| - 1];
    if !(e.kind == k && e.service == s && e.instance == i && e.suffix == suf) {
      var es' := es[..|es| - 1];
      LastPortWitness(es', k, s, i, suf);
      var j :| 0 <= j < |es'| && es'[j] == Entry(k, s, i, suf, LastPort(es', k, s, i, suf).value);
      assert es[j] == es'[j];
    }
  }

  /** A slot some tuple addresses is filled. */
  lemma {:induction false} LastPortPresent(es: seq<Entry>, j: nat)
    requires j < |es|
    ensures var e := es[j];
            LastPort(es, e.kind, e.service, e.instance, e.suffix).Some?
  {
    if j < |es| - 1 {
      LastPortPresent(es[..|es| - 1], j);
    }
  }
}
