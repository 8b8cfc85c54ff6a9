/**
  The four port kinds of a node (publishers, subscribers, clients, servers) and the
  record shape that holds one insertion-ordered dict per kind. `PortAssignment` maps
  full port names to port IDs; `PortSuffixMapping` and `PortMapping` map suffixes to
  full port names. `NonFixedPorts` has the same shape as `PortAssignment`.
 */
module Ports {
  import opened OrderedDict

  datatype Kind = Pub | Sub | Cln | Srv

  /** The order in which every routine visits the kinds. */
  const AllKinds: seq<Kind> := [Pub, Sub, Cln, Srv]

  /** The kind's segment in register names: `uavcan.<kind>.<port>.id`. */
  function KindName(k: Kind): string {
    match k
    case Pub => "pub"
    case Sub => "sub"
    case Cln => "cln"
    case Srv => "srv"
  }

  /** The argument of kind `k` among four per-kind arguments (`pub=…, sub=…, cln=…, srv=…`). */
  function NamesOf(k: Kind, pub: seq<string>, sub: seq<string>, cln: seq<string>, srv: seq<string>): seq<string> {
    match k
    case Pub => pub
    case Sub => sub
    case Cln => cln
    case Srv => srv
  }

  datatype KindMaps<V> = KindMaps(pub: Dict<string, V>, sub: Dict<string, V>,
                                  cln: Dict<string, V>, srv: Dict<string, V>)
  {
    function Of(k: Kind): Dict<string, V> {
      match k
      case Pub => pub
      case Sub => sub
      case Cln => cln
      case Srv => srv
    }

    /** The same record with the dict of kind `k` replaced. */
    function With(k: Kind, d: Dict<string, V>): (r: KindMaps<V>)
      ensures r.Of(k) == d
      ensures forall k' :: k' != k ==> r.Of(k') == Of(k')
    {
      match k
      case Pub => this.(pub := d)
      case Sub => this.(sub := d)
      case Cln => this.(cln := d)
      case Srv => this.(srv := d)
    }
  }

  /** A record of four empty dicts, as the dataclasses' default factories build it. */
  function NoPorts<V>(): KindMaps<V> {
    KindMaps(Empty(), Empty(), Empty(), Empty())
  }

  type PortAssignment = KindMaps<int>
  type NonFixedPorts = PortAssignment
  type PortSuffixMapping = KindMaps<string>
  type PortMapping = KindMaps<string>
}
