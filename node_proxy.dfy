/**
  `perform_automatic_port_id_allocation` of `node_proxy.py` as a state machine over an
  abstract remote node: the cookie check, the register enumeration, the extraction of
  port names, the reading of their IDs, the call of the allocator, the register writes
  with the cookie last, and the two closing commands. Every round trip either gets an
  answer or times out; every request sent is appended to a trace.
 */
module NodeProxy {
  import opened Wrappers
  import opened OrderedDict
  import opened Strings
  import opened Ports

  /** `uavcan.register.Value.1.0`, reduced to the variants the sequence tells apart. */
  datatype Value = EmptyValue | Str(text: string) | Natural16(ids: seq<int>) | Other(tag: string)

  /** The requests the sequence sends to the remote node. */
  datatype Request =
    | Access(name: string, value: Option<Value>)  // uavcan.register.Access.1.0: a read, or a write of `value`
    | List(index: nat)                            // uavcan.register.List.1.0
    | Execute(command: int)                       // uavcan.node.ExecuteCommand.1.1

  const CookieRegister: string := "udral.pnp.cookie"

  /** `COMMAND_STORE_PERSISTENT_STATES` and `COMMAND_RESTART` of `uavcan.node.ExecuteCommand.1.1`. */
  const CommandStorePersistentStates: int := 65530
  const CommandRestart: int := 65535

  predicate IsWrite(r: Request) {
    r.Access? && r.value.Some?
  }

  /**
    What the transport and the remote node decide: the register names the node lists
    for indices 0, 1, 2, … (an empty name beyond `listing`), whether the request at a
    trace position gets a response at all, and the value a node holds (and returns)
    after a write.
   */
  datatype Net = Net(listing: seq<string>, answers: nat -> bool, accept: (string, Value) -> Value)

  /** The name returned for `List(i)`. */
  function NameAt(listing: seq<string>, i: nat): string {
    if i < |listing| then listing[i] else ""
  }

  /** The remote node's registers and the requests sent so far. */
  datatype Link = Link(store: map<string, Value>, trace: seq<Request>)

  function Send(l: Link, r: Request): Link {
    l.(trace := l.trace + [r])
  }

  /** The next request sent on `l` gets a response. */
  predicate Answered(net: Net, l: Link) {
    net.answers(|l.trace|)
  }

  /** A read of a register the node does not have yields the empty value. */
  function Lookup(store: map<string, Value>, name: string): Value {
    if name in store then store[name] else EmptyValue
  }

  /**
    `access(name, value)`: one register round trip, a read when `value` is `None`. With
    no response it raises; a read yields what the node holds; after a write the node
    holds, and returns, what it accepted.
   */
  function Round(net: Net, l: Link, name: string, value: Option<Value>): (o: Step<Value>)
    ensures o.link.trace == l.trace + [Access(name, value)]
    ensures o.result.Failure? <==> !Answered(net, l)
    ensures o.result.Failure? ==> o.result.error == TimedOut(Access(name, value)) && o.link.store == l.store
    ensures o.result.Success? && value.None? ==> o.link.store == l.store && o.result.value == Lookup(l.store, name)
    ensures o.result.Success? && value.Some? ==>
              && o.link.store == l.store[name := net.accept(name, value.value)]
              && o.result.value == net.accept(name, value.value)
  {
    var req := Access(name, value);
    if !Answered(net, l) then Step(Send(l, req), Failure(TimedOut(req)))
    else
      match value
      case None => Step(Send(l, req), Success(Lookup(l.store, name)))
      case Some(v) =>
        var stored := net.accept(name, v);
        Step(Send(l, req).(store := l.store[name := stored]), Success(stored))
  }

  /** How a run ends: one of the three early returns, a raised exception, or success. */
  datatype Outcome =
    | NotCapable
    | AlreadyConfigured
    | Rejected
    | TimedOut(request: Request)             // NetworkTimeoutError
    | Unconvertible(name: string, value: Value)  // `int(ValueProxy(value))` raises
    | Configured

  /** The state after a phase, and either the phase's result or the outcome that ends the run. */
  datatype Step<T> = Step(link: Link, result: Result<T, Outcome>)

  datatype Session = Session(outcome: Outcome, link: Link)

  // The cookie check.

  /** `value.string.value.tobytes().decode().strip().lower()` */
  function Normalize(text: string): string {
    Lower(Strip(text, Whitespace))
  }

  /** The early return the cookie register causes, if any. */
  function CookieVerdict(v: Value, expected: string): Option<Outcome> {
    if !v.Str? then Some(NotCapable)
    else if Normalize(v.text) == expected then Some(AlreadyConfigured)
    else if Normalize(v.text) == "reject" then Some(Rejected)
    else None
  }

  // The enumeration: `for i in count(): … if not nm: break; available_registers.append(nm)`.

  function Enumerate(net: Net, l: Link, i: nat, found: seq<string>): Step<seq<string>>
    decreases |net.listing| - i
  {
    var req := List(i);
    if !Answered(net, l) then Step(Send(l, req), Failure(TimedOut(req)))
    else if NameAt(net.listing, i) == "" then Step(Send(l, req), Success(found))
    else Enumerate(net, Send(l, req), i + 1, found + [net.listing[i]])
  }

  // extract_ports and the register names.

  /** `f"uavcan.{kind}."` */
  function PortPrefix(kind: string): string {
    "uavcan." + kind + "."
  }

  const IdSuffix: string := ".id"

  /** `r.startswith(s) and r.endswith(e)` */
  predicate IsPortRegister(r: string, kind: string) {
    StartsWith(r, PortPrefix(kind)) && EndsWith(r, IdSuffix)
  }

  /** `r[len(s) - 1 : -len(e)]`: the slice starts one character early, at the dot. */
  function PortPart(r: string, kind: string): string {
    PySlice(r, |PortPrefix(kind)| - 1, -|IdSuffix|)
  }

  /** `extract_ports(kind)` */
  function ExtractPorts(avail: seq<string>, kind: string): seq<string> {
    if avail == [] then []
    else
      var r := avail[|avail| - 1];
      ExtractPorts(avail[..|avail| - 1], kind) + (if IsPortRegister(r, kind) then [PortPart(r, kind)] else [])
  }

  /** `f"uavcan.{kind}.{port_name}.id"` */
  function RegisterName(kind: string, name: string): string {
    PortPrefix(kind) + name + IdSuffix
  }

  // Reading the port IDs.

  /** `read_port_id(kind, name)`: a read whose value the coercion `toInt` must turn into an integer. */
  function ReadId(net: Net, toInt: Value -> Option<int>, l: Link, kind: string, name: string): (o: Step<int>)
    ensures o.link == Send(l, Access(RegisterName(kind, name), None))
    ensures o.result.Success? <==> Answered(net, l) && toInt(Lookup(l.store, RegisterName(kind, name))).Some?
    ensures o.result.Success? ==> Some(o.result.value) == toInt(Lookup(l.store, RegisterName(kind, name)))
    ensures o.result.Failure? ==>
              o.result.error == if Answered(net, l) then Unconvertible(RegisterName(kind, name), Lookup(l.store, RegisterName(kind, name)))
                                else TimedOut(Access(RegisterName(kind, name), None))
  {
    var a := Round(net, l, RegisterName(kind, name), None);
    if a.result.Failure? then Step(a.link, Failure(a.result.error))
    else
      match toInt(a.result.value)
      case None => Step(a.link, Failure(Unconvertible(RegisterName(kind, name), a.result.value)))
      case Some(id) => Step(a.link, Success(id))
  }

  /** `{n: await read_port_id(kind, n) for n in names}`, from the `j`-th name on. */
  function ReadIds(net: Net, toInt: Value -> Option<int>, l: Link, kind: string, names: seq<string>, j: nat,
                   acc: Dict<string, int>): Step<Dict<string, int>>
    requires j <= |names|
    decreases |names| - j
  {
    if j == |names| then Step(l, Success(acc))
    else
      var o := ReadId(net, toInt, l, kind, names[j]);
      match o.result
      case Failure(e) => Step(o.link, Failure(e))
      case Success(id) => ReadIds(net, toInt, o.link, kind, names, j + 1, Put(acc, names[j], id))
  }

  /** `original_ports`: the four comprehensions, evaluated pub, sub, cln, srv. */
  function ReadPorts(net: Net, toInt: Value -> Option<int>, l: Link, avail: seq<string>): Step<PortAssignment> {
    var p := ReadIds(net, toInt, l, "pub", ExtractPorts(avail, "pub"), 0, Empty());
    if p.result.Failure? then Step(p.link, Failure(p.result.error))
    else
      var s := ReadIds(net, toInt, p.link, "sub", ExtractPorts(avail, "sub"), 0, Empty());
      if s.result.Failure? then Step(s.link, Failure(s.result.error))
      else
        var c := ReadIds(net, toInt, s.link, "cln", ExtractPorts(avail, "cln"), 0, Empty());
        if c.result.Failure? then Step(c.link, Failure(c.result.error))
        else
          var v := ReadIds(net, toInt, c.link, "srv", ExtractPorts(avail, "srv"), 0, Empty());
          if v.result.Failure? then Step(v.link, Failure(v.result.error))
          else Step(v.link, Success(KindMaps(p.result.value, s.result.value, c.result.value, v.result.value)))
  }

  // final_registers.

  /** The registers `names` of kind `kind` are written to, in order. */
  function RegisterNames(kind: string, names: seq<string>): (r: seq<string>)
    ensures |r| == |names|
    ensures forall j :: 0 <= j < |names| ==> r[j] == RegisterName(kind, names[j])
  {
    if names == [] then [] else RegisterNames(kind, names[..|names| - 1]) + [RegisterName(kind, names[|names| - 1])]
  }

  /** The comprehension of `ports_to_registers` over `names`, the keys of `ids` in order. */
  function RegistersOf(kind: string, names: seq<string>, ids: map<string, int>): Dict<string, Value>
    requires forall n :: n in names ==> n in ids
  {
    if names == [] then Empty()
    else
      var n := names[|names| - 1];
      Put(RegistersOf(kind, names[..|names| - 1], ids), RegisterName(kind, n), Natural16([ids[n]]))
  }

  /** `ports_to_registers(kind, ports)` */
  function PortsToRegisters(kind: string, ports: Dict<string, int>): Dict<string, Value> {
    RegistersOf(kind, ports.keys, ports.items)
  }

  /** `d.update(e)` with `e`'s entries taken from `keys`, in order. */
  function UpdateWith(d: Dict<string, Value>, keys: seq<string>, items: map<string, Value>): Dict<string, Value>
    requires forall x :: x in keys ==> x in items
  {
    if keys == [] then d
    else
      var x := keys[|keys| - 1];
      Put(UpdateWith(d, keys[..|keys| - 1], items), x, items[x])
  }

  /** `d.update(e)` */
  function Update(d: Dict<string, Value>, e: Dict<string, Value>): Dict<string, Value> {
    UpdateWith(d, e.keys, e.items)
  }

  /** The four `update` calls of `final_registers`: pub, sub, cln, srv. */
  function PortRegisters(ports: PortAssignment): Dict<string, Value> {
    Update(Update(Update(Update(Empty(), PortsToRegisters("pub", ports.pub)),
                         PortsToRegisters("sub", ports.sub)),
                  PortsToRegisters("cln", ports.cln)),
           PortsToRegisters("srv", ports.srv))
  }

  /** `final_registers`: the four kinds' registers, then the cookie. */
  function FinalRegisters(ports: PortAssignment, expected: string): Dict<string, Value> {
    Put(PortRegisters(ports), CookieRegister, Str(expected))
  }

  // The write loop: a mismatched echo is only logged; a missing response raises.

  function WriteAll(net: Net, l: Link, items: seq<(string, Value)>, j: nat): Step<()>
    requires j <= |items|
    decreases |items| - j
  {
    if j == |items| then Step(l, Success(()))
    else
      var w := Round(net, l, items[j].0, Some(items[j].1));
      if w.result.Failure? then Step(w.link, Failure(w.result.error))
      else WriteAll(net, w.link, items, j + 1)
  }

  // The whole run.

  /** Everything after the enumeration. */
  function Configure(net: Net, l: Link, avail: seq<string>, expected: string,
                     alloc: PortAssignment -> PortAssignment, toInt: Value -> Option<int>): Session
  {
    var r := ReadPorts(net, toInt, l, avail);
    if r.result.Failure? then Session(r.result.error, r.link)
    else
      var final := FinalRegisters(alloc(r.result.value), expected);
      var w := WriteAll(net, r.link, Items(final), 0);
      if w.result.Failure? then Session(w.result.error, w.link)
      else Session(Configured, Send(Send(w.link, Execute(CommandStorePersistentStates)), Execute(CommandRestart)))
  }

  /** The session `perform_automatic_port_id_allocation` runs against a node whose registers are `store`. */
  function Allocation(net: Net, store: map<string, Value>, expected: string,
                      alloc: PortAssignment -> PortAssignment, toInt: Value -> Option<int>): Session
  {
    var c := Round(net, Link(store, []), CookieRegister, None);
    if c.result.Failure? then Session(c.result.error, c.link)
    else
      match CookieVerdict(c.result.value, expected)
      case Some(o) => Session(o, c.link)
      case None =>
        var e := Enumerate(net, c.link, 0, []);
        if e.result.Failure? then Session(e.result.error, e.link)
        else Configure(net, e.link, e.result.value, expected, alloc, toInt)
  }

  // The imperative sequence.

  /** One comprehension `{n: await read_port_id(kind, n) for n in names}`. */
  method ReadPortIds(net: Net, toInt: Value -> Option<int>, l0: Link, kind: string, names: seq<string>)
    returns (st: Step<Dict<string, int>>)
    ensures st == ReadIds(net, toInt, l0, kind, names, 0, Empty())
  {
    var l := l0;
    var ids: Dict<string, int> := Empty();
    var j := 0;
    while j < |names|
      invariant j <= |names|
      invariant ReadIds(net, toInt, l0, kind, names, 0, Empty()) == ReadIds(net, toInt, l, kind, names, j, ids)
      decreases |names| - j
    {
      var o := ReadId(net, toInt, l, kind, names[j]);
      l := o.link;
      if o.result.Failure? {
        return Step(l, Failure(o.result.error));
      }
      ids := Put(ids, names[j], o.result.value);
      j := j + 1;
    }
    return Step(l, Success(ids));
  }

  /** `for rn, rv in final_registers.items(): value = await access(rn, rv) …` */
  method WriteRegisters(net: Net, l0: Link, items: seq<(string, Value)>) returns (st: Step<()>)
    ensures st == WriteAll(net, l0, items, 0)
  {
    var l := l0;
    var j := 0;
    while j < |items|
      invariant j <= |items|
      invariant WriteAll(net, l0, items, 0) == WriteAll(net, l, items, j)
      decreases |items| - j
    {
      var (rn, rv) := items[j];
      var w := Round(net, l, rn, Some(rv));
      l := w.link;
      if w.result.Failure? {
        return Step(l, Failure(w.result.error));
      }  // a stored value other than `rv` is only logged
      j := j + 1;
    }
    return Step(l, Success(()));
  }

  /** `perform_automatic_port_id_allocation(…)`, with the allocator and the integer coercion as parameters. */
  method PerformAutomaticPortIdAllocation(net: Net, store: map<string, Value>, expected: string,
                                          alloc: PortAssignment -> PortAssignment, toInt: Value -> Option<int>)
    returns (s: Session)
    ensures s == Allocation(net, store, expected, alloc, toInt)
  {
    var cookie := Round(net, Link(store, []), CookieRegister, None);
    var l := cookie.link;
    if cookie.result.Failure? {
      return Session(cookie.result.error, l);
    }
    var verdict := CookieVerdict(cookie.result.value, expected);
    if verdict.Some? {
      return Session(verdict.value, l);
    }

    ghost var l1 := l;
    var available: seq<string> := [];
    var i: nat := 0;
    while true
      invariant i <= |net.listing|
      invariant Enumerate(net, l1, 0, []) == Enumerate(net, l, i, available)
      decreases |net.listing| - i
    {
      var req := List(i);
      var ok := Answered(net, l);
      var nm := NameAt(net.listing, i);
      l := Send(l, req);
      if !ok {
        return Session(TimedOut(req), l);
      }
      if nm == "" {
        break;
      }
      available := available + [nm];
      i := i + 1;
    }
    ghost var l2 := l;
    assert Enumerate(net, l1, 0, []) == Step(l2, Success(available));

    var pub := ReadPortIds(net, toInt, l, "pub", ExtractPorts(available, "pub"));
    if pub.result.Failure? {
      return Session(pub.result.error, pub.link);
    }
    var sub := ReadPortIds(net, toInt, pub.link, "sub", ExtractPorts(available, "sub"));
    if sub.result.Failure? {
      return Session(sub.result.error, sub.link);
    }
    var cln := ReadPortIds(net, toInt, sub.link, "cln", ExtractPorts(available, "cln"));
    if cln.result.Failure? {
      return Session(cln.result.error, cln.link);
    }
    var srv := ReadPortIds(net, toInt, cln.link, "srv", ExtractPorts(available, "srv"));
    if srv.result.Failure? {
      return Session(srv.result.error, srv.link);
    }
    var original := KindMaps(pub.result.value, sub.result.value, cln.result.value, srv.result.value);
    assert ReadPorts(net, toInt, l2, available) == Step(srv.link, Success(original));

    var ports := alloc(original);
    var final: Dict<string, Value> := Empty();
    final := Update(final, PortsToRegisters("pub", ports.pub));
    final := Update(final, PortsToRegisters("sub", ports.sub));
    final := Update(final, PortsToRegisters("cln", ports.cln));
    final := Update(final, PortsToRegisters("srv", ports.srv));
    final := Put(final, CookieRegister, Str(expected));

    var written := WriteRegisters(net, srv.link, Items(final));
    if written.result.Failure? {
      return Session(written.result.error, written.link);
    }
    l := written.link;
    l := Send(l, Execute(CommandStorePersistentStates));  // a missing response only produces a warning
    l := Send(l, Execute(CommandRestart));
    return Session(Configured, l);
  }

  // What each phase guarantees.

  /** `l'` continues `l` with reads and listings only, and the registers are as they were. */
  predicate ReadOnly(l: Link, l': Link) {
    && l'.store == l.store
    && |l.trace| <= |l'.trace| && l'.trace[..|l.trace|] == l.trace
    && forall t :: |l.trace| <= t < |l'.trace| ==> !IsWrite(l'.trace[t])
  }

  lemma ReadOnlyTransitive(a: Link, b: Link, c: Link)
    requires ReadOnly(a, b) && ReadOnly(b, c)
    ensures ReadOnly(a, c)
  {
    assert c.trace[..|a.trace|] == c.trace[..|b.trace|][..|a.trace|];
    forall t | |a.trace| <= t < |c.trace|
      ensures !IsWrite(c.trace[t])
    {
      if t < |b.trace| {
        assert c.trace[t] == c.trace[..|b.trace|][t];
      }
    }
  }

  /** Sending a request that is not a write. */
  lemma SendReadOnly(l: Link, q: Request)
    requires !IsWrite(q)
    ensures ReadOnly(l, Send(l, q))
  {
    assert Send(l, q).trace[..|l.trace|] == l.trace;
  }

  /** Two sends in a row append both requests (kept apart from `ConfigureSpec` so its proof stays small). */
  lemma AppendTwo<T>(a: seq<T>, x: T, y: T)
    ensures a + [x] + [y] == a + [x, y]
  {
  }

  /** Every request sent on `l` got a response. */
  predicate AllAnswered(net: Net, l: Link) {
    forall t :: 0 <= t < |l.trace| ==> net.answers(t)
  }

  /** The last request sent on `l` is `q`, it got no response, and every request before it did. */
  predicate StoppedAt(net: Net, l: Link, q: Request) {
    && |l.trace| > 0 && l.trace[|l.trace| - 1] == q && !net.answers(|l.trace| - 1)
    && forall t :: 0 <= t < |l.trace| - 1 ==> net.answers(t)
  }

  /** A phase ends on an unanswered request exactly when it times out; otherwise every request was answered. */
  predicate AnswersKept<T>(net: Net, l: Link, res: Result<T, Outcome>) {
    if res.Failure? && res.error.TimedOut? then StoppedAt(net, l, res.error.request) else AllAnswered(net, l)
  }

  /** Sending the next request on a link whose requests were all answered. */
  lemma SendAnswered(net: Net, l: Link, q: Request)
    requires AllAnswered(net, l)
    ensures Answered(net, l) ==> AllAnswered(net, Send(l, q))
    ensures !Answered(net, l) ==> StoppedAt(net, Send(l, q), q)
  {
  }

  /** `count` listing requests from index `i` on. */
  function Lists(i: nat, count: nat): (r: seq<Request>)
    ensures |r| == count
    ensures forall j :: 0 <= j < count ==> r[j] == List(i + j)
  {
    if count == 0 then [] else Lists(i, count - 1) + [List(i + count - 1)]
  }

  /** The index at which the enumeration from index `i`, its request at trace position `t`, stops. */
  function EnumStop(net: Net, t: nat, i: nat): (m: nat)
    ensures i <= m
    ensures i <= |net.listing| ==> m <= |net.listing|
    decreases |net.listing| - i
  {
    if !net.answers(t) || NameAt(net.listing, i) == "" then i else EnumStop(net, t + 1, i + 1)
  }

  /** The enumeration stops at an empty name or at a request without a response. */
  lemma {:induction false} EnumStopEnd(net: Net, t: nat, i: nat)
    ensures var m := EnumStop(net, t, i);
            !net.answers(t + m - i) || NameAt(net.listing, m) == ""
    decreases |net.listing| - i
  {
    if net.answers(t) && NameAt(net.listing, i) != "" {
      EnumStopEnd(net, t + 1, i + 1);
    }
  }

  /** Every listing request before the stop index was answered with a name. */
  lemma {:induction false} EnumStopBefore(net: Net, t: nat, i: nat, d: nat)
    requires d < EnumStop(net, t, i) - i
    ensures NameAt(net.listing, i + d) != "" && net.answers(t + d)
    decreases d
  {
    if d > 0 {
      EnumStopBefore(net, t + 1, i + 1, d - 1);
    }
  }

  /**
    The enumeration requests indices `i`, `i + 1`, … up to its stop index `m`, and
    yields the names before `m` if that last request was answered. The registers are
    not touched.
   */
  lemma {:induction false} EnumerateSpec(net: Net, l: Link, i: nat, found: seq<string>)
    requires i <= |net.listing| && found == net.listing[..i]
    ensures var m := EnumStop(net, |l.trace|, i);
            && Enumerate(net, l, i, found).link == Link(l.store, l.trace + Lists(i, m + 1 - i))
            && Enumerate(net, l, i, found).result ==
               if net.answers(|l.trace| + m - i) then Success(net.listing[..m]) else Failure(TimedOut(List(m)))
    decreases |net.listing| - i
  {
    if Answered(net, l) && NameAt(net.listing, i) != "" {
      var l' := Send(l, List(i));
      var m := EnumStop(net, |l.trace|, i);
      assert found + [net.listing[i]] == net.listing[..i + 1];
      EnumerateSpec(net, l', i + 1, found + [net.listing[i]]);
      assert l'.trace + Lists(i + 1, m - i) == l.trace + Lists(i, m + 1 - i) by {
        assert [List(i)] + Lists(i + 1, m - i) == Lists(i, m + 1 - i);
      }
    } else {
      assert Lists(i, 1) == [List(i)];
    }
  }

  /** Appending requests none of which is a write, the registers untouched. */
  lemma AppendReadOnly(l: Link, added: seq<Request>)
    requires forall t :: 0 <= t < |added| ==> !IsWrite(added[t])
    ensures ReadOnly(l, Link(l.store, l.trace + added))
  {
    var l' := Link(l.store, l.trace + added);
    assert l'.trace[..|l.trace|] == l.trace;
    forall t | |l.trace| <= t < |l'.trace|
      ensures !IsWrite(l'.trace[t])
    {
      assert l'.trace[t] == added[t - |l.trace|];
    }
  }

  /** The enumeration only lists, and can fail only by a timeout. */
  lemma EnumerateReadOnly(net: Net, l: Link)
    ensures var e := Enumerate(net, l, 0, []);
            && ReadOnly(l, e.link)
            && (e.result.Failure? ==> e.result.error.TimedOut?)
  {
    EnumerateSpec(net, l, 0, []);
    AppendReadOnly(l, Lists(0, EnumStop(net, |l.trace|, 0) + 1));
  }

  /** The enumeration keeps the answers invariant. */
  lemma EnumerateAnswers(net: Net, l: Link)
    requires AllAnswered(net, l)
    ensures var e := Enumerate(net, l, 0, []);
            AnswersKept(net, e.link, e.result)
  {
    var e := Enumerate(net, l, 0, []);
    var m := EnumStop(net, |l.trace|, 0);
    EnumerateSpec(net, l, 0, []);
    assert |e.link.trace| == |l.trace| + m + 1;
    assert e.link.trace[|l.trace| + m] == List(m) by {
      assert e.link.trace[|l.trace| + m] == Lists(0, m + 1)[m];
    }
    forall t | 0 <= t < |l.trace| + m
      ensures net.answers(t)
    {
      if t >= |l.trace| {
        EnumStopBefore(net, |l.trace|, 0, t - |l.trace|);
      }
    }
  }

  /** Reading the IDs of `names[j..]` only reads. */
  lemma {:induction false} ReadIdsReadOnly(net: Net, toInt: Value -> Option<int>, l: Link, kind: string, names: seq<string>,
                                           j: nat, acc: Dict<string, int>)
    requires j <= |names|
    ensures ReadOnly(l, ReadIds(net, toInt, l, kind, names, j, acc).link)
    decreases |names| - j
  {
    if j < |names| {
      var o := ReadId(net, toInt, l, kind, names[j]);
      SendReadOnly(l, Access(RegisterName(kind, names[j]), None));
      if o.result.Success? {
        var acc' := Put(acc, names[j], o.result.value);
        ReadIdsReadOnly(net, toInt, o.link, kind, names, j + 1, acc');
        ReadOnlyTransitive(l, o.link, ReadIds(net, toInt, o.link, kind, names, j + 1, acc').link);
      }
    } else {
      assert l.trace[..|l.trace|] == l.trace;
    }
  }

  /** Reading the IDs fails only by a timeout or a failed conversion. */
  lemma {:induction false} ReadIdsFailure(net: Net, toInt: Value -> Option<int>, l: Link, kind: string, names: seq<string>,
                                          j: nat, acc: Dict<string, int>)
    requires j <= |names|
    ensures var r := ReadIds(net, toInt, l, kind, names, j, acc);
            r.result.Failure? ==> r.result.error.TimedOut? || r.result.error.Unconvertible?
    decreases |names| - j
  {
    if j < |names| {
      var o := ReadId(net, toInt, l, kind, names[j]);
      if o.result.Success? {
        ReadIdsFailure(net, toInt, o.link, kind, names, j + 1, Put(acc, names[j], o.result.value));
      }
    }
  }

  /** Reading the IDs keeps the answers invariant. */
  lemma {:induction false} ReadIdsAnswers(net: Net, toInt: Value -> Option<int>, l: Link, kind: string, names: seq<string>,
                                          j: nat, acc: Dict<string, int>)
    requires j <= |names| && AllAnswered(net, l)
    ensures var r := ReadIds(net, toInt, l, kind, names, j, acc);
            AnswersKept(net, r.link, r.result)
    decreases |names| - j
  {
    if j < |names| {
      var o := ReadId(net, toInt, l, kind, names[j]);
      SendAnswered(net, l, Access(RegisterName(kind, names[j]), None));
      if o.result.Success? {
        ReadIdsAnswers(net, toInt, o.link, kind, names, j + 1, Put(acc, names[j], o.result.value));
      }
    }
  }

  /** The read requests for `names` of kind `kind`, in order. */
  function Reads(kind: string, names: seq<string>): (r: seq<Request>)
    ensures |r| == |names|
    ensures forall j :: 0 <= j < |names| ==> r[j] == Access(RegisterName(kind, names[j]), None)
  {
    if names == [] then [] else [Access(RegisterName(kind, names[0]), None)] + Reads(kind, names[1..])
  }

  /** Every ID of `ids` is what `toInt` makes of the register it was read from. */
  predicate HoldsIds(ids: Dict<string, int>, toInt: Value -> Option<int>, store: map<string, Value>, kind: string) {
    forall n :: n in ids.items ==> toInt(Lookup(store, RegisterName(kind, n))) == Some(ids.items[n])
  }

  /** A successful comprehension holds each name once, in first-occurrence order, with the ID read for it. */
  lemma {:induction false} ReadIdsResult(net: Net, toInt: Value -> Option<int>, l: Link, kind: string, names: seq<string>,
                                         j: nat, acc: Dict<string, int>)
    requires j <= |names|
    requires acc.keys == Dedup(names[..j]) && HoldsIds(acc, toInt, l.store, kind)
    ensures var r := ReadIds(net, toInt, l, kind, names, j, acc);
            r.result.Success? ==> r.result.value.keys == Dedup(names) && HoldsIds(r.result.value, toInt, l.store, kind)
    decreases |names| - j
  {
    if j == |names| {
      assert names[..j] == names;
    } else {
      var o := ReadId(net, toInt, l, kind, names[j]);
      if o.result.Success? {
        assert names[..j + 1] == names[..j] + [names[j]];
        DedupSnoc(names[..j], names[j]);
        ReadIdsResult(net, toInt, o.link, kind, names, j + 1, Put(acc, names[j], o.result.value));
      }
    }
  }

  /** A successful comprehension reads the register of each name once per occurrence, in order. */
  lemma {:induction false} ReadIdsTrace(net: Net, toInt: Value -> Option<int>, l: Link, kind: string, names: seq<string>,
                                        j: nat, acc: Dict<string, int>)
    requires j <= |names|
    ensures var r := ReadIds(net, toInt, l, kind, names, j, acc);
            r.result.Success? ==> r.link.trace == l.trace + Reads(kind, names[j..])
    decreases |names| - j
  {
    if j == |names| {
      assert names[j..] == [];
    } else {
      var req := Access(RegisterName(kind, names[j]), None);
      var o := ReadId(net, toInt, l, kind, names[j]);
      if o.result.Success? {
        assert names[j..][1..] == names[j + 1..];
        var rest := Reads(kind, names[j + 1..]);
        assert (l.trace + [req]) + rest == l.trace + ([req] + rest);
        ReadIdsTrace(net, toInt, o.link, kind, names, j + 1, Put(acc, names[j], o.result.value));
      }
    }
  }

  /** Reading the four kinds only reads, keeps the answers invariant, and fails by a timeout or a failed conversion. */
  lemma ReadPortsPhase(net: Net, toInt: Value -> Option<int>, l: Link, avail: seq<string>)
    ensures var r := ReadPorts(net, toInt, l, avail);
            && ReadOnly(l, r.link)
            && (AllAnswered(net, l) ==> AnswersKept(net, r.link, r.result))
            && (r.result.Failure? ==> r.result.error.TimedOut? || r.result.error.Unconvertible?)
  {
    var p := ReadIds(net, toInt, l, "pub", ExtractPorts(avail, "pub"), 0, Empty());
    ReadIdsReadOnly(net, toInt, l, "pub", ExtractPorts(avail, "pub"), 0, Empty());
    ReadIdsFailure(net, toInt, l, "pub", ExtractPorts(avail, "pub"), 0, Empty());
    if AllAnswered(net, l) { ReadIdsAnswers(net, toInt, l, "pub", ExtractPorts(avail, "pub"), 0, Empty()); }
    if p.result.Success? {
      var s := ReadIds(net, toInt, p.link, "sub", ExtractPorts(avail, "sub"), 0, Empty());
      ReadIdsReadOnly(net, toInt, p.link, "sub", ExtractPorts(avail, "sub"), 0, Empty());
      ReadIdsFailure(net, toInt, p.link, "sub", ExtractPorts(avail, "sub"), 0, Empty());
      if AllAnswered(net, p.link) { ReadIdsAnswers(net, toInt, p.link, "sub", ExtractPorts(avail, "sub"), 0, Empty()); }
      ReadOnlyTransitive(l, p.link, s.link);
      if s.result.Success? {
        var c := ReadIds(net, toInt, s.link, "cln", ExtractPorts(avail, "cln"), 0, Empty());
        ReadIdsReadOnly(net, toInt, s.link, "cln", ExtractPorts(avail, "cln"), 0, Empty());
        ReadIdsFailure(net, toInt, s.link, "cln", ExtractPorts(avail, "cln"), 0, Empty());
        if AllAnswered(net, s.link) { ReadIdsAnswers(net, toInt, s.link, "cln", ExtractPorts(avail, "cln"), 0, Empty()); }
        ReadOnlyTransitive(l, s.link, c.link);
        if c.result.Success? {
          var v := ReadIds(net, toInt, c.link, "srv", ExtractPorts(avail, "srv"), 0, Empty());
          ReadIdsReadOnly(net, toInt, c.link, "srv", ExtractPorts(avail, "srv"), 0, Empty());
          ReadIdsFailure(net, toInt, c.link, "srv", ExtractPorts(avail, "srv"), 0, Empty());
          if AllAnswered(net, c.link) { ReadIdsAnswers(net, toInt, c.link, "srv", ExtractPorts(avail, "srv"), 0, Empty()); }
          ReadOnlyTransitive(l, c.link, v.link);
        }
      }
    }
  }

  /** One kind's comprehension from an empty dict. */
  lemma ReadKindResult(net: Net, toInt: Value -> Option<int>, l: Link, kind: string, names: seq<string>)
    ensures var r := ReadIds(net, toInt, l, kind, names, 0, Empty());
            r.result.Success? ==>
              && r.result.value.keys == Dedup(names)
              && HoldsIds(r.result.value, toInt, l.store, kind)
              && r.link.trace == l.trace + Reads(kind, names)
  {
    assert names[..0] == [];
    assert names[0..] == names;
    ReadIdsResult(net, toInt, l, kind, names, 0, Empty());
    ReadIdsTrace(net, toInt, l, kind, names, 0, Empty());
  }

  /**
    `original_ports`: each kind holds the ports `extract_ports` found for it, each once
    in first-occurrence order, with the ID read from the node; the reads go pub, sub,
    cln, srv, each kind's names in order.
   */
  lemma ReadPortsResult(net: Net, toInt: Value -> Option<int>, l: Link, avail: seq<string>)
    ensures var r := ReadPorts(net, toInt, l, avail);
            r.result.Success? ==>
              && (forall k: Kind :: r.result.value.Of(k).keys == Dedup(ExtractPorts(avail, KindName(k))))
              && (forall k: Kind :: HoldsIds(r.result.value.Of(k), toInt, l.store, KindName(k)))
              && r.link.trace == l.trace + Reads("pub", ExtractPorts(avail, "pub")) + Reads("sub", ExtractPorts(avail, "sub"))
                                         + Reads("cln", ExtractPorts(avail, "cln")) + Reads("srv", ExtractPorts(avail, "srv"))
  {
    var r := ReadPorts(net, toInt, l, avail);
    if r.result.Success? {
      var p := ReadIds(net, toInt, l, "pub", ExtractPorts(avail, "pub"), 0, Empty());
      var s := ReadIds(net, toInt, p.link, "sub", ExtractPorts(avail, "sub"), 0, Empty());
      var c := ReadIds(net, toInt, s.link, "cln", ExtractPorts(avail, "cln"), 0, Empty());
      var v := ReadIds(net, toInt, c.link, "srv", ExtractPorts(avail, "srv"), 0, Empty());
      ReadKindResult(net, toInt, l, "pub", ExtractPorts(avail, "pub"));
      ReadKindResult(net, toInt, p.link, "sub", ExtractPorts(avail, "sub"));
      ReadKindResult(net, toInt, s.link, "cln", ExtractPorts(avail, "cln"));
      ReadKindResult(net, toInt, c.link, "srv", ExtractPorts(avail, "srv"));
      ReadIdsReadOnly(net, toInt, l, "pub", ExtractPorts(avail, "pub"), 0, Empty());
      ReadIdsReadOnly(net, toInt, p.link, "sub", ExtractPorts(avail, "sub"), 0, Empty());
      ReadIdsReadOnly(net, toInt, s.link, "cln", ExtractPorts(avail, "cln"), 0, Empty());
      forall k: Kind
        ensures r.result.value.Of(k).keys == Dedup(ExtractPorts(avail, KindName(k)))
        ensures HoldsIds(r.result.value.Of(k), toInt, l.store, KindName(k))
      {
        match k
        case Pub =>
        case Sub =>
        case Cln =>
        case Srv =>
      }
    }
  }

  // The writes.

  /** The write requests for `items`, in order. */
  function Writes(items: seq<(string, Value)>): (r: seq<Request>)
    ensures |r| == |items|
    ensures forall j :: 0 <= j < |items| ==> r[j] == Access(items[j].0, Some(items[j].1))
  {
    if items == [] then [] else [Access(items[0].0, Some(items[0].1))] + Writes(items[1..])
  }

  /** The registers after the node accepted each write of `items`, in order. */
  function Applied(net: Net, store: map<string, Value>, items: seq<(string, Value)>): map<string, Value>
    decreases |items|
  {
    if items == [] then store else Applied(net, store[items[0].0 := net.accept(items[0].0, items[0].1)], items[1..])
  }

  /**
    The write loop sends every entry once, in order, and the node ends up holding what
    it accepted for each; it stops only on a write that gets no response.
   */
  lemma {:induction false} WriteAllSpec(net: Net, l: Link, items: seq<(string, Value)>, j: nat)
    requires j <= |items|
    ensures var w := WriteAll(net, l, items, j);
            && (w.result.Failure? ==> w.result.error.TimedOut? && IsWrite(w.result.error.request))
            && (w.result.Success? ==> w.link == Link(Applied(net, l.store, items[j..]), l.trace + Writes(items[j..])))
    decreases |items| - j
  {
    if j == |items| {
      assert items[j..] == [];
    } else if Answered(net, l) {
      var req := Access(items[j].0, Some(items[j].1));
      var w := Round(net, l, items[j].0, Some(items[j].1));
      assert items[j..][1..] == items[j + 1..];
      assert [req] + Writes(items[j + 1..]) == Writes(items[j..]);
      assert (l.trace + [req]) + Writes(items[j + 1..]) == l.trace + ([req] + Writes(items[j + 1..]));
      WriteAllSpec(net, w.link, items, j + 1);
    }
  }

  /** The write loop keeps the answers invariant. */
  lemma {:induction false} WriteAllAnswers(net: Net, l: Link, items: seq<(string, Value)>, j: nat)
    requires j <= |items| && AllAnswered(net, l)
    ensures var w := WriteAll(net, l, items, j);
            AnswersKept(net, w.link, w.result)
    decreases |items| - j
  {
    if j < |items| {
      SendAnswered(net, l, Access(items[j].0, Some(items[j].1)));
      if Answered(net, l) {
        WriteAllAnswers(net, Round(net, l, items[j].0, Some(items[j].1)).link, items, j + 1);
      }
    }
  }

  /** After the writes, the register written last holds what the node accepted for it. */
  lemma {:induction false} AppliedLast(net: Net, store: map<string, Value>, items: seq<(string, Value)>)
    requires items != []
    ensures var x := items[|items| - 1];
            x.0 in Applied(net, store, items) && Applied(net, store, items)[x.0] == net.accept(x.0, x.1)
    decreases |items|
  {
    if |items| > 1 {
      AppliedLast(net, store[items[0].0 := net.accept(items[0].0, items[0].1)], items[1..]);
    }
  }

  // What extract_ports yields.

  /** `extract_ports` filters and maps element by element, so it keeps the listing's order. */
  lemma {:induction false} ExtractPortsConcat(a: seq<string>, b: seq<string>, kind: string)
    ensures ExtractPorts(a + b, kind) == ExtractPorts(a, kind) + ExtractPorts(b, kind)
    decreases |b|
  {
    if b == [] {
      assert a + b == a;
    } else {
      assert (a + b)[..|a + b| - 1] == a + b[..|b| - 1];
      ExtractPortsConcat(a, b[..|b| - 1], kind);
    }
  }

  /** Every listed port register of the kind contributes its port part. */
  lemma {:induction false} ExtractPortsComplete(avail: seq<string>, kind: string, r: string)
    requires r in avail && IsPortRegister(r, kind)
    ensures PortPart(r, kind) in ExtractPorts(avail, kind)
    decreases |avail|
  {
    var init := avail[..|avail| - 1];
    if r != avail[|avail| - 1] {
      assert avail == init + [avail[|avail| - 1]];
      ExtractPortsComplete(init, kind, r);
    }
  }

  /** Every name `extract_ports` yields is the port part of a listed port register of the kind. */
  lemma {:induction false} ExtractPortsSound(avail: seq<string>, kind: string, x: string)
    requires x in ExtractPorts(avail, kind)
    ensures exists r :: r in avail && IsPortRegister(r, kind) && PortPart(r, kind) == x
    decreases |avail|
  {
    var init := avail[..|avail| - 1];
    var last := avail[|avail| - 1];
    if x in ExtractPorts(init, kind) {
      ExtractPortsSound(init, kind, x);
      var r :| r in init && IsPortRegister(r, kind) && PortPart(r, kind) == x;
      assert r in avail;
    } else {
      assert last in avail;
    }
  }

  /**
    The slice in `extract_ports` starts one character early, so the register of port
    `x` yields `"." + x`, and the read that follows asks for `uavcan.<kind>..<x>.id`.
   */
  lemma PortPartKeepsDot(kind: string, x: string)
    ensures IsPortRegister(RegisterName(kind, x), kind)
    ensures PortPart(RegisterName(kind, x), kind) == "." + x
    ensures RegisterName(kind, PortPart(RegisterName(kind, x), kind)) == PortPrefix(kind) + "." + x + IdSuffix
  {
    var r := RegisterName(kind, x);
    var a := |PortPrefix(kind)| - 1;
    assert r[..|PortPrefix(kind)|] == PortPrefix(kind);
    assert r[|r| - |IdSuffix|..] == IdSuffix;
    assert r[a..|r| - |IdSuffix|] == "." + x;
  }

  /**
    The register `read_port_id` asks for is never the listed register its name came from:
    it is one character longer, or, for `uavcan.<kind>.id`, the empty port part.
   */
  lemma ReadNameIsNotListed(r: string, kind: string)
    requires IsPortRegister(r, kind)
    ensures RegisterName(kind, PortPart(r, kind)) != r
  {
    var n := |PortPrefix(kind)|;
    assert r[..n] == PortPrefix(kind);
    if |r| >= n + |IdSuffix| {
      assert |PortPart(r, kind)| == |r| - n - 2;
    } else {
      assert PortPart(r, kind) == "";
    }
  }

  /** `uavcan.<kind>.id` passes the filter too; its port part is empty. */
  lemma BarePortRegister(kind: string)
    ensures IsPortRegister(PortPrefix(kind) + "id", kind)
    ensures PortPart(PortPrefix(kind) + "id", kind) == ""
  {
    var r := PortPrefix(kind) + "id";
    assert r[..|PortPrefix(kind)|] == PortPrefix(kind);
    assert r[|r| - |IdSuffix|..] == IdSuffix;
  }

  // The shape of final_registers.

  /** Register names of kinds of one length determine the kind and the port name. */
  lemma RegisterNameInjective(a: string, n1: string, b: string, n2: string)
    requires |a| == |b| && RegisterName(a, n1) == RegisterName(b, n2)
    ensures a == b && n1 == n2
  {
    var s := RegisterName(a, n1);
    assert s[7..7 + |a|] == a;
    assert RegisterName(b, n2)[7..7 + |b|] == b;
    assert s[8 + |a|..|s| - 3] == n1;
    assert RegisterName(b, n2)[8 + |b|..|s| - 3] == n2;
  }

  /** No port register is the cookie register. */
  lemma CookieIsNoPortRegister(kind: string, n: string)
    ensures RegisterName(kind, n) != CookieRegister
  {
    assert RegisterName(kind, n)[1] == 'a';
    assert CookieRegister[1] == 'd';
  }

  /** Two kinds' register names never meet. */
  lemma KindsApart(a: string, names1: seq<string>, b: string, names2: seq<string>)
    requires |a| == |b| && a != b
    ensures forall x :: x in RegisterNames(a, names1) ==> x !in RegisterNames(b, names2)
  {
    forall x | x in RegisterNames(a, names1)
      ensures x !in RegisterNames(b, names2)
    {
      var i :| 0 <= i < |names1| && RegisterNames(a, names1)[i] == x;
      if x in RegisterNames(b, names2) {
        var j :| 0 <= j < |names2| && RegisterNames(b, names2)[j] == x;
        RegisterNameInjective(a, names1[i], b, names2[j]);
      }
    }
  }

  /** The cookie is not among a kind's register names. */
  lemma CookieApart(kind: string, names: seq<string>)
    ensures CookieRegister !in RegisterNames(kind, names)
  {
    if CookieRegister in RegisterNames(kind, names) {
      var i :| 0 <= i < |names| && RegisterNames(kind, names)[i] == CookieRegister;
      CookieIsNoPortRegister(kind, names[i]);
    }
  }

  /** `ports_to_registers`: one register per port, in the port order. */
  lemma {:induction false} RegistersOfKeys(kind: string, names: seq<string>, ids: map<string, int>)
    requires NoDup(names) && forall n :: n in names ==> n in ids
    ensures RegistersOf(kind, names, ids).keys == RegisterNames(kind, names)
  {
    if names != [] {
      var p := names[..|names| - 1];
      var x := names[|names| - 1];
      assert NoDup(p);
      RegistersOfKeys(kind, p, ids);
      if RegisterName(kind, x) in RegistersOf(kind, p, ids).items {
        var i :| 0 <= i < |p| && RegisterNames(kind, p)[i] == RegisterName(kind, x);
        RegisterNameInjective(kind, p[i], kind, x);
      }
    }
  }

  /** `ports_to_registers`: the register of each port holds the port's ID as a `natural16`. */
  lemma {:induction false} RegistersOfValues(kind: string, names: seq<string>, ids: map<string, int>)
    requires forall n :: n in names ==> n in ids
    ensures forall n :: n in names ==> RegisterName(kind, n) in RegistersOf(kind, names, ids).items
    ensures forall n :: n in names ==> RegistersOf(kind, names, ids).items[RegisterName(kind, n)] == Natural16([ids[n]])
  {
    if names != [] {
      var p := names[..|names| - 1];
      var x := names[|names| - 1];
      RegistersOfValues(kind, p, ids);
      forall n | n in names && n != x
        ensures n in p && RegisterName(kind, n) != RegisterName(kind, x)
      {
        assert names == p + [x];
        if RegisterName(kind, n) == RegisterName(kind, x) {
          RegisterNameInjective(kind, n, kind, x);
        }
      }
    }
  }

  /** `update` with keys that are all new appends them in order. */
  lemma {:induction false} UpdateWithKeys(d: Dict<string, Value>, keys: seq<string>, items: map<string, Value>)
    requires NoDup(keys) && forall x :: x in keys ==> x in items && x !in d.items
    ensures UpdateWith(d, keys, items).keys == d.keys + keys
  {
    if keys != [] {
      var p := keys[..|keys| - 1];
      assert NoDup(p);
      UpdateWithKeys(d, p, items);
      assert keys == p + [keys[|keys| - 1]];
    } else {
      assert d.keys + keys == d.keys;
    }
  }

  /** After `update`, a key of the update holds its new value and every other key its old one. */
  lemma {:induction false} UpdateWithValues(d: Dict<string, Value>, keys: seq<string>, items: map<string, Value>)
    requires forall x :: x in keys ==> x in items
    ensures forall x :: x in UpdateWith(d, keys, items).items <==> x in d.items || x in keys
    ensures forall x :: x in keys ==> UpdateWith(d, keys, items).items[x] == items[x]
    ensures forall x :: x in d.items && x !in keys ==> UpdateWith(d, keys, items).items[x] == d.items[x]
  {
    if keys != [] {
      var p := keys[..|keys| - 1];
      UpdateWithValues(d, p, items);
      assert keys == p + [keys[|keys| - 1]];
    }
  }

  /** One kind's registers, as `ports_to_registers` builds them. */
  lemma PortsToRegistersShape(kind: string, ports: Dict<string, int>)
    ensures PortsToRegisters(kind, ports).keys == RegisterNames(kind, ports.keys)
    ensures forall n :: n in ports.items ==> RegisterName(kind, n) in PortsToRegisters(kind, ports).items
    ensures forall n :: n in ports.items ==>
              PortsToRegisters(kind, ports).items[RegisterName(kind, n)] == Natural16([ports.items[n]])
  {
    RegistersOfKeys(kind, ports.keys, ports.items);
    RegistersOfValues(kind, ports.keys, ports.items);
  }

  /** Updating with a kind's registers, none of which is there yet, appends their names. */
  lemma UpdateAfter(d: Dict<string, Value>, kind: string, ports: Dict<string, int>)
    requires forall x :: x in RegisterNames(kind, ports.keys) ==> x !in d.keys
    ensures Update(d, PortsToRegisters(kind, ports)).keys == d.keys + RegisterNames(kind, ports.keys)
  {
    var e := PortsToRegisters(kind, ports);
    PortsToRegistersShape(kind, ports);
    UpdateWithKeys(d, e.keys, e.items);
  }

  /** The registers of a kind avoid those of two other kinds. */
  lemma ApartFromBoth(a: string, na: seq<string>, b: string, nb: seq<string>, c: string, nc: seq<string>)
    requires |a| == |b| == |c| && c != a && c != b
    ensures forall x :: x in RegisterNames(c, nc) ==> x !in RegisterNames(a, na) + RegisterNames(b, nb)
  {
    KindsApart(c, nc, a, na);
    KindsApart(c, nc, b, nb);
  }

  /**
    The write order of `final_registers`: the pub registers in port order, then sub,
    cln and srv, and the cookie last.
   */
  lemma FinalRegistersKeys(ports: PortAssignment, expected: string)
    ensures FinalRegisters(ports, expected).keys ==
            RegisterNames("pub", ports.pub.keys) + RegisterNames("sub", ports.sub.keys)
            + RegisterNames("cln", ports.cln.keys) + RegisterNames("srv", ports.srv.keys) + [CookieRegister]
  {
    var pk, sk, ck, vk := RegisterNames("pub", ports.pub.keys), RegisterNames("sub", ports.sub.keys),
                          RegisterNames("cln", ports.cln.keys), RegisterNames("srv", ports.srv.keys);
    var d1 := Update(Empty(), PortsToRegisters("pub", ports.pub));
    UpdateAfter(Empty(), "pub", ports.pub);
    assert d1.keys == pk by {
      assert Empty<string, Value>().keys + pk == pk;
    }
    var d2 := Update(d1, PortsToRegisters("sub", ports.sub));
    KindsApart("sub", ports.sub.keys, "pub", ports.pub.keys);
    UpdateAfter(d1, "sub", ports.sub);
    assert d2.keys == pk + sk;
    var d3 := Update(d2, PortsToRegisters("cln", ports.cln));
    ApartFromBoth("pub", ports.pub.keys, "sub", ports.sub.keys, "cln", ports.cln.keys);
    UpdateAfter(d2, "cln", ports.cln);
    assert d3.keys == pk + sk + ck;
    var d4 := Update(d3, PortsToRegisters("srv", ports.srv));
    ApartFromBoth("pub", ports.pub.keys, "sub", ports.sub.keys, "srv", ports.srv.keys);
    KindsApart("srv", ports.srv.keys, "cln", ports.cln.keys);
    assert forall x :: x in vk ==> x !in d3.keys;
    UpdateAfter(d3, "srv", ports.srv);
    assert d4.keys == pk + sk + ck + vk;
    CookieApart("pub", ports.pub.keys);
    CookieApart("sub", ports.sub.keys);
    CookieApart("cln", ports.cln.keys);
    CookieApart("srv", ports.srv.keys);
    assert CookieRegister !in d4.items;
    assert PortRegisters(ports) == d4;
  }

  /** Updating with a kind's registers sets the register of each of its ports. */
  lemma SetBy(d: Dict<string, Value>, kind: string, ports: Dict<string, int>, n: string)
    requires n in ports.items
    ensures var r := Update(d, PortsToRegisters(kind, ports)).items;
            RegisterName(kind, n) in r && r[RegisterName(kind, n)] == Natural16([ports.items[n]])
  {
    var e := PortsToRegisters(kind, ports);
    PortsToRegistersShape(kind, ports);
    UpdateWithValues(d, e.keys, e.items);
  }

  /** Updating with another kind's registers keeps the value of a register. */
  lemma KeptBy(d: Dict<string, Value>, kind: string, n: string, other: string, ports: Dict<string, int>)
    requires |kind| == |other| && kind != other && RegisterName(kind, n) in d.items
    ensures var r := Update(d, PortsToRegisters(other, ports)).items;
            RegisterName(kind, n) in r && r[RegisterName(kind, n)] == d.items[RegisterName(kind, n)]
  {
    var e := PortsToRegisters(other, ports);
    PortsToRegistersShape(other, ports);
    UpdateWithValues(d, e.keys, e.items);
    if RegisterName(kind, n) in e.keys {
      var i :| 0 <= i < |ports.keys| && RegisterNames(other, ports.keys)[i] == RegisterName(kind, n);
      RegisterNameInjective(kind, n, other, ports.keys[i]);
    }
  }

  /** The register of a port of kind `k` holds its ID once the four kinds are merged. */
  lemma PortRegisterHeld(ports: PortAssignment, k: Kind, n: string)
    requires n in ports.Of(k).items
    ensures var x := RegisterName(KindName(k), n);
            x in PortRegisters(ports).items && PortRegisters(ports).items[x] == Natural16([ports.Of(k).items[n]])
  {
    var d1 := Update(Empty(), PortsToRegisters("pub", ports.pub));
    var d2 := Update(d1, PortsToRegisters("sub", ports.sub));
    var d3 := Update(d2, PortsToRegisters("cln", ports.cln));
    match k
    case Pub =>
      SetBy(Empty(), "pub", ports.pub, n);
      KeptBy(d1, "pub", n, "sub", ports.sub);
      KeptBy(d2, "pub", n, "cln", ports.cln);
      KeptBy(d3, "pub", n, "srv", ports.srv);
    case Sub =>
      SetBy(d1, "sub", ports.sub, n);
      KeptBy(d2, "sub", n, "cln", ports.cln);
      KeptBy(d3, "sub", n, "srv", ports.srv);
    case Cln =>
      SetBy(d2, "cln", ports.cln, n);
      KeptBy(d3, "cln", n, "srv", ports.srv);
    case Srv =>
      SetBy(d3, "srv", ports.srv, n);
  }

  /**
    The contents of `final_registers`: the register of each port of each kind holds the
    port's new ID as a `natural16`, and the cookie register holds the expected cookie.
   */
  lemma FinalRegistersValues(ports: PortAssignment, expected: string)
    ensures var f := FinalRegisters(ports, expected);
            && CookieRegister in f.items && f.items[CookieRegister] == Str(expected)
            && forall k: Kind, n :: n in ports.Of(k).items ==>
                 && RegisterName(KindName(k), n) in f.items
                 && f.items[RegisterName(KindName(k), n)] == Natural16([ports.Of(k).items[n]])
  {
    forall k: Kind, n | n in ports.Of(k).items
      ensures RegisterName(KindName(k), n) in FinalRegisters(ports, expected).items
      ensures FinalRegisters(ports, expected).items[RegisterName(KindName(k), n)] == Natural16([ports.Of(k).items[n]])
    {
      PortRegisterHeld(ports, k, n);
      CookieIsNoPortRegister(KindName(k), n);
    }
  }

  // What a whole run guarantees.

  /** The three early returns of the cookie check. */
  predicate IsEarlyReturn(o: Outcome) {
    o.NotCapable? || o.AlreadyConfigured? || o.Rejected?
  }

  /** Past the cookie check a run ends in a timeout, a failed conversion, or success. */
  lemma ConfigureOutcomes(net: Net, l: Link, avail: seq<string>, expected: string,
                          alloc: PortAssignment -> PortAssignment, toInt: Value -> Option<int>)
    ensures var o := Configure(net, l, avail, expected, alloc, toInt).outcome;
            o.TimedOut? || o.Unconvertible? || o == Configured
  {
    var r := ReadPorts(net, toInt, l, avail);
    ReadPortsPhase(net, toInt, l, avail);
    if r.result.Success? {
      WriteAllSpec(net, r.link, Items(FinalRegisters(alloc(r.result.value), expected)), 0);
    }
  }

  /**
    The run returns early exactly when the node answers the cookie read and the cookie
    is not a string, is the expected one, or is `reject`; it then sent that one read
    and changed nothing.
   */
  lemma EarlyReturn(net: Net, store: map<string, Value>, expected: string,
                    alloc: PortAssignment -> PortAssignment, toInt: Value -> Option<int>)
    ensures var s := Allocation(net, store, expected, alloc, toInt);
            IsEarlyReturn(s.outcome) <==> net.answers(0) && CookieVerdict(Lookup(store, CookieRegister), expected).Some?
    ensures var s := Allocation(net, store, expected, alloc, toInt);
            IsEarlyReturn(s.outcome) ==>
              && s.outcome == CookieVerdict(Lookup(store, CookieRegister), expected).value
              && s.link == Link(store, [Access(CookieRegister, None)])
  {
    var c := Round(net, Link(store, []), CookieRegister, None);
    if c.result.Success? && CookieVerdict(c.result.value, expected).None? {
      EnumerateReadOnly(net, c.link);
      var e := Enumerate(net, c.link, 0, []);
      if e.result.Success? {
        ConfigureOutcomes(net, e.link, e.result.value, expected, alloc, toInt);
      }
    }
  }

  /** `Configure` from a link whose requests were all answered keeps the answers invariant. */
  lemma ConfigureAnswers(net: Net, l: Link, avail: seq<string>, expected: string,
                         alloc: PortAssignment -> PortAssignment, toInt: Value -> Option<int>)
    requires AllAnswered(net, l)
    ensures var s := Configure(net, l, avail, expected, alloc, toInt);
            && (s.outcome.TimedOut? ==> StoppedAt(net, s.link, s.outcome.request))
            && (s.outcome != Configured && !s.outcome.TimedOut? ==> AllAnswered(net, s.link))
            && (s.outcome == Configured ==> |s.link.trace| >= 2 && forall t :: 0 <= t < |s.link.trace| - 2 ==> net.answers(t))
  {
    var r := ReadPorts(net, toInt, l, avail);
    ReadPortsPhase(net, toInt, l, avail);
    if r.result.Success? {
      var items := Items(FinalRegisters(alloc(r.result.value), expected));
      WriteAllAnswers(net, r.link, items, 0);
      WriteAllSpec(net, r.link, items, 0);
    }
  }

  /**
    A run times out exactly at the first request that got no response, every request
    before it having been answered; only the two closing commands may go unanswered
    without ending the run.
   */
  lemma RunAnswers(net: Net, store: map<string, Value>, expected: string,
                   alloc: PortAssignment -> PortAssignment, toInt: Value -> Option<int>)
    ensures var s := Allocation(net, store, expected, alloc, toInt);
            && (s.outcome.TimedOut? ==> StoppedAt(net, s.link, s.outcome.request))
            && (s.outcome != Configured && !s.outcome.TimedOut? ==> AllAnswered(net, s.link))
            && (s.outcome == Configured ==> |s.link.trace| >= 2 && forall t :: 0 <= t < |s.link.trace| - 2 ==> net.answers(t))
  {
    var l0 := Link(store, []);
    var req := Access(CookieRegister, None);
    var c := Round(net, l0, CookieRegister, None);
    assert c.link == Send(l0, req);
    SendAnswered(net, l0, req);
    if c.result.Success? && CookieVerdict(c.result.value, expected).None? {
      EnumerateAnswers(net, c.link);
      var e := Enumerate(net, c.link, 0, []);
      if e.result.Success? {
        ConfigureAnswers(net, e.link, e.result.value, expected, alloc, toInt);
      } else {
        EnumerateReadOnly(net, c.link);
      }
    }
  }

  /** `Configure` writes nothing unless it reaches the write loop, which it does only once every ID is read. */
  lemma ConfigureReadOnly(net: Net, l: Link, avail: seq<string>, expected: string,
                          alloc: PortAssignment -> PortAssignment, toInt: Value -> Option<int>)
    ensures var s := Configure(net, l, avail, expected, alloc, toInt);
            s.outcome != Configured && !(s.outcome.TimedOut? && IsWrite(s.outcome.request)) ==> ReadOnly(l, s.link)
  {
    var r := ReadPorts(net, toInt, l, avail);
    ReadPortsPhase(net, toInt, l, avail);
    if r.result.Success? {
      WriteAllSpec(net, r.link, Items(FinalRegisters(alloc(r.result.value), expected)), 0);
    }
  }

  /**
    A run that ends other than by configuring the node or by a write that got no
    response sent no write at all and left the node's registers as they were.
   */
  lemma AbortedRunWritesNothing(net: Net, store: map<string, Value>, expected: string,
                                alloc: PortAssignment -> PortAssignment, toInt: Value -> Option<int>)
    ensures var s := Allocation(net, store, expected, alloc, toInt);
            s.outcome != Configured && !(s.outcome.TimedOut? && IsWrite(s.outcome.request)) ==>
              ReadOnly(Link(store, []), s.link)
  {
    var l0 := Link(store, []);
    var req := Access(CookieRegister, None);
    var c := Round(net, l0, CookieRegister, None);
    assert c.link == Send(l0, req);
    SendReadOnly(l0, req);
    if c.result.Success? && CookieVerdict(c.result.value, expected).None? {
      EnumerateReadOnly(net, c.link);
      var e := Enumerate(net, c.link, 0, []);
      ReadOnlyTransitive(l0, c.link, e.link);
      if e.result.Success? {
        ConfigureReadOnly(net, e.link, e.result.value, expected, alloc, toInt);
        var s := Configure(net, e.link, e.result.value, expected, alloc, toInt);
        if s.outcome != Configured && !(s.outcome.TimedOut? && IsWrite(s.outcome.request)) {
          ReadOnlyTransitive(l0, e.link, s.link);
        }
      }
    }
  }

  /**
    A write loop that stops on a write with no response leaves a register as it was
    when no entry but the last one names it: the last write is never the one that
    fails, because once it is answered the loop is over.
   */
  lemma {:induction false} WriteFailKeeps(net: Net, l: Link, items: seq<(string, Value)>, j: nat, name: string)
    requires j <= |items|
    requires forall t :: j <= t < |items| - 1 ==> items[t].0 != name
    ensures var w := WriteAll(net, l, items, j);
            w.result.Failure? ==> Lookup(w.link.store, name) == Lookup(l.store, name)
    decreases |items| - j
  {
    if j < |items| {
      var r := Round(net, l, items[j].0, Some(items[j].1));
      if r.result.Success? && j + 1 < |items| {
        WriteFailKeeps(net, r.link, items, j + 1, name);
      }
    }
  }

  /** Of the entries of `final_registers`, only the last one is the cookie. */
  lemma CookieOnlyLast(ports: PortAssignment, expected: string)
    ensures var items := Items(FinalRegisters(ports, expected));
            forall t :: 0 <= t < |items| - 1 ==> items[t].0 != CookieRegister
  {
    var d := FinalRegisters(ports, expected);
    CookieLastItem(ports, expected);
    assert d.keys[|d.keys| - 1] == CookieRegister;
    assert NoDup(d.keys);
  }

  /** `Configure` that does not end configured leaves the cookie as it was. */
  lemma ConfigureKeepsCookie(net: Net, l: Link, avail: seq<string>, expected: string,
                             alloc: PortAssignment -> PortAssignment, toInt: Value -> Option<int>)
    ensures var s := Configure(net, l, avail, expected, alloc, toInt);
            s.outcome != Configured ==> Lookup(s.link.store, CookieRegister) == Lookup(l.store, CookieRegister)
  {
    var r := ReadPorts(net, toInt, l, avail);
    ReadPortsPhase(net, toInt, l, avail);
    if r.result.Success? {
      CookieOnlyLast(alloc(r.result.value), expected);
      WriteFailKeeps(net, r.link, Items(FinalRegisters(alloc(r.result.value), expected)), 0, CookieRegister);
    }
  }

  /**
    A run that does not end configured, including one stopped by a write that got
    no response, leaves the cookie register as it was: the cookie is written last,
    so a half-written node is never taken for a configured one.
   */
  lemma AbortedRunKeepsCookie(net: Net, store: map<string, Value>, expected: string,
                              alloc: PortAssignment -> PortAssignment, toInt: Value -> Option<int>)
    ensures var s := Allocation(net, store, expected, alloc, toInt);
            s.outcome != Configured ==> Lookup(s.link.store, CookieRegister) == Lookup(store, CookieRegister)
  {
    var c := Round(net, Link(store, []), CookieRegister, None);
    if c.result.Success? && CookieVerdict(c.result.value, expected).None? {
      EnumerateReadOnly(net, c.link);
      var e := Enumerate(net, c.link, 0, []);
      if e.result.Success? {
        ConfigureKeepsCookie(net, e.link, e.result.value, expected, alloc, toInt);
      }
    }
  }

  /**
    A configuring run past the enumeration: the reads of the four kinds, then one write
    per entry of `final_registers` in its order, then the persist and the restart
    commands; the node ends up holding what it accepted for each write.
   */
  lemma ConfigureSpec(net: Net, l: Link, avail: seq<string>, expected: string,
                      alloc: PortAssignment -> PortAssignment, toInt: Value -> Option<int>)
    ensures var s := Configure(net, l, avail, expected, alloc, toInt);
            var r := ReadPorts(net, toInt, l, avail);
            s.outcome == Configured ==>
              && r.result.Success?
              && var items := Items(FinalRegisters(alloc(r.result.value), expected));
                 s.link == Link(Applied(net, l.store, items),
                                r.link.trace + Writes(items) + [Execute(CommandStorePersistentStates), Execute(CommandRestart)])
  {
    var r := ReadPorts(net, toInt, l, avail);
    ReadPortsPhase(net, toInt, l, avail);
    ConfigureOutcomes(net, l, avail, expected, alloc, toInt);
    if r.result.Success? {
      var items := Items(FinalRegisters(alloc(r.result.value), expected));
      var w := WriteAll(net, r.link, items, 0);
      WriteAllSpec(net, r.link, items, 0);
      assert items[0..] == items;
      if w.result.Success? {
        var cmds := [Execute(CommandStorePersistentStates), Execute(CommandRestart)];
        assert w.link == Link(Applied(net, l.store, items), r.link.trace + Writes(items));
        AppendTwo(w.link.trace, cmds[0], cmds[1]);
      }
    }
  }

  /** A run configures the node only after the cookie read was answered without an early return. */
  lemma ConfiguredPassedCookie(net: Net, store: map<string, Value>, expected: string,
                               alloc: PortAssignment -> PortAssignment, toInt: Value -> Option<int>)
    ensures Allocation(net, store, expected, alloc, toInt).outcome == Configured ==>
              net.answers(0) && CookieVerdict(Lookup(store, CookieRegister), expected).None?
  {
    EarlyReturn(net, store, expected, alloc, toInt);
  }

  /** A run configures the node only after the request that ended the enumeration was answered. */
  lemma ConfiguredEnumerationAnswered(net: Net, store: map<string, Value>, expected: string,
                                      alloc: PortAssignment -> PortAssignment, toInt: Value -> Option<int>)
    ensures Allocation(net, store, expected, alloc, toInt).outcome == Configured ==>
              net.answers(1 + EnumStop(net, 1, 0))
  {
    EarlyReturn(net, store, expected, alloc, toInt);
    var c := Round(net, Link(store, []), CookieRegister, None);
    if c.result.Success? && CookieVerdict(c.result.value, expected).None? {
      assert c.link == Link(store, [Access(CookieRegister, None)]);
      var e := Enumerate(net, c.link, 0, []);
      EnumerateSpec(net, c.link, 0, []);
      if !net.answers(1 + EnumStop(net, 1, 0)) {
        assert e.result == Failure(TimedOut(List(EnumStop(net, 1, 0))));
        assert Allocation(net, store, expected, alloc, toInt) == Session(e.result.error, e.link);
      }
    }
  }

  /** A run configures the node only after the enumeration reached an empty name. */
  lemma ConfiguredEnumerated(net: Net, store: map<string, Value>, expected: string,
                             alloc: PortAssignment -> PortAssignment, toInt: Value -> Option<int>)
    ensures var m := EnumStop(net, 1, 0);
            Allocation(net, store, expected, alloc, toInt).outcome == Configured ==>
              m <= |net.listing| && NameAt(net.listing, m) == ""
  {
    ConfiguredEnumerationAnswered(net, store, expected, alloc, toInt);
    EnumStopEnd(net, 1, 0);
  }

  /** What follows a passed cookie check and a complete enumeration is `Configure` on the names listed. */
  lemma ConfiguredAfterEnumeration(net: Net, store: map<string, Value>, expected: string,
                                   alloc: PortAssignment -> PortAssignment, toInt: Value -> Option<int>)
    ensures var s := Allocation(net, store, expected, alloc, toInt);
            var m := EnumStop(net, 1, 0);
            s.outcome == Configured ==>
              s == Configure(net, Link(store, [Access(CookieRegister, None)] + Lists(0, m + 1)),
                             net.listing[..m], expected, alloc, toInt)
  {
    EarlyReturn(net, store, expected, alloc, toInt);
    var c := Round(net, Link(store, []), CookieRegister, None);
    if c.result.Success? && CookieVerdict(c.result.value, expected).None? {
      assert c.link == Link(store, [Access(CookieRegister, None)]);
      EnumerateSpec(net, c.link, 0, []);
    }
  }

  /**
    The last three requests on `w` are the write of the expected cookie and the two
    commands, and the node holds what it accepted for the cookie.
   */
  predicate CookieWrittenLastIn(net: Net, w: Link, expected: string) {
    var n := |w.trace|;
    && n >= 3
    && w.trace[n - 3..] ==
       [Access(CookieRegister, Some(Str(expected))), Execute(CommandStorePersistentStates), Execute(CommandRestart)]
    && CookieRegister in w.store
    && w.store[CookieRegister] == net.accept(CookieRegister, Str(expected))
  }

  /**
    A configuring run writes the cookie register after every other register, with the
    expected cookie, and sends only the two commands after it; the node then holds
    what it accepted for the cookie.
   */
  lemma ConfigureCookieLast(net: Net, l: Link, avail: seq<string>, expected: string,
                            alloc: PortAssignment -> PortAssignment, toInt: Value -> Option<int>)
    ensures var s := Configure(net, l, avail, expected, alloc, toInt);
            s.outcome == Configured ==> CookieWrittenLastIn(net, s.link, expected)
  {
    ConfigureSpec(net, l, avail, expected, alloc, toInt);
    var r := ReadPorts(net, toInt, l, avail);
    if r.result.Success? {
      var items := Items(FinalRegisters(alloc(r.result.value), expected));
      CookieLastItem(alloc(r.result.value), expected);
      CookieLastLink(net, l.store, r.link.trace, items, expected);
      var s := Configure(net, l, avail, expected, alloc, toInt);
      if s.outcome == Configured {
        assert s.link == Link(Applied(net, l.store, items),
                              r.link.trace + Writes(items) + [Execute(CommandStorePersistentStates), Execute(CommandRestart)]);
      }
    }
  }

  /** The link a configuring run ends with, when the cookie is the last register written. */
  lemma CookieLastLink(net: Net, store: map<string, Value>, t: seq<Request>, items: seq<(string, Value)>, expected: string)
    requires items != [] && items[|items| - 1] == (CookieRegister, Str(expected))
    ensures CookieWrittenLastIn(net, Link(Applied(net, store, items),
                                          t + Writes(items) + [Execute(CommandStorePersistentStates), Execute(CommandRestart)]),
                                expected)
  {
    AppliedLast(net, store, items);
    var ws := Writes(items);
    assert ws[|ws| - 1] == Access(CookieRegister, Some(Str(expected)));
    CookieLastTrace(t, ws);
  }

  /** The last three requests of a trace that ends with the writes and the two commands (kept apart so `CookieLastLink` stays cheap). */
  lemma CookieLastTrace(t: seq<Request>, ws: seq<Request>)
    requires ws != []
    ensures var u := t + ws + [Execute(CommandStorePersistentStates), Execute(CommandRestart)];
            u[|u| - 3..] == [ws[|ws| - 1], Execute(CommandStorePersistentStates), Execute(CommandRestart)]
  {
  }

  /** The last entry of `final_registers` is the cookie with the expected value. */
  lemma CookieLastItem(ports: PortAssignment, expected: string)
    ensures var items := Items(FinalRegisters(ports, expected));
            items != [] && items[|items| - 1] == (CookieRegister, Str(expected))
  {
    FinalRegistersKeys(ports, expected);
    FinalRegistersValues(ports, expected);
  }

  /** `Allocation` version of `ConfigureCookieLast`. */
  lemma CookieWrittenLast(net: Net, store: map<string, Value>, expected: string,
                          alloc: PortAssignment -> PortAssignment, toInt: Value -> Option<int>)
    ensures var s := Allocation(net, store, expected, alloc, toInt);
            s.outcome == Configured ==> CookieWrittenLastIn(net, s.link, expected)
  {
    var s := Allocation(net, store, expected, alloc, toInt);
    var m := EnumStop(net, 1, 0);
    var l := Link(store, [Access(CookieRegister, None)] + Lists(0, m + 1));
    ConfiguredAfterEnumeration(net, store, expected, alloc, toInt);
    ConfigureCookieLast(net, l, net.listing[..m], expected, alloc, toInt);
    if s.outcome == Configured {
      assert s == Configure(net, l, net.listing[..m], expected, alloc, toInt);
    }
  }

  // The cookie across runs.

  /** Normalising a normalised cookie changes nothing. */
  lemma NormalizeIdempotent(text: string)
    ensures Normalize(Normalize(text)) == Normalize(text)
  {
    var r := Strip(text, Whitespace);
    StripIsTrimmedMiddle(text, Whitespace);
    if r != [] {
      LowerCharKeepsNonSpace(r[0]);
      LowerCharKeepsNonSpace(r[|r| - 1]);
    }
    StripUnchanged(Lower(r), Whitespace);
    LowerIdempotent(r);
  }

  /**
    An expected cookie that is not in normal form never matches, so a node would be
    configured again on every run.
   */
  lemma UnnormalizedCookieNeverMatches(v: Value, expected: string)
    ensures Normalize(expected) != expected ==> CookieVerdict(v, expected) != Some(AlreadyConfigured)
  {
    if v.Str? {
      NormalizeIdempotent(v.text);
    }
  }

  /** The cookie `main` makes up by default, `autoconfigured` and a decimal number, is in normal form. */
  lemma DefaultCookieIsNormal(digits: string)
    requires digits != [] && forall j :: 0 <= j < |digits| ==> '0' <= digits[j] <= '9'
    ensures Normalize("autoconfigured " + digits) == "autoconfigured " + digits
  {
    var s := "autoconfigured " + digits;
    assert s[0] == 'a' && s[|s| - 1] == digits[|digits| - 1];
    StripUnchanged(s, Whitespace);
    assert forall j :: 0 <= j < |s| ==> !('A' <= s[j] <= 'Z') by {
      forall j | 0 <= j < |s| ensures !('A' <= s[j] <= 'Z') {
        if j >= 15 { assert s[j] == digits[j - 15]; }
      }
    }
    LowerUnchanged(s);
  }

  /**
    Once a run has configured a node that keeps a written string as it is, a later run
    with the same normal-form cookie stops at the cookie read as already configured,
    leaving the registers alone.
   */
  lemma RerunStopsAtCookie(net: Net, store: map<string, Value>, expected: string,
                           alloc: PortAssignment -> PortAssignment, toInt: Value -> Option<int>,
                           net': Net, alloc': PortAssignment -> PortAssignment, toInt': Value -> Option<int>)
    ensures var s := Allocation(net, store, expected, alloc, toInt);
            s.outcome == Configured && net.accept(CookieRegister, Str(expected)) == Str(expected)
            && Normalize(expected) == expected && net'.answers(0) ==>
              Allocation(net', s.link.store, expected, alloc', toInt') ==
              Session(AlreadyConfigured, Link(s.link.store, [Access(CookieRegister, None)]))
  {
    var s := Allocation(net, store, expected, alloc, toInt);
    CookieWrittenLast(net, store, expected, alloc, toInt);
  }
}
