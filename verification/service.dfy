/**
 * add_service: compiles one item of a group into a service descriptor and,
 * if it is valid, registers it with the session.
 *
 * The validation is specified by `Compile`, which follows add_service's own
 * order of checks: a pass over the item's pairs that fills six slots and can
 * stop early, then the checks on the filled slots. `AddService` is the
 * imperative code, proved to produce exactly the effects `ServiceEffect`
 * derives from `Compile`'s verdict. The lemmas relate `Compile` to a
 * declarative reading of the entry (`AllPairsOk`, `LastValue`, `Describes`).
 */
module ServiceCompiler {
  import opened Wrappers
  import opened Yaml
  import opened Libc
  import opened Mdns

  /** add_service's locals while it reads the pairs of an entry. */
  datatype Slots = Slots(
    service: Option<string>,
    protocol: Option<string>,
    hostname: Option<string>,
    address: Option<Ipv4>,
    port: Port,
    text: string)

  /** The slots before the first pair: port 0, empty text, nothing else. */
  const Unset := Slots(None, None, None, None, 0, "")

  /** The outcome of compiling one entry. */
  datatype Verdict =
    | Unreadable(node: NodeFault)   // a node index leads nowhere: fatal
    | Ignore(fault: ServiceFault)   // the entry is skipped with a warning
    | Accept(service: Service)      // the entry is handed to the library

  /** The pass over the pairs either goes on with new slots or stops with a verdict. */
  datatype Scan = Next(slots: Slots) | Stop(verdict: Verdict)

  /** Stores the value of a recognised key in its slot; other keys change nothing. */
  function Assign(k: string, v: string, s: Slots): Scan {
    if k == "service" then Next(s.(service := Some(v)))
    else if k == "protocol" then Next(s.(protocol := Some(v)))
    else if k == "hostname" then Next(s.(hostname := Some(v)))
    else if k == "address" then
      match InetPton4(v)
      case None => Stop(Ignore(BadAddress(v)))
      case Some(a) => Next(s.(address := Some(a)))
    else if k == "port" then
      match StrToNum(v, 0, UINT16_MAX)
      case Failure(e) => Stop(Ignore(BadPort(v, e)))
      case Success(n) => Next(s.(port := n))
    else if k == "text" then Next(s.(text := v))
    else Next(s)
  }

  /** One pair, numbered i from 1: both nodes must exist, and both must be non-empty scalars. */
  function PairStep(doc: Document, i: int, p: Pair, s: Slots): Scan {
    var key := GetNode(doc, p.key);
    var value := GetNode(doc, p.value);
    if key.None? then Stop(Unreadable(MissingKey(i)))
    else if value.None? then Stop(Unreadable(MissingValue(i)))
    else if !IsNonEmptyScalar(key.value) then Stop(Ignore(KeyNotScalar(i)))
    else if !IsNonEmptyScalar(value.value) then Stop(Ignore(ValueNotScalar(i)))
    else Assign(key.value.text, value.value.text, s)
  }

  /** A pair of two non-empty scalars is handed to Assign. */
  lemma PairStepAssigns(doc: Document, i: int, p: Pair, k: string, v: string, s: Slots)
    requires GetNode(doc, p.key) == Some(Scalar(k)) && GetNode(doc, p.value) == Some(Scalar(v))
    requires k != [] && v != []
    ensures PairStep(doc, i, p, s) == Assign(k, v, s)
  {
  }

  /** A port value strtonum accepts fills the port slot. */
  lemma AssignPort(v: string, n: int, s: Slots)
    requires StrToNum(v, 0, UINT16_MAX) == Success(n)
    ensures Assign("port", v, s) == Next(s.(port := n))
  {
    assert "port" != "service" && "port" != "protocol" && "port" != "hostname" && "port" != "address";
  }

  /** A port pair whose value strtonum accepts fills the port slot. */
  lemma PortPairStep(doc: Document, i: int, p: Pair, v: string, n: int, s: Slots)
    requires GetNode(doc, p.key) == Some(Scalar("port")) && GetNode(doc, p.value) == Some(Scalar(v))
    requires v != [] && StrToNum(v, 0, UINT16_MAX) == Success(n)
    ensures PairStep(doc, i, p, s) == Next(s.(port := n))
  {
    PairStepAssigns(doc, i, p, "port", v, s);
    AssignPort(v, n, s);
  }

  /** The pass over `pairs`, numbered from 1, from the slots `s`: the pass
      over all but the last pair, then the last one if it did not stop. */
  function ScanPairs(doc: Document, pairs: seq<Pair>, s: Slots): (r: Scan)
    ensures r.Stop? ==> !r.verdict.Accept? && r.verdict != Unreadable(MissingItem)
    decreases |pairs|
  {
    if pairs == [] then Next(s)
    else
      match ScanPairs(doc, pairs[..|pairs| - 1], s)
      case Stop(v) => Stop(v)
      case Next(s') => PairStep(doc, |pairs|, pairs[|pairs| - 1], s')
  }

  /** The checks after the pass: a service name, a protocol of exactly "tcp"
      or "udp", and a host name exactly when there is an address. */
  function Finish(s: Slots): Verdict {
    if s.service.None? then Ignore(MissingService)
    else if s.protocol != Some("tcp") && s.protocol != Some("udp") then Ignore(BadProtocol(s.protocol))
    else if s.hostname.Some? != s.address.Some? then Ignore(HostAddressMismatch)
    else
      Accept(Service(
        s.service.value,
        if s.protocol == Some("tcp") then Tcp else Udp,
        s.port,
        s.text,
        if s.hostname.Some? then Some(Host(s.hostname.value, s.address.value)) else None))
  }

  /** The verdict on one item: None is an item index that leads nowhere. */
  function Compile(doc: Document, item: Option<Node>): (r: Verdict)
    ensures r == Unreadable(MissingItem) <==> item.None?
    ensures item.Some? && !item.value.Mapping? ==> r == Ignore(ItemNotMapping)
  {
    match item
    case None => Unreadable(MissingItem)
    case Some(node) =>
      if !node.Mapping? then Ignore(ItemNotMapping)
      else
        match ScanPairs(doc, node.pairs, Unset)
        case Stop(v) => v
        case Next(s) => Finish(s)
  }

  /**
   * What handling one verdict adds to the trace. An unreadable node is fatal;
   * a skipped entry writes one warning and calls nothing; an accepted entry is
   * initialised and then added, and a refusal of either only skips it.
   */
  function ServiceEffect(t: Trace, lib: Library, group: string, index: int, v: Verdict): (r: Trace)
    ensures t.exit.Some? ==> r == t
    ensures t.calls <= r.calls && t.log <= r.log
    ensures forall i | |t.calls| <= i < |r.calls| :: IsServiceCall(r.calls[i], group)
    ensures !v.Accept? ==> r.calls == t.calls
    ensures t.exit.None? ==> (r.exit.Some? <==> v.Unreadable?)
    ensures t.exit.None? && !v.Unreadable? ==> |r.log| == |t.log| + 1 && ItemLine(r.log[|t.log|], group, index, v)
    ensures t.exit.None? && v.Accept? ==>
      |r.calls| > |t.calls| && r.calls[|t.calls|] == ServiceInit(group, v.service)
    ensures t.exit.None? && v.Accept? ==>
      var init := t.calls + [ServiceInit(group, v.service)];
      r.calls == init + (if lib(init) then [GroupAddService(group, v.service)] else [])
    ensures t.exit.None? && v.Accept? ==>
      var init := t.calls + [ServiceInit(group, v.service)];
      (r.log[|t.log|] == ServiceAdded(group, v.service) <==> lib(init) && lib(init + [GroupAddService(group, v.service)]))
  {
    if t.exit.Some? then t
    else
      match v
      case Unreadable(f) => t.(exit := Some(MissingServiceNode(group, index, f)))
      case Ignore(f) => t.(log := t.log + [ServiceIgnored(group, index, f)])
      case Accept(svc) =>
        var init := t.calls + [ServiceInit(group, svc)];
        if !lib(init) then Trace(init, t.log + [ServiceIgnored(group, index, InitFailed)], None)
        else
          var add := init + [GroupAddService(group, svc)];
          if !lib(add) then Trace(add, t.log + [ServiceIgnored(group, index, AddFailed)], None)
          else Trace(add, t.log + [ServiceAdded(group, svc)], None)
  }

  /**
   * The line that handling item `index` of `group` with verdict `v` may
   * write: for a skipped item the warning naming its fault; for an accepted
   * descriptor the notice that it was added, or the warning that its
   * initialisation or its addition was refused. An unreadable item writes none.
   */
  predicate ItemLine(d: Diag, group: string, index: int, v: Verdict) {
    match v
    case Unreadable(_) => false
    case Ignore(f) => d == ServiceIgnored(group, index, f)
    case Accept(svc) =>
      || d == ServiceAdded(group, svc)
      || d == ServiceIgnored(group, index, InitFailed)
      || d == ServiceIgnored(group, index, AddFailed)
  }

  /** add_service(mdns, group, index, document, item). */
  method AddService(mdns: Session, log: Log, group: string, index: int, doc: Document, item: Option<Node>)
    returns (exit: Option<Fatal>)
    modifies mdns, log
    ensures Trace(mdns.calls, log.lines, exit) ==
      ServiceEffect(Trace(old(mdns.calls), old(log.lines), None), mdns.library, group, index, Compile(doc, item))
  {
    exit := None;
    if item.None? {
      exit := Some(MissingServiceNode(group, index, MissingItem));
      return;
    }
    var node := item.value;
    if !node.Mapping? {
      log.Emit(ServiceIgnored(group, index, ItemNotMapping));
      return;
    }

    var service: Option<string> := None;
    var protocol: Option<string> := None;
    var hostname: Option<string> := None;
    var address: Option<Ipv4> := None;
    var port: Port := 0;
    var text := "";

    var pairs := node.pairs;
    var k := 0;
    while k < |pairs|
      invariant 0 <= k <= |pairs|
      invariant mdns.calls == old(mdns.calls) && log.lines == old(log.lines)
      invariant ScanPairs(doc, pairs[..k], Unset) == Next(Slots(service, protocol, hostname, address, port, text))
    {
      ghost var before := Slots(service, protocol, hostname, address, port, text);
      assert pairs[..k + 1][..k] == pairs[..k];
      var i := k + 1;
      var key := GetNode(doc, pairs[k].key);
      var value := GetNode(doc, pairs[k].value);
      if key.None? {
        exit := Some(MissingServiceNode(group, index, MissingKey(i)));
        ScanStopsAt(doc, pairs, k, Unset, before);
        return;
      }
      if value.None? {
        exit := Some(MissingServiceNode(group, index, MissingValue(i)));
        ScanStopsAt(doc, pairs, k, Unset, before);
        return;
      }
      if !IsNonEmptyScalar(key.value) {
        log.Emit(ServiceIgnored(group, index, KeyNotScalar(i)));
        ScanStopsAt(doc, pairs, k, Unset, before);
        return;
      }
      if !IsNonEmptyScalar(value.value) {
        log.Emit(ServiceIgnored(group, index, ValueNotScalar(i)));
        ScanStopsAt(doc, pairs, k, Unset, before);
        return;
      }
      var name := key.value.text;
      var v := value.value.text;
      if name == "service" {
        service := Some(v);
      } else if name == "protocol" {
        protocol := Some(v);
      } else if name == "hostname" {
        hostname := Some(v);
      } else if name == "address" {
        var a := InetPton4(v);
        if a.None? {
          log.Emit(ServiceIgnored(group, index, BadAddress(v)));
          ScanStopsAt(doc, pairs, k, Unset, before);
          return;
        }
        address := a;
      } else if name == "port" {
        var n := StrToNum(v, 0, UINT16_MAX);
        if n.Failure? {
          log.Emit(ServiceIgnored(group, index, BadPort(v, n.error)));
          ScanStopsAt(doc, pairs, k, Unset, before);
          return;
        }
        port := n.value;
      } else if name == "text" {
        text := v;
      }
      assert PairStep(doc, i, pairs[k], before) == Next(Slots(service, protocol, hostname, address, port, text));
      k := k + 1;
    }
    assert pairs[..k] == pairs;
    exit := RegisterService(mdns, log, group, index, service, protocol, hostname, address, port, text);
  }

  /** The end of add_service once every pair has been read: the checks after
      the pass, then the initialisation and addition of the descriptor. */
  method RegisterService(mdns: Session, log: Log, group: string, index: int,
                         service: Option<string>, protocol: Option<string>, hostname: Option<string>,
                         address: Option<Ipv4>, port: Port, text: string)
    returns (exit: Option<Fatal>)
    modifies mdns, log
    ensures Trace(mdns.calls, log.lines, exit) ==
      ServiceEffect(Trace(old(mdns.calls), old(log.lines), None), mdns.library, group, index,
                    Finish(Slots(service, protocol, hostname, address, port, text)))
  {
    exit := None;
    if service.None? {
      log.Emit(ServiceIgnored(group, index, MissingService));
      return;
    }
    if protocol.None? || (protocol.value != "tcp" && protocol.value != "udp") {
      log.Emit(ServiceIgnored(group, index, BadProtocol(protocol)));
      return;
    }
    if hostname.Some? != address.Some? {
      log.Emit(ServiceIgnored(group, index, HostAddressMismatch));
      return;
    }

    var host := if hostname.Some? then Some(Host(hostname.value, address.value)) else None;
    var svc := Service(service.value, if protocol.value == "tcp" then Tcp else Udp, port, text, host);
    var ok := mdns.Request(ServiceInit(group, svc));
    if !ok {
      log.Emit(ServiceIgnored(group, index, InitFailed));
      return;
    }
    ok := mdns.Request(GroupAddService(group, svc));
    if !ok {
      log.Emit(ServiceIgnored(group, index, AddFailed));
      return;
    }
    log.Emit(ServiceAdded(group, svc));
  }

  // ---------------------------------------------------------------------------
  // A declarative reading of an entry, and what Compile decides in its terms.

  /** The text of a pair's key when it is a scalar. */
  function KeyText(doc: Document, p: Pair): Option<string> {
    match GetNode(doc, p.key)
    case Some(Scalar(k)) => Some(k)
    case _ => None
  }

  /** The text of a pair's value when it is a scalar. */
  function ValueText(doc: Document, p: Pair): Option<string> {
    match GetNode(doc, p.value)
    case Some(Scalar(v)) => Some(v)
    case _ => None
  }

  /** A pair add_service reads without stopping: both nodes exist, both are
      non-empty scalars, an address parses and a port is in range. */
  predicate PairOk(doc: Document, p: Pair) {
    var key := GetNode(doc, p.key);
    var value := GetNode(doc, p.value);
    && key.Some? && value.Some?
    && IsNonEmptyScalar(key.value) && IsNonEmptyScalar(value.value)
    && (key.value.text == "address" ==> InetPton4(value.value.text).Some?)
    && (key.value.text == "port" ==> StrToNum(value.value.text, 0, UINT16_MAX).Success?)
  }

  predicate AllPairsOk(doc: Document, pairs: seq<Pair>) {
    forall i | 0 <= i < |pairs| :: PairOk(doc, pairs[i])
  }

  /** The value of the LAST pair whose key is k, looking from the end. */
  function LastValue(doc: Document, pairs: seq<Pair>, k: string): Option<string>
    decreases |pairs|
  {
    if pairs == [] then None
    else
      var p := pairs[|pairs| - 1];
      if KeyText(doc, p) == Some(k) then ValueText(doc, p) else LastValue(doc, pairs[..|pairs| - 1], k)
  }

  /**
   * `svc` is the service the entry's pairs describe: each field is the value
   * of the last pair with its key; a missing port is 0 and a missing text is
   * empty; a host override exactly when there are both a host name and an
   * address.
   */
  predicate Describes(doc: Document, pairs: seq<Pair>, svc: Service) {
    && LastValue(doc, pairs, "service") == Some(svc.name)
    && LastValue(doc, pairs, "protocol") == Some(ProtocolName(svc.protocol))
    && (match LastValue(doc, pairs, "port")
        case None => svc.port == 0
        case Some(v) => StrToNum(v, 0, UINT16_MAX) == Success(svc.port))
    && svc.text == LastValue(doc, pairs, "text").GetOr("")
    && (match svc.host
        case None =>
          LastValue(doc, pairs, "hostname") == None && LastValue(doc, pairs, "address") == None
        case Some(h) =>
          && LastValue(doc, pairs, "hostname") == Some(h.name)
          && LastValue(doc, pairs, "address").Some?
          && InetPton4(LastValue(doc, pairs, "address").value) == Some(h.address))
  }

  function Latest(o: Option<string>, d: Option<string>): Option<string> {
    if o.Some? then o else d
  }

  /** s' is s after every pair of `pairs` has overwritten the slot of its key. */
  predicate Overwritten(doc: Document, pairs: seq<Pair>, s: Slots, s': Slots) {
    && s'.service == Latest(LastValue(doc, pairs, "service"), s.service)
    && s'.protocol == Latest(LastValue(doc, pairs, "protocol"), s.protocol)
    && s'.hostname == Latest(LastValue(doc, pairs, "hostname"), s.hostname)
    && s'.address == (match LastValue(doc, pairs, "address")
                      case Some(v) => InetPton4(v)
                      case None => s.address)
    && (match LastValue(doc, pairs, "port")
        case Some(v) => StrToNum(v, 0, UINT16_MAX) == Success(s'.port)
        case None => s'.port == s.port)
    && s'.text == LastValue(doc, pairs, "text").GetOr(s.text)
  }

  /** A pair that stops the pass stops the whole pass over the entry. */
  lemma ScanStopsAt(doc: Document, pairs: seq<Pair>, k: nat, s0: Slots, s: Slots)
    requires k < |pairs| && ScanPairs(doc, pairs[..k], s0) == Next(s)
    requires PairStep(doc, k + 1, pairs[k], s).Stop?
    ensures ScanPairs(doc, pairs, s0) == PairStep(doc, k + 1, pairs[k], s)
  {
    assert pairs[..k + 1][..k] == pairs[..k];
    StopIsFinal(doc, pairs, k + 1, s0);
  }

  /** The value found for a key belongs to a pair that passed the checks. */
  lemma {:induction false} LastValueOk(doc: Document, pairs: seq<Pair>, k: string)
    requires AllPairsOk(doc, pairs) && LastValue(doc, pairs, k).Some?
    ensures |LastValue(doc, pairs, k).value| > 0
    ensures k == "address" ==> InetPton4(LastValue(doc, pairs, k).value).Some?
    ensures k == "port" ==> StrToNum(LastValue(doc, pairs, k).value, 0, UINT16_MAX).Success?
    decreases |pairs|
  {
    var p := pairs[|pairs| - 1];
    assert PairOk(doc, p);
    if KeyText(doc, p) != Some(k) {
      var init := pairs[..|pairs| - 1];
      assert AllPairsOk(doc, init) by {
        forall i | 0 <= i < |init| ensures PairOk(doc, init[i]) { assert init[i] == pairs[i]; }
      }
      LastValueOk(doc, init, k);
    }
  }

  /** The last pair decides the value of its own key; the other keys keep
      the value the earlier pairs give them. */
  lemma LastValueOfLast(doc: Document, pairs: seq<Pair>, k: string)
    requires pairs != []
    ensures LastValue(doc, pairs, k) ==
      if KeyText(doc, pairs[|pairs| - 1]) == Some(k) then ValueText(doc, pairs[|pairs| - 1])
      else LastValue(doc, pairs[..|pairs| - 1], k)
  {
  }

  /** A passing pair goes to Assign with its key and value texts. */
  lemma OkPairStep(doc: Document, i: int, p: Pair, s: Slots)
    requires PairOk(doc, p)
    ensures KeyText(doc, p).Some? && ValueText(doc, p).Some?
    ensures PairStep(doc, i, p, s) == Assign(KeyText(doc, p).value, ValueText(doc, p).value, s)
    ensures KeyText(doc, p).value == "address" ==> InetPton4(ValueText(doc, p).value).Some?
    ensures KeyText(doc, p).value == "port" ==> StrToNum(ValueText(doc, p).value, 0, UINT16_MAX).Success?
  {
  }

  /** One more passing pair keeps the slots overwritten by the last values. */
  lemma AssignOverwrites(doc: Document, pairs: seq<Pair>, s: Slots, s1: Slots)
    requires pairs != [] && PairOk(doc, pairs[|pairs| - 1])
    requires Overwritten(doc, pairs[..|pairs| - 1], s, s1)
    ensures var p := pairs[|pairs| - 1];
      Assign(KeyText(doc, p).value, ValueText(doc, p).value, s1).Next?
    ensures var p := pairs[|pairs| - 1];
      Overwritten(doc, pairs, s, Assign(KeyText(doc, p).value, ValueText(doc, p).value, s1).slots)
  {
    var p := pairs[|pairs| - 1];
    OkPairStep(doc, 0, p, s1);
    var k := KeyText(doc, p).value;
    var v := ValueText(doc, p).value;
    LastValueOfLast(doc, pairs, "service");
    LastValueOfLast(doc, pairs, "protocol");
    LastValueOfLast(doc, pairs, "hostname");
    LastValueOfLast(doc, pairs, "address");
    LastValueOfLast(doc, pairs, "port");
    LastValueOfLast(doc, pairs, "text");
    var r := Assign(k, v, s1);
    if k == "service" {
      assert r == Next(s1.(service := Some(v)));
    } else if k == "protocol" {
      assert r == Next(s1.(protocol := Some(v)));
    } else if k == "hostname" {
      assert r == Next(s1.(hostname := Some(v)));
    } else if k == "address" {
      assert r == Next(s1.(address := InetPton4(v)));
    } else if k == "port" {
      assert r == Next(s1.(port := StrToNum(v, 0, UINT16_MAX).value));
    } else if k == "text" {
      assert r == Next(s1.(text := v));
    } else {
      assert r == Next(s1);
    }
  }

  lemma AllPairsOkInit(doc: Document, pairs: seq<Pair>)
    requires AllPairsOk(doc, pairs) && pairs != []
    ensures AllPairsOk(doc, pairs[..|pairs| - 1]) && PairOk(doc, pairs[|pairs| - 1])
  {
    var init := pairs[..|pairs| - 1];
    forall i | 0 <= i < |init| ensures PairOk(doc, init[i]) { assert init[i] == pairs[i]; }
  }

  /** When every pair passes, the pass never stops and each slot ends with the last value given for its key. */
  lemma {:induction false} ScanAllOk(doc: Document, pairs: seq<Pair>, s: Slots)
    requires AllPairsOk(doc, pairs)
    ensures ScanPairs(doc, pairs, s).Next?
    ensures Overwritten(doc, pairs, s, ScanPairs(doc, pairs, s).slots)
    decreases |pairs|
  {
    if pairs == [] {
      assert Overwritten(doc, pairs, s, s);
    } else {
      AllPairsOkInit(doc, pairs);
      ScanAllOk(doc, pairs[..|pairs| - 1], s);
      ScanOkStep(doc, pairs, s);
    }
  }

  /** The step of ScanAllOk: one more passing pair after a pass that went on. */
  lemma ScanOkStep(doc: Document, pairs: seq<Pair>, s: Slots)
    requires pairs != [] && PairOk(doc, pairs[|pairs| - 1])
    requires ScanPairs(doc, pairs[..|pairs| - 1], s).Next?
    requires Overwritten(doc, pairs[..|pairs| - 1], s, ScanPairs(doc, pairs[..|pairs| - 1], s).slots)
    ensures ScanPairs(doc, pairs, s).Next?
    ensures Overwritten(doc, pairs, s, ScanPairs(doc, pairs, s).slots)
  {
    var init := pairs[..|pairs| - 1];
    var p := pairs[|pairs| - 1];
    var s1 := ScanPairs(doc, init, s).slots;
    OkPairStep(doc, |pairs|, p, s1);
    AssignOverwrites(doc, pairs, s, s1);
  }

  lemma ScanNeverStops(doc: Document, pairs: seq<Pair>, s: Slots)
    requires AllPairsOk(doc, pairs)
    ensures ScanPairs(doc, pairs, s).Next?
  {
    ScanAllOk(doc, pairs, s);
  }

  /** A pass that does not stop read only pairs that passed the checks. */
  lemma {:induction false} ScanNextOk(doc: Document, pairs: seq<Pair>, s: Slots)
    requires ScanPairs(doc, pairs, s).Next?
    ensures AllPairsOk(doc, pairs)
    decreases |pairs|
  {
    if pairs != [] {
      var init := pairs[..|pairs| - 1];
      ScanNextOk(doc, init, s);
      forall i | 0 <= i < |pairs| ensures PairOk(doc, pairs[i]) {
        if i < |init| { assert pairs[i] == init[i]; }
      }
    }
  }

  /**
   * An entry is accepted exactly when every pair passes the checks and the
   * descriptor is the one its pairs describe; so repeated keys keep their
   * last value, unknown keys are ignored, the port defaults to 0 and the text
   * to "".
   */
  lemma AcceptedIff(doc: Document, pairs: seq<Pair>, svc: Service)
    ensures Compile(doc, Some(Mapping(pairs))) == Accept(svc) <==>
            AllPairsOk(doc, pairs) && Describes(doc, pairs, svc)
  {
    if AllPairsOk(doc, pairs) {
      ScanAllOk(doc, pairs, Unset);
      var s := ScanPairs(doc, pairs, Unset).slots;
      assert Compile(doc, Some(Mapping(pairs))) == Finish(s);
      if LastValue(doc, pairs, "address").Some? { LastValueOk(doc, pairs, "address"); }
      FinishDescribes(doc, pairs, s, svc);
    } else if ScanPairs(doc, pairs, Unset).Next? {
      ScanNextOk(doc, pairs, Unset);
    }
  }

  /** The checks after the pass accept exactly the described service. */
  lemma FinishDescribes(doc: Document, pairs: seq<Pair>, s: Slots, svc: Service)
    requires Overwritten(doc, pairs, Unset, s)
    requires LastValue(doc, pairs, "address").Some? ==> InetPton4(LastValue(doc, pairs, "address").value).Some?
    ensures Finish(s) == Accept(svc) <==> Describes(doc, pairs, svc)
  {
    if Describes(doc, pairs, svc) {
      FinishAcceptsDescribed(doc, pairs, s, svc);
    }
    if Finish(s) == Accept(svc) {
      FinishAcceptedIsDescribed(doc, pairs, s, svc);
    }
  }

  lemma FinishAcceptsDescribed(doc: Document, pairs: seq<Pair>, s: Slots, svc: Service)
    requires Overwritten(doc, pairs, Unset, s)
    requires LastValue(doc, pairs, "address").Some? ==> InetPton4(LastValue(doc, pairs, "address").value).Some?
    requires Describes(doc, pairs, svc)
    ensures Finish(s) == Accept(svc)
  {
    assert s.service == Some(svc.name);
    assert s.protocol == Some(ProtocolName(svc.protocol));
    var protocol := if s.protocol == Some("tcp") then Tcp else Udp;
    assert protocol == svc.protocol;
    assert s.port == svc.port by {
      match LastValue(doc, pairs, "port")
      case None =>
      case Some(v) =>
    }
    assert s.text == svc.text;
    match svc.host
    case None =>
      assert s.hostname.None? && s.address.None?;
      assert Finish(s) == Accept(Service(svc.name, protocol, s.port, s.text, None));
    case Some(h) =>
      assert s.hostname == Some(h.name) && s.address == Some(h.address);
      assert Finish(s) == Accept(Service(svc.name, protocol, s.port, s.text, Some(Host(h.name, h.address))));
  }

  lemma FinishAcceptedIsDescribed(doc: Document, pairs: seq<Pair>, s: Slots, svc: Service)
    requires Overwritten(doc, pairs, Unset, s)
    requires LastValue(doc, pairs, "address").Some? ==> InetPton4(LastValue(doc, pairs, "address").value).Some?
    requires Finish(s) == Accept(svc)
    ensures Describes(doc, pairs, svc)
  {
    assert s.service == LastValue(doc, pairs, "service");
    assert s.protocol == LastValue(doc, pairs, "protocol");
    assert s.hostname == LastValue(doc, pairs, "hostname");
    assert s.address.Some? == LastValue(doc, pairs, "address").Some?;
  }

  /** Every accepted descriptor has a non-empty service name, and a non-empty host name when it has a host. */
  lemma AcceptedNamesNonEmpty(doc: Document, pairs: seq<Pair>, svc: Service)
    requires Compile(doc, Some(Mapping(pairs))) == Accept(svc)
    ensures |svc.name| > 0
    ensures svc.host.Some? ==> |svc.host.value.name| > 0
  {
    AcceptedIff(doc, pairs, svc);
    LastValueOk(doc, pairs, "service");
    if svc.host.Some? { LastValueOk(doc, pairs, "hostname"); }
  }

  /** An entry without a "service" key is never accepted; if its pairs pass, it is skipped for that reason. */
  lemma MissingServiceRejected(doc: Document, pairs: seq<Pair>)
    requires LastValue(doc, pairs, "service") == None
    ensures !Compile(doc, Some(Mapping(pairs))).Accept?
    ensures AllPairsOk(doc, pairs) ==> Compile(doc, Some(Mapping(pairs))) == Ignore(MissingService)
  {
    forall svc ensures Compile(doc, Some(Mapping(pairs))) != Accept(svc) {
      AcceptedIff(doc, pairs, svc);
    }
    if AllPairsOk(doc, pairs) { ScanAllOk(doc, pairs, Unset); }
  }

  /** A protocol other than exactly "tcp" or "udp", or none at all, is never
      accepted ("TCP" and "sctp" among them). */
  lemma BadProtocolRejected(doc: Document, pairs: seq<Pair>)
    requires LastValue(doc, pairs, "protocol") != Some("tcp") && LastValue(doc, pairs, "protocol") != Some("udp")
    ensures !Compile(doc, Some(Mapping(pairs))).Accept?
    ensures AllPairsOk(doc, pairs) && LastValue(doc, pairs, "service").Some? ==>
      Compile(doc, Some(Mapping(pairs))) == Ignore(BadProtocol(LastValue(doc, pairs, "protocol")))
  {
    forall svc ensures Compile(doc, Some(Mapping(pairs))) != Accept(svc) {
      AcceptedIff(doc, pairs, svc);
      assert ProtocolName(svc.protocol) == "tcp" || ProtocolName(svc.protocol) == "udp";
    }
    if AllPairsOk(doc, pairs) { ScanAllOk(doc, pairs, Unset); }
  }

  /** Exactly one of "hostname" and "address" means the entry is never
      accepted, whatever its other fields are. */
  lemma HostWithoutAddressRejected(doc: Document, pairs: seq<Pair>)
    requires LastValue(doc, pairs, "hostname").Some? != LastValue(doc, pairs, "address").Some?
    ensures !Compile(doc, Some(Mapping(pairs))).Accept?
    ensures AllPairsOk(doc, pairs) && LastValue(doc, pairs, "service").Some?
            && LastValue(doc, pairs, "protocol") in {Some("tcp"), Some("udp")} ==>
      Compile(doc, Some(Mapping(pairs))) == Ignore(HostAddressMismatch)
  {
    forall svc ensures Compile(doc, Some(Mapping(pairs))) != Accept(svc) {
      AcceptedIff(doc, pairs, svc);
    }
    if AllPairsOk(doc, pairs) {
      ScanAllOk(doc, pairs, Unset);
      if LastValue(doc, pairs, "address").Some? { LastValueOk(doc, pairs, "address"); }
    }
  }

  /** The verdict of pair p, numbered i, that fails a check: that of the
      first check it fails, in add_service's order. */
  predicate PairFault(doc: Document, p: Pair, i: int, v: Verdict) {
    var key := GetNode(doc, p.key);
    var value := GetNode(doc, p.value);
    && (key.None? ==> v == Unreadable(MissingKey(i)))
    && (key.Some? && value.None? ==> v == Unreadable(MissingValue(i)))
    && (key.Some? && value.Some? && !IsNonEmptyScalar(key.value) ==> v == Ignore(KeyNotScalar(i)))
    && (key.Some? && value.Some? && IsNonEmptyScalar(key.value) && !IsNonEmptyScalar(value.value) ==>
          v == Ignore(ValueNotScalar(i)))
    && (key.Some? && value.Some? && IsNonEmptyScalar(key.value) && IsNonEmptyScalar(value.value) ==>
          && (key.value.text == "address" ==> v == Ignore(BadAddress(value.value.text)))
          && (key.value.text == "port" && StrToNum(value.value.text, 0, UINT16_MAX).Failure? ==>
                v == Ignore(BadPort(value.value.text, StrToNum(value.value.text, 0, UINT16_MAX).error))))
  }

  lemma FailingPairStops(doc: Document, i: int, p: Pair, s: Slots)
    requires !PairOk(doc, p)
    ensures PairStep(doc, i, p, s).Stop? && PairFault(doc, p, i, PairStep(doc, i, p, s).verdict)
  {
  }

  /** Once the pass has stopped, pairs after the stopping point change nothing. */
  lemma {:induction false} StopIsFinal(doc: Document, pairs: seq<Pair>, n: nat, s: Slots)
    requires n <= |pairs| && ScanPairs(doc, pairs[..n], s).Stop?
    ensures ScanPairs(doc, pairs, s) == ScanPairs(doc, pairs[..n], s)
    decreases |pairs| - n
  {
    if n < |pairs| {
      var init := pairs[..|pairs| - 1];
      assert init[..n] == pairs[..n];
      StopIsFinal(doc, init, n, s);
    } else {
      assert pairs[..n] == pairs;
    }
  }

  /**
   * The first pair that fails the checks ends the entry: its fault is the
   * verdict, and the pairs after it are not looked at (a later pair whose node
   * index leads nowhere is not reported).
   */
  lemma FirstBadPairDecides(doc: Document, pairs: seq<Pair>, i: nat)
    requires i < |pairs| && AllPairsOk(doc, pairs[..i]) && !PairOk(doc, pairs[i])
    ensures Compile(doc, Some(Mapping(pairs))) == Compile(doc, Some(Mapping(pairs[..i + 1])))
    ensures PairFault(doc, pairs[i], i + 1, Compile(doc, Some(Mapping(pairs))))
  {
    FirstBadPairStops(doc, pairs, i);
    StopIsFinal(doc, pairs, i + 1, Unset);
  }

  /** The pass over the pairs up to the first failing one stops at it. */
  lemma FirstBadPairStops(doc: Document, pairs: seq<Pair>, i: nat)
    requires i < |pairs| && AllPairsOk(doc, pairs[..i]) && !PairOk(doc, pairs[i])
    ensures ScanPairs(doc, pairs[..i + 1], Unset).Stop?
    ensures PairFault(doc, pairs[i], i + 1, ScanPairs(doc, pairs[..i + 1], Unset).verdict)
  {
    assert pairs[..i + 1][..i] == pairs[..i];
    ScanNeverStops(doc, pairs[..i], Unset);
    FailingPairStops(doc, i + 1, pairs[i], ScanPairs(doc, pairs[..i], Unset).slots);
  }
}
