/**
 * Worked configurations: the whole loader run on small documents.
 */
module Scenarios {
  import opened Wrappers
  import opened Yaml
  import opened Libc
  import opened Mdns
  import opened ServiceCompiler
  import opened GroupCompiler
  import opened DocumentLoader

  /** A library that accepts every call. */
  function AcceptAll(): Library {
    (calls: seq<Call>) => true
  }

  /**
   * printer:
   *   - service: ipp
   *     protocol: tcp
   *     port: <port>
   *
   * The port's text is a parameter, so that the run below holds for every
   * text strtonum reads as 631 ("631" among them, by Ports.PortOf631).
   */
  function Printer(port: string): Document {
    Document([
      Mapping([Pair(2, 3)]),
      Scalar("printer"),
      Sequence([4]),
      Mapping([Pair(5, 6), Pair(7, 8), Pair(9, 10)]),
      Scalar("service"), Scalar("ipp"),
      Scalar("protocol"), Scalar("tcp"),
      Scalar("port"), Scalar(port)])
  }

  const Ipp := Service("ipp", Tcp, 631, "", None)

  /** The printer entry is accepted with the default text and no host. */
  lemma PrinterEntryAccepted(port: string)
    requires StrToNum(port, 0, UINT16_MAX) == Success(631)
    ensures Compile(Printer(port), GetNode(Printer(port), 4)) == Accept(Ipp)
  {
    var pairs := [Pair(5, 6), Pair(7, 8), Pair(9, 10)];
    var s1 := Unset.(service := Some("ipp"));
    var s2 := s1.(protocol := Some("tcp"));
    var s3 := s2.(port := 631);
    PrinterScan(port, pairs, s1, s2, s3);
  }

  lemma PrinterScan(port: string, pairs: seq<Pair>, s1: Slots, s2: Slots, s3: Slots)
    requires StrToNum(port, 0, UINT16_MAX) == Success(631)
    requires pairs == [Pair(5, 6), Pair(7, 8), Pair(9, 10)]
    requires s1 == Unset.(service := Some("ipp")) && s2 == s1.(protocol := Some("tcp")) && s3 == s2.(port := 631)
    ensures ScanPairs(Printer(port), pairs, Unset) == Next(s3)
  {
    var doc := Printer(port);
    PrinterNameSteps(port, s1, s2);
    PrinterPortStep(port, s2, s3);
    assert pairs[..2][..1] == pairs[..1] && pairs[..1][..0] == [];
    assert ScanPairs(doc, pairs[..1], Unset) == Next(s1);
    assert ScanPairs(doc, pairs[..2], Unset) == Next(s2);
  }

  lemma PrinterNameSteps(port: string, s1: Slots, s2: Slots)
    requires s1 == Unset.(service := Some("ipp")) && s2 == s1.(protocol := Some("tcp"))
    ensures PairStep(Printer(port), 1, Pair(5, 6), Unset) == Next(s1)
    ensures PairStep(Printer(port), 2, Pair(7, 8), s1) == Next(s2)
  {
  }

  lemma PrinterPortStep(port: string, s2: Slots, s3: Slots)
    requires StrToNum(port, 0, UINT16_MAX) == Success(631)
    requires s3 == s2.(port := 631)
    ensures PairStep(Printer(port), 3, Pair(9, 10), s2) == Next(s3)
  {
    StrToNumShape(port, 0, UINT16_MAX);
    PrinterPortNodes(port);
    PortPairStep(Printer(port), 3, Pair(9, 10), port, 631, s2);
  }

  lemma PrinterPortNodes(port: string)
    ensures GetNode(Printer(port), 9) == Some(Scalar("port")) && GetNode(Printer(port), 10) == Some(Scalar(port))
  {
  }

  /** The printer item is initialised and added, and noted as added. */
  lemma PrinterItems(port: string)
    requires Compile(Printer(port), GetNode(Printer(port), 4)) == Accept(Ipp)
    ensures ItemsEffect(Trace([Open, SetGroupHook, GroupAdd("printer")], [Connected], None),
                        AcceptAll(), Printer(port), "printer", [4], 1) ==
      Trace([Open, SetGroupHook, GroupAdd("printer"), ServiceInit("printer", Ipp), GroupAddService("printer", Ipp)],
            [Connected, ServiceAdded("printer", Ipp)], None)
  {
    SoleItemAdded(Trace([Open, SetGroupHook, GroupAdd("printer")], [Connected], None),
                  Printer(port), "printer", 4, Ipp);
  }

  /** A group whose one item is accepted, with every call accepted, has that
      item initialised, added and noted as added. */
  lemma SoleItemAdded(t: Trace, doc: Document, group: string, item: int, svc: Service)
    requires t.exit.None? && Compile(doc, GetNode(doc, item)) == Accept(svc)
    ensures ItemsEffect(t, AcceptAll(), doc, group, [item], 1) ==
      Trace(t.calls + [ServiceInit(group, svc), GroupAddService(group, svc)], t.log + [ServiceAdded(group, svc)], None)
  {
    assert [item][1..] == [];
    assert t.calls + [ServiceInit(group, svc)] + [GroupAddService(group, svc)] ==
      t.calls + [ServiceInit(group, svc), GroupAddService(group, svc)];
  }

  lemma PrinterNodes(port: string)
    ensures GetNode(Printer(port), 2) == Some(Scalar("printer"))
    ensures GetNode(Printer(port), 3) == Some(Sequence([4]))
  {
  }

  /** The printer group is defined, its service added, and it is committed. */
  lemma PrinterGroup(port: string)
    requires StrToNum(port, 0, UINT16_MAX) == Success(631)
    ensures GroupEffect(Trace([Open, SetGroupHook], [Connected], None), AcceptAll(), Printer(port), 1, Pair(2, 3)) ==
      Trace([Open, SetGroupHook, GroupAdd("printer"), ServiceInit("printer", Ipp),
             GroupAddService("printer", Ipp), GroupCommit("printer")],
            [Connected, ServiceAdded("printer", Ipp)], None)
  {
    PrinterEntryAccepted(port);
    PrinterItems(port);
    PrinterNodes(port);
    var t := Trace([Open, SetGroupHook], [Connected], None);
    var t2 := Trace([Open, SetGroupHook, GroupAdd("printer"), ServiceInit("printer", Ipp), GroupAddService("printer", Ipp)],
                    [Connected, ServiceAdded("printer", Ipp)], None);
    assert t.calls + [GroupAdd("printer")] == [Open, SetGroupHook, GroupAdd("printer")];
    CommittedAfterItems(t, AcceptAll(), Printer(port), 1, Pair(2, 3), "printer", [4], t2);
  }

  /** Loading the printer configuration opens the session, defines the
      group, initialises and adds the service, and commits the group. */
  lemma PrinterRun(port: string)
    requires StrToNum(port, 0, UINT16_MAX) == Success(631)
    ensures Run(Trace([], [], None), AcceptAll(), [Loaded(Printer(port))], false) ==
      Trace([Open, SetGroupHook, GroupAdd("printer"), ServiceInit("printer", Ipp),
             GroupAddService("printer", Ipp), GroupCommit("printer")],
            [Connected, ServiceAdded("printer", Ipp)], None)
  {
    PrinterGroup(port);
    var lib := AcceptAll();
    var t1 := Trace([Open, SetGroupHook], [Connected], None);
    assert OpenEffect(Trace([], [], None), lib) == t1;
    var tg := GroupEffect(t1, lib, Printer(port), 1, Pair(2, 3));
    assert PairsEffect(t1, lib, Printer(port), [Pair(2, 3)], 1) == tg;
    assert Run(tg, lib, [], true) == tg;
  }

  /** An entry with a host name but no address is skipped: the group is
      still defined and committed, with nothing added to it. */
  const HostOnly := Document([
    Mapping([Pair(2, 3)]),
    Scalar("web"),
    Sequence([4]),
    Mapping([Pair(5, 6), Pair(7, 8), Pair(9, 10)]),
    Scalar("service"), Scalar("http"),
    Scalar("protocol"), Scalar("tcp"),
    Scalar("hostname"), Scalar("box")])

  lemma HostOnlyEntrySkipped()
    ensures Compile(HostOnly, GetNode(HostOnly, 4)) == Ignore(HostAddressMismatch)
  {
    var pairs := [Pair(5, 6), Pair(7, 8), Pair(9, 10)];
    var s1 := Unset.(service := Some("http"));
    var s2 := s1.(protocol := Some("tcp"));
    var s3 := s2.(hostname := Some("box"));
    assert pairs[..2][..1] == pairs[..1] && pairs[..1][..0] == [];
    assert PairStep(HostOnly, 1, pairs[0], Unset) == Next(s1);
    assert ScanPairs(HostOnly, pairs[..1], Unset) == Next(s1);
    assert PairStep(HostOnly, 2, pairs[1], s1) == Next(s2);
    assert ScanPairs(HostOnly, pairs[..2], Unset) == Next(s2);
    assert PairStep(HostOnly, 3, pairs[2], s2) == Next(s3);
    assert ScanPairs(HostOnly, pairs, Unset) == Next(s3);
  }

  lemma HostOnlyRun()
    ensures Run(Trace([], [], None), AcceptAll(), [Loaded(HostOnly)], false) ==
      Trace([Open, SetGroupHook, GroupAdd("web"), GroupCommit("web")],
            [Connected, ServiceIgnored("web", 1, HostAddressMismatch)], None)
  {
    HostOnlyEntrySkipped();
    var lib := AcceptAll();
    var t1 := Trace([Open, SetGroupHook], [Connected], None);
    assert OpenEffect(Trace([], [], None), lib) == t1;
    var td := Trace([Open, SetGroupHook, GroupAdd("web")], [Connected], None);
    var ti := Trace(td.calls, [Connected, ServiceIgnored("web", 1, HostAddressMismatch)], None);
    assert ItemsEffect(td, lib, HostOnly, "web", [4], 1) == ti;
    var tg := Trace(ti.calls + [GroupCommit("web")], ti.log, None);
    assert t1.calls + [GroupAdd("web")] == td.calls;
    CommittedAfterItems(t1, lib, HostOnly, 1, Pair(2, 3), "web", [4], ti);
    assert PairsEffect(t1, lib, HostOnly, [Pair(2, 3)], 1) == tg;
    assert Run(tg, lib, [], true) == tg;
  }

  /** A root mapping whose only key is a sequence. */
  const BadKey := Document([Mapping([Pair(2, 3), Pair(2, 3)]), Sequence([]), Scalar("x")])

  /** An entry of BadKey is skipped with a warning carrying its index. */
  lemma BadKeyEntry(t: Trace, index: int)
    requires t.exit.None?
    ensures GroupEffect(t, AcceptAll(), BadKey, index, Pair(2, 3)) == t.(log := t.log + [GroupKeyNotScalar(index)])
  {
    assert GetNode(BadKey, 2) == Some(Sequence([])) && GetNode(BadKey, 3) == Some(Scalar("x"));
  }

  /** One such document adds a warning for each of its two entries, numbered
      1 and 2 in document order. */
  lemma BadKeyEntries(t: Trace)
    requires t.exit.None?
    ensures PairsEffect(t, AcceptAll(), BadKey, [Pair(2, 3), Pair(2, 3)], 1) ==
      t.(log := t.log + [GroupKeyNotScalar(1), GroupKeyNotScalar(2)])
  {
    var lib := AcceptAll();
    var t1 := t.(log := t.log + [GroupKeyNotScalar(1)]);
    BadKeyEntry(t, 1);
    PairsEffectSingle(t, lib, BadKey, Pair(2, 3), 1);
    PairsEffectSnoc(t, lib, BadKey, [Pair(2, 3)], Pair(2, 3), 1);
    BadKeyEntry(t1, 2);
    assert [Pair(2, 3)] + [Pair(2, 3)] == [Pair(2, 3), Pair(2, 3)];
    assert t1.log + [GroupKeyNotScalar(2)] == t.log + [GroupKeyNotScalar(1), GroupKeyNotScalar(2)];
  }

  /** Two such documents: the session is opened once, and each document
      numbers its entries from 1 again. */
  lemma IndicesRestartPerDocument()
    ensures Run(Trace([], [], None), AcceptAll(), [Loaded(BadKey), Loaded(BadKey)], false) ==
      Trace([Open, SetGroupHook],
            [Connected, GroupKeyNotScalar(1), GroupKeyNotScalar(2), GroupKeyNotScalar(1), GroupKeyNotScalar(2)], None)
  {
    var lib := AcceptAll();
    var entries := [Pair(2, 3), Pair(2, 3)];
    var t1 := Trace([Open, SetGroupHook], [Connected], None);
    assert OpenEffect(Trace([], [], None), lib) == t1;
    var t2 := t1.(log := t1.log + [GroupKeyNotScalar(1), GroupKeyNotScalar(2)]);
    BadKeyEntries(t1);
    var t3 := t2.(log := t2.log + [GroupKeyNotScalar(1), GroupKeyNotScalar(2)]);
    BadKeyEntries(t2);
    assert [Loaded(BadKey), Loaded(BadKey)][1..] == [Loaded(BadKey)];
    assert Run(t2, lib, [Loaded(BadKey)], true) == t3;
  }

  /** A document whose one group has no items. */
  function EmptyGroup(name: string): Document {
    Document([Mapping([Pair(2, 3)]), Scalar(name), Sequence([])])
  }

  /** An admitted group without items is defined and then committed. */
  lemma EmptyGroupEffect(t: Trace, name: string)
    requires t.exit.None? && 0 < |name| < MAXHOSTNAMELEN
    ensures PairsEffect(t, AcceptAll(), EmptyGroup(name), [Pair(2, 3)], 1) ==
      Trace(t.calls + [GroupAdd(name), GroupCommit(name)], t.log, None)
  {
    var doc := EmptyGroup(name);
    var t2 := Trace(t.calls + [GroupAdd(name)], t.log, None);
    assert GetNode(doc, 2) == Some(Scalar(name)) && GetNode(doc, 3) == Some(Sequence([]));
    assert ItemsEffect(t2, AcceptAll(), doc, name, [], 1) == t2;
    CommittedAfterItems(t, AcceptAll(), doc, 1, Pair(2, 3), name, [], t2);
    assert t2.calls + [GroupCommit(name)] == t.calls + [GroupAdd(name), GroupCommit(name)];
    assert [Pair(2, 3)][1..] == [];
  }

  /** Two documents with one group each: the session is opened once, and
      each group is defined and committed, in document order. */
  lemma GroupsInDocumentOrder()
    ensures Run(Trace([], [], None), AcceptAll(), [Loaded(EmptyGroup("a")), Loaded(EmptyGroup("b"))], false) ==
      Trace([Open, SetGroupHook, GroupAdd("a"), GroupCommit("a"), GroupAdd("b"), GroupCommit("b")], [Connected], None)
  {
    var lib := AcceptAll();
    var pending := [Loaded(EmptyGroup("a")), Loaded(EmptyGroup("b"))];
    var t1 := Trace([Open, SetGroupHook], [Connected], None);
    assert OpenEffect(Trace([], [], None), lib) == t1;
    var ta := Trace([Open, SetGroupHook, GroupAdd("a"), GroupCommit("a")], [Connected], None);
    EmptyGroupEffect(t1, "a");
    var tb := Trace([Open, SetGroupHook, GroupAdd("a"), GroupCommit("a"), GroupAdd("b"), GroupCommit("b")], [Connected], None);
    EmptyGroupEffect(ta, "b");
    RunMappingStep(Trace([], [], None), lib, pending, false);
    assert pending[1..] == [Loaded(EmptyGroup("b"))];
    RunMappingStep(ta, lib, pending[1..], true);
    assert pending[1..][1..] == [];
  }
}
