/**
 * The document loop of mdnsserve's main: every document of the
 * configuration stream is loaded in turn; the first one with a mapping at
 * its root opens the session with mdnsd, and every entry of each root
 * mapping is handed to add_group, numbered from 1 within its document.
 */
module DocumentLoader {
  import opened Wrappers
  import opened Yaml
  import opened Mdns
  import opened GroupCompiler

  /** mdns_open, then (if it succeeded) mdns_set_group_hook and the
      "connected" notice; a refused open is fatal. */
  function OpenEffect(t: Trace, lib: Library): (r: Trace)
    requires t.exit.None?
    ensures |r.calls| > |t.calls| && r.calls[..|t.calls|] == t.calls && r.calls[|t.calls|] == Open
    ensures r.exit.Some? <==> !lib(t.calls + [Open])
    ensures r.exit.Some? ==> r == Trace(t.calls + [Open], t.log, Some(OpenFailed))
    ensures r.exit.None? ==> r.calls == t.calls + [Open, SetGroupHook] && r.log == t.log + [Connected]
  {
    var withOpen := t.calls + [Open];
    if !lib(withOpen) then Trace(withOpen, t.log, Some(OpenFailed))
    else Trace(withOpen + [SetGroupHook], t.log + [Connected], None)
  }

  /** add_group for each entry of a root mapping in order, the first numbered
      `first`, until one is fatal. */
  function PairsEffect(t: Trace, lib: Library, doc: Document, pairs: seq<Pair>, first: int): (r: Trace)
    ensures t.exit.Some? ==> r == t
    ensures t.calls <= r.calls && t.log <= r.log
    decreases |pairs|
  {
    if t.exit.Some? || pairs == [] then t
    else PairsEffect(GroupEffect(t, lib, doc, first, pairs[0]), lib, doc, pairs[1..], first + 1)
  }

  /**
   * The document loop from the stream position `pending` on. A parse error
   * is fatal; a document without a root ends the loop; a root that is not a
   * mapping is fatal; the session is opened before the first mapping's
   * groups unless `initialised` says it already is.
   */
  function Run(t: Trace, lib: Library, pending: seq<LoadResult>, initialised: bool): (r: Trace)
    ensures t.exit.Some? ==> r == t
    ensures t.calls <= r.calls && t.log <= r.log
    decreases |pending|
  {
    if t.exit.Some? then t
    else match NextLoad(pending)
      case ParseError => t.(exit := Some(ParseFailed))
      case Loaded(doc) =>
        match RootNode(doc)
        case None => t
        case Some(root) =>
          if !root.Mapping? then t.(exit := Some(RootNotMapping))
          else
            var t1 := if initialised then t else OpenEffect(t, lib);
            assert pending != [];
            Run(PairsEffect(t1, lib, doc, root.pairs, 1), lib, AfterLoad(pending), true)
  }

  /** Unfolds one round of the loop for a document whose root is a mapping. */
  lemma RunMappingStep(t: Trace, lib: Library, pending: seq<LoadResult>, initialised: bool)
    requires t.exit.None? && pending != [] && pending[0].Loaded?
    requires RootNode(pending[0].doc).Some? && RootNode(pending[0].doc).value.Mapping?
    ensures var t1 := if initialised then t else OpenEffect(t, lib);
      Run(t, lib, pending, initialised) ==
      Run(PairsEffect(t1, lib, pending[0].doc, RootNode(pending[0].doc).value.pairs, 1), lib, pending[1..], true)
  {
  }

  /** A single entry is handled by one add_group. */
  lemma PairsEffectSingle(t: Trace, lib: Library, doc: Document, p: Pair, first: int)
    ensures PairsEffect(t, lib, doc, [p], first) == GroupEffect(t, lib, doc, first, p)
  {
    assert [p][1..] == [];
  }

  /** The first entry is handled first, numbered `first`. */
  lemma PairsEffectFirst(t: Trace, lib: Library, doc: Document, pairs: seq<Pair>, first: int)
    requires t.exit.None? && pairs != []
    ensures PairsEffect(t, lib, doc, pairs, first) ==
      PairsEffect(GroupEffect(t, lib, doc, first, pairs[0]), lib, doc, pairs[1..], first + 1)
  {
  }

  /** The entries of a root mapping go to add_group one after the other, in
      order: the entry after the first n is numbered first + n. */
  lemma {:induction false} PairsEffectSnoc(t: Trace, lib: Library, doc: Document, pairs: seq<Pair>, p: Pair, first: int)
    ensures PairsEffect(t, lib, doc, pairs + [p], first) ==
      GroupEffect(PairsEffect(t, lib, doc, pairs, first), lib, doc, first + |pairs|, p)
    decreases |pairs|
  {
    if t.exit.None? {
      if pairs == [] {
        assert pairs + [p] == [p];
        PairsEffectSingle(t, lib, doc, p, first);
      } else {
        var t1 := GroupEffect(t, lib, doc, first, pairs[0]);
        assert (pairs + [p])[0] == pairs[0] && (pairs + [p])[1..] == pairs[1..] + [p];
        PairsEffectFirst(t, lib, doc, pairs + [p], first);
        PairsEffectFirst(t, lib, doc, pairs, first);
        PairsEffectSnoc(t1, lib, doc, pairs[1..], p, first + 1);
      }
    }
  }

  /** The loop of main over the entries of one root mapping. */
  method AddGroups(mdns: Session, log: Log, doc: Document, pairs: seq<Pair>) returns (exit: Option<Fatal>)
    modifies mdns, log
    ensures Trace(mdns.calls, log.lines, exit) ==
      PairsEffect(Trace(old(mdns.calls), old(log.lines), None), mdns.library, doc, pairs, 1)
  {
    exit := None;
    ghost var t1 := Trace(mdns.calls, log.lines, None);
    var k := 0;
    while k < |pairs|
      invariant 0 <= k <= |pairs|
      invariant exit.None?
      invariant PairsEffect(Trace(mdns.calls, log.lines, None), mdns.library, doc, pairs[k..], k + 1)
             == PairsEffect(t1, mdns.library, doc, pairs, 1)
    {
      assert pairs[k..][0] == pairs[k] && pairs[k..][1..] == pairs[k + 1..];
      exit := AddGroup(mdns, log, k + 1, doc, pairs[k]);
      if exit.Some? {
        assert PairsEffect(t1, mdns.library, doc, pairs, 1) == Trace(mdns.calls, log.lines, exit);
        return;
      }
      k := k + 1;
    }
    assert pairs[k..] == [];
  }

  /** The document loop of main, from the first document of the stream. */
  method LoadConfig(parser: Parser, mdns: Session, log: Log) returns (exit: Option<Fatal>)
    modifies parser, mdns, log
    ensures Trace(mdns.calls, log.lines, exit) ==
      Run(Trace(old(mdns.calls), old(log.lines), None), mdns.library, old(parser.pending), false)
  {
    exit := None;
    var initialised := false;
    ghost var start := Trace(mdns.calls, log.lines, None);
    while true
      invariant exit.None?
      invariant Run(Trace(mdns.calls, log.lines, None), mdns.library, parser.pending, initialised)
             == Run(start, mdns.library, old(parser.pending), false)
      decreases |parser.pending|
    {
      ghost var before := parser.pending;
      ghost var t0 := Trace(mdns.calls, log.lines, None);
      var loaded := parser.Load();
      if loaded.ParseError? {
        exit := Some(ParseFailed);
        return;
      }
      var doc := loaded.doc;
      var root := RootNode(doc);
      if root.None? {
        return;
      }
      if !root.value.Mapping? {
        exit := Some(RootNotMapping);
        return;
      }
      assert before != [] && before[0] == loaded && parser.pending == before[1..];
      RunMappingStep(t0, mdns.library, before, initialised);
      if !initialised {
        var ok := mdns.Request(Open);
        if !ok {
          exit := Some(OpenFailed);
          return;
        }
        ok := mdns.Request(SetGroupHook);
        log.Emit(Connected);
        initialised := true;
        assert Trace(mdns.calls, log.lines, None) == OpenEffect(t0, mdns.library);
      }
      exit := AddGroups(mdns, log, doc, root.value.pairs);
      if exit.Some? {
        return;
      }
    }
  }

  // ---------------------------------------------------------------------------
  // Properties of the document loop.

  /** The entries of a root mapping issue group calls only. */
  lemma {:induction false} PairsMakeGroupCalls(t: Trace, lib: Library, doc: Document, pairs: seq<Pair>, first: int)
    ensures forall i | |t.calls| <= i < |PairsEffect(t, lib, doc, pairs, first).calls| ::
      IsGroupCall(PairsEffect(t, lib, doc, pairs, first).calls[i])
    decreases |pairs|
  {
    if t.exit.None? && pairs != [] {
      var t1 := GroupEffect(t, lib, doc, first, pairs[0]);
      PairsMakeGroupCalls(t1, lib, doc, pairs[1..], first + 1);
      var r := PairsEffect(t, lib, doc, pairs, first);
      assert r == PairsEffect(t1, lib, doc, pairs[1..], first + 1);
      forall i | |t.calls| <= i < |r.calls| ensures IsGroupCall(r.calls[i]) {
        if i < |t1.calls| {
          assert r.calls[i] == t1.calls[i];
        }
      }
    }
  }

  /** Once the session is open, the loop issues group calls only. */
  lemma {:induction false} LaterDocumentsMakeGroupCalls(t: Trace, lib: Library, pending: seq<LoadResult>)
    ensures forall i | |t.calls| <= i < |Run(t, lib, pending, true).calls| ::
      IsGroupCall(Run(t, lib, pending, true).calls[i])
    decreases |pending|
  {
    if t.exit.None? && NextLoad(pending).Loaded? {
      var doc := NextLoad(pending).doc;
      if RootNode(doc).Some? && RootNode(doc).value.Mapping? {
        var t2 := PairsEffect(t, lib, doc, RootNode(doc).value.pairs, 1);
        PairsMakeGroupCalls(t, lib, doc, RootNode(doc).value.pairs, 1);
        LaterDocumentsMakeGroupCalls(t2, lib, AfterLoad(pending));
        var r := Run(t, lib, pending, true);
        assert r == Run(t2, lib, AfterLoad(pending), true);
        forall i | |t.calls| <= i < |r.calls| ensures IsGroupCall(r.calls[i]) {
          if i < |t2.calls| {
            assert r.calls[i] == t2.calls[i];
            assert IsGroupCall(t2.calls[i]);
          } else {
            assert IsGroupCall(Run(t2, lib, AfterLoad(pending), true).calls[i]);
          }
        }
      }
    }
  }

  /**
   * The session is opened at most once, and before any group: the calls of
   * the whole loop are nothing, or a refused open, or the open and the hook
   * registration followed by group calls only.
   */
  lemma SessionOrder(t: Trace, lib: Library, pending: seq<LoadResult>)
    requires t.exit.None?
    ensures var r := Run(t, lib, pending, false);
      || r.calls == t.calls
      || r.calls == t.calls + [Open]
      || (&& |r.calls| >= |t.calls| + 2
          && r.calls[..|t.calls|] == t.calls
          && r.calls[|t.calls|] == Open && r.calls[|t.calls| + 1] == SetGroupHook
          && forall i | |t.calls| + 2 <= i < |r.calls| :: IsGroupCall(r.calls[i]))
  {
    if NextLoad(pending).Loaded? {
      var doc := NextLoad(pending).doc;
      if RootNode(doc).Some? && RootNode(doc).value.Mapping? {
        var t1 := OpenEffect(t, lib);
        if t1.exit.None? {
          var t2 := PairsEffect(t1, lib, doc, RootNode(doc).value.pairs, 1);
          PairsMakeGroupCalls(t1, lib, doc, RootNode(doc).value.pairs, 1);
          LaterDocumentsMakeGroupCalls(t2, lib, AfterLoad(pending));
          var r := Run(t, lib, pending, false);
          assert r == Run(t2, lib, AfterLoad(pending), true);
          assert r.calls[..|t1.calls|] == t1.calls;
          forall i | |t.calls| + 2 <= i < |r.calls| ensures IsGroupCall(r.calls[i]) {
            if i < |t2.calls| {
              assert r.calls[i] == t2.calls[i];
            }
          }
        }
      }
    }
  }

  /** An empty stream, or one whose first document has no root, leaves the
      session unopened and writes nothing. */
  lemma RootlessFirstDocumentOpensNothing(t: Trace, lib: Library, pending: seq<LoadResult>)
    requires t.exit.None?
    requires pending == [] || (pending[0].Loaded? && pending[0].doc.nodes == [])
    ensures Run(t, lib, pending, false) == t
  {
  }

  /** The first document whose root is a mapping opens the session before
      any of its entries is handled, even when the mapping is empty. */
  lemma FirstMappingOpens(t: Trace, lib: Library, pending: seq<LoadResult>)
    requires t.exit.None? && pending != [] && pending[0].Loaded?
    requires RootNode(pending[0].doc).Some? && RootNode(pending[0].doc).value.Mapping?
    ensures var r := Run(t, lib, pending, false);
      |r.calls| > |t.calls| && r.calls[|t.calls|] == Open
  {
    RunMappingStep(t, lib, pending, false);
    var t1 := OpenEffect(t, lib);
    var t2 := PairsEffect(t1, lib, pending[0].doc, RootNode(pending[0].doc).value.pairs, 1);
    assert t1.calls <= t2.calls <= Run(t2, lib, pending[1..], true).calls;
  }

  /** A document stream in which every document has a mapping at its root. */
  predicate AllMappings(docs: seq<LoadResult>) {
    forall i | 0 <= i < |docs| :: docs[i].Loaded? && RootNode(docs[i].doc).Some? && RootNode(docs[i].doc).value.Mapping?
  }

  /** A document without a root ends the loop: whatever follows it in the
      stream is never looked at. */
  lemma {:induction false} RootlessDocumentEndsLoop(t: Trace, lib: Library, before: seq<LoadResult>, rest1: seq<LoadResult>, rest2: seq<LoadResult>, initialised: bool)
    requires AllMappings(before)
    ensures Run(t, lib, before + [Loaded(Document([]))] + rest1, initialised) ==
            Run(t, lib, before + [Loaded(Document([]))] + rest2, initialised)
    decreases |before|
  {
    var s1 := before + [Loaded(Document([]))] + rest1;
    var s2 := before + [Loaded(Document([]))] + rest2;
    if t.exit.None? && before != [] {
      assert s1[0] == before[0] && s2[0] == before[0];
      assert s1[1..] == before[1..] + [Loaded(Document([]))] + rest1;
      assert s2[1..] == before[1..] + [Loaded(Document([]))] + rest2;
      var doc := before[0].doc;
      var t1 := if initialised then t else OpenEffect(t, lib);
      var t2 := PairsEffect(t1, lib, doc, RootNode(doc).value.pairs, 1);
      RunMappingStep(t, lib, s1, initialised);
      RunMappingStep(t, lib, s2, initialised);
      RootlessDocumentEndsLoop(t2, lib, before[1..], rest1, rest2, true);
    }
  }

  /** A parse error, or a document whose root is not a mapping, is fatal
      unless an earlier document was, and adds no call and no line: the
      session is not opened for it and the loop never runs past it. */
  lemma {:induction false} BadDocumentIsFatal(t: Trace, lib: Library, before: seq<LoadResult>, bad: LoadResult, rest: seq<LoadResult>, initialised: bool)
    requires t.exit.None? && AllMappings(before)
    requires bad.ParseError? || (RootNode(bad.doc).Some? && !RootNode(bad.doc).value.Mapping?)
    ensures Run(t, lib, before + [bad] + rest, initialised).exit.Some?
    ensures var r := Run(t, lib, before, initialised);
      Run(t, lib, before + [bad] + rest, initialised) ==
        if r.exit.Some? then r else r.(exit := Some(if bad.ParseError? then ParseFailed else RootNotMapping))
    decreases |before|
  {
    var s := before + [bad] + rest;
    if before != [] {
      assert s[0] == before[0] && s[1..] == before[1..] + [bad] + rest;
      var doc := before[0].doc;
      var t1 := if initialised then t else OpenEffect(t, lib);
      var t2 := PairsEffect(t1, lib, doc, RootNode(doc).value.pairs, 1);
      RunMappingStep(t, lib, s, initialised);
      RunMappingStep(t, lib, before, initialised);
      if t2.exit.None? {
        BadDocumentIsFatal(t2, lib, before[1..], bad, rest, true);
      }
    } else {
      assert s[0] == bad;
    }
  }
}
