/**
 * add_group: checks one entry of a document's top-level mapping, defines the
 * group with the session, compiles each of its items in order and commits
 * the group.
 */
module GroupCompiler {
  import opened Wrappers
  import opened Yaml
  import opened Mdns
  import opened ServiceCompiler

  /** An entry add_group goes on with: a non-empty scalar name shorter than
      MAXHOSTNAMELEN bytes (so at most 255), and a sequence of items. */
  predicate Admitted(doc: Document, p: Pair) {
    var key := GetNode(doc, p.key);
    var value := GetNode(doc, p.value);
    && key.Some? && value.Some?
    && IsNonEmptyScalar(key.value)
    && |key.value.text| < MAXHOSTNAMELEN
    && value.value.Sequence?
  }

  /** The items of `group`, the first numbered `first`, each compiled and handled in order. */
  function ItemsEffect(t: Trace, lib: Library, doc: Document, group: string, items: seq<int>, first: int): (r: Trace)
    ensures t.exit.Some? ==> r == t
    ensures t.calls <= r.calls && t.log <= r.log
    ensures forall i | |t.calls| <= i < |r.calls| :: IsServiceCall(r.calls[i], group)
    ensures t.exit.None? && r.exit.None? ==> |r.log| == |t.log| + |items|
    decreases |items|
  {
    if t.exit.Some? || items == [] then t
    else
      var t1 := ServiceEffect(t, lib, group, first, Compile(doc, GetNode(doc, items[0])));
      ItemsEffect(t1, lib, doc, group, items[1..], first + 1)
  }

  /**
   * What add_group adds to the trace for the pair numbered `index`. A key or
   * value index that leads nowhere is fatal; a bad name or a value that is
   * not a sequence skips the group with one warning and no call; otherwise
   * the group is defined (fatal if refused), its items are handled, and it is
   * committed (fatal if refused).
   */
  function GroupEffect(t: Trace, lib: Library, doc: Document, index: int, p: Pair): (r: Trace)
    ensures t.exit.Some? ==> r == t
    ensures t.calls <= r.calls && t.log <= r.log
    ensures forall i | |t.calls| <= i < |r.calls| :: IsGroupCall(r.calls[i])
    ensures t.exit.None? && GetNode(doc, p.key).None? ==> r == t.(exit := Some(MissingGroupKey(index)))
    ensures t.exit.None? && GetNode(doc, p.key).Some? && GetNode(doc, p.value).None? ==>
      r == t.(exit := Some(MissingGroupValue(index)))
    ensures t.exit.None? && GetNode(doc, p.key).Some? && GetNode(doc, p.value).Some? && !Admitted(doc, p) ==>
      r.calls == t.calls && r.exit.None? && |r.log| == |t.log| + 1
  {
    if t.exit.Some? then t
    else
      var key := GetNode(doc, p.key);
      var value := GetNode(doc, p.value);
      if key.None? then t.(exit := Some(MissingGroupKey(index)))
      else if value.None? then t.(exit := Some(MissingGroupValue(index)))
      else if !IsNonEmptyScalar(key.value) then t.(log := t.log + [GroupKeyNotScalar(index)])
      else
        var group := key.value.text;
        if |group| >= MAXHOSTNAMELEN then t.(log := t.log + [GroupNameTooLong(group)])
        else if !value.value.Sequence? then t.(log := t.log + [GroupNotSequence(group)])
        else
          var defined := t.calls + [GroupAdd(group)];
          if !lib(defined) then Trace(defined, t.log, Some(GroupAddFailed(group)))
          else
            var t2 := ItemsEffect(Trace(defined, t.log, None), lib, doc, group, value.value.items, 1);
            if t2.exit.Some? then t2
            else
              var committed := t2.calls + [GroupCommit(group)];
              Trace(committed, t2.log, if lib(committed) then None else Some(GroupCommitFailed(group)))
  }

  /** The loop of add_group over the items of the group's sequence, numbered from 1. */
  method AddItems(mdns: Session, log: Log, group: string, doc: Document, items: seq<int>) returns (exit: Option<Fatal>)
    modifies mdns, log
    ensures Trace(mdns.calls, log.lines, exit) ==
      ItemsEffect(Trace(old(mdns.calls), old(log.lines), None), mdns.library, doc, group, items, 1)
  {
    exit := None;
    ghost var start := Trace(mdns.calls, log.lines, None);
    var j := 0;
    while j < |items|
      invariant 0 <= j <= |items|
      invariant exit.None?
      invariant ItemsEffect(Trace(mdns.calls, log.lines, None), mdns.library, doc, group, items[j..], j + 1)
             == ItemsEffect(start, mdns.library, doc, group, items, 1)
    {
      assert items[j..][0] == items[j] && items[j..][1..] == items[j + 1..];
      exit := AddService(mdns, log, group, j + 1, doc, GetNode(doc, items[j]));
      if exit.Some? {
        return;
      }
      j := j + 1;
    }
    assert items[j..] == [];
  }

  /** add_group(mdns, index, document, pair). */
  method AddGroup(mdns: Session, log: Log, index: int, doc: Document, p: Pair) returns (exit: Option<Fatal>)
    modifies mdns, log
    ensures Trace(mdns.calls, log.lines, exit) ==
      GroupEffect(Trace(old(mdns.calls), old(log.lines), None), mdns.library, doc, index, p)
  {
    exit := None;
    var key := GetNode(doc, p.key);
    var value := GetNode(doc, p.value);
    if key.None? {
      exit := Some(MissingGroupKey(index));
      return;
    }
    if value.None? {
      exit := Some(MissingGroupValue(index));
      return;
    }
    if !IsNonEmptyScalar(key.value) {
      log.Emit(GroupKeyNotScalar(index));
      return;
    }
    var group := key.value.text;
    if |group| >= MAXHOSTNAMELEN {
      log.Emit(GroupNameTooLong(group));
      return;
    }
    if !value.value.Sequence? {
      log.Emit(GroupNotSequence(group));
      return;
    }
    var ok := mdns.Request(GroupAdd(group));
    if !ok {
      exit := Some(GroupAddFailed(group));
      return;
    }

    exit := AddItems(mdns, log, group, doc, value.value.items);
    if exit.Some? {
      return;
    }
    ok := mdns.Request(GroupCommit(group));
    if !ok {
      exit := Some(GroupCommitFailed(group));
    }
  }

  // ---------------------------------------------------------------------------
  // Properties of add_group.

  /** Each item that is not fatal leaves exactly one diagnostic line, in item
      order: line k is about items[k], numbered first + k, and reports what
      its verdict led to. */
  lemma {:induction false} OneLinePerItem(t: Trace, lib: Library, doc: Document, group: string, items: seq<int>, first: int)
    requires t.exit.None? && ItemsEffect(t, lib, doc, group, items, first).exit.None?
    ensures var r := ItemsEffect(t, lib, doc, group, items, first);
      |r.log| == |t.log| + |items| &&
      forall j | |t.log| <= j < |r.log| ::
        ItemLine(r.log[j], group, first + (j - |t.log|), Compile(doc, GetNode(doc, items[j - |t.log|])))
    decreases |items|
  {
    if items != [] {
      var t1 := ServiceEffect(t, lib, group, first, Compile(doc, GetNode(doc, items[0])));
      OneLinePerItem(t1, lib, doc, group, items[1..], first + 1);
      var r := ItemsEffect(t, lib, doc, group, items, first);
      assert r == ItemsEffect(t1, lib, doc, group, items[1..], first + 1);
      assert |t1.log| == |t.log| + 1;
      forall j | |t.log| <= j < |r.log|
        ensures ItemLine(r.log[j], group, first + (j - |t.log|), Compile(doc, GetNode(doc, items[j - |t.log|])))
      {
        if j == |t.log| {
          assert r.log[j] == t1.log[j];
        } else {
          assert items[1..][j - |t1.log|] == items[j - |t.log|];
        }
      }
    }
  }

  /** Items that are all skipped issue no library call and are never fatal. */
  lemma {:induction false} SkippedItemsCallNothing(t: Trace, lib: Library, doc: Document, group: string, items: seq<int>, first: int)
    requires t.exit.None?
    requires forall j | 0 <= j < |items| :: Compile(doc, GetNode(doc, items[j])).Ignore?
    ensures ItemsEffect(t, lib, doc, group, items, first).calls == t.calls
    ensures ItemsEffect(t, lib, doc, group, items, first).exit.None?
    decreases |items|
  {
    if items != [] {
      assert Compile(doc, GetNode(doc, items[0])).Ignore?;
      var t1 := ServiceEffect(t, lib, group, first, Compile(doc, GetNode(doc, items[0])));
      forall j | 0 <= j < |items[1..]| ensures Compile(doc, GetNode(doc, items[1..][j])).Ignore? {
        assert items[1..][j] == items[j + 1];
      }
      SkippedItemsCallNothing(t1, lib, doc, group, items[1..], first + 1);
    }
  }

  /**
   * For an admitted group that is not fatal, the calls it adds are: the
   * definition first, then only service calls for that group, then the
   * commit last; and one diagnostic line per item, in order.
   */
  lemma GroupCallOrder(t: Trace, lib: Library, doc: Document, index: int, p: Pair)
    requires t.exit.None? && Admitted(doc, p)
    requires GroupEffect(t, lib, doc, index, p).exit.None?
    ensures var r := GroupEffect(t, lib, doc, index, p);
            var group := GetNode(doc, p.key).value.text;
            var items := GetNode(doc, p.value).value.items;
      && |r.calls| >= |t.calls| + 2
      && r.calls[|t.calls|] == GroupAdd(group)
      && r.calls[|r.calls| - 1] == GroupCommit(group)
      && (forall i | |t.calls| < i < |r.calls| - 1 :: IsServiceCall(r.calls[i], group))
      && |r.log| == |t.log| + |items|
      && (forall j | |t.log| <= j < |r.log| ::
            ItemLine(r.log[j], group, 1 + (j - |t.log|), Compile(doc, GetNode(doc, items[j - |t.log|]))))
  {
    var group := GetNode(doc, p.key).value.text;
    var items := GetNode(doc, p.value).value.items;
    var r := GroupEffect(t, lib, doc, index, p);
    var t1 := Trace(t.calls + [GroupAdd(group)], t.log, None);
    assert lib(t1.calls);
    var t2 := ItemsEffect(t1, lib, doc, group, items, 1);
    assert t2.exit.None?;
    assert r.calls == t2.calls + [GroupCommit(group)] && r.log == t2.log;
    OneLinePerItem(t1, lib, doc, group, items, 1);
  }

  /** A group that is defined, whose items all complete, and whose commit is
      accepted ends with the commit after its items' calls. */
  lemma CommittedAfterItems(t: Trace, lib: Library, doc: Document, index: int, p: Pair,
                            group: string, items: seq<int>, t2: Trace)
    requires t.exit.None? && 0 < |group| < MAXHOSTNAMELEN
    requires GetNode(doc, p.key) == Some(Scalar(group)) && GetNode(doc, p.value) == Some(Sequence(items))
    requires lib(t.calls + [GroupAdd(group)])
    requires t2 == ItemsEffect(Trace(t.calls + [GroupAdd(group)], t.log, None), lib, doc, group, items, 1)
    requires t2.exit.None? && lib(t2.calls + [GroupCommit(group)])
    ensures GroupEffect(t, lib, doc, index, p) == Trace(t2.calls + [GroupCommit(group)], t2.log, None)
  {
  }

  /** The group is committed even when every one of its items was skipped:
      the calls are then exactly the definition and the commit, and the
      group is fatal exactly when the commit is refused. */
  lemma CommitEvenIfAllSkipped(t: Trace, lib: Library, doc: Document, index: int, p: Pair)
    requires t.exit.None? && Admitted(doc, p)
    requires var items := GetNode(doc, p.value).value.items;
      forall j | 0 <= j < |items| :: Compile(doc, GetNode(doc, items[j])).Ignore?
    requires lib(t.calls + [GroupAdd(GetNode(doc, p.key).value.text)])
    ensures var group := GetNode(doc, p.key).value.text;
            var r := GroupEffect(t, lib, doc, index, p);
      && r.calls == t.calls + [GroupAdd(group), GroupCommit(group)]
      && r.exit == (if lib(r.calls) then None else Some(GroupCommitFailed(group)))
  {
    var group := GetNode(doc, p.key).value.text;
    var items := GetNode(doc, p.value).value.items;
    var t1 := Trace(t.calls + [GroupAdd(group)], t.log, None);
    SkippedItemsCallNothing(t1, lib, doc, group, items, 1);
    assert t.calls + [GroupAdd(group)] + [GroupCommit(group)] == t.calls + [GroupAdd(group), GroupCommit(group)];
  }

  /** A group is defined only when its entry is admitted: its name is a
      scalar of 1 to 255 bytes and its value a sequence; the definition is
      then the group's first call. */
  lemma DefinedOnlyIfAdmitted(t: Trace, lib: Library, doc: Document, index: int, p: Pair)
    requires t.exit.None?
    requires GroupEffect(t, lib, doc, index, p).calls != t.calls
    ensures Admitted(doc, p)
    ensures var group := GetNode(doc, p.key).value.text;
      && 0 < |group| <= MAXHOSTNAMELEN - 1
      && GroupEffect(t, lib, doc, index, p).calls[|t.calls|] == GroupAdd(group)
  {
    var group := GetNode(doc, p.key).value.text;
    var r := GroupEffect(t, lib, doc, index, p);
    if lib(t.calls + [GroupAdd(group)]) {
      var t1 := Trace(t.calls + [GroupAdd(group)], t.log, None);
      var items := GetNode(doc, p.value).value.items;
      assert t1.calls <= ItemsEffect(t1, lib, doc, group, items, 1).calls <= r.calls;
      assert r.calls[|t.calls|] == t1.calls[|t.calls|];
    }
  }

  /** A refused definition is fatal at once: no item is attempted and nothing is committed. */
  lemma DefineRefusedIsFatal(t: Trace, lib: Library, doc: Document, index: int, p: Pair)
    requires t.exit.None? && Admitted(doc, p)
    requires !lib(t.calls + [GroupAdd(GetNode(doc, p.key).value.text)])
    ensures var group := GetNode(doc, p.key).value.text;
      GroupEffect(t, lib, doc, index, p) == Trace(t.calls + [GroupAdd(group)], t.log, Some(GroupAddFailed(group)))
  {
  }

  /** Once the definition is accepted and no item is fatal, the commit is the
      last call, and the group is fatal exactly when the commit is refused,
      with the commit failure as its cause. */
  lemma CommitRefusedIsFatal(t: Trace, lib: Library, doc: Document, index: int, p: Pair)
    requires t.exit.None? && Admitted(doc, p)
    requires var group := GetNode(doc, p.key).value.text;
      && lib(t.calls + [GroupAdd(group)])
      && ItemsEffect(Trace(t.calls + [GroupAdd(group)], t.log, None), lib, doc, group,
                     GetNode(doc, p.value).value.items, 1).exit.None?
    ensures var group := GetNode(doc, p.key).value.text;
            var r := GroupEffect(t, lib, doc, index, p);
      && |r.calls| > |t.calls| + 1 && r.calls[|r.calls| - 1] == GroupCommit(group)
      && (r.exit == Some(GroupCommitFailed(group)) <==> !lib(r.calls))
      && (r.exit.None? <==> lib(r.calls))
  {
  }

  /** Conversely, a commit failure is reported only after a refused commit
      that is the last call made. */
  lemma CommitFailureFollowsRefusedCommit(t: Trace, lib: Library, doc: Document, index: int, p: Pair)
    requires t.exit.None? && Admitted(doc, p)
    requires var r := GroupEffect(t, lib, doc, index, p); r.exit.Some? && |r.calls| > 0
    ensures var r := GroupEffect(t, lib, doc, index, p);
            var group := GetNode(doc, p.key).value.text;
      r.exit.value.GroupCommitFailed? ==> r.calls[|r.calls| - 1] == GroupCommit(group) && !lib(r.calls)
  {
    var group := GetNode(doc, p.key).value.text;
    var items := GetNode(doc, p.value).value.items;
    var t1 := Trace(t.calls + [GroupAdd(group)], t.log, None);
    if lib(t1.calls) && ItemsEffect(t1, lib, doc, group, items, 1).exit.Some? {
      ItemsFatalCauses(t1, lib, doc, group, items, 1);
    }
  }

  /** The only fatal causes of a group are its own node lookups, its definition,
      an item's node lookups and its commit; a refused service is never one. */
  lemma GroupFatalCauses(t: Trace, lib: Library, doc: Document, index: int, p: Pair)
    requires t.exit.None? && GroupEffect(t, lib, doc, index, p).exit.Some?
    ensures var f := GroupEffect(t, lib, doc, index, p).exit.value;
      || f == MissingGroupKey(index) || f == MissingGroupValue(index)
      || f.GroupAddFailed? || f.GroupCommitFailed? || f.MissingServiceNode?
  {
    if Admitted(doc, p) {
      var group := GetNode(doc, p.key).value.text;
      var items := GetNode(doc, p.value).value.items;
      var t1 := Trace(t.calls + [GroupAdd(group)], t.log, None);
      if lib(t1.calls) && ItemsEffect(t1, lib, doc, group, items, 1).exit.Some? {
        ItemsFatalCauses(t1, lib, doc, group, items, 1);
      }
    }
  }

  lemma {:induction false} ItemsFatalCauses(t: Trace, lib: Library, doc: Document, group: string, items: seq<int>, first: int)
    requires t.exit.None? && ItemsEffect(t, lib, doc, group, items, first).exit.Some?
    ensures ItemsEffect(t, lib, doc, group, items, first).exit.value.MissingServiceNode?
    decreases |items|
  {
    var t1 := ServiceEffect(t, lib, group, first, Compile(doc, GetNode(doc, items[0])));
    if t1.exit.None? {
      ItemsFatalCauses(t1, lib, doc, group, items[1..], first + 1);
    }
  }
}
