/**
 * The `Medusa` manager: the registry of targets (`internalTargets`) and the
 * list of ids ever accepted (`idList`), edited in place by `addTarget`,
 * `removeTarget`, `pushToTarget`, `pullFromTarget` and by the observers'
 * batch callbacks.
 */
module Lifecycle {
  import opened Declarations
  import opened Sequences
  import opened Identity
  import opened Registry
  import opened Notification

  /** The configurations an `addTarget` argument carries, in order. */
  function Items(arg: TargetsArg): seq<Target> {
    match arg
    case Many(items) => items
    case One(item) => [item]
    case NotAnObject => []
  }

  /** The elements a push or pull argument carries, in order. */
  function ElementsOf(arg: ElementsArg): seq<Element> {
    match arg
    case Single(e) => [e]
    case Several(es) => es
  }

  /** The observer a freshly built target starts with. */
  function InitialObserver(nodes: NodeSource): Option<Observer> {
    if nodes.NotANodeList? then None else Some(Observer(SetOf(InitialElements(nodes))))
  }

  /** A target record exactly as `createInternalTarget` leaves it. */
  ghost predicate BuiltFrom(t: InternalTarget, cfg: Target)
    reads t
  {
    && t.Configures(cfg)
    && t.observedElements == InitialElements(cfg.nodes)
    && t.observer == InitialObserver(cfg.nodes)
  }

  /**
   * A target without an observer holds no elements, and every element a
   * target holds carries a tag.
   */
  ghost predicate Consistent(t: InternalTarget, tags: map<Element, Tag>)
    reads t
  {
    && (t.observer.None? ==> t.observedElements == [])
    && (forall x :: x in t.observedElements ==> x in tags)
  }

  /**
   * Before the first push of an array, nothing of it has been pushed.
   * This and the two step lemmas below are proof steps: they state the
   * equalities a loop needs in the loop's own terms, which keeps the
   * solver's work per loop small.
   */
  lemma PushStart(s0: seq<Element>, els: seq<Element>, w0: set<Element>, tags: map<Element, Tag>, next: Tag)
    ensures s0 + els[..0] == s0 && w0 + SetOf(els[..0]) == w0 && TagAll(tags, els[..0], next) == tags
  {
    assert els[..0] == [];
  }

  /** Pushing `els[j]` after `els[..j]` is pushing `els[..j + 1]`. */
  lemma PushStep(s0: seq<Element>, els: seq<Element>, w0: set<Element>, j: nat)
    requires j < |els|
    ensures s0 + els[..j] + [els[j]] == s0 + els[..j + 1]
    ensures w0 + SetOf(els[..j]) + {els[j]} == w0 + SetOf(els[..j + 1])
  {
    PrefixStep(els, j);
    AppendAssociates(s0, els[..j], [els[j]]);
    SetOfPrefixStep(els, j);
  }

  /** The tags after pushing `els[..j]`, extended by the tag of `els[j]`. */
  lemma PushTagStep(m: map<Element, Tag>, base: map<Element, Tag>, els: seq<Element>, next: Tag, j: nat, n: Tag)
    requires j < |els| && m == TagAll(base, els[..j], next) && n == next + j
    ensures m[els[j] := n] == TagAll(base, els[..j + 1], next)
  {
    TagAllPrefixStep(base, els, next, j);
  }

  /** The targets `ts`, one per configuration, each as built from it. */
  ghost predicate BuiltFromAll(ts: seq<InternalTarget>, cfgs: seq<Target>)
    reads ts
  {
    |ts| == |cfgs| && forall k :: 0 <= k < |ts| ==> BuiltFrom(ts[k], cfgs[k])
  }

  /** One more registered configuration, seen from `BuiltFromAll`. */
  lemma BuiltFromAllStep(ts: seq<InternalTarget>, more: seq<InternalTarget>, cfgs: seq<Target>, i: nat)
    requires i < |cfgs| && BuiltFromAll(ts, cfgs[..i]) && BuiltFromAll(more, [cfgs[i]])
    ensures BuiltFromAll(ts + more, cfgs[..i + 1])
  {
    assert cfgs[..i + 1] == cfgs[..i] + [cfgs[i]];
  }

  class Medusa {
    var internalTargets: seq<InternalTarget>
    var idList: seq<string>
    /** The `medusaId` written on each element so far. */
    var tags: map<Element, Tag>
    /** The fresh-tag supply standing in for random ids. */
    var nextTag: Tag
    /** Dispatched events and user-callback runs, in order. */
    var effects: seq<Effect>
    /** `console.warn` output, in order. */
    var diagnostics: seq<Diagnostic>

    /**
     * Ids: an id is accepted at most once, every registered target carries
     * an accepted id, and no two registered targets share one.
     */
    ghost predicate IdsValid()
      reads this`idList, this`internalTargets
    {
      && NoDuplicates(idList)
      && (forall i :: 0 <= i < |internalTargets| ==> internalTargets[i].id in idList)
      && DistinctIds(internalTargets)
    }

    /**
     * Registered targets: one without an observer holds no elements, and
     * every element one holds carries a tag.
     */
    ghost predicate TargetsValid()
      reads this`internalTargets, this`tags, internalTargets
    {
      forall i :: 0 <= i < |internalTargets| ==> Consistent(internalTargets[i], tags)
    }

    /** Tags: all below the counter, and no two elements share one. */
    ghost predicate TagsValid()
      reads this`tags, this`nextTag
    {
      FreshFrom(tags, nextTag) && Injective(tags)
    }

    ghost predicate Valid()
      reads this`idList, this`internalTargets, this`tags, this`nextTag, internalTargets
    {
      IdsValid() && TargetsValid() && TagsValid()
    }

    /**
     * The state is still valid when only the record of `t` changed and
     * that record is consistent.
     */
    twostate lemma StillValid(t: InternalTarget)
      requires old(Valid()) && unchanged(this)
      requires forall o :: o in old(internalTargets) && o != t ==> unchanged(o)
      requires Consistent(t, tags)
      ensures Valid()
    {
      forall i | 0 <= i < |internalTargets| ensures Consistent(internalTargets[i], tags) {
        var o := internalTargets[i];
        if o != t {
          assert o in old(internalTargets) && unchanged(o);
          assert old(Consistent(o, tags));
        }
      }
    }

    /** The registered targets with a given id: at most one. */
    function TargetsNamed(id: string): set<InternalTarget>
      reads this
    {
      set t | t in internalTargets && t.id == id
    }

    /** The target registered under `id`, if any, has a live observer. */
    ghost predicate ObserverAttached(id: string)
      reads this, internalTargets
    {
      forall i :: 0 <= i < |internalTargets| && internalTargets[i].id == id ==>
        internalTargets[i].observer.Some?
    }

    /** The field initialisers: empty registry and id list. */
    constructor Empty()
      ensures Valid()
      ensures internalTargets == [] && idList == [] && tags == map[] && nextTag == 0
      ensures effects == [] && diagnostics == []
    {
      internalTargets := [];
      idList := [];
      tags := map[];
      nextTag := 0;
      effects := [];
      diagnostics := [];
    }

    /** `new Medusa(options)`: the empty manager, then `addTarget(options.targets)`. */
    static method Create(targets: TargetsArg) returns (m: Medusa, outcome: Outcome)
      ensures fresh(m) && m.Valid()
      ensures m.effects == []
      ensures targets.NotAnObject? ==>
        outcome == Completed && m.internalTargets == [] && m.diagnostics == [TargetsIncorrect]
      ensures !targets.NotAnObject? ==>
        var cfgs := Items(targets);
        var p := AcceptedCount([], cfgs);
        && outcome == (if p < |cfgs| then DuplicateId(cfgs[p].id) else Completed)
        && m.idList == IdsOf(cfgs[..p])
        && BuiltFromAll(m.internalTargets, cfgs[..p])
    {
      m := new Medusa.Empty();
      ghost var l0 := m.LedgerOf();
      assert l0 == Ledger([], map[], 0, []);
      ghost var added;
      outcome, added := m.AddTarget(targets);
      if !targets.NotAnObject? {
        var cfgs := Items(targets);
        var p := AcceptedCount([], cfgs);
        ghost var r := m.LedgerOf();
        RegisterFromEmpty(cfgs[..p], r);
        assert m.idList == r.ids;
        assert m.internalTargets == added;
      }
    }

    /** The id list, tags and warnings, as registration appends to them. */
    function LedgerOf(): Ledger
      reads this`idList, this`tags, this`nextTag, this`diagnostics
    {
      Ledger(idList, tags, nextTag, diagnostics)
    }

    /**
     * `addTarget`: an array is registered item by item until an id is
     * already in `idList`, where the call throws; one object is registered
     * unless its id is taken; anything else only warns. `added` names the
     * new target records.
     */
    method AddTarget(arg: TargetsArg) returns (outcome: Outcome, ghost added: seq<InternalTarget>)
      requires Valid()
      modifies this`internalTargets, this`idList, this`tags, this`nextTag, this`diagnostics
      ensures Valid()
      ensures internalTargets == old(internalTargets) + added
      ensures arg.NotAnObject? ==>
        && outcome == Completed && added == []
        && idList == old(idList) && tags == old(tags) && nextTag == old(nextTag)
        && diagnostics == old(diagnostics) + [TargetsIncorrect]
      ensures !arg.NotAnObject? ==>
        var cfgs := Items(arg);
        var p := AcceptedCount(old(idList), cfgs);
        && outcome == (if p < |cfgs| then DuplicateId(cfgs[p].id) else Completed)
        && LedgerOf() == RegisterEach(old(LedgerOf()), cfgs[..p])
        && BuiltFromAll(added, cfgs[..p])
    {
      match arg {
        case NotAnObject =>
          diagnostics := diagnostics + [TargetsIncorrect];
          outcome, added := Completed, [];
        case One(cfg) =>
          assert [cfg][1..] == [] && [cfg][..1] == [cfg] && [cfg][..0] == [];
          assert AcceptedCount(old(idList), [cfg]) == if cfg.id in old(idList) then 0 else 1;
          if IndexOf(idList, cfg.id) < 0 {
            var t := RegisterNew(cfg);
            outcome, added := Completed, [t];
            assert RegisterEach(old(LedgerOf()), [cfg]) == RegisterOne(old(LedgerOf()), cfg);
          } else {
            outcome, added := DuplicateId(cfg.id), [];
            assert internalTargets == old(internalTargets) + [];
          }
        case Many(cfgs) =>
          outcome, added := RegisterAll(cfgs);
      }
    }

    /** The array form of `addTarget`: register item by item, stop at the first taken id. */
    method RegisterAll(cfgs: seq<Target>) returns (outcome: Outcome, ghost added: seq<InternalTarget>)
      requires Valid()
      modifies this`internalTargets, this`idList, this`tags, this`nextTag, this`diagnostics
      ensures Valid()
      ensures internalTargets == old(internalTargets) + added
      ensures var p := AcceptedCount(old(idList), cfgs);
        && outcome == (if p < |cfgs| then DuplicateId(cfgs[p].id) else Completed)
        && LedgerOf() == RegisterEach(old(LedgerOf()), cfgs[..p])
        && BuiltFromAll(added, cfgs[..p])
    {
      outcome, added := Completed, [];
      var i := 0;
      assert cfgs[..0] == [] && cfgs[0..] == cfgs;
      assert internalTargets == old(internalTargets) + [];
      while i < |cfgs|
        invariant 0 <= i <= |cfgs|
        invariant Valid()
        invariant outcome == Completed
        invariant AcceptedCount(old(idList), cfgs) == i + AcceptedCount(idList, cfgs[i..])
        invariant LedgerOf() == RegisterEach(old(LedgerOf()), cfgs[..i])
        invariant internalTargets == old(internalTargets) + added
        invariant BuiltFromAll(added, cfgs[..i])
      {
        AcceptedCountStep(idList, cfgs, i);
        if IndexOf(idList, cfgs[i].id) >= 0 {
          outcome := DuplicateId(cfgs[i].id);
          return;
        }
        added := RegisterNext(cfgs, i, old(LedgerOf()), old(internalTargets), added);
        i := i + 1;
      }
    }

    /** Item `i` of an array, after items `..i` were registered. */
    method RegisterNext(cfgs: seq<Target>, i: nat, ghost l0: Ledger, ghost ts0: seq<InternalTarget>,
                        ghost added: seq<InternalTarget>) returns (ghost added': seq<InternalTarget>)
      requires Valid() && i < |cfgs| && cfgs[i].id !in idList
      requires LedgerOf() == RegisterEach(l0, cfgs[..i])
      requires internalTargets == ts0 + added && BuiltFromAll(added, cfgs[..i])
      modifies this`internalTargets, this`idList, this`tags, this`nextTag, this`diagnostics
      ensures Valid()
      ensures idList == old(idList) + [cfgs[i].id]
      ensures LedgerOf() == RegisterEach(l0, cfgs[..i + 1])
      ensures internalTargets == ts0 + added' && BuiltFromAll(added', cfgs[..i + 1])
    {
      ghost var before := LedgerOf();
      var t := RegisterNew(cfgs[i]);
      RegisterEachAfter(l0, before, cfgs, i);
      BuiltFromAllStep(added, [t], cfgs, i);
      AppendAssociates(ts0, added, [t]);
      added' := added + [t];
    }

    /**
     * One configuration whose id is not taken: build it, push the record
     * and push its id.
     */
    method RegisterNew(cfg: Target) returns (t: InternalTarget)
      requires Valid() && cfg.id !in idList
      modifies this`internalTargets, this`idList, this`tags, this`nextTag, this`diagnostics
      ensures Valid()
      ensures internalTargets == old(internalTargets) + [t]
      ensures LedgerOf() == RegisterOne(old(LedgerOf()), cfg)
      ensures fresh(t) && BuiltFrom(t, cfg)
    {
      t := CreateInternalTarget(cfg);
      internalTargets := internalTargets + [t];
      idList := idList + [cfg.id];
    }

    /**
     * `createInternalTarget`: the record, then the elements of an array or
     * of the selector's matches, each tagged and observed by a new
     * observer; any other `nodes` value only warns.
     */
    method CreateInternalTarget(cfg: Target) returns (t: InternalTarget)
      requires Valid()
      modifies this`tags, this`nextTag, this`diagnostics
      ensures Valid() && fresh(t)
      ensures BuiltFrom(t, cfg)
      ensures tags == TagAll(old(tags), InitialElements(cfg.nodes), old(nextTag))
      ensures nextTag == old(nextTag) + |InitialElements(cfg.nodes)|
      ensures diagnostics == old(diagnostics) + NodeWarning(cfg)
    {
      t := new InternalTarget(cfg);
      match cfg.nodes {
        case NodeArray(es) =>
          t.observedElements := es;
          CreateObserver(t);
        case Selector(_, matched) =>
          t.observedElements := matched;
          CreateObserver(t);
        case NotANodeList =>
          diagnostics := diagnostics + [InvalidNodeList(cfg.id)];
      }
    }

    /** `createObserver`: a new observer, then each element tagged and observed. */
    method CreateObserver(t: InternalTarget)
      requires Valid() && t !in internalTargets
      modifies this`tags, this`nextTag, t
      ensures Valid()
      ensures t.observedElements == old(t.observedElements)
      ensures t.observer == Some(Observer(SetOf(t.observedElements)))
      ensures tags == TagAll(old(tags), t.observedElements, old(nextTag))
      ensures nextTag == old(nextTag) + |t.observedElements|
    {
      ghost var s := t.observedElements;
      t.observer := Some(Observer({}));
      var i := 0;
      PushStart([], s, {}, tags, nextTag);
      while i < |t.observedElements|
        invariant 0 <= i <= |s| && t.observedElements == s
        invariant t.observer == Some(Observer({} + SetOf(s[..i])))
        invariant tags == TagAll(old(tags), s[..i], old(nextTag))
        invariant nextTag == old(nextTag) + i
      {
        var node := t.observedElements[i];
        ghost var before, n := tags, nextTag;
        if t.observer.Some? {
          tags := tags[node := nextTag];
          nextTag := nextTag + 1;
          t.observer := Some(t.observer.value.Observe(node));
        }
        PushStep([], s, {}, i);
        PushTagStep(before, old(tags), s, old(nextTag), i, n);
        i := i + 1;
      }
      assert s[..i] == s;
      TagAllKeepsIdentity(old(tags), s, old(nextTag));
      assert SetOf(s) == {} + SetOf(s);
    }

    /**
     * `removeTarget`: unobserve and splice at the loop index, which
     * visits every second element; only a target left empty is
     * disconnected and unregistered, and its id stays in `idList`.
     */
    method RemoveTarget(targetId: string)
      requires Valid() && ObserverAttached(targetId)
      modifies this`internalTargets, this`diagnostics, TargetsNamed(targetId)
      ensures Valid()
      ensures var k := IndexOfId(old(internalTargets), targetId);
        k < 0 ==> internalTargets == old(internalTargets) && diagnostics == old(diagnostics) + [TargetNotFound]
      ensures var k := IndexOfId(old(internalTargets), targetId);
        k >= 0 ==>
          var t := old(internalTargets)[k];
          var s0 := old(t.observedElements);
          && diagnostics == old(diagnostics)
          && t.observedElements == OddIndexed(s0)
          && (|s0| <= 1 ==> t.observer == None && internalTargets == RemoveAt(old(internalTargets), k))
          && (|s0| > 1 ==>
                && t.observer == Some(Observer(old(t.observer.value.watched) - SetOf(EvenIndexed(s0))))
                && internalTargets == old(internalTargets))
    {
      var k := IndexOfId(internalTargets, targetId);
      if k < 0 {
        diagnostics := diagnostics + [TargetNotFound];
      } else {
        var t := internalTargets[k];
        ghost var s0 := t.observedElements;
        UnobserveEach(t);
        OddIndexedMembers(s0);
        if |t.observedElements| == 0 {
          t.observer := None;
          StillValid(t);
          Unregister(k);
        } else {
          StillValid(t);
        }
      }
    }

    /**
     * A removed target's id stays in `idList`, so adding a configuration
     * with that id again throws and registers nothing.
     */
    method RemoveThenReAdd(cfg: Target) returns (outcome: Outcome)
      requires Valid() && ObserverAttached(cfg.id) && IndexOfId(internalTargets, cfg.id) >= 0
      modifies this, TargetsNamed(cfg.id)
      ensures Valid()
      ensures outcome == DuplicateId(cfg.id)
      ensures idList == old(idList)
    {
      assert cfg.id in idList;
      RemoveTarget(cfg.id);
      ghost var added;
      outcome, added := AddTarget(One(cfg));
      assert [cfg][0] == cfg;
      assert AcceptedCount(old(idList), [cfg]) == 0;
    }

    /**
     * The `forEach` of `removeTarget`: unobserve the element at the loop
     * index and splice it out, so the loop steps over every second element.
     */
    method UnobserveEach(t: InternalTarget)
      requires t.observer.Some?
      modifies t
      ensures t.observedElements == OddIndexed(old(t.observedElements))
      ensures t.observer == Some(Observer(old(t.observer.value.watched) - SetOf(EvenIndexed(old(t.observedElements)))))
    {
      ghost var s0 := t.observedElements;
      ghost var w0 := t.observer.value.watched;
      ghost var ev := EvenIndexed(s0);
      var i := 0;
      assert ev[..0] == [] && SetOf([]) == {} && w0 - {} == w0;
      while i < |t.observedElements|
        invariant Alternating(s0, t.observedElements, i)
        invariant t.observer == Some(Observer(w0 - SetOf(ev[..i])))
      {
        var node := t.observedElements[i];
        AlternatingStep(s0, t.observedElements, i);
        t.observer := Some(t.observer.value.Unobserve(node));
        t.observedElements := Splice(t.observedElements, i);
        SetOfPrefixStep(ev, i);
        assert w0 - SetOf(ev[..i]) - {node} == w0 - SetOf(ev[..i + 1]);
        i := i + 1;
      }
      AlternatingDone(s0, t.observedElements, i);
      assert ev[..i] == ev;
    }

    /** The tag, observe and push of one element into registered target `t`. */
    method PushOne(t: InternalTarget, node: Element)
      requires Valid() && t in internalTargets && t.observer.Some?
      modifies this`tags, this`nextTag, t
      ensures Valid()
      ensures tags == old(tags)[node := old(nextTag)] && nextTag == old(nextTag) + 1
      ensures t.observedElements == old(t.observedElements) + [node]
      ensures t.observer == Some(old(t.observer.value).Observe(node))
    {
      tags := tags[node := nextTag];
      nextTag := nextTag + 1;
      t.observer := Some(t.observer.value.Observe(node));
      t.observedElements := t.observedElements + [node];
    }

    /** The elements of an array, in order, pushed into registered target `t`. */
    method PushAll(t: InternalTarget, els: seq<Element>)
      requires Valid() && t in internalTargets && t.observer.Some?
      modifies this`tags, this`nextTag, t
      ensures Valid()
      ensures t.observedElements == old(t.observedElements) + els
      ensures t.observer == Some(Observer(old(t.observer.value.watched) + SetOf(els)))
      ensures tags == TagAll(old(tags), els, old(nextTag))
      ensures nextTag == old(nextTag) + |els|
    {
      ghost var s0 := t.observedElements;
      ghost var w0 := t.observer.value.watched;
      var j := 0;
      PushStart(s0, els, w0, tags, nextTag);
      while j < |els|
        invariant 0 <= j <= |els|
        invariant Valid() && t.observer.Some?
        invariant t.observedElements == s0 + els[..j]
        invariant t.observer == Some(Observer(w0 + SetOf(els[..j])))
        invariant tags == TagAll(old(tags), els[..j], old(nextTag))
        invariant nextTag == old(nextTag) + j
      {
        ghost var before, n := tags, nextTag;
        PushOne(t, els[j]);
        PushStep(s0, els, w0, j);
        PushTagStep(before, old(tags), els, old(nextTag), j, n);
        j := j + 1;
      }
      assert els[..j] == els;
    }

    /**
     * `pushToTarget`: every given element, in order, is freshly tagged,
     * observed and appended to the target registered under the id.
     */
    method PushToTarget(idObserver: string, arg: ElementsArg)
      requires Valid() && ObserverAttached(idObserver)
      modifies this`tags, this`nextTag, this`diagnostics, TargetsNamed(idObserver)
      ensures Valid()
      ensures IndexOfId(internalTargets, idObserver) < 0 ==>
        diagnostics == old(diagnostics) + [TargetNotFound] && tags == old(tags) && nextTag == old(nextTag)
      ensures var k := IndexOfId(internalTargets, idObserver);
        k >= 0 ==>
          var t := internalTargets[k];
          var els := ElementsOf(arg);
          && diagnostics == old(diagnostics)
          && t.observedElements == old(t.observedElements) + els
          && t.observer == Some(Observer(old(t.observer.value.watched) + SetOf(els)))
          && tags == TagAll(old(tags), els, old(nextTag))
          && nextTag == old(nextTag) + |els|
    {
      var k := IndexOfId(internalTargets, idObserver);
      if k < 0 {
        diagnostics := diagnostics + [TargetNotFound];
      } else {
        match arg {
          case Single(e) =>
            PushOne(internalTargets[k], e);
            assert [e][..0] == [];
            assert SetOf([e]) == {e};
            assert TagAll(old(tags), [e], old(nextTag)) == old(tags)[e := old(nextTag)];
          case Several(els) =>
            PushAll(internalTargets[k], els);
        }
      }
    }

    /**
     * Look up the first element of registered target `t` whose tag equals
     * `key`; if there is one, unobserve `node` and splice that position.
     */
    method PullByKey(t: InternalTarget, key: Option<Tag>, node: Element)
      requires Valid() && t in internalTargets
      modifies this`diagnostics, t
      ensures Valid()
      ensures var i := IndexOfTag(old(t.observedElements), tags, key);
        && (i < 0 ==>
              && diagnostics == old(diagnostics) + [ElementNotObserved]
              && t.observedElements == old(t.observedElements) && t.observer == old(t.observer))
        && (i >= 0 ==>
              && diagnostics == old(diagnostics)
              && t.observedElements == RemoveAt(old(t.observedElements), i)
              && old(t.observer).Some?
              && t.observer == Some(old(t.observer.value).Unobserve(node)))
    {
      var i := IndexOfTag(t.observedElements, tags, key);
      if i < 0 {
        diagnostics := diagnostics + [ElementNotObserved];
      } else {
        Withdraw(t, i, node);
      }
    }

    /** `unobserve(node)` on `t`'s observer, then splice position `i` of its elements. */
    method Withdraw(t: InternalTarget, i: nat, node: Element)
      requires Valid() && t in internalTargets && i < |t.observedElements|
      modifies t
      ensures Valid()
      ensures old(t.observer).Some?
      ensures t.observedElements == RemoveAt(old(t.observedElements), i)
      ensures t.observer == Some(old(t.observer.value).Unobserve(node))
    {
      assert Consistent(t, tags);
      SpliceKeepsMembers(t.observedElements, i);
      Reload(t, Splice(t.observedElements, i), Some(t.observer.value.Unobserve(node)));
    }

    /**
     * `pullFromTarget` with a single argument `w` whose `medusaId`
     * property holds `key`, whoever wrote it: the first element with that
     * tag is spliced out, but `w` itself is what gets unobserved. When `w`
     * is a distinct object carrying a copied `medusaId`, the element taken
     * out of the list stays observed.
     */
    method PullCarryingTag(idObserver: string, w: Element, key: Option<Tag>)
      requires Valid()
      modifies this`diagnostics, TargetsNamed(idObserver)
      ensures Valid()
      ensures IndexOfId(internalTargets, idObserver) < 0 ==>
        diagnostics == old(diagnostics) + [TargetNotFound]
      ensures var k := IndexOfId(internalTargets, idObserver);
        k >= 0 ==>
          var t := internalTargets[k];
          var s0 := old(t.observedElements);
          var i := IndexOfTag(s0, tags, key);
          && (i < 0 ==>
                && t.observedElements == s0 && t.observer == old(t.observer)
                && diagnostics == old(diagnostics) + [ElementNotObserved])
          && (i >= 0 ==>
                && t.observedElements == RemoveAt(s0, i)
                && t.observer == Some(old(t.observer.value).Unobserve(w))
                && diagnostics == old(diagnostics)
                && (s0[i] != w && s0[i] in old(t.observer.value.watched) ==> s0[i] in t.observer.value.watched))
    {
      var k := IndexOfId(internalTargets, idObserver);
      if k < 0 {
        diagnostics := diagnostics + [TargetNotFound];
      } else {
        PullByKey(internalTargets[k], key, w);
      }
    }

    /**
     * `pullFromTarget`: a single element is looked up by its own tag; for
     * an array the tag is read from the array, which has none, so no
     * element is ever found and each item only warns.
     */
    method PullFromTarget(idObserver: string, arg: ElementsArg)
      requires Valid()
      modifies this`diagnostics, TargetsNamed(idObserver)
      ensures Valid()
      ensures IndexOfId(internalTargets, idObserver) < 0 ==>
        diagnostics == old(diagnostics) + [TargetNotFound]
      ensures var k := IndexOfId(internalTargets, idObserver);
        k >= 0 && arg.Single? ==>
          var t := internalTargets[k];
          var i := IndexOf(old(t.observedElements), arg.element);
          && t.observedElements == RemoveFirst(old(t.observedElements), arg.element)
          && (i < 0 ==> t.observer == old(t.observer) && diagnostics == old(diagnostics) + [ElementNotObserved])
          && (i >= 0 ==> t.observer == Some(old(t.observer.value).Unobserve(arg.element)) && diagnostics == old(diagnostics))
      ensures var k := IndexOfId(internalTargets, idObserver);
        k >= 0 && arg.Several? ==>
          var t := internalTargets[k];
          && t.observedElements == old(t.observedElements) && t.observer == old(t.observer)
          && diagnostics == old(diagnostics) + Repeat(ElementNotObserved, |arg.elements|)
    {
      var k := IndexOfId(internalTargets, idObserver);
      if k < 0 {
        diagnostics := diagnostics + [TargetNotFound];
      } else {
        var t := internalTargets[k];
        match arg {
          case Several(els) =>
            PullEach(t, els);
          case Single(e) =>
            PullOne(t, e);
        }
      }
    }

    /**
     * A single element is looked up by its own `medusaId`; since every
     * observed element is tagged and tags are distinct, that finds it
     * exactly where a lookup by reference would.
     */
    method PullOne(t: InternalTarget, e: Element)
      requires Valid() && t in internalTargets
      modifies this`diagnostics, t
      ensures Valid()
      ensures var i := IndexOf(old(t.observedElements), e);
        && t.observedElements == RemoveFirst(old(t.observedElements), e)
        && (i < 0 ==> t.observer == old(t.observer) && diagnostics == old(diagnostics) + [ElementNotObserved])
        && (i >= 0 ==> t.observer == Some(old(t.observer.value).Unobserve(e)) && diagnostics == old(diagnostics))
    {
      assert Consistent(t, tags);
      TagLookupIsReferenceLookup(t.observedElements, tags, e);
      PullByKey(t, TagOf(tags, e), e);
    }

    /**
     * The array form of `pullFromTarget`: every item looks up the array's
     * own `medusaId`, which is undefined, finds nothing and warns.
     */
    method PullEach(t: InternalTarget, els: seq<Element>)
      requires Valid() && t in internalTargets
      modifies this`diagnostics, t
      ensures Valid()
      ensures t.observedElements == old(t.observedElements) && t.observer == old(t.observer)
      ensures diagnostics == old(diagnostics) + Repeat(ElementNotObserved, |els|)
    {
      ghost var s0 := t.observedElements;
      ghost var o0 := t.observer;
      var j := 0;
      while j < |els|
        invariant 0 <= j <= |els|
        invariant Valid()
        invariant t.observedElements == s0 && t.observer == o0
        invariant diagnostics == old(diagnostics) + Repeat(ElementNotObserved, j)
      {
        // `(<any>elToRemove).medusaId`: the array itself carries no tag.
        var medusaId: Option<Tag> := None;
        assert Consistent(t, tags);
        UntaggedKeyIsNotFound(t.observedElements, tags);
        PullByKey(t, medusaId, els[j]);
        j := j + 1;
      }
    }

    /**
     * The batch callback of target `t`'s observer: for each entry in
     * order, fire-once removal if it intersects, then the event, then the
     * user callback if it intersects.
     */
    method Notify(t: InternalTarget, entries: seq<Entry>)
      requires Valid() && Consistent(t, tags) && t.observer.Some?
      modifies this`internalTargets, this`effects, t
      ensures Valid()
      ensures Batch(t.observedElements, t.observer, internalTargets, effects) ==
        NotifyBatch(t, old(Batch(t.observedElements, t.observer, internalTargets, effects)), entries)
    {
      ghost var s0 := Batch(t.observedElements, t.observer, internalTargets, effects);
      var j := 0;
      assert entries[..0] == [];
      while j < |entries|
        invariant 0 <= j <= |entries|
        invariant Valid() && Consistent(t, tags)
        invariant Batch(t.observedElements, t.observer, internalTargets, effects) ==
          NotifyBatch(t, s0, entries[..j])
      {
        NotifyOne(t, entries[j]);
        assert entries[..j + 1][..j] == entries[..j];
        j := j + 1;
      }
      assert entries[..j] == entries;
    }

    /** The callback's work for one entry. */
    method NotifyOne(t: InternalTarget, entry: Entry)
      requires Valid() && Consistent(t, tags)
      modifies this`internalTargets, this`effects, t
      ensures Valid() && Consistent(t, tags)
      ensures Batch(t.observedElements, t.observer, internalTargets, effects) ==
        NotifyEntry(t, old(Batch(t.observedElements, t.observer, internalTargets, effects)), entry)
    {
      ghost var s0 := Batch(t.observedElements, t.observer, internalTargets, effects);
      if t.mode == Once && entry.isIntersecting {
        RemoveOnce(t, entry);
      }
      Emit(t, entry);
      NotifyEntryIs(t, s0, entry, Batch(t.observedElements, t.observer, internalTargets, effects));
    }

    /** The event for one entry, then the user callback if it intersects. */
    method Emit(t: InternalTarget, entry: Entry)
      modifies this`effects
      ensures effects == old(effects) + EntryEffects(t, entry)
    {
      var eventTarget := if t.emitGlobal then Window else ContainerOf(t.container);
      effects := effects + [Dispatched(eventTarget, EventName, entry)];
      if entry.isIntersecting {
        effects := effects + [CallbackInvoked(t.callback, entry)];
      }
    }

    /**
     * Fire-once removal: unobserve the entry's element and splice at its
     * position; once no element is left, release the observer and splice
     * the registry at the position of the target's id.
     */
    method RemoveOnce(t: InternalTarget, entry: Entry)
      requires Valid() && Consistent(t, tags)
      modifies this`internalTargets, t
      ensures Valid() && Consistent(t, tags)
      ensures var r := OnceRemoval(t, old(Batch(t.observedElements, t.observer, internalTargets, effects)), entry);
        && t.observedElements == r.elements && t.observer == r.observer && internalTargets == r.registry
    {
      var observer := Unobserve(t.observer, entry.target);
      var indexToRemove := IndexOf(t.observedElements, entry.target);
      var elements := Splice(t.observedElements, indexToRemove);
      SpliceKeepsMembers(t.observedElements, indexToRemove);
      if |elements| == 0 {
        Reload(t, elements, None);
        Unregister(IndexOfId(internalTargets, t.id));
      } else {
        Reload(t, elements, observer);
      }
    }

    /** `internalTargets.splice(index, 1)`. */
    method Unregister(index: int)
      requires Valid()
      modifies this`internalTargets
      ensures Valid()
      ensures internalTargets == Splice(old(internalTargets), index)
    {
      SpliceKeepsMembers(internalTargets, index);
      if SpliceIndex(|internalTargets|, index) < |internalTargets| {
        RemovalKeepsDistinctIds(internalTargets, SpliceIndex(|internalTargets|, index));
      }
      internalTargets := Splice(internalTargets, index);
    }

    /** Replace what target `t` watches by a consistent pair. */
    method Reload(t: InternalTarget, elements: seq<Element>, observer: Option<Observer>)
      requires Valid()
      requires observer.None? ==> elements == []
      requires forall x :: x in elements ==> x in tags
      modifies t
      ensures Valid() && Consistent(t, tags)
      ensures t.observedElements == elements && t.observer == observer
    {
      t.observedElements, t.observer := elements, observer;
    }
  }
}
