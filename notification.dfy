/**
 * The batch callback an observer runs (the closure built when a target's
 * observer is created), stated as a function on the parts of the state it
 * touches: the target's elements and observer, the registry, and the log of
 * dispatched events and callback runs.
 */
module Notification {
  import opened Declarations
  import opened Sequences
  import opened Registry

  /** What one callback invocation reads and writes. */
  datatype Batch = Batch(
    elements: seq<Element>,
    observer: Option<Observer>,
    registry: seq<InternalTarget>,
    effects: seq<Effect>)

  /** `observer.unobserve(e)`; a disconnected observer ignores it. */
  function Unobserve(o: Option<Observer>, e: Element): (r: Option<Observer>)
    ensures r.None? <==> o.None?
    ensures r.Some? ==> r.value.watched == o.value.watched - {e}
  {
    match o
    case None => None
    case Some(ob) => Some(ob.Unobserve(e))
  }

  /** `window` when the target emits globally, its container otherwise. */
  function EventTargetOf(t: InternalTarget): (r: EventTarget)
    ensures r == Window <==> t.emitGlobal
    ensures r != Window ==> r == ContainerOf(t.container)
  {
    if t.emitGlobal then Window else ContainerOf(t.container)
  }

  /** The event dispatched for one entry, then the user callback if it intersects. */
  function EntryEffects(t: InternalTarget, e: Entry): (r: seq<Effect>)
    ensures |r| == if e.isIntersecting then 2 else 1
    ensures r[0] == Dispatched(EventTargetOf(t), EventName, e)
    ensures |r| == 2 ==> r[1] == CallbackInvoked(t.callback, e)
  {
    [Dispatched(EventTargetOf(t), EventName, e)]
      + (if e.isIntersecting then [CallbackInvoked(t.callback, e)] else [])
  }

  /**
   * The fire-once removal for an intersecting entry: unobserve, splice at
   * the entry's position (-1 when absent, which removes the last element),
   * and, when nothing is left, disconnect and splice the target's id
   * position out of the registry (again -1 when absent).
   */
  function OnceRemoval(t: InternalTarget, s: Batch, e: Entry): (r: Batch)
    ensures r.effects == s.effects
    ensures |r.elements| == if s.elements == [] then 0 else |s.elements| - 1
    ensures e.target in s.elements ==> r.elements == RemoveAt(s.elements, IndexOf(s.elements, e.target))
    ensures r.observer.None? <==> r.elements == [] || s.observer.None?
    ensures r.observer.Some? ==> r.observer.value.watched == s.observer.value.watched - {e.target}
    ensures r.elements != [] ==> r.registry == s.registry
    ensures r.elements == [] ==> r.registry == Splice(s.registry, IndexOfId(s.registry, t.id))
  {
    var observer := Unobserve(s.observer, e.target);
    var elements := Splice(s.elements, IndexOf(s.elements, e.target));
    if elements == [] then
      Batch(elements, None, Splice(s.registry, IndexOfId(s.registry, t.id)), s.effects)
    else
      Batch(elements, observer, s.registry, s.effects)
  }

  /**
   * For an entry whose element the target does not hold, `findIndex`
   * gives -1 and the splice drops the target's last element.
   */
  lemma OnceRemovalOfUnheldDropsLast(t: InternalTarget, s: Batch, e: Entry)
    requires e.target !in s.elements && s.elements != []
    ensures OnceRemoval(t, s, e).elements == s.elements[..|s.elements| - 1]
  {
    assert Splice(s.elements, -1) == s.elements[..|s.elements| - 1];
  }

  /** The callback's work for one entry. */
  function NotifyEntry(t: InternalTarget, s: Batch, e: Entry): (r: Batch)
    ensures r.effects == s.effects + EntryEffects(t, e)
    ensures t.mode != Once || !e.isIntersecting ==>
      r.elements == s.elements && r.observer == s.observer && r.registry == s.registry
  {
    var s' := if t.mode == Once && e.isIntersecting then OnceRemoval(t, s, e) else s;
    s'.(effects := s'.effects + EntryEffects(t, e))
  }

  /** A state that matches `NotifyEntry` part by part is its result. */
  lemma NotifyEntryIs(t: InternalTarget, s: Batch, e: Entry, r: Batch)
    requires var s' := if t.mode == Once && e.isIntersecting then OnceRemoval(t, s, e) else s;
      && r.elements == s'.elements && r.observer == s'.observer && r.registry == s'.registry
      && r.effects == s.effects + EntryEffects(t, e)
    ensures r == NotifyEntry(t, s, e)
  {
  }

  /** The callback's work for a batch, entry by entry in delivery order. */
  function NotifyBatch(t: InternalTarget, s: Batch, es: seq<Entry>): (r: Batch)
    ensures |r.elements| <= |s.elements| && |r.registry| <= |s.registry|
    ensures s.effects <= r.effects
    ensures r.observer.Some? ==> s.observer.Some?
  {
    if es == [] then s
    else NotifyEntry(t, NotifyBatch(t, s, es[..|es| - 1]), es[|es| - 1])
  }

  /** The effects of a batch, entry by entry. */
  function BatchEffects(t: InternalTarget, es: seq<Entry>): seq<Effect> {
    if es == [] then []
    else BatchEffects(t, es[..|es| - 1]) + EntryEffects(t, es[|es| - 1])
  }

  /** The entries carried by dispatched events, in order. */
  function DispatchedEntries(fs: seq<Effect>): seq<Entry> {
    if fs == [] then []
    else
      var last := fs[|fs| - 1];
      DispatchedEntries(fs[..|fs| - 1]) + (if last.Dispatched? then [last.detail] else [])
  }

  /** The entries the user callback ran for, in order. */
  function InvokedEntries(fs: seq<Effect>): seq<Entry> {
    if fs == [] then []
    else
      var last := fs[|fs| - 1];
      InvokedEntries(fs[..|fs| - 1]) + (if last.CallbackInvoked? then [last.entry] else [])
  }

  /** The intersecting entries of a batch, in order. */
  function IntersectingEntries(es: seq<Entry>): seq<Entry> {
    if es == [] then []
    else
      var last := es[|es| - 1];
      IntersectingEntries(es[..|es| - 1]) + (if last.isIntersecting then [last] else [])
  }

  lemma DispatchedEntriesConcat(a: seq<Effect>, b: seq<Effect>)
    ensures DispatchedEntries(a + b) == DispatchedEntries(a) + DispatchedEntries(b)
    ensures InvokedEntries(a + b) == InvokedEntries(a) + InvokedEntries(b)
    decreases |b|
  {
    if b != [] {
      assert (a + b)[..|a + b| - 1] == a + b[..|b| - 1];
      DispatchedEntriesConcat(a, b[..|b| - 1]);
    } else {
      assert a + b == a;
    }
  }

  /** Whatever the mode, the batch appends exactly its entries' effects to the log. */
  lemma {:induction false} NotifyBatchEffects(t: InternalTarget, s: Batch, es: seq<Entry>)
    ensures NotifyBatch(t, s, es).effects == s.effects + BatchEffects(t, es)
  {
    if es != [] {
      NotifyBatchEffects(t, s, es[..|es| - 1]);
    }
  }

  /** The log entries of one notification entry. */
  lemma EntryEffectsShape(t: InternalTarget, e: Entry)
    ensures DispatchedEntries(EntryEffects(t, e)) == [e]
    ensures InvokedEntries(EntryEffects(t, e)) == if e.isIntersecting then [e] else []
  {
    var d := Dispatched(EventTargetOf(t), EventName, e);
    assert DispatchedEntries([d]) == [e] by {
      assert [d][..0] == [];
    }
    assert InvokedEntries([d]) == [] by {
      assert [d][..0] == [];
    }
    if e.isIntersecting {
      var c := CallbackInvoked(t.callback, e);
      assert [d, c][..1] == [d];
      assert EntryEffects(t, e) == [d, c];
    } else {
      assert EntryEffects(t, e) == [d];
    }
  }

  /** One event per entry, in delivery order. */
  lemma {:induction false} BatchEffectsAreEvents(t: InternalTarget, es: seq<Entry>)
    ensures DispatchedEntries(BatchEffects(t, es)) == es
  {
    if es != [] {
      var init := es[..|es| - 1];
      var e := es[|es| - 1];
      var before := BatchEffects(t, init);
      var now := EntryEffects(t, e);
      BatchEffectsAreEvents(t, init);
      assert BatchEffects(t, es) == before + now;
      DispatchedEntriesConcat(before, now);
      EntryEffectsShape(t, e);
      FrontAndLast(es);
    }
  }

  /** The user callback runs for the intersecting entries only, in order. */
  lemma {:induction false} BatchEffectsRunCallbacks(t: InternalTarget, es: seq<Entry>)
    ensures InvokedEntries(BatchEffects(t, es)) == IntersectingEntries(es)
  {
    if es != [] {
      var init := es[..|es| - 1];
      var e := es[|es| - 1];
      var before := BatchEffects(t, init);
      var now := EntryEffects(t, e);
      BatchEffectsRunCallbacks(t, init);
      assert BatchEffects(t, es) == before + now;
      DispatchedEntriesConcat(before, now);
      EntryEffectsShape(t, e);
    }
  }

  /**
   * Every event of a batch carries the event name and one of the batch's
   * entries as detail, and goes to the window or the target's container;
   * every callback run is the target's callback on an intersecting entry
   * of the batch.
   */
  lemma {:induction false} BatchEffectsCarryTarget(t: InternalTarget, es: seq<Entry>)
    ensures forall f :: f in BatchEffects(t, es) && f.Dispatched? ==>
      f == Dispatched(EventTargetOf(t), EventName, f.detail) && f.detail in es
    ensures forall f :: f in BatchEffects(t, es) && f.CallbackInvoked? ==>
      f.callback == t.callback && f.entry.isIntersecting && f.entry in es
  {
    if es != [] {
      BatchEffectsCarryTarget(t, es[..|es| - 1]);
    }
  }

  /**
   * The event does not name its target: two targets that both emit on the
   * window dispatch the same event for the same entry, whatever their ids.
   */
  lemma GlobalEventsDoNotNameTheTarget(t: InternalTarget, u: InternalTarget, e: Entry)
    requires t.emitGlobal && u.emitGlobal && t.id != u.id
    ensures EntryEffects(t, e)[0] == EntryEffects(u, e)[0]
  {
  }

  /** Outside fire-once mode the callback never touches elements, observer or registry. */
  lemma {:induction false} ContinuousModeKeepsState(t: InternalTarget, s: Batch, es: seq<Entry>)
    requires t.mode != Once
    ensures var r := NotifyBatch(t, s, es);
      r.elements == s.elements && r.observer == s.observer && r.registry == s.registry
  {
    if es != [] {
      ContinuousModeKeepsState(t, s, es[..|es| - 1]);
    }
  }

  /** The elements of `s` that are not in `X`, in order. */
  function Without(s: seq<Element>, X: set<Element>): (r: seq<Element>)
    ensures forall x :: x in r <==> x in s && x !in X
  {
    if s == [] then []
    else (if s[0] in X then [] else [s[0]]) + Without(s[1..], X)
  }

  /** The elements reported as intersecting in a batch. */
  function IntersectingTargets(es: seq<Entry>): set<Element> {
    set i | 0 <= i < |es| && es[i].isIntersecting :: es[i].target
  }

  lemma WithoutNoDuplicates(s: seq<Element>, X: set<Element>)
    requires NoDuplicates(s)
    ensures NoDuplicates(Without(s, X))
  {
    if s != [] {
      WithoutNoDuplicates(s[1..], X);
    }
  }

  lemma WithoutIgnoresAbsent(s: seq<Element>, X: set<Element>, x: Element)
    requires x !in s
    ensures Without(s, X + {x}) == Without(s, X)
  {
    if s != [] {
      WithoutIgnoresAbsent(s[1..], X, x);
    }
  }

  /** The tail of a sequence without duplicates has none, and lacks the head. */
  lemma NoDuplicatesTail(s: seq<Element>)
    requires NoDuplicates(s) && s != []
    ensures NoDuplicates(s[1..]) && s[0] !in s[1..]
  {
    var tail := s[1..];
    forall j | 0 <= j < |tail| ensures tail[j] != s[0] {
      assert tail[j] == s[j + 1];
    }
    forall i, j | 0 <= i < j < |tail| ensures tail[i] != tail[j] {
      assert tail[i] == s[i + 1] && tail[j] == s[j + 1];
    }
  }

  /** Splicing out a present element of `Without(s, X)` is filtering it out too. */
  lemma {:induction false} RemoveFromWithout(s: seq<Element>, X: set<Element>, x: Element)
    requires NoDuplicates(s) && x in s && x !in X
    ensures var w := Without(s, X);
      IndexOf(w, x) >= 0 && RemoveAt(w, IndexOf(w, x)) == Without(s, X + {x})
  {
    NoDuplicatesTail(s);
    if s[0] == x {
      RemoveHeadFromWithout(s, X);
    } else {
      RemoveFromWithout(s[1..], X, x);
      RemoveLaterFromWithout(s, X, x);
    }
  }

  lemma RemoveHeadFromWithout(s: seq<Element>, X: set<Element>)
    requires s != [] && s[0] !in s[1..] && s[0] !in X
    ensures var w := Without(s, X);
      IndexOf(w, s[0]) == 0 && RemoveAt(w, 0) == Without(s, X + {s[0]})
  {
    var w' := Without(s[1..], X);
    WithoutIgnoresAbsent(s[1..], X, s[0]);
    assert Without(s, X) == [s[0]] + w';
    assert RemoveAt([s[0]] + w', 0) == w';
  }

  lemma RemoveLaterFromWithout(s: seq<Element>, X: set<Element>, x: Element)
    requires s != [] && s[0] != x && x !in X
    requires var w' := Without(s[1..], X);
      IndexOf(w', x) >= 0 && RemoveAt(w', IndexOf(w', x)) == Without(s[1..], X + {x})
    ensures var w := Without(s, X);
      IndexOf(w, x) >= 0 && RemoveAt(w, IndexOf(w, x)) == Without(s, X + {x})
  {
    var w' := Without(s[1..], X);
    var i := IndexOf(w', x);
    assert s[0] in X + {x} <==> s[0] in X;
    assert Without(s, X + {x}) == (if s[0] in X then [] else [s[0]]) + Without(s[1..], X + {x});
    if s[0] !in X {
      var w := [s[0]] + w';
      assert Without(s, X) == w;
      assert w[1..] == w';
      assert IndexOf(w, x) == i + 1;
      RemoveAtBehindHead(s[0], w', i);
    } else {
      assert Without(s, X) == w';
    }
  }

  /** The state a fire-once batch ends in, given the elements it removed. */
  ghost predicate OnceOutcome(t: InternalTarget, s: Batch, X: set<Element>, r: Batch) {
    && r.elements == Without(s.elements, X)
    && var collapsed := s.elements != [] && r.elements == [];
    && r.observer == (if collapsed then None
                      else match s.observer
                        case None => None
                        case Some(o) => Some(Observer(o.watched - X)))
    && r.registry == (if collapsed then Splice(s.registry, IndexOfId(s.registry, t.id)) else s.registry)
  }

  /**
   * Fire-once mode, for a batch whose intersecting entries report distinct
   * elements the target observes: exactly those elements are unobserved
   * and removed, the others keep their order, and the target's observer is
   * released and its registry entry (found by id) spliced out exactly when
   * no element is left.
   */
  lemma {:induction false} OnceRemovesIntersecting(t: InternalTarget, s: Batch, es: seq<Entry>)
    requires t.mode == Once
    requires NoDuplicates(s.elements)
    requires forall i :: 0 <= i < |es| && es[i].isIntersecting ==> es[i].target in s.elements
    requires forall i, j :: 0 <= i < j < |es| && es[i].isIntersecting && es[j].isIntersecting ==>
      es[i].target != es[j].target
    ensures OnceOutcome(t, s, IntersectingTargets(es), NotifyBatch(t, s, es))
  {
    if es == [] {
      assert IntersectingTargets(es) == {};
      WithoutAll(s.elements);
      match s.observer {
        case None =>
        case Some(o) => assert o.watched - {} == o.watched;
      }
    } else {
      var init := es[..|es| - 1];
      var e := es[|es| - 1];
      OnceRemovesIntersecting(t, s, init);
      var X := IntersectingTargets(init);
      var b := NotifyBatch(t, s, init);
      IntersectingTargetsSnoc(es);
      if e.isIntersecting {
        OnceStepIntersecting(t, s, X, b, e);
        OnceOutcomeSameSet(t, s, X + {e.target}, IntersectingTargets(es), NotifyEntry(t, b, e));
      } else {
        OnceStepQuiet(t, s, X, b, e);
        OnceOutcomeSameSet(t, s, X, IntersectingTargets(es), NotifyEntry(t, b, e));
      }
    }
  }

  /** A fire-once entry for an element still held removes it and nothing else. */
  lemma OnceStepIntersecting(t: InternalTarget, s: Batch, X: set<Element>, b: Batch, e: Entry)
    requires t.mode == Once && e.isIntersecting
    requires NoDuplicates(s.elements) && e.target in s.elements && e.target !in X
    requires OnceOutcome(t, s, X, b)
    ensures OnceOutcome(t, s, X + {e.target}, NotifyEntry(t, b, e))
  {
    var X' := X + {e.target};
    RemoveFromWithout(s.elements, X, e.target);
    var r := OnceRemoval(t, b, e);
    assert r.elements == Without(s.elements, X');
    if r.elements != [] {
      match s.observer {
        case None =>
        case Some(o) =>
          assert o.watched - X - {e.target} == o.watched - X';
      }
    }
  }

  /** An entry that does not intersect changes nothing but the log. */
  lemma OnceStepQuiet(t: InternalTarget, s: Batch, X: set<Element>, b: Batch, e: Entry)
    requires !e.isIntersecting
    requires OnceOutcome(t, s, X, b)
    ensures OnceOutcome(t, s, X, NotifyEntry(t, b, e))
  {
  }

  /** A proof step: the outcome for a set written two ways. */
  lemma OnceOutcomeSameSet(t: InternalTarget, s: Batch, X: set<Element>, Y: set<Element>, r: Batch)
    requires X == Y && OnceOutcome(t, s, X, r)
    ensures OnceOutcome(t, s, Y, r)
  {
  }

  /** The intersecting targets of a batch, one entry at a time. */
  lemma IntersectingTargetsSnoc(es: seq<Entry>)
    requires es != []
    ensures var e := es[|es| - 1];
      IntersectingTargets(es) ==
        IntersectingTargets(es[..|es| - 1]) + (if e.isIntersecting then {e.target} else {})
  {
    var init := es[..|es| - 1];
    forall x | x in IntersectingTargets(es)
      ensures x in IntersectingTargets(init) || (es[|es| - 1].isIntersecting && x == es[|es| - 1].target)
    {
      var i :| 0 <= i < |es| && es[i].isIntersecting && es[i].target == x;
      if i < |init| { assert init[i] == es[i]; }
    }
    forall x | x in IntersectingTargets(init) ensures x in IntersectingTargets(es) {
      var i :| 0 <= i < |init| && init[i].isIntersecting && init[i].target == x;
      assert es[i] == init[i];
    }
  }

  /** A proof step: filtering nothing out keeps the sequence. */
  lemma WithoutAll(s: seq<Element>)
    ensures Without(s, {}) == s
  {
  }

  /**
   * Two intersecting entries for one element in a fire-once batch: the
   * second finds no position (-1) and splices out the target's last
   * element, which was never reported and stays observed.
   */
  lemma DuplicateEntryDropsUnreportedElement(t: InternalTarget, a: Element, b: Element, c: Element, r: seq<InternalTarget>)
    requires t.mode == Once && a != b && b != c && a != c
    ensures var s := Batch([a, b, c], Some(Observer({a, b, c})), r, []);
      var out := NotifyBatch(t, s, [Entry(a, true), Entry(a, true)]);
      out.elements == [b] && out.observer == Some(Observer({b, c})) && out.registry == r
  {
    var s := Batch([a, b, c], Some(Observer({a, b, c})), r, []);
    var es := [Entry(a, true), Entry(a, true)];
    assert es[..1] == [Entry(a, true)];
    var one := [Entry(a, true)];
    assert one[..0] == [];
    assert NotifyBatch(t, s, one[..0]) == s;
    var s1 := NotifyBatch(t, s, one);
    assert s1 == NotifyEntry(t, s, Entry(a, true));
    assert IndexOf([a, b, c], a) == 0;
    assert Splice([a, b, c], 0) == [b, c];
    assert {a, b, c} - {a} == {b, c};
    assert s1.elements == [b, c];
    assert s1.observer == Some(Observer({b, c}));
    assert NotifyBatch(t, s, es) == NotifyEntry(t, s1, Entry(a, true));
    assert IndexOf([b, c], a) == -1;
    assert Splice([b, c], -1) == [b];
    assert {b, c} - {a} == {b, c};
  }

  /**
   * An element the target holds twice, reported once in a fire-once batch:
   * the splice takes out one copy, but the observer stops watching the
   * element altogether, so the copy left behind is no longer observed.
   */
  lemma RepeatedElementSplicedOnce(t: InternalTarget, a: Element, r: seq<InternalTarget>)
    requires t.mode == Once
    ensures var s := Batch([a, a], Some(Observer({a})), r, []);
      var out := NotifyBatch(t, s, [Entry(a, true)]);
      out.elements == [a] && out.observer == Some(Observer({})) && out.registry == r
  {
    var s := Batch([a, a], Some(Observer({a})), r, []);
    var es := [Entry(a, true)];
    assert es[..0] == [];
    assert NotifyBatch(t, s, es[..0]) == s;
    assert NotifyBatch(t, s, es) == NotifyEntry(t, s, Entry(a, true));
    assert IndexOf([a, a], a) == 0;
    assert Splice([a, a], 0) == [a];
    assert {a} - {a} == {};
  }

  /**
   * A later entry for a target that already collapsed: its id is no longer
   * registered, the registry position is -1, and the splice removes the
   * registry's last target, although that target received no entry.
   */
  lemma LateEntryRemovesAnotherTarget(t: InternalTarget, u: InternalTarget, a: Element)
    requires t.mode == Once && t.id != u.id
    ensures var s := Batch([a], Some(Observer({a})), [t, u], []);
      var out := NotifyBatch(t, s, [Entry(a, true), Entry(a, true)]);
      out.elements == [] && out.observer == None && out.registry == []
  {
    var s := Batch([a], Some(Observer({a})), [t, u], []);
    var es := [Entry(a, true), Entry(a, true)];
    assert es[..1] == [Entry(a, true)];
    var one := [Entry(a, true)];
    assert one[..0] == [];
    assert NotifyBatch(t, s, one[..0]) == s;
    var s1 := NotifyBatch(t, s, one);
    assert s1 == NotifyEntry(t, s, Entry(a, true));
    assert IndexOf([a], a) == 0;
    assert Splice([a], 0) == [];
    assert IndexOfId([t, u], t.id) == 0;
    assert Splice([t, u], 0) == [u];
    assert s1.registry == [u];
    assert NotifyBatch(t, s, es) == NotifyEntry(t, s1, Entry(a, true));
    assert IndexOfId([u], t.id) == -1;
    assert Splice([u], -1) == [];
  }
}
