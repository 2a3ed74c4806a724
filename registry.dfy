/**
 * The registry side of `addTarget`: lookup of a target by id, and which
 * items of an array argument are registered before the first id that is
 * already taken makes the call throw.
 */
module Registry {
  import opened Declarations
  import opened Sequences
  import opened Identity

  /** `internalTargets.findIndex(t => t.id === id)`. */
  function IndexOfId(ts: seq<InternalTarget>, id: string): (r: int)
    ensures -1 <= r < |ts|
    ensures r >= 0 ==> ts[r].id == id && forall j :: 0 <= j < r ==> ts[j].id != id
    ensures r < 0 <==> forall j :: 0 <= j < |ts| ==> ts[j].id != id
  {
    if |ts| == 0 then -1
    else if ts[0].id == id then 0
    else
      var r := IndexOfId(ts[1..], id);
      if r < 0 then -1 else r + 1
  }

  /** No two registered targets share an id. */
  ghost predicate DistinctIds(ts: seq<InternalTarget>) {
    forall i, j :: 0 <= i < j < |ts| ==> ts[i].id != ts[j].id
  }

  /** In a registry with distinct ids, a registered target is found at its own position. */
  lemma IndexOfIdFindsItself(ts: seq<InternalTarget>, k: nat)
    requires k < |ts| && DistinctIds(ts)
    ensures IndexOfId(ts, ts[k].id) == k
  {
  }

  /** Taking one target out of a registry keeps its ids distinct. */
  lemma RemovalKeepsDistinctIds(ts: seq<InternalTarget>, k: nat)
    requires k < |ts| && DistinctIds(ts)
    ensures DistinctIds(RemoveAt(ts, k))
    ensures forall t :: t in RemoveAt(ts, k) ==> t in ts
  {
    SpliceKeepsMembers(ts, k);
  }

  /** The ids of a sequence of configurations. */
  function IdsOf(cfgs: seq<Target>): seq<string> {
    seq(|cfgs|, k requires 0 <= k < |cfgs| => cfgs[k].id)
  }

  /**
   * The elements a configuration starts with: the array itself, the
   * elements its selector matched, or none.
   */
  function InitialElements(nodes: NodeSource): (r: seq<Element>)
    ensures nodes.NodeArray? ==> r == nodes.elements
    ensures nodes.Selector? ==> r == nodes.matched
    ensures nodes.NotANodeList? ==> r == []
  {
    match nodes
    case NodeArray(es) => es
    case Selector(_, matched) => matched
    case NotANodeList => []
  }

  /** The initial elements of several configurations, in order. */
  function AllInitialElements(cfgs: seq<Target>): seq<Element> {
    if cfgs == [] then []
    else AllInitialElements(cfgs[..|cfgs| - 1]) + InitialElements(cfgs[|cfgs| - 1].nodes)
  }

  /** The warnings building a configuration produces. */
  function NodeWarning(cfg: Target): (r: seq<Diagnostic>)
    ensures |r| <= 1
    ensures r != [] <==> cfg.nodes.NotANodeList?
    ensures forall d :: d in r ==> d == InvalidNodeList(cfg.id)
  {
    if cfg.nodes.NotANodeList? then [InvalidNodeList(cfg.id)] else []
  }

  /** The warnings building several configurations produces, in order. */
  function NodeWarnings(cfgs: seq<Target>): seq<Diagnostic> {
    if cfgs == [] then []
    else NodeWarnings(cfgs[..|cfgs| - 1]) + NodeWarning(cfgs[|cfgs| - 1])
  }

  /**
   * How many items of an array argument `addTarget` registers, starting
   * from the id list `ids`: each item is checked against the list as the
   * earlier items extended it, and the first taken id stops the loop.
   */
  function AcceptedCount(ids: seq<string>, cfgs: seq<Target>): (p: nat)
    ensures p <= |cfgs|
    decreases cfgs
  {
    if cfgs == [] || cfgs[0].id in ids then 0
    else 1 + AcceptedCount(ids + [cfgs[0].id], cfgs[1..])
  }

  /**
   * The registered items are exactly those before the first item whose id
   * is already in the id list as extended by its predecessors.
   */
  lemma {:induction false} AcceptedCountIsFirstDuplicate(ids: seq<string>, cfgs: seq<Target>)
    ensures var p := AcceptedCount(ids, cfgs);
      && (forall k :: 0 <= k < p ==> cfgs[k].id !in ids + IdsOf(cfgs[..k]))
      && (p < |cfgs| ==> cfgs[p].id in ids + IdsOf(cfgs[..p]))
    decreases cfgs
  {
    if cfgs != [] && cfgs[0].id !in ids {
      var ids' := ids + [cfgs[0].id];
      var rest := cfgs[1..];
      AcceptedCountIsFirstDuplicate(ids', rest);
      var p := AcceptedCount(ids, cfgs);
      forall k | 0 < k <= p && k < |cfgs|
        ensures ids + IdsOf(cfgs[..k]) == ids' + IdsOf(rest[..k - 1])
      {
        IdsOfPrefixAfterHead(cfgs, k);
      }
    }
  }

  /** The ids of a non-empty prefix: the head's, then those of the tail's prefix. */
  lemma IdsOfPrefixAfterHead(cfgs: seq<Target>, k: nat)
    requires 0 < k <= |cfgs|
    ensures IdsOf(cfgs[..k]) == [cfgs[0].id] + IdsOf(cfgs[1..][..k - 1])
  {
  }

  /** The ids registered by one array call never repeat, nor repeat old ones. */
  lemma AcceptedIdsStayDistinct(ids: seq<string>, cfgs: seq<Target>)
    requires NoDuplicates(ids)
    ensures NoDuplicates(ids + IdsOf(cfgs[..AcceptedCount(ids, cfgs)]))
  {
    AcceptedCountIsFirstDuplicate(ids, cfgs);
    var p := AcceptedCount(ids, cfgs);
    var all := ids + IdsOf(cfgs[..p]);
    forall i, j | 0 <= i < j < |all| ensures all[i] != all[j] {
      if j >= |ids| {
        var k := j - |ids|;
        assert all[j] == cfgs[k].id;
        assert all[i] in ids + IdsOf(cfgs[..k]) by {
          if i >= |ids| { assert all[i] == IdsOf(cfgs[..k])[i - |ids|]; }
          else { assert all[i] == ids[i]; }
        }
      }
    }
  }

  /** One more step of the `addTarget` loop, seen from `AcceptedCount`. */
  lemma AcceptedCountStep(ids: seq<string>, cfgs: seq<Target>, i: nat)
    requires i < |cfgs|
    ensures AcceptedCount(ids, cfgs[i..]) ==
      if cfgs[i].id in ids then 0 else 1 + AcceptedCount(ids + [cfgs[i].id], cfgs[i + 1..])
  {
    assert cfgs[i..][1..] == cfgs[i + 1..];
  }

  /** The parts of the manager's state that registering configurations appends to. */
  datatype Ledger = Ledger(ids: seq<string>, tags: map<Element, Tag>, next: Tag, warnings: seq<Diagnostic>)

  /**
   * Registering one configuration: its id is accepted, its initial
   * elements are tagged in order, and its warning, if any, is logged.
   */
  function RegisterOne(l: Ledger, cfg: Target): (r: Ledger)
    ensures r.ids == l.ids + [cfg.id]
    ensures l.warnings <= r.warnings && |r.warnings| <= |l.warnings| + 1
    ensures r.next == l.next + |InitialElements(cfg.nodes)|
  {
    var es := InitialElements(cfg.nodes);
    Ledger(l.ids + [cfg.id], TagAll(l.tags, es, l.next), l.next + |es|, l.warnings + NodeWarning(cfg))
  }

  /** Registering configurations one after the other. */
  function RegisterEach(l: Ledger, cfgs: seq<Target>): (r: Ledger)
    ensures |r.ids| == |l.ids| + |cfgs| && l.ids <= r.ids
    ensures l.warnings <= r.warnings && r.next >= l.next
  {
    if cfgs == [] then l else RegisterOne(RegisterEach(l, cfgs[..|cfgs| - 1]), cfgs[|cfgs| - 1])
  }

  /**
   * Registering one configuration keeps `idList` free of duplicates when
   * its id is new, and keeps tags below the counter and distinct.
   */
  lemma RegisterOneKeepsIdentity(l: Ledger, cfg: Target)
    requires FreshFrom(l.tags, l.next) && Injective(l.tags)
    ensures var r := RegisterOne(l, cfg);
      && FreshFrom(r.tags, r.next) && Injective(r.tags)
      && (NoDuplicates(l.ids) && cfg.id !in l.ids ==> NoDuplicates(r.ids))
  {
    TagAllKeepsIdentity(l.tags, InitialElements(cfg.nodes), l.next);
  }

  /** Registering configurations one after the other keeps tags below the counter and distinct. */
  lemma {:induction false} RegisterEachKeepsIdentity(l: Ledger, cfgs: seq<Target>)
    requires FreshFrom(l.tags, l.next) && Injective(l.tags)
    ensures var r := RegisterEach(l, cfgs);
      FreshFrom(r.tags, r.next) && Injective(r.tags)
  {
    if cfgs != [] {
      RegisterEachKeepsIdentity(l, cfgs[..|cfgs| - 1]);
      RegisterOneKeepsIdentity(RegisterEach(l, cfgs[..|cfgs| - 1]), cfgs[|cfgs| - 1]);
    }
  }

  /** One more step of `RegisterEach` over a prefix. */
  lemma RegisterEachStep(l: Ledger, cfgs: seq<Target>, i: nat)
    requires i < |cfgs|
    ensures RegisterEach(l, cfgs[..i + 1]) == RegisterOne(RegisterEach(l, cfgs[..i]), cfgs[i])
  {
    assert cfgs[..i + 1][..i] == cfgs[..i];
  }

  /** Registering `cfgs[i]` after the first `i` configurations. */
  lemma RegisterEachAfter(l: Ledger, before: Ledger, cfgs: seq<Target>, i: nat)
    requires i < |cfgs| && before == RegisterEach(l, cfgs[..i])
    ensures RegisterOne(before, cfgs[i]) == RegisterEach(l, cfgs[..i + 1])
  {
    RegisterEachStep(l, cfgs, i);
  }

  /** The ids of a non-empty sequence: those of its front, then the last one's. */
  lemma IdsOfSnoc(cfgs: seq<Target>)
    requires cfgs != []
    ensures IdsOf(cfgs) == IdsOf(cfgs[..|cfgs| - 1]) + [cfgs[|cfgs| - 1].id]
  {
  }

  /** Registering several configurations appends their ids and warnings in order. */
  lemma {:induction false} RegisterEachLogs(l: Ledger, cfgs: seq<Target>)
    ensures RegisterEach(l, cfgs).ids == l.ids + IdsOf(cfgs)
    ensures RegisterEach(l, cfgs).warnings == l.warnings + NodeWarnings(cfgs)
  {
    if cfgs == [] {
      assert l.ids + IdsOf(cfgs) == l.ids;
      assert l.warnings + NodeWarnings(cfgs) == l.warnings;
    } else {
      var init := cfgs[..|cfgs| - 1];
      var cfg := cfgs[|cfgs| - 1];
      var before := RegisterEach(l, init);
      RegisterEachLogs(l, init);
      assert RegisterEach(l, cfgs).ids == before.ids + [cfg.id];
      assert RegisterEach(l, cfgs).warnings == before.warnings + NodeWarning(cfg);
      IdsOfSnoc(cfgs);
      AppendAssociates(l.ids, IdsOf(init), [cfg.id]);
      AppendAssociates(l.warnings, NodeWarnings(init), NodeWarning(cfg));
    }
  }

  /** `TagAllConcat`, for a map already known to be the first tagging. */
  lemma TagAllAfter(m: map<Element, Tag>, base: map<Element, Tag>, a: seq<Element>, b: seq<Element>, next: Tag, n: Tag)
    requires m == TagAll(base, a, next) && n == next + |a|
    ensures TagAll(m, b, n) == TagAll(base, a + b, next)
  {
    TagAllConcat(base, a, b, next);
  }

  /** Registering configurations from the empty ledger leaves exactly their ids. */
  lemma RegisterFromEmpty(cfgs: seq<Target>, r: Ledger)
    requires r == RegisterEach(Ledger([], map[], 0, []), cfgs)
    ensures r.ids == IdsOf(cfgs)
  {
    RegisterEachLogs(Ledger([], map[], 0, []), cfgs);
    assert [] + IdsOf(cfgs) == IdsOf(cfgs);
  }

  /** Registering several configurations tags all their initial elements as one sequence. */
  lemma {:induction false} RegisterEachTags(l: Ledger, cfgs: seq<Target>)
    ensures RegisterEach(l, cfgs).tags == TagAll(l.tags, AllInitialElements(cfgs), l.next)
    ensures RegisterEach(l, cfgs).next == l.next + |AllInitialElements(cfgs)|
  {
    if cfgs != [] {
      var init := cfgs[..|cfgs| - 1];
      var cfg := cfgs[|cfgs| - 1];
      var es := InitialElements(cfg.nodes);
      var before := RegisterEach(l, init);
      var after := RegisterEach(l, cfgs);
      RegisterEachTags(l, init);
      assert after.tags == TagAll(before.tags, es, before.next) && after.next == before.next + |es|;
      assert AllInitialElements(cfgs) == AllInitialElements(init) + es;
      TagAllAfter(before.tags, l.tags, AllInitialElements(init), es, l.next, before.next);
    }
  }
}
