/**
 * The records the manager works on: target configurations, the internal
 * target record, observer handles, notification entries and the effects
 * (events, callback runs, warnings) the manager produces.
 */
module Declarations {

  datatype Option<T> = None | Some(value: T)

  /** A reference to a DOM element (also used for a target's container). */
  type Element = nat

  /** The value of an element's `medusaId` property. */
  type Tag = nat

  datatype Mode = Default | Once | ByPixels

  /**
   * The `threshold` an observer is configured with: either the value of
   * `thresholdsByPixels()` (kept opaque) or the ratios the caller gave.
   */
  datatype Threshold = PixelSteps | Ratios(ratios: seq<real>)

  /** Observer options; `root` is always `null` and is not represented. */
  datatype ObserverOptions = ObserverOptions(rootMargin: string, threshold: Threshold)

  /**
   * The `nodes` of a target configuration: an array of elements, a selector
   * string together with the elements the container's `querySelectorAll`
   * returns for it, or anything else.
   */
  datatype NodeSource =
    | NodeArray(elements: seq<Element>)
    | Selector(selector: string, matched: seq<Element>)
    | NotANodeList

  /** The user callback, identified by name. */
  datatype Callback = Callback(name: string)

  /** One configuration object accepted by `addTarget`. */
  datatype Target = Target(
    id: string,
    container: Element,
    nodes: NodeSource,
    threshold: seq<real>,
    offsets: string,
    emitGlobal: bool,
    callback: Callback,
    mode: Mode)

  /** The argument of `addTarget`: an array, one object, or a non-object. */
  datatype TargetsArg = Many(items: seq<Target>) | One(item: Target) | NotAnObject

  /** The element argument of `pushToTarget` and `pullFromTarget`. */
  datatype ElementsArg = Single(element: Element) | Several(elements: seq<Element>)

  /** An `IntersectionObserverEntry`, reduced to its target and state. */
  datatype Entry = Entry(target: Element, isIntersecting: bool)

  /** A live `IntersectionObserver`: the set of elements it observes. */
  datatype Observer = Observer(watched: set<Element>) {
    function Observe(e: Element): (o: Observer)
      ensures o.watched == watched + {e}
    {
      Observer(watched + {e})
    }

    function Unobserve(e: Element): (o: Observer)
      ensures o.watched == watched - {e}
    {
      Observer(watched - {e})
    }
  }

  datatype EventTarget = Window | ContainerOf(container: Element)

  /**
   * What the manager hands to the outside world, in order. An event is
   * what a listener receives: `new CustomEvent(name, init)` keeps only the
   * `detail` member of `init`, so the `id` and `isIn` members the manager
   * also passes are not part of the dispatched event.
   */
  datatype Effect =
    | Dispatched(to: EventTarget, name: string, detail: Entry)
    | CallbackInvoked(callback: Callback, entry: Entry)

  /** The `console.warn` diagnostics. */
  datatype Diagnostic =
    | TargetsIncorrect
    | TargetNotFound
    | ElementNotObserved
    | InvalidNodeList(id: string)

  /** How an `addTarget` call ends: normally, or by throwing on an id. */
  datatype Outcome = Completed | DuplicateId(id: string)

  /** The event name as the source spells it. */
  const EventName: string := "intesectionTriggered"

  /** The set of elements of a sequence. */
  function SetOf(s: seq<Element>): (r: set<Element>)
    ensures forall x :: x in r <==> x in s
  {
    set x | x in s
  }

  /** Taking in one more element of `s` adds it to the set. */
  lemma SetOfPrefixStep(s: seq<Element>, i: nat)
    requires i < |s|
    ensures SetOf(s[..i + 1]) == SetOf(s[..i]) + {s[i]}
  {
    assert s[..i + 1] == s[..i] + [s[i]];
  }

  /** The observer options built for a configuration. */
  function OptionsFor(cfg: Target): (o: ObserverOptions)
    ensures o.rootMargin == cfg.offsets
    ensures o.threshold == PixelSteps <==> cfg.mode == ByPixels
    ensures o.threshold.Ratios? ==> o.threshold.ratios == cfg.threshold
  {
    ObserverOptions(cfg.offsets, if cfg.mode == ByPixels then PixelSteps else Ratios(cfg.threshold))
  }

  /** The internal record of one target. */
  class InternalTarget {
    const id: string
    const container: Element
    const options: ObserverOptions
    const emitGlobal: bool
    const mode: Mode
    const callback: Callback
    var observedElements: seq<Element>
    var observer: Option<Observer>

    /** The parts of the record that come straight from the configuration. */
    predicate Configures(cfg: Target) {
      && id == cfg.id
      && container == cfg.container
      && options == OptionsFor(cfg)
      && emitGlobal == cfg.emitGlobal
      && mode == cfg.mode
      && callback == cfg.callback
    }

    /** The object literal: no elements and no observer yet. */
    constructor (cfg: Target)
      ensures Configures(cfg)
      ensures observedElements == [] && observer == None
    {
      id := cfg.id;
      container := cfg.container;
      options := OptionsFor(cfg);
      emitGlobal := cfg.emitGlobal;
      mode := cfg.mode;
      callback := cfg.callback;
      observedElements := [];
      observer := None;
    }
  }
}
