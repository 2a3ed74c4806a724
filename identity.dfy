/**
 * Element identity: the `medusaId` property the manager writes on every
 * element it starts observing, modelled as a map from element to tag, with
 * a counter standing in for the random id generator.
 */
module Identity {
  import opened Declarations
  import Sequences

  /** The element's `medusaId`, or `None` (undefined) if it was never set. */
  function TagOf(tags: map<Element, Tag>, e: Element): (r: Option<Tag>)
    ensures r.Some? <==> e in tags
    ensures r.Some? ==> r.value == tags[e]
  {
    if e in tags then Some(tags[e]) else None
  }

  /** Every tag handed out so far is below the next one to hand out. */
  ghost predicate FreshFrom(tags: map<Element, Tag>, next: Tag) {
    forall e :: e in tags ==> tags[e] < next
  }

  /** No two elements carry the same tag. */
  ghost predicate Injective(tags: map<Element, Tag>) {
    forall a, b :: a in tags && b in tags && a != b ==> tags[a] != tags[b]
  }

  /**
   * Tagging the elements of `s` one after the other, left to right, with
   * the tags `next`, `next + 1`, ...: an element that occurs twice keeps
   * the later tag.
   */
  function TagAll(tags: map<Element, Tag>, s: seq<Element>, next: Tag): (r: map<Element, Tag>)
    ensures forall e :: e in r <==> e in tags || e in s
    ensures forall e :: e in tags && e !in s ==> r[e] == tags[e]
    ensures forall e :: e in s ==> next <= r[e] < next + |s|
  {
    if s == [] then tags
    else TagAll(tags, s[..|s| - 1], next)[s[|s| - 1] := next + |s| - 1]
  }

  /** Tagging one more element of `s` extends the map by that element's tag. */
  lemma TagAllPrefixStep(tags: map<Element, Tag>, s: seq<Element>, next: Tag, j: nat)
    requires j < |s|
    ensures TagAll(tags, s[..j], next)[s[j] := next + j] == TagAll(tags, s[..j + 1], next)
  {
    Sequences.PrefixStep(s, j);
  }

  /** The position of the last occurrence of `e` in `s`. */
  function LastIndexOf(s: seq<Element>, e: Element): (r: nat)
    requires e in s
    ensures r < |s| && s[r] == e
    ensures forall j :: r < j < |s| ==> s[j] != e
  {
    if s[|s| - 1] == e then |s| - 1 else LastIndexOf(s[..|s| - 1], e)
  }

  /** An element tagged by `TagAll` carries the tag of its last occurrence. */
  lemma {:induction false} TagAllIsLastOccurrence(tags: map<Element, Tag>, s: seq<Element>, next: Tag, e: Element)
    requires e in s
    ensures TagAll(tags, s, next)[e] == next + LastIndexOf(s, e)
  {
    var init := s[..|s| - 1];
    if s[|s| - 1] != e {
      assert e in init;
      TagAllIsLastOccurrence(tags, init, next, e);
    }
  }

  /** Tagging from a fresh counter keeps tags fresh and pairwise distinct. */
  lemma {:induction false} TagAllKeepsIdentity(tags: map<Element, Tag>, s: seq<Element>, next: Tag)
    requires FreshFrom(tags, next) && Injective(tags)
    ensures FreshFrom(TagAll(tags, s, next), next + |s|)
    ensures Injective(TagAll(tags, s, next))
  {
    if s != [] {
      var init := s[..|s| - 1];
      TagAllKeepsIdentity(tags, init, next);
      var m := TagAll(tags, init, next);
      var r := TagAll(tags, s, next);
      assert r == m[s[|s| - 1] := next + |init|];
      forall a, b | a in r && b in r && a != b ensures r[a] != r[b] {
        if a != s[|s| - 1] && b != s[|s| - 1] {
          assert r[a] == m[a] && r[b] == m[b];
        }
      }
    }
  }

  /** Tagging `a` and then `b` is tagging `a + b`. */
  lemma {:induction false} TagAllConcat(tags: map<Element, Tag>, a: seq<Element>, b: seq<Element>, next: Tag)
    ensures TagAll(TagAll(tags, a, next), b, next + |a|) == TagAll(tags, a + b, next)
  {
    if b != [] {
      var init := b[..|b| - 1];
      TagAllConcat(tags, a, init, next);
      assert (a + b)[..|a + b| - 1] == a + init;
    } else {
      assert a + b == a;
    }
  }

  /**
   * `s.findIndex(x => x.medusaId === key)`: the first position whose tag
   * equals `key` (`None` standing for undefined), or -1.
   */
  function IndexOfTag(s: seq<Element>, tags: map<Element, Tag>, key: Option<Tag>): (r: int)
    ensures -1 <= r < |s|
    ensures r >= 0 ==> TagOf(tags, s[r]) == key
    ensures r >= 0 ==> forall j :: 0 <= j < r ==> TagOf(tags, s[j]) != key
    ensures r < 0 ==> forall j :: 0 <= j < |s| ==> TagOf(tags, s[j]) != key
  {
    if |s| == 0 then -1
    else if TagOf(tags, s[0]) == key then 0
    else
      var r := IndexOfTag(s[1..], tags, key);
      if r < 0 then -1 else r + 1
  }

  /** When every element of `s` is tagged, an undefined key matches none of them. */
  lemma UntaggedKeyIsNotFound(s: seq<Element>, tags: map<Element, Tag>)
    requires forall x :: x in s ==> x in tags
    ensures IndexOfTag(s, tags, None) < 0
  {
  }

  /**
   * When every element of `s` is tagged and tags are distinct, looking an
   * element up by its tag finds the same position as looking it up by
   * reference; an element that was never tagged is not found.
   */
  lemma {:induction false} TagLookupIsReferenceLookup(s: seq<Element>, tags: map<Element, Tag>, e: Element)
    requires Injective(tags)
    requires forall x :: x in s ==> x in tags
    ensures IndexOfTag(s, tags, TagOf(tags, e)) == Sequences.IndexOf(s, e)
  {
    var r := IndexOfTag(s, tags, TagOf(tags, e));
    var j := Sequences.IndexOf(s, e);
    if r >= 0 {
      assert s[r] in tags;
      assert s[r] == e;
    }
    if j >= 0 {
      assert TagOf(tags, s[j]) == TagOf(tags, e);
    }
  }
}
