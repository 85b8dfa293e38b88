/** Reveal on scroll: every candidate element is watched by an intersection
    observer; the first time it intersects it gets the class `in` and stops
    being watched. */
module Reveal {
  import opened Dom

  const RevealedClass := "in"

  /** The candidate elements, by position, and the positions still observed. */
  datatype Observer = Observer(items: seq<Element>, observed: set<nat>)

  /** One observer entry: its target's position and `isIntersecting`. */
  datatype Entry = Entry(target: nat, isIntersecting: bool)

  predicate IsRevealed(e: Element) {
    RevealedClass in e.classes
  }

  /** Start-up: without observer support, or with no candidates, nothing is
      observed; otherwise every candidate is. */
  function Start(items: seq<Element>, supported: bool): (o: Observer)
    ensures o.items == items
    ensures forall i: nat :: i in o.observed <==> supported && i < |items|
  {
    if !supported || |items| == 0 then Observer(items, {})
    else Observer(items, Indices(|items|))
  }

  /** The positions below `n`. */
  function Indices(n: nat): (r: set<nat>)
    ensures forall i: nat :: i in r <==> i < n
  {
    if n == 0 then {} else Indices(n - 1) + {n - 1}
  }

  /** Every entry targets one of the `n` candidates. */
  predicate ValidEntries(n: nat, entries: seq<Entry>) {
    forall k :: 0 <= k < |entries| ==> entries[k].target < n
  }

  /** Some intersecting entry of the batch targets `i`. */
  predicate Hit(entries: seq<Entry>, i: nat) {
    exists k :: 0 <= k < |entries| && entries[k].target == i && entries[k].isIntersecting
  }

  /** The callback's work for one entry. */
  function OnEntry(o: Observer, e: Entry): (r: Observer)
    requires e.target < |o.items|
    ensures |r.items| == |o.items|
    ensures !e.isIntersecting ==> r == o
    ensures e.isIntersecting ==> IsRevealed(r.items[e.target]) && e.target !in r.observed
    ensures SameExceptClass(o.items[e.target], r.items[e.target], RevealedClass)
    ensures forall i :: 0 <= i < |o.items| && i != e.target ==> r.items[i] == o.items[i]
    ensures forall i: nat :: i != e.target ==> (i in r.observed <==> i in o.observed)
    ensures r.observed <= o.observed
  {
    if !e.isIntersecting then o
    else
      var t := o.items[e.target];
      Observer(o.items[e.target := t.(classes := t.classes + {RevealedClass})], o.observed - {e.target})
  }

  /** The callback over a batch of entries, in order. An element is
      revealed afterwards iff it was before or some entry hit it, and it is
      still observed iff it was and no entry hit it. */
  function OnBatch(o: Observer, entries: seq<Entry>): (r: Observer)
    requires ValidEntries(|o.items|, entries)
    ensures |r.items| == |o.items|
    ensures forall i :: 0 <= i < |o.items| ==>
      (IsRevealed(r.items[i]) <==> IsRevealed(o.items[i]) || Hit(entries, i))
    ensures forall i :: 0 <= i < |o.items| ==> SameExceptClass(o.items[i], r.items[i], RevealedClass)
    ensures forall i: nat :: i in r.observed <==> i in o.observed && !Hit(entries, i)
    decreases |entries|
  {
    if entries == [] then o
    else
      var o' := OnEntry(o, entries[0]);
      assert forall i: nat :: Hit(entries, i) <==>
        (entries[0].target == i && entries[0].isIntersecting) || Hit(entries[1..], i) by {
        forall i: nat
          ensures Hit(entries, i) ==> (entries[0].target == i && entries[0].isIntersecting) || Hit(entries[1..], i)
        {
          if Hit(entries, i) {
            var k :| 0 <= k < |entries| && entries[k].target == i && entries[k].isIntersecting;
            if k > 0 {
              assert entries[1..][k - 1] == entries[k];
            }
          }
        }
        forall i: nat | Hit(entries[1..], i)
          ensures Hit(entries, i)
        {
          var k :| 0 <= k < |entries[1..]| && entries[1..][k].target == i && entries[1..][k].isIntersecting;
          assert entries[k + 1] == entries[1..][k];
        }
      }
      OnBatch(o', entries[1..])
  }

  /** An entry for an element that is already revealed changes nothing but
      the observed set. */
  lemma RevealedStaysPut(o: Observer, e: Entry)
    requires e.target < |o.items| && IsRevealed(o.items[e.target])
    ensures OnEntry(o, e).items == o.items
  {
    var t := o.items[e.target];
    assert t.classes + {RevealedClass} == t.classes;
    assert t.(classes := t.classes) == t;
  }

  /** Every element that is no longer observed has been revealed. */
  predicate LeftOnlyByReveal(o: Observer) {
    forall i :: 0 <= i < |o.items| && i !in o.observed ==> IsRevealed(o.items[i])
  }

  /** The state after the batches, in order. */
  function Run(o: Observer, batches: seq<seq<Entry>>): Observer
    requires forall b :: b in batches ==> ValidEntries(|o.items|, b)
    decreases |batches|
  {
    if batches == [] then o
    else Run(OnBatch(o, batches[0]), batches[1..])
  }

  /** One-shot: across any batches a revealed element stays revealed, the
      observed set only shrinks, and an element leaves it only by being
      revealed. */
  lemma {:induction false} RunOneShot(o: Observer, batches: seq<seq<Entry>>)
    requires forall b :: b in batches ==> ValidEntries(|o.items|, b)
    ensures |Run(o, batches).items| == |o.items|
    ensures forall i :: 0 <= i < |o.items| && IsRevealed(o.items[i]) ==> IsRevealed(Run(o, batches).items[i])
    ensures Run(o, batches).observed <= o.observed
    ensures LeftOnlyByReveal(o) ==> LeftOnlyByReveal(Run(o, batches))
    decreases |batches|
  {
    if batches != [] {
      var o' := OnBatch(o, batches[0]);
      RunOneShot(o', batches[1..]);
    }
  }

  /** A supported start with candidates observes them all, so the invariant
      holds from the outset. */
  lemma StartLeftOnlyByReveal(items: seq<Element>)
    ensures LeftOnlyByReveal(Start(items, true))
  {
  }
}
