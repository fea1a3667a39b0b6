/** The scroll reveal of `initScrollReveal`: every card observed at
    start-up gets the `revealed` mark the first time the reveal observer
    reports it intersecting, and nothing ever takes the mark away (the
    observer never stops watching a card either). */
module Reveal {

  /** A handle on a `.reveal-card` element. */
  type CardId = nat

  /** One report of the reveal observer. */
  datatype RevealEntry = RevealEntry(isIntersecting: bool, target: CardId)

  /** The revealed cards after one batch of reports, in batch order. */
  function RevealBatch(revealed: set<CardId>, entries: seq<RevealEntry>): (r: set<CardId>)
    ensures forall c :: c in r ==>
      c in revealed || exists i :: 0 <= i < |entries| && entries[i].target == c
  {
    if entries == [] then revealed
    else
      var before := RevealBatch(revealed, entries[..|entries| - 1]);
      var e := entries[|entries| - 1];
      if e.isIntersecting then before + {e.target} else before
  }

  /** A card is revealed after a batch exactly when it already was, or
      some report of the batch shows it intersecting. */
  lemma {:induction false} RevealBatchMembers(revealed: set<CardId>, entries: seq<RevealEntry>, c: CardId)
    ensures c in RevealBatch(revealed, entries) <==>
      c in revealed ||
      exists i :: 0 <= i < |entries| && entries[i].isIntersecting && entries[i].target == c
  {
    if entries != [] {
      var init := entries[..|entries| - 1];
      RevealBatchMembers(revealed, init, c);
      if exists i :: 0 <= i < |entries| && entries[i].isIntersecting && entries[i].target == c {
        var i :| 0 <= i < |entries| && entries[i].isIntersecting && entries[i].target == c;
        if i < |init| {
          assert init[i] == entries[i];
        }
      }
    }
  }

  /** Reveal only grows: no report removes the mark. */
  lemma {:induction false} RevealMonotone(revealed: set<CardId>, entries: seq<RevealEntry>)
    ensures revealed <= RevealBatch(revealed, entries)
  {
    if entries != [] {
      RevealMonotone(revealed, entries[..|entries| - 1]);
    }
  }

  /** Two batches in a row act like their concatenation. */
  lemma {:induction false} RevealCompose(revealed: set<CardId>, a: seq<RevealEntry>, b: seq<RevealEntry>)
    ensures RevealBatch(RevealBatch(revealed, a), b) == RevealBatch(revealed, a + b)
  {
    if b == [] {
      assert a + b == a;
    } else {
      RevealCompose(revealed, a, b[..|b| - 1]);
      assert (a + b)[..|a + b| - 1] == a + b[..|b| - 1];
    }
  }

  /** Re-delivering a batch changes nothing: marking an already revealed
      card again has no effect. */
  lemma RevealIdempotent(revealed: set<CardId>, entries: seq<RevealEntry>)
    ensures RevealBatch(RevealBatch(revealed, entries), entries) == RevealBatch(revealed, entries)
  {
    var once := RevealBatch(revealed, entries);
    forall c | c in RevealBatch(once, entries)
      ensures c in once
    {
      RevealBatchMembers(once, entries, c);
      RevealBatchMembers(revealed, entries, c);
    }
    RevealMonotone(once, entries);
  }

  /** Reports of cards outside the viewport change nothing. */
  lemma {:induction false} NonIntersectingUnchanged(revealed: set<CardId>, entries: seq<RevealEntry>)
    requires forall i :: 0 <= i < |entries| ==> !entries[i].isIntersecting
    ensures RevealBatch(revealed, entries) == revealed
  {
    if entries != [] {
      NonIntersectingUnchanged(revealed, entries[..|entries| - 1]);
    }
  }

  /** The reveal observer and the cards it watches. */
  class ScrollReveal {
    /** The cards observed at start-up; none is ever unobserved. */
    const cards: set<CardId>
    /** The cards carrying the `revealed` mark. */
    var revealed: set<CardId>

    ghost predicate Valid()
      reads this
    {
      revealed <= cards
    }

    constructor (cards: set<CardId>)
      ensures Valid() && this.cards == cards && revealed == {}
    {
      this.cards := cards;
      revealed := {};
    }

    /** The observer callback over one batch. The observer only reports
        cards it observes. */
    method OnIntersections(entries: seq<RevealEntry>)
      requires Valid()
      requires forall i :: 0 <= i < |entries| ==> entries[i].target in cards
      modifies this
      ensures Valid()
      ensures revealed == RevealBatch(old(revealed), entries)
      ensures old(revealed) <= revealed
    {
      for k := 0 to |entries|
        invariant revealed == RevealBatch(old(revealed), entries[..k])
        invariant revealed <= cards
      {
        var entry := entries[k];
        if entry.isIntersecting {
          revealed := revealed + {entry.target};
        }
        assert entries[..k + 1][..k] == entries[..k];
      }
      assert entries[..|entries|] == entries;
      RevealMonotone(old(revealed), entries);
    }
  }
}
