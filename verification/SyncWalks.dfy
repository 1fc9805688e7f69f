/** Finished walks over a run with any traffic, and walks that go wrong. */
module SyncWalks {
  import opened Paging
  import opened PagingTheorems
  import opened PagingDrift
  import opened PagingWalks
  import opened SyncPages

  /** The traffic between page i and the next revives nothing, and leaves every row in place that the token counts on. */
  ghost predicate KeepsTheCount(w: Walk, coll: string, q: Query, i: nat)
    requires i + 1 < |w.states| == |w.clocks| == |w.pages| && i < |w.traffic|
  {
    RevivesNothing(w, coll, q, i) && CountsInPlace(View(w, coll, q, i), q.sort, w.pages[i].offset, View(w, coll, q, i + 1))
  }

  /** The walk has come to its end, and no row its tokens counted on was updated, deleted or expired under way. */
  ghost predicate Finishes(w: Walk, coll: string, q: Query) {
    WalksOn(w, coll, q, true) && q.sort != Index && w.pages[|w.pages| - 1].offset.None?
    && forall i :: 0 <= i < |w.traffic| ==> KeepsTheCount(w, coll, q, i)
  }

  /** From page request j on the row stays where it is; before, it was not there, or elsewhere. */
  predicate ThereFrom(w: Walk, coll: string, q: Query, j: nat, id: string)
    requires j < |w.states| == |w.clocks|
  {
    StaysInPlace(Views(w, coll, q), j, |w.states| - 1, id)
    && (j > 0 ==> !InPlace(View(w, coll, q, j - 1), View(w, coll, q, j), id))
  }

  lemma FinishesWithCount(w: Walk, coll: string, q: Query)
    requires Finishes(w, coll, q)
    ensures WalksWithCount(w.pages, Views(w, coll, q), q, w.limits)
  {
    var views := Views(w, coll, q);
    WalkFollows(w, coll, q, true);
    forall i: nat | i < |w.pages| ensures KeepsCount(w.pages, views, q.sort, i) {
      if i + 1 < |views| {
        assert KeepsTheCount(w, coll, q, i);
        TrafficDrifts(w, coll, q, true, i);
      }
    }
  }

  lemma NewcomerIsNewest(w: Walk, coll: string, q: Query, j: nat, id: string)
    requires Finishes(w, coll, q) && j < |w.states| && ThereFrom(w, coll, q, j, id)
    ensures ComesIn(Views(w, coll, q), j, id)
  {
    if j > 0 {
      assert KeepsTheCount(w, coll, q, j - 1);
      TrafficDrifts(w, coll, q, true, j - 1);
    }
  }

  /** Whatever else was inserted, updated and deleted: a row that stays in place from page request j on is served exactly
      once from then on, except that newest first a row that came in under way is not served at all. */
  lemma ServedExactlyOnce(w: Walk, coll: string, q: Query, j: nat, id: string)
    requires Finishes(w, coll, q) && j < |w.states| && ThereFrom(w, coll, q, j, id)
    ensures ServedBetween(w.pages, j, |w.pages|, id) == if j == 0 || q.sort == Oldest then 1 else 0
  {
    FinishesWithCount(w, coll, q);
    NewcomerIsNewest(w, coll, q, j, id);
    ServedOnce(w.pages, Views(w, coll, q), q, w.limits, j, id);
  }

  /** In particular a row that nobody touches during the walk occurs exactly once in all its pages. */
  lemma UntouchedIsServedOnce(w: Walk, coll: string, q: Query, id: string)
    requires Finishes(w, coll, q) && StaysInPlace(Views(w, coll, q), 0, |w.states| - 1, id)
    ensures Times(Items(w.pages, |w.pages|), id) == 1
  {
    ServedExactlyOnce(w, coll, q, 0, id);
    ServedIsTimes(w.pages, 0, |w.pages|, id);
  }

  /** After any traffic, the next page misses nothing that is due if and only if its token counts on nothing that was lost,
      or nothing is due. */
  lemma PageMissesNothing(w: Walk, coll: string, q: Query, i: nat) returns (p: nat)
    requires WalksOn(w, coll, q, true) && q.sort != Index && i < |w.traffic| && RevivesNothing(w, coll, q, i)
    ensures w.pages[i].offset.Some? && StandsAt(Ordered(View(w, coll, q, i), q.sort), false, w.pages[i].offset, p)
    ensures w.pages[i].offset.value.timestamp.Some? && w.pages[i].offset.value.offset <= p
    ensures var v, v' := View(w, coll, q, i), View(w, coll, q, i + 1);
            w.pages[i + 1].items == Slice(Due(v, v', q.sort, p), 0, w.limits[i + 1])
            <==> Lost(Ordered(v, q.sort), p, w.pages[i].offset.value.offset, v') == 0 || Due(v, v', q.sort, p) == []
  {
    p := PageAfterTraffic(w, coll, q, i);
    TrafficDrifts(w, coll, q, true, i);
    NextPage(w, coll, q, i);
    NothingIsMissed(View(w, coll, q, i), View(w, coll, q, i + 1), WithPage(q, w.limits[i + 1], w.pages[i].offset),
                    w.limits[i + 1], p);
  }
}
