/**
  Choosing favorites: for every map byte the entry that holds its slot, the
  reference counts and compacted traces that follow from the slots, and the
  greedy cover drawn from the slot holders.
 */
module Favorites {
  import opened Bytes
  import opened Words

  /** Slots with their holders, and for each entry its reference count and compacted trace. */
  datatype Board<E> = Board(slots: seq<Option<E>>, refs: map<E, int>, minis: map<E, Option<seq<byte>>>)

  /** The bytes each scored entry was scored on. */
  type Hits<E> = map<E, set<nat>>

  // ---------- packed bitmaps ----------

  /** bitmap[k >> 3] & (1 << (k & 7)) */
  predicate Bit(bitmap: seq<byte>, k: nat) {
    k / 8 < |bitmap| && Digit(bitmap[k / 8], k % 8) == 1
  }

  ghost predicate Packs(bitmap: seq<byte>, hits: set<nat>, size: nat) {
    8 * |bitmap| == size && forall k: nat | k < size :: Bit(bitmap, k) <==> k in hits
  }

  // ---------- the invariant of the slots ----------

  function Owned<E(==)>(slots: seq<Option<E>>, e: E): set<nat> {
    set i: nat | i < |slots| && slots[i] == Some(e)
  }

  ghost predicate Counted<E>(b: Board<E>) {
    forall e | e in b.refs :: b.refs[e] == |Owned(b.slots, e)|
  }

  /** A compacted trace is kept exactly while the entry holds a slot, and has the bit of every byte it was scored on. */
  ghost predicate Kept<E>(b: Board<E>, hits: Hits<E>) {
    && b.minis.Keys == b.refs.Keys
    && (forall e | e in b.minis :: b.minis[e].Some? <==> b.refs[e] > 0)
    && (forall e | e in b.minis && b.minis[e].Some? :: e in hits && Packs(b.minis[e].value, hits[e], |b.slots|))
  }

  ghost predicate Held<E>(b: Board<E>, hits: Hits<E>) {
    forall i: nat | i < |b.slots| && b.slots[i].Some? ::
      b.slots[i].value in b.refs && b.slots[i].value in hits && i in hits[b.slots[i].value]
  }

  ghost predicate Consistent<E>(b: Board<E>, hits: Hits<E>) {
    Counted(b) && Kept(b, hits) && Held(b, hits)
  }

  // ---------- one slot changes hands ----------

  function Unref<E(==)>(b: Board<E>, w: E): Board<E>
    requires w in b.refs && w in b.minis
  {
    b.(refs := b.refs[w := b.refs[w] - 1], minis := b.minis[w := if b.refs[w] == 1 then None else b.minis[w]])
  }

  function Give<E(==)>(b: Board<E>, i: nat, q: E, mini: seq<byte>): Board<E>
    requires i < |b.slots| && q in b.refs && q in b.minis
  {
    Board(b.slots[i := Some(q)], b.refs[q := b.refs[q] + 1],
          b.minis[q := if b.minis[q].None? then Some(mini) else b.minis[q]])
  }

  /** The holder of slot i, if any, loses it to q. */
  function Win<E(==)>(b: Board<E>, i: nat, q: E, mini: seq<byte>): Board<E>
    requires i < |b.slots| && q in b.refs && q in b.minis
    requires b.slots[i].Some? ==> b.slots[i].value in b.refs && b.slots[i].value in b.minis
  {
    Give(if b.slots[i].Some? then Unref(b, b.slots[i].value) else b, i, q, mini)
  }

  lemma OwnedAfter<E>(slots: seq<Option<E>>, i: nat, q: E, e: E)
    requires i < |slots|
    ensures Owned(slots[i := Some(q)], e) == if e == q then Owned(slots, e) + {i} else Owned(slots, e) - {i}
    ensures |Owned(slots[i := Some(q)], e)| ==
            |Owned(slots, e)| + (if e == q then 1 else 0) - (if slots[i] == Some(e) then 1 else 0)
  {
    var before, after := Owned(slots, e), Owned(slots[i := Some(q)], e);
    assert i in before <==> slots[i] == Some(e);
    if e == q {
      assert after == before + {i};
    } else {
      assert after == before - {i};
    }
  }

  lemma WinCounts<E>(b: Board<E>, hits: Hits<E>, i: nat, q: E, mini: seq<byte>)
    requires Consistent(b, hits) && i < |b.slots| && q in b.refs
    ensures Counted(Win(b, i, q, mini))
  {
    forall e | e in b.refs ensures Win(b, i, q, mini).refs[e] == |Owned(Win(b, i, q, mini).slots, e)| {
      OwnedAfter(b.slots, i, q, e);
    }
  }

  /** Taking a slot keeps counts, compacted traces and slots in step, also when q already held it. */
  lemma WinConsistent<E>(b: Board<E>, hits: Hits<E>, i: nat, q: E, mini: seq<byte>)
    requires Consistent(b, hits) && i < |b.slots| && q in b.refs && q in hits && i in hits[q]
    requires (b.minis[q].None? || (b.slots[i] == Some(q) && b.refs[q] == 1)) ==> Packs(mini, hits[q], |b.slots|)
    ensures Consistent(Win(b, i, q, mini), hits)
  {
    WinCounts(b, hits, i, q, mini);
    var c := Win(b, i, q, mini);
    forall e | e in c.minis
      ensures c.minis[e].Some? <==> c.refs[e] > 0
      ensures c.minis[e].Some? ==> e in hits && Packs(c.minis[e].value, hits[e], |c.slots|)
    {
      assert b.refs[e] == |Owned(b.slots, e)| >= 0;
      if b.slots[i] == Some(e) {
        assert i in Owned(b.slots, e);
        assert b.refs[e] > 0;
      }
    }
  }

  /** Scoring an entry for the first time, or again on the same bytes. */
  lemma MoreHitsConsistent<E>(b: Board<E>, hits: Hits<E>, q: E, on: set<nat>)
    requires Consistent(b, hits) && (q in hits ==> hits[q] == on)
    ensures Consistent(b, hits[q := on])
  {}

  lemma NewEntryConsistent<E>(b: Board<E>, hits: Hits<E>, q: E)
    requires Consistent(b, hits) && q !in b.refs
    ensures Consistent(b.(refs := b.refs[q := 0], minis := b.minis[q := None]), hits)
  {
    assert Owned(b.slots, q) == {};
  }

  // ---------- the greedy cover ----------

  /** The slots picked from slot i on, when the bytes in `covered` need no more. */
  ghost function Picks<E>(b: Board<E>, hits: Hits<E>, i: nat, covered: set<nat>): seq<nat>
    requires Held(b, hits)
    decreases |b.slots| - i
  {
    if i >= |b.slots| then []
    else if b.slots[i].Some? && i !in covered then [i] + Picks(b, hits, i + 1, covered + hits[b.slots[i].value])
    else Picks(b, hits, i + 1, covered)
  }

  /** The entries picked. */
  ghost function Chosen<E>(b: Board<E>, picks: seq<nat>): set<E> {
    set p | p in picks && p < |b.slots| && b.slots[p].Some? :: b.slots[p].value
  }

  /** Every byte with a holder is hit by one of the entries. */
  ghost predicate CoveredBy<E>(slots: seq<Option<E>>, hits: Hits<E>, favored: set<E>) {
    forall i: nat | i < |slots| && slots[i].Some? :: exists e :: e in favored && e in hits && i in hits[e]
  }

  lemma MoreHitsCovered<E>(slots: seq<Option<E>>, hits: Hits<E>, favored: set<E>, q: E, on: set<nat>)
    requires CoveredBy(slots, hits, favored) && (q in hits ==> hits[q] == on)
    ensures CoveredBy(slots, hits[q := on], favored)
  {
    forall i: nat | i < |slots| && slots[i].Some?
      ensures exists e :: e in favored && e in hits[q := on] && i in hits[q := on][e]
    {
      var e :| e in favored && e in hits && i in hits[e];
      assert e in hits[q := on] && i in hits[q := on][e];
    }
  }

  lemma {:induction false} PicksAreSlots<E>(b: Board<E>, hits: Hits<E>, i: nat, covered: set<nat>)
    requires Held(b, hits)
    ensures forall p | p in Picks(b, hits, i, covered) :: i <= p < |b.slots| && b.slots[p].Some? && p !in covered
    decreases |b.slots| - i
  {
    if i < |b.slots| {
      if b.slots[i].Some? && i !in covered {
        PicksAreSlots(b, hits, i + 1, covered + hits[b.slots[i].value]);
      } else {
        PicksAreSlots(b, hits, i + 1, covered);
      }
    }
  }

  /** Every byte with a holder is hit by some picked entry. */
  lemma {:induction false} PicksCover<E>(b: Board<E>, hits: Hits<E>, i: nat, covered: set<nat>, k: nat)
    requires Held(b, hits) && i <= k < |b.slots| && b.slots[k].Some?
    ensures k in covered || exists p ::
      p in Picks(b, hits, i, covered) && p < |b.slots| && b.slots[p].Some? && k in hits[b.slots[p].value]
    decreases |b.slots| - i
  {
    if b.slots[i].Some? && i !in covered {
      var more := covered + hits[b.slots[i].value];
      assert i in Picks(b, hits, i, covered);
      if i < k {
        PicksCover(b, hits, i + 1, more, k);
        if p :| p in Picks(b, hits, i + 1, more) && p < |b.slots| && b.slots[p].Some? && k in hits[b.slots[p].value] {
          assert p in Picks(b, hits, i, covered);
        }
      }
    } else if i < k {
      PicksCover(b, hits, i + 1, covered, k);
    }
  }

  /** Each pick hits a byte, its own, that no earlier pick hits; so no entry is picked twice. */
  lemma {:induction false} PicksUseful<E>(b: Board<E>, hits: Hits<E>, i: nat, covered: set<nat>, m: nat, n: nat)
    requires Held(b, hits) && m < n < |Picks(b, hits, i, covered)|
    ensures var p, q := Picks(b, hits, i, covered)[m], Picks(b, hits, i, covered)[n];
            && p < |b.slots| && q < |b.slots| && b.slots[p].Some? && b.slots[q].Some?
            && q in hits[b.slots[q].value] && q !in hits[b.slots[p].value]
    decreases |b.slots| - i
  {
    if b.slots[i].Some? && i !in covered {
      var more := covered + hits[b.slots[i].value];
      PicksAreSlots(b, hits, i + 1, more);
      if m == 0 {
        assert Picks(b, hits, i, covered)[n] == Picks(b, hits, i + 1, more)[n - 1];
        assert Picks(b, hits, i + 1, more)[n - 1] in Picks(b, hits, i + 1, more);
      } else {
        PicksUseful(b, hits, i + 1, more, m - 1, n - 1);
      }
    } else {
      PicksUseful(b, hits, i + 1, covered, m, n);
    }
  }

  // ---------- the loop that picks ----------

  /** Before slot i is looked at: `done` was picked, `covered` is what those entries hit. */
  ghost predicate Picking<E>(b: Board<E>, hits: Hits<E>, done: seq<nat>, covered: set<nat>, i: nat) {
    && Held(b, hits)
    && done + Picks(b, hits, i, covered) == Picks(b, hits, 0, {})
    && forall p | p in done :: p < |b.slots| && b.slots[p].Some? && hits[b.slots[p].value] <= covered
  }

  lemma PickingStart<E>(b: Board<E>, hits: Hits<E>)
    requires Held(b, hits)
    ensures Picking(b, hits, [], {}, 0) && Chosen(b, []) == {}
  {}

  lemma PickingSkip<E>(b: Board<E>, hits: Hits<E>, done: seq<nat>, covered: set<nat>, i: nat)
    requires Picking(b, hits, done, covered, i) && i < |b.slots| && (b.slots[i].None? || i in covered)
    ensures Picking(b, hits, done, covered, i + 1)
  {}

  /** The entry picked at slot i was not picked before. */
  lemma PickingTake<E>(b: Board<E>, hits: Hits<E>, done: seq<nat>, covered: set<nat>, i: nat)
    requires Picking(b, hits, done, covered, i) && i < |b.slots| && b.slots[i].Some? && i !in covered
    ensures Picking(b, hits, done + [i], covered + hits[b.slots[i].value], i + 1)
    ensures b.slots[i].value !in Chosen(b, done)
    ensures Chosen(b, done + [i]) == Chosen(b, done) + {b.slots[i].value}
  {
    var more := covered + hits[b.slots[i].value];
    assert done + [i] + Picks(b, hits, i + 1, more) == done + Picks(b, hits, i, covered);
  }

  lemma PickingEnd<E>(b: Board<E>, hits: Hits<E>, done: seq<nat>, covered: set<nat>)
    requires Picking(b, hits, done, covered, |b.slots|)
    ensures done == Picks(b, hits, 0, {}) && CoveredBy(b.slots, hits, Chosen(b, done))
  {
    assert done + [] == done;
    forall k: nat | k < |b.slots| && b.slots[k].Some?
      ensures exists e :: e in Chosen(b, done) && e in hits && k in hits[e]
    {
      PicksCover(b, hits, 0, {}, k);
      var p :| p in done && p < |b.slots| && b.slots[p].Some? && k in hits[b.slots[p].value];
      assert b.slots[p].value in Chosen(b, done);
    }
  }

  // ---------- the best holder ----------

  /** e was scored on byte i. */
  predicate ScoredOn<E>(hits: Hits<E>, older e: E, i: nat) { e in hits && i in hits[e] }

  ghost predicate Wins<E>(before: seq<Option<E>>, on: set<nat>, q: E, factors: map<E, int>, i: nat)
    requires i < |before| && q in factors && (before[i].Some? ==> before[i].value in factors)
  {
    i in on && (before[i].None? || factors[q] <= factors[before[i].value])
  }

  /** One scoring of q on the bytes in `on`, up to byte n: q takes every slot that is free or held by no better. */
  ghost predicate Scored<E>(before: seq<Option<E>>, after: seq<Option<E>>, on: set<nat>, q: E, factors: map<E, int>,
                            n: nat) {
    && |after| == |before| && q in factors
    && (forall i: nat | i < |before| && before[i].Some? :: before[i].value in factors)
    && (forall i: nat | i < |before| ::
         after[i] == if i < n && Wins(before, on, q, factors, i) then Some(q) else before[i])
  }

  lemma ScoredStep<E>(before: seq<Option<E>>, now: seq<Option<E>>, on: set<nat>, q: E, factors: map<E, int>, n: nat)
    requires Scored(before, now, on, q, factors, n) && n < |before|
    ensures now[n] == before[n]
    ensures before[n].Some? ==> before[n].value in factors
    ensures Scored(before, if Wins(before, on, q, factors, n) then now[n := Some(q)] else now, on, q, factors, n + 1)
  {}

  /** The holder of byte i costs no more than any entry scored on it, those in `stale` aside. */
  ghost predicate CheapestBut<E>(slots: seq<Option<E>>, hits: Hits<E>, stale: set<E>, factors: map<E, int>, i: nat) {
    && i < |slots| && slots[i].Some? && slots[i].value in factors
    && forall e | ScoredOn(hits, e, i) && e !in stale :: e in factors && factors[slots[i].value] <= factors[e]
  }

  ghost predicate Cheapest<E>(slots: seq<Option<E>>, hits: Hits<E>, factors: map<E, int>, i: nat) {
    CheapestBut(slots, hits, {}, factors, i)
  }

  /** Every byte somebody was scored on is held by such an entry. */
  ghost predicate HeldByScored<E>(slots: seq<Option<E>>, hits: Hits<E>, factors: map<E, int>) {
    && (forall i: nat | i < |slots| && slots[i].Some? :: ScoredOn(hits, slots[i].value, i))
    && (forall e, i: nat | ScoredOn(hits, e, i) :: i < |slots| && slots[i].Some?)
    && hits.Keys <= factors.Keys
  }

  /**
    What all reached states have in common. `stale` are the entries that got
    cheaper and were not scored again yet; `spoiled` are the bytes whose holder
    got more expensive than somebody else scored on them. Every other byte is
    held by the cheapest entry that is not stale.
   */
  ghost predicate Best<E>(slots: seq<Option<E>>, hits: Hits<E>, stale: set<E>, spoiled: set<nat>,
                          factors: map<E, int>) {
    && HeldByScored(slots, hits, factors)
    && forall e, i: nat | ScoredOn(hits, e, i) && i !in spoiled :: CheapestBut(slots, hits, stale, factors, i)
  }

  /** The bytes held by q that a rise of its factor takes from the cheapest entry. */
  ghost function Overtaken<E>(slots: seq<Option<E>>, hits: Hits<E>, stale: set<E>, factors: map<E, int>, q: E,
                              factor: int): set<nat> {
    set i: nat | i < |slots| && slots[i] == Some(q)
      && exists e :: ScoredOn(hits, e, i) && e != q && e !in stale && e in factors && factors[e] < factor
  }

  /** The bytes of a scoring that the cheapest entry holds afterwards. */
  ghost function Settled<E>(slots: seq<Option<E>>, hits: Hits<E>, stale: set<E>, factors: map<E, int>,
                            on: set<nat>): set<nat> {
    set i | i in on && CheapestBut(slots, hits, stale, factors, i)
  }

  lemma ScoredHeld<E>(before: seq<Option<E>>, after: seq<Option<E>>, hits: Hits<E>, on: set<nat>, q: E,
                      factors: map<E, int>)
    requires HeldByScored(before, hits, factors) && Scored(before, after, on, q, factors, |before|)
    requires (q in hits ==> hits[q] == on) && forall i | i in on :: i < |before|
    ensures HeldByScored(after, hits[q := on], factors)
  {
    var more := hits[q := on];
    forall e, i: nat | ScoredOn(more, e, i)
      ensures i < |after| && after[i].Some?
    {
      if e == q {
        assert i in on && i < |before|;
        assert before[i].None? ==> Wins(before, on, q, factors, i);
      } else {
        assert ScoredOn(hits, e, i);
        assert i < |before| && before[i].Some?;
      }
    }
    forall i: nat | i < |after| && after[i].Some?
      ensures ScoredOn(more, after[i].value, i)
    {
      assert after[i] == Some(q) || after[i] == before[i];
    }
    assert more.Keys == hits.Keys + {q};
  }

  lemma ScoredBest<E>(before: seq<Option<E>>, after: seq<Option<E>>, hits: Hits<E>, on: set<nat>, q: E,
                      stale: set<E>, spoiled: set<nat>, factors: map<E, int>)
    requires Best(before, hits, stale, spoiled, factors) && Scored(before, after, on, q, factors, |before|)
    requires (q in hits ==> hits[q] == on) && forall i | i in on :: i < |before|
    ensures Best(after, hits[q := on], stale - {q}, spoiled, factors)
    ensures var settled := Settled(after, hits[q := on], stale - {q}, factors, on);
            Best(after, hits[q := on], stale - {q}, spoiled - settled, factors)
  {
    var more := hits[q := on];
    ScoredHeld(before, after, hits, on, q, factors);
    forall e, i: nat | ScoredOn(more, e, i) && i !in spoiled
      ensures CheapestBut(after, more, stale - {q}, factors, i)
    {
      assert ScoredOn(more, e, i) && after[i].Some?;
      if before[i].Some? {
        assert ScoredOn(hits, before[i].value, i);
        assert CheapestBut(before, hits, stale, factors, i);
      }
      forall d | ScoredOn(more, d, i) && d !in stale - {q}
        ensures d in factors && factors[after[i].value] <= factors[d]
      {
        assert d == q || ScoredOn(hits, d, i);
      }
    }
  }

  lemma BestWithMore<E>(slots: seq<Option<E>>, hits: Hits<E>, stale: set<E>, spoiled: set<nat>, factors: map<E, int>,
                        q: E, factor: int)
    requires Best(slots, hits, stale, spoiled, factors) && q !in hits
    ensures Best(slots, hits, stale, spoiled, factors[q := factor])
  {
    assert factors[q := factor].Keys == factors.Keys + {q};
    forall e, i: nat | ScoredOn(hits, e, i) && i !in spoiled
      ensures CheapestBut(slots, hits, stale, factors[q := factor], i)
    {
      assert CheapestBut(slots, hits, stale, factors, i);
      assert slots[i].value in hits;
    }
  }

  /** A scored entry that gets cheaper has to be scored again; one that gets more expensive spoils bytes it holds. */
  lemma ChangedBest<E>(slots: seq<Option<E>>, hits: Hits<E>, stale: set<E>, spoiled: set<nat>, factors: map<E, int>,
                       q: E, factor: int)
    requires Best(slots, hits, stale, spoiled, factors) && q in hits
    ensures factor < factors[q] ==> Best(slots, hits, stale + {q}, spoiled, factors[q := factor])
    ensures factor == factors[q] ==> Best(slots, hits, stale, spoiled, factors[q := factor])
    ensures factor > factors[q] ==>
      Best(slots, hits, stale, spoiled + Overtaken(slots, hits, stale, factors, q, factor), factors[q := factor])
  {
    var after, over := factors[q := factor], Overtaken(slots, hits, stale, factors, q, factor);
    assert factor == factors[q] ==> after == factors;
    forall e, i: nat | ScoredOn(hits, e, i) && i !in spoiled
      ensures factor < factors[q] ==> CheapestBut(slots, hits, stale + {q}, after, i)
      ensures factor > factors[q] && i !in over ==> CheapestBut(slots, hits, stale, after, i)
    {
      assert CheapestBut(slots, hits, stale, factors, i);
    }
  }

  // ---------- exactly when the holder is the cheapest ----------

  /**
    A new factor for q: the holder h of byte i is the cheapest afterwards if and
    only if it is q and the new factor is at most all others scored on i, or it is
    not q, costs at most all others, and the new factor of q, if q was scored on i,
    is not below its own.
   */
  lemma CostChangeExact<E>(slots: seq<Option<E>>, hits: Hits<E>, factors: map<E, int>, q: E, factor: int, i: nat)
    requires HeldByScored(slots, hits, factors) && i < |slots| && slots[i].Some? && q in factors
    ensures var h := slots[i].value;
            Cheapest(slots, hits, factors[q := factor], i) <==>
              if q == h then
                forall e | ScoredOn(hits, e, i) && e != q :: factor <= factors[e]
              else
                && (ScoredOn(hits, q, i) ==> factors[h] <= factor)
                && forall e | ScoredOn(hits, e, i) && e != q :: factors[h] <= factors[e]
    ensures Cheapest(slots, hits, factors, i) ==>
            var h := slots[i].value;
            (Cheapest(slots, hits, factors[q := factor], i) <==>
              if q == h then
                forall e | ScoredOn(hits, e, i) && e != q :: factor <= factors[e]
              else
                ScoredOn(hits, q, i) ==> factors[h] <= factor)
  {
    var h, after := slots[i].value, factors[q := factor];
    if Cheapest(slots, hits, after, i) {
      forall e | ScoredOn(hits, e, i) && e != q
        ensures (if q == h then factor else factors[h]) <= factors[e]
      {
        assert after[h] <= after[e];
      }
      if ScoredOn(hits, q, i) { assert after[h] <= after[q]; }
    }
  }

  /**
    Scoring q: a byte it hits is held by the cheapest entry afterwards if and only
    if the lesser of the factors of q and of the holder before is at most those of
    all others scored there; a byte it does not hit if and only if it was before.
   */
  lemma ScoringExact<E>(before: seq<Option<E>>, after: seq<Option<E>>, hits: Hits<E>, on: set<nat>, q: E,
                        factors: map<E, int>, i: nat)
    requires HeldByScored(before, hits, factors) && Scored(before, after, on, q, factors, |before|)
    requires (q in hits ==> hits[q] == on) && i < |before|
    ensures i in on ==>
              (Cheapest(after, hits[q := on], factors, i) <==>
                 forall e | ScoredOn(hits, e, i) && e != q :: After(before[i], q, factors) <= factors[e])
    ensures i !in on ==> (Cheapest(after, hits[q := on], factors, i) <==> Cheapest(before, hits, factors, i))
  {
    var more := hits[q := on];
    if i in on {
      assert after[i].Some? && factors[after[i].value] == After(before[i], q, factors);
      if Cheapest(after, more, factors, i) {
        forall e | ScoredOn(hits, e, i) && e != q
          ensures After(before[i], q, factors) <= factors[e]
        {
          assert ScoredOn(more, e, i);
        }
      }
    } else {
      assert after[i] == before[i];
      if Cheapest(after, more, factors, i) {
        forall e | ScoredOn(hits, e, i)
          ensures factors[before[i].value] <= factors[e]
        {
          assert ScoredOn(more, e, i);
        }
      }
    }
  }

  /** The factor of the holder after q was scored on a byte. */
  function After<E>(holder: Option<E>, q: E, factors: map<E, int>): int
    requires q in factors && (holder.Some? ==> holder.value in factors)
  {
    if holder.Some? then Min(factors[q], factors[holder.value]) else factors[q]
  }

  /** A new factor and then a scoring, as in calibrating again and trimming: only a holder that rises spoils a byte. */
  lemma RescoredExact<E>(before: seq<Option<E>>, after: seq<Option<E>>, hits: Hits<E>, q: E, factors: map<E, int>,
                         factor: int, i: nat)
    requires HeldByScored(before, hits, factors) && ScoredOn(hits, q, i)
    requires Scored(before, after, hits[q], q, factors[q := factor], |before|)
    requires Cheapest(before, hits, factors, i)
    ensures Cheapest(after, hits, factors[q := factor], i) <==>
              before[i] != Some(q) || forall e | ScoredOn(hits, e, i) && e != q :: factor <= factors[e]
    ensures factor <= factors[q] ==> Cheapest(after, hits, factors[q := factor], i)
  {
    var f := factors[q := factor];
    assert HeldByScored(before, hits, f);
    ScoringExact(before, after, hits, hits[q], q, f, i);
    assert hits[q := hits[q]] == hits;
    if before[i] == Some(q) && Cheapest(after, hits, f, i) {
      forall e | ScoredOn(hits, e, i) && e != q
        ensures factor <= factors[e]
      {
        assert After(before[i], q, f) <= f[e];
      }
    }
  }

  /** A holder that rises above an entry turned away before lets in one that is worse still. */
  lemma ChangedFactorBreaksBest()
    ensures var w, e, q := 1, 2, 3;
            var hits: Hits<int> := map[w := {0}, e := {0}];
            var s0, s1 := [Some(w)], [Some(q)];
            var f0 := map[w := 5, e := 7, q := 9];       // w holds the byte with factor 5
            var f1 := f0[w := 10];                       // later w gets more expensive
            && Scored(s0, s0, {0}, e, f0, 1)             // e was turned away
            && Scored(s0, s1, {0}, q, f1, 1)             // q gets in
            && Cheapest(s0, hits, f0, 0)
            && !Cheapest(s1, hits[q := {0}], f1, 0)
            && Overtaken(s0, hits, {}, f0, w, 10) == {0}
  {
    var hits: Hits<int> := map[1 := {0}, 2 := {0}];
    var f0 := map[1 := 5, 2 := 7, 3 := 9];
    assert ScoredOn(hits, 2, 0) && f0[2] < 10;
    assert ScoredOn(hits[3 := {0}], 2, 0);
  }
}
