/**
  The fuzzing queue: adding entries, scoring them against the holders of the
  map bytes they hit, choosing favorites and finishing entries.
 */
module Queue {
  import opened Bytes
  import opened Words
  import opened Favorites

  class QueueEntry {
    var execUs: u64
    var len: u32
    var tcRef: int
    var traceMini: Option<seq<byte>>
    var favored: bool
    var wasFuzzed: bool
    var calFailed: nat // calibrations begun since the last one that succeeded
    var trimDone: bool

    constructor (len: u32)
      ensures execUs == 0 && this.len == len && tcRef == 0 && traceMini == None
      ensures !favored && !wasFuzzed && !trimDone && calFailed == 0
    {
      execUs, this.len, tcRef, traceMini := 0, len, 0, None;
      favored, wasFuzzed, trimDone, calFailed := false, false, false, 0;
    }

    /** Execution time times size, in 64 bits; smaller is better. */
    function Factor(): int
      reads this`execUs, this`len
    {
      (execUs * len) % M64
    }
  }

  /** The bytes of the map that are not zero. */
  function HitBytes(trace: seq<byte>): set<nat> {
    set i: nat | i < |trace| && trace[i] != 0
  }

  /** Drops the counts: one bit per byte of the map. */
  method MinimizeBits(src: array<byte>) returns (dst: array<byte>)
    requires src.Length == MAP_SIZE
    ensures fresh(dst) && Packs(dst[..], HitBytes(src[..]), MAP_SIZE)
  {
    dst := new byte[MAP_SIZE / 8](_ => 0);
    forall k: nat | k < MAP_SIZE ensures !Bit(dst[..], k) { DigitOfZero(k % 8); }
    var i := 0;
    while i < MAP_SIZE
      invariant 0 <= i <= MAP_SIZE
      invariant forall k: nat | k < MAP_SIZE :: Bit(dst[..], k) <==> k < i && src[k] != 0
    {
      if src[i] != 0 {
        ghost var before := dst[..];
        dst[i / 8] := SetBit(dst[i / 8], i % 8);
        forall k: nat | k < MAP_SIZE ensures Bit(dst[..], k) <==> k == i || Bit(before, k) {
          SetBitSets(before, i, k);
          assert dst[..] == before[i / 8 := SetBit(before[i / 8], i % 8)];
        }
      }
      i := i + 1;
    }
  }

  /** b | 1 << k */
  function SetBit(b: byte, k: nat): byte
    requires k < 8
  {
    Powers8();
    Pow2Below(k, 8);
    OrBound(b, Pow2(k), 8);
    Or(b, Pow2(k))
  }

  lemma Powers8()
    ensures Pow2(8) == 256
  {
    assert Pow2(4) == 16;
  }

  lemma {:induction false} Pow2Below(a: nat, b: nat)
    requires a < b
    ensures Pow2(a) < Pow2(b)
  {
    if a < b - 1 { Pow2Below(a, b - 1); }
  }

  lemma SetBitSets(m: seq<byte>, i: nat, k: nat)
    requires i / 8 < |m| && k / 8 < |m|
    ensures Bit(m[i / 8 := SetBit(m[i / 8], i % 8)], k) <==> k == i || Bit(m, k)
  {
    OrDigit(m[i / 8], Pow2(i % 8), k % 8);
    Pow2Digit(i % 8, k % 8);
  }

  /** Clears in the map every bit of a compacted trace. */
  method ClearBits(tempV: array<byte>, mini: seq<byte>)
    requires tempV.Length == |mini|
    modifies tempV
    ensures forall k: nat | k < 8 * |mini| :: Bit(tempV[..], k) <==> old(Bit(tempV[..], k)) && !Bit(mini, k)
  {
    var j := tempV.Length;
    while j > 0
      invariant 0 <= j <= tempV.Length
      invariant forall m | 0 <= m < j :: tempV[m] == old(tempV[m])
      invariant forall m | j <= m < tempV.Length :: tempV[m] == AndNot(old(tempV[m]), mini[m])
    {
      j := j - 1;
      if mini[j] != 0 {
        AndNotBound(tempV[j], mini[j]);
        tempV[j] := AndNot(tempV[j], mini[j]);
      } else {
        AndNotZero(tempV[j]);
      }
    }
    forall k: nat | k < 8 * |mini| ensures Bit(tempV[..], k) <==> old(Bit(tempV[..], k)) && !Bit(mini, k) {
      AndNotDigit(old(tempV[k / 8]), mini[k / 8], k % 8);
      DigitRange(mini[k / 8], k % 8);
    }
  }

  lemma {:induction false} AllOnes(n: nat, k: nat)
    requires k < n
    ensures Digit(Pow2(n) - 1, k) == 1
  {
    if k > 0 { AllOnes(n - 1, k - 1); }
  }

  class Fuzzer {
    const dumbMode: bool
    const traceBits: array<byte>
    const topRated: array<QueueEntry?>
    var queue: seq<QueueEntry>
    var scoreChanged: bool
    var queuedFavored: int
    var pendingFavored: int
    var pendingNotFuzzed: int
    ghost var hits: Hits<QueueEntry>
    ghost var stale: set<QueueEntry> // entries that got cheaper and were not scored again yet
    ghost var spoiled: set<nat>      // bytes whose holder rose above another entry scored on them

    constructor (dumbMode: bool)
      ensures Valid() && queue == [] && hits == map[] && stale == {} && spoiled == {} && this.dumbMode == dumbMode
      ensures fresh(traceBits) && fresh(topRated)
    {
      this.dumbMode := dumbMode;
      traceBits := new byte[MAP_SIZE](_ => 0);
      topRated := new QueueEntry?[MAP_SIZE](_ => null);
      queue, scoreChanged, queuedFavored, pendingFavored, pendingNotFuzzed := [], false, 0, 0, 0;
      hits, stale, spoiled := map[], {}, {};
    }

    // ---------- the abstract state ----------

    ghost function Slots(): seq<Option<QueueEntry>>
      reads topRated
    {
      seq(topRated.Length, i requires 0 <= i < topRated.Length reads topRated =>
        if topRated[i] == null then None else Some(topRated[i]))
    }

    ghost function Refs(): map<QueueEntry, int>
      reads this`queue, queue`tcRef
    {
      map e | e in queue :: e.tcRef
    }

    ghost function Minis(): map<QueueEntry, Option<seq<byte>>>
      reads this`queue, queue`traceMini
    {
      map e | e in queue :: e.traceMini
    }

    ghost function Factors(): map<QueueEntry, int>
      reads this`queue, queue`execUs, queue`len
    {
      map e | e in queue :: e.Factor()
    }

    ghost function State(): Board<QueueEntry>
      reads this`queue, topRated, queue`tcRef, queue`traceMini
    {
      Board(Slots(), Refs(), Minis())
    }

    ghost function Pending(): set<QueueEntry>
      reads this`queue, queue`wasFuzzed
    {
      set e | e in queue && !e.wasFuzzed
    }

    ghost function Favored(): set<QueueEntry>
      reads this`queue, queue`favored
    {
      set e | e in queue && e.favored
    }

    ghost predicate Valid()
      reads this, traceBits, topRated, queue
    {
      && traceBits.Length == topRated.Length == MAP_SIZE
      && Consistent(State(), hits)
      && Best(Slots(), hits, stale, spoiled, Factors())
      && (!scoreChanged ==> CoveredBy(Slots(), hits, Favored()))
      && pendingNotFuzzed == |Pending()|
      && pendingFavored == |Favored() * Pending()|
    }

    // ---------- scoring ----------

    /** --top_rated[i]->tc_ref, dropping the compacted trace with the last reference. */
    method Lose(w: QueueEntry)
      requires w in queue
      modifies w`tcRef, w`traceMini
      ensures State() == Unref(old(State()), w)
    {
      w.tcRef := w.tcRef - 1;
      if w.tcRef == 0 {
        w.traceMini := None;
      }
    }

    /** q becomes the holder; its trace is compacted unless that was done for an earlier slot. */
    method Gain(i: nat, q: QueueEntry)
      requires q in queue && i < topRated.Length && traceBits.Length == MAP_SIZE
      modifies topRated, q`tcRef, q`traceMini
      ensures q.traceMini.Some?
      ensures if old(q.traceMini).Some? then q.traceMini == old(q.traceMini)
              else Packs(q.traceMini.value, HitBytes(traceBits[..]), MAP_SIZE)
      ensures State() == Give(old(State()), i, q, q.traceMini.value)
    {
      topRated[i] := q;
      q.tcRef := q.tcRef + 1;
      if q.traceMini.None? {
        var dst := MinimizeBits(traceBits);
        q.traceMini := Some(dst[..]);
      }
    }

    /** q takes slot i from its holder, if there is one. */
    method TakeSlot(i: nat, q: QueueEntry, ghost on: set<nat>)
      requires traceBits.Length == topRated.Length == MAP_SIZE && i < MAP_SIZE && q in queue
      requires Consistent(State(), hits) && q in hits && hits[q] == on == HitBytes(traceBits[..]) && i in on
      modifies topRated, this`scoreChanged, queue`tcRef, queue`traceMini
      ensures Consistent(State(), hits) && scoreChanged
      ensures Slots() == old(Slots())[i := Some(q)]
    {
      hide Consistent, Slots, Refs, Minis, Packs;
      ghost var b := State();
      SlotHolders(b, i);
      EntryState(q);
      if topRated[i] != null {
        Lose(topRated[i]);
      }
      EntryState(q);
      Gain(i, q);
      scoreChanged := true;
      WinConsistent(b, hits, i, q, q.traceMini.value);
    }

    lemma EntryState(q: QueueEntry)
      requires q in queue
      ensures q in State().refs && State().refs[q] == q.tcRef && q in State().minis && State().minis[q] == q.traceMini
    {}

    lemma SlotHolders(b: Board<QueueEntry>, i: nat)
      requires b == State() && Consistent(b, hits) && i < topRated.Length
      ensures topRated[i] != null ==>
        b.slots[i] == Some(topRated[i]) && topRated[i] in queue && topRated[i] in hits && i in hits[topRated[i]]
      ensures topRated[i] == null ==> b.slots[i] == None
      ensures |b.slots| == topRated.Length
    {}

    /** Byte i in the loop of update_bitmap_score. */
    method ScoreByte(i: nat, q: QueueEntry, favFactor: int, ghost before: seq<Option<QueueEntry>>, ghost on: set<nat>)
      requires traceBits.Length == topRated.Length == MAP_SIZE && i < MAP_SIZE && q in queue && favFactor == q.Factor()
      requires Consistent(State(), hits) && q in hits && hits[q] == on == HitBytes(traceBits[..])
      requires Scored(before, Slots(), on, q, Factors(), i) && |before| == MAP_SIZE
      modifies this`scoreChanged, topRated, queue`tcRef, queue`traceMini
      ensures Consistent(State(), hits) && Scored(before, Slots(), on, q, Factors(), i + 1)
      ensures old(scoreChanged) ==> scoreChanged
      ensures scoreChanged || Slots() == old(Slots())
    {
      hide Consistent, Scored, State, Slots;
      ScoredStep(before, Slots(), on, q, Factors(), i);
      SlotAt(i);
      if traceBits[i] != 0 {
        if topRated[i] != null {
          HolderInQueue(i);
          if favFactor > topRated[i].Factor() {
            return;
          }
        }
        TakeSlot(i, q, on);
      }
    }

    method ScoreAllBytes(q: QueueEntry, ghost before: seq<Option<QueueEntry>>, ghost on: set<nat>)
      requires traceBits.Length == topRated.Length == MAP_SIZE && q in queue
      requires Consistent(State(), hits) && q in hits && hits[q] == on == HitBytes(traceBits[..])
      requires Scored(before, Slots(), on, q, Factors(), 0) && |before| == MAP_SIZE && before == Slots()
      modifies this`scoreChanged, topRated, queue`tcRef, queue`traceMini
      ensures Consistent(State(), hits) && Scored(before, Slots(), on, q, Factors(), MAP_SIZE)
      ensures (old(scoreChanged) ==> scoreChanged) && (scoreChanged || Slots() == before)
    {
      hide Consistent, Scored, State, Slots;
      var favFactor := q.Factor();
      var i := 0;
      while i < MAP_SIZE
        invariant 0 <= i <= MAP_SIZE
        invariant Consistent(State(), hits) && Scored(before, Slots(), on, q, Factors(), i)
        invariant (old(scoreChanged) ==> scoreChanged) && (scoreChanged || Slots() == before)
      {
        ScoreByte(i, q, favFactor, before, on);
        i := i + 1;
      }
    }

    /** q takes a byte it hits from nobody, or from a holder that costs at least as much. */
    ghost predicate Rated(i: nat, q: QueueEntry, was: QueueEntry?)
      requires i < topRated.Length == traceBits.Length
      reads topRated, traceBits, q, was
    {
      topRated[i] == if traceBits[i] != 0 && (was == null || q.Factor() <= was.Factor()) then q else was
    }

    lemma ScoredRates(i: nat, q: QueueEntry, was: QueueEntry?, before: seq<Option<QueueEntry>>, on: set<nat>)
      requires topRated.Length == traceBits.Length && on == HitBytes(traceBits[..]) && q in queue
      requires Scored(before, Slots(), on, q, Factors(), |before|)
      requires i < |before| && before[i] == if was == null then None else Some(was)
      ensures i < topRated.Length && Rated(i, q, was)
    {
      hide QueueEntry.Factor;
      SlotAt(i);
    }

    /** Scores q on the bytes its last run hit. The entry must always be scored on the same bytes. */
    method UpdateBitmapScore(q: QueueEntry)
      requires Valid() && q in queue && (q in hits ==> hits[q] == HitBytes(traceBits[..]))
      modifies this`scoreChanged, this`hits, this`stale, this`spoiled, topRated, queue`tcRef, queue`traceMini
      ensures Valid() && hits == old(hits)[q := HitBytes(traceBits[..])] && stale == old(stale) - {q}
      ensures spoiled == old(spoiled) - Settled(Slots(), hits, stale, Factors(), hits[q])
      ensures Scored(old(Slots()), Slots(), hits[q], q, Factors(), MAP_SIZE)
      ensures forall i: nat | i < MAP_SIZE :: Rated(i, q, old(topRated[i]))
    {
      hide Consistent, Scored, State, Slots, Best, Settled, CoveredBy, Favored, Pending, Factors;
      hide Rated;
      ghost var on, before, was := HitBytes(traceBits[..]), Slots(), topRated[..];
      SlotsAre(was);
      Admit(q, on);
      ScoreAllBytes(q, before, on);
      forall i: nat | i < MAP_SIZE ensures Rated(i, q, was[i]) {
        ScoredRates(i, q, was[i], before, on);
      }
      RecordScoring(q, before, old(hits), on);
    }

    /** q counts as scored on these bytes from now on. */
    ghost method Admit(q: QueueEntry, on: set<nat>)
      requires Consistent(State(), hits) && q in queue && (q in hits ==> hits[q] == on) && on == HitBytes(traceBits[..])
      modifies this`hits
      ensures hits == old(hits)[q := on] && Consistent(State(), hits)
      ensures CoveredBy(Slots(), old(hits), Favored()) ==> CoveredBy(Slots(), hits, Favored())
      ensures Scored(Slots(), Slots(), on, q, Factors(), 0) && |Slots()| == topRated.Length
    {
      hide *;
      MoreHitsConsistent(State(), hits, q, on);
      StartScoring(q, Slots());
      if CoveredBy(Slots(), hits, Favored()) {
        MoreHitsCovered(Slots(), hits, Favored(), q, on);
      }
      hits := hits[q := on];
    }

    /** q is not stale any more, and bytes it hits may be back with their cheapest entry. */
    ghost method RecordScoring(q: QueueEntry, before: seq<Option<QueueEntry>>, scored: Hits<QueueEntry>, on: set<nat>)
      requires Best(before, scored, stale, spoiled, Factors()) && Scored(before, Slots(), on, q, Factors(), |before|)
      requires hits == scored[q := on] && (q in scored ==> scored[q] == on) && forall i | i in on :: i < |before|
      modifies this`stale, this`spoiled
      ensures Best(Slots(), hits, stale, spoiled, Factors()) && stale == old(stale) - {q}
      ensures spoiled == old(spoiled) - Settled(Slots(), hits, stale, Factors(), on)
    {
      hide *;
      ScoredBest(before, Slots(), scored, on, q, stale, spoiled, Factors());
      stale := stale - {q};
      spoiled := spoiled - Settled(Slots(), hits, stale, Factors(), on);
    }

    lemma HolderInQueue(i: nat)
      requires i < topRated.Length && Consistent(State(), hits) && topRated[i] != null
      ensures topRated[i] in queue
    {
      SlotAt(i);
    }

    lemma SlotAt(i: nat)
      requires i < topRated.Length
      ensures |Slots()| == topRated.Length && Slots()[i] == if topRated[i] == null then None else Some(topRated[i])
    {}

    lemma SlotsAre(was: seq<QueueEntry?>)
      requires was == topRated[..]
      ensures |Slots()| == |was| == topRated.Length
      ensures forall i | 0 <= i < |was| :: Slots()[i] == if was[i] == null then None else Some(was[i])
    {}

    lemma StartScoring(q: QueueEntry, before: seq<Option<QueueEntry>>)
      requires before == Slots() && q in queue && Consistent(State(), hits)
      ensures Scored(before, Slots(), HitBytes(traceBits[..]), q, Factors(), 0)
      ensures |before| == topRated.Length
    {}

    /** What every reached state says about an entry: references, compacted trace and slots agree. */
    lemma EntryInvariant(q: QueueEntry)
      requires Valid() && q in queue
      ensures q.tcRef == |set i: nat | i < MAP_SIZE && topRated[i] == q|
      ensures q.traceMini.Some? <==> q.tcRef > 0
      ensures forall i: nat | i < MAP_SIZE && topRated[i] == q :: q.traceMini.Some? && Bit(q.traceMini.value, i)
    {
      EntryState(q);
      assert (set i: nat | i < MAP_SIZE && topRated[i] == q) == Owned(State().slots, q);
      forall i: nat | i < MAP_SIZE && topRated[i] == q ensures q.traceMini.Some? && Bit(q.traceMini.value, i) {
        HolderMini(i);
        SlotHolders(State(), i);
      }
    }

    /** And about a byte: once scored on it has a holder, the cheapest entry up to stale ones, unless it was spoiled. */
    lemma HolderInvariant(i: nat, e: QueueEntry)
      requires Valid() && i < MAP_SIZE && ScoredOn(hits, e, i)
      ensures e in queue && topRated[i] != null && ScoredOn(hits, topRated[i], i)
      ensures i !in spoiled && e !in stale ==> topRated[i].Factor() <= e.Factor()
      ensures i !in spoiled ==> CheapestBut(Slots(), hits, stale, Factors(), i)
    {
      SlotAt(i);
    }

    lemma HitInMap(i: nat, e: QueueEntry)
      requires Valid() && ScoredOn(hits, e, i)
      ensures i < MAP_SIZE
    {
      assert i < |Slots()|;
    }

    // ---------- the other steps of a run ----------

    method NewEntry(len: u32) returns (q: QueueEntry)
      requires Valid()
      ensures Valid() && fresh(q) && q !in queue
      ensures q.len == len && q.execUs == 0 && q.tcRef == 0 && q.traceMini == None
      ensures !q.favored && !q.wasFuzzed && !q.trimDone && q.calFailed == 0
    {
      hide *;
      q := new QueueEntry(len);
    }

    method Append(q: QueueEntry)
      requires q !in queue && q.tcRef == 0 && q.traceMini == None && !q.favored && !q.wasFuzzed
      modifies this`queue
      ensures queue == old(queue) + [q]
      ensures Refs() == old(Refs())[q := 0] && Minis() == old(Minis())[q := None] && Slots() == old(Slots())
      ensures Pending() == old(Pending()) + {q} && Favored() == old(Favored()) && q !in old(Pending())
      ensures Factors() == old(Factors())[q := q.Factor()]
    {
      hide QueueEntry.Factor, Slots;
      queue := queue + [q];
    }

    lemma UnknownEntry(q: QueueEntry)
      requires q !in queue
      ensures q !in State().refs && q !in Factors() && q !in Pending() && q !in Favored()
    {}

    lemma Unscored(q: QueueEntry)
      requires Valid() && q !in queue
      ensures q !in hits
    {
      hide Consistent, Best, CoveredBy, Slots, Pending, Favored, Refs, Minis, Factors;
      ScoredAreQueued();
    }

    /** Links a new entry in at the end. */
    method Enlist(q: QueueEntry)
      requires Valid() && q !in queue && q.tcRef == 0 && q.traceMini == None && !q.favored && !q.wasFuzzed
      modifies this`queue, this`pendingNotFuzzed
      ensures Valid() && queue == old(queue) + [q] && pendingNotFuzzed == old(pendingNotFuzzed) + 1
    {
      hide Consistent, Best, CoveredBy, Slots, Pending, Favored, Refs, Minis, Factors, QueueEntry.Factor;
      ScoredAreQueued();
      UnknownEntry(q);
      NewEntryConsistent(State(), hits, q);
      BestWithMore(Slots(), hits, stale, spoiled, Factors(), q, q.Factor());
      assert Favored() * (Pending() + {q}) == Favored() * Pending();
      Append(q);
      pendingNotFuzzed := pendingNotFuzzed + 1;
    }

    /** Appends a new entry to the queue. */
    method AddToQueue(len: u32) returns (q: QueueEntry)
      requires Valid()
      modifies this`queue, this`pendingNotFuzzed
      ensures Valid() && fresh(q) && queue == old(queue) + [q] && pendingNotFuzzed == old(pendingNotFuzzed) + 1
      ensures q.len == len && q.execUs == 0 && !q.favored && !q.wasFuzzed && !q.trimDone && q.calFailed == 0
      ensures q !in hits
    {
      hide *;
      q := NewEntry(len);
      Unscored(q);
      Enlist(q);
    }

    method ChangeCost(q: QueueEntry, execUs: u64, len: u32)
      requires q in queue
      modifies q`execUs, q`len
      ensures Factors() == old(Factors())[q := (execUs * len) % M64]
      ensures State() == old(State()) && Slots() == old(Slots())
      ensures Favored() == old(Favored()) && Pending() == old(Pending())
      ensures q.execUs == execUs && q.len == len && q.Factor() == (execUs * len) % M64
    {
      q.execUs, q.len := execUs, len;
    }

    lemma ScoredAreQueued()
      requires Valid()
      ensures hits.Keys <= Factors().Keys && forall e | e in hits :: e in queue
    {
      forall e | e in hits
        ensures e in queue
      {
        assert e in hits.Keys && e in Factors();
      }
    }

    /**
      Calibration and trimming change what an entry costs. That matters only for
      an entry already scored: cheaper, it has to be scored again; more expensive,
      it spoils the bytes it holds on which somebody else now costs less.
     */
    method SetCost(q: QueueEntry, execUs: u64, len: u32)
      requires Valid() && q in queue
      modifies q`execUs, q`len, this`stale, this`spoiled
      ensures Valid() && q.execUs == execUs && q.len == len && q.Factor() == (execUs * len) % M64
      ensures stale == old(stale) + if q in hits && q.Factor() < old(q.Factor()) then {q} else {}
      ensures spoiled == old(spoiled) +
        if q in hits && q.Factor() > old(q.Factor())
        then Overtaken(Slots(), hits, old(stale), old(Factors()), q, q.Factor()) else {}
    {
      hide Consistent, Best, Overtaken, CoveredBy, Slots, State, Factors, Pending, Favored, QueueEntry.Factor;
      FactorOf(q);
      ghost var was := Factors();
      ChangeCost(q, execUs, len);
      RecordCost(q, was, q.Factor());
    }

    /** What a new factor of q means for the bytes it was scored on. */
    ghost method RecordCost(q: QueueEntry, was: map<QueueEntry, int>, factor: int)
      requires Best(Slots(), hits, stale, spoiled, was) && q in was
      requires Factors() == was[q := factor]
      modifies this`stale, this`spoiled
      ensures Best(Slots(), hits, stale, spoiled, Factors())
      ensures stale == old(stale) + if q in hits && factor < was[q] then {q} else {}
      ensures spoiled == old(spoiled) +
        if q in hits && factor > was[q] then Overtaken(Slots(), hits, old(stale), was, q, factor) else {}
    {
      hide *;
      if q !in hits {
        BestWithMore(Slots(), hits, stale, spoiled, was, q, factor);
      } else {
        ChangedBest(Slots(), hits, stale, spoiled, was, q, factor);
        if factor < was[q] {
          stale := stale + {q};
        } else if factor > was[q] {
          spoiled := spoiled + Overtaken(Slots(), hits, stale, was, q, factor);
        }
      }
    }

    lemma FactorOf(q: QueueEntry)
      requires q in queue
      ensures q in Factors() && Factors()[q] == q.Factor()
    {}

    /** A calibration that has begun counts as failed until it succeeds. */
    method BeginCalibration(q: QueueEntry)
      requires Valid() && q in queue
      modifies q`calFailed
      ensures Valid() && q.calFailed == old(q.calFailed) + 1
    {
      SetCalFailed(q, q.calFailed + 1);
    }

    method SetCalFailed(q: QueueEntry, n: nat)
      requires Valid() && q in queue
      modifies q`calFailed
      ensures Valid() && q.calFailed == n
    {
      hide Consistent, Best, CoveredBy, Slots, State, Factors, Pending, Favored;
      q.calFailed := n;
    }

    /** The end of a successful calibration: the entry gets its cost and is scored on the calibrated trace. */
    method FinishCalibration(q: QueueEntry, execUs: u64)
      requires Valid() && q in queue && (q in hits ==> hits[q] == HitBytes(traceBits[..]))
      modifies q`execUs, q`len, q`calFailed, this`scoreChanged, this`hits, this`stale, this`spoiled
      modifies topRated, queue`tcRef, queue`traceMini
      ensures Valid() && hits == old(hits)[q := HitBytes(traceBits[..])]
      ensures q.execUs == execUs && q.len == old(q.len) && q.calFailed == 0 && stale == old(stale) - {q}
      ensures q !in old(hits) || q.Factor() <= old(q.Factor()) ==> spoiled <= old(spoiled)
    {
      hide *;
      SetCost(q, execUs, q.len);
      SetCalFailed(q, 0);
      UpdateBitmapScore(q);
    }

    /** The trace of a run. */
    method LoadTrace(trace: seq<byte>)
      requires Valid() && |trace| == MAP_SIZE
      modifies traceBits
      ensures Valid() && traceBits[..] == trace
    {
      hide Consistent, Best, CoveredBy, Slots, State, Factors, Pending, Favored;
      forall k | 0 <= k < MAP_SIZE { traceBits[k] := trace[k]; }
    }

    method MarkTrimmed(q: QueueEntry)
      requires Valid() && q in queue
      modifies q`trimDone
      ensures Valid() && q.trimDone
    {
      hide Consistent, Best, CoveredBy, Slots, State, Factors, Pending, Favored;
      q.trimDone := true;
    }

    lemma ShorterIsCheaper(q: QueueEntry, len: u32)
      requires len <= q.len
      ensures q.execUs * q.len < M64 ==> (q.execUs * len) % M64 <= q.Factor()
    {
      assert q.execUs * q.len - q.execUs * len == q.execUs * (q.len - len) >= 0;
    }

    /** The end of a trim that shortened the entry: it got cheaper, at least when 64 bits hold its cost. */
    method FinishTrim(q: QueueEntry, len: u32)
      requires Valid() && q in queue && len <= q.len && (q in hits ==> hits[q] == HitBytes(traceBits[..]))
      modifies q`execUs, q`len, this`scoreChanged, this`hits, this`stale, this`spoiled
      modifies topRated, queue`tcRef, queue`traceMini
      ensures Valid() && hits == old(hits)[q := HitBytes(traceBits[..])]
      ensures q.len == len && q.execUs == old(q.execUs) && stale == old(stale) - {q}
      ensures q.execUs * old(q.len) < M64 ==> q.Factor() <= old(q.Factor()) && spoiled <= old(spoiled)
    {
      hide *;
      ShorterIsCheaper(q, len);
      SetCost(q, q.execUs, len);
      UpdateBitmapScore(q);
    }

    method MarkFuzzed(q: QueueEntry)
      requires q in queue
      modifies q`wasFuzzed
      ensures q.wasFuzzed && Pending() == old(Pending()) - {q}
      ensures State() == old(State()) && Slots() == old(Slots())
      ensures Factors() == old(Factors()) && Favored() == old(Favored())
    {
      q.wasFuzzed := true;
    }

    lemma Membership(q: QueueEntry)
      requires q in queue
      ensures (q in Pending() <==> !q.wasFuzzed) && (q in Favored() <==> q.favored)
    {}

    lemma OneLess(p: set<QueueEntry>, f: set<QueueEntry>, q: QueueEntry, after: set<QueueEntry>)
      requires q in p && after == p - {q}
      ensures |after| == |p| - 1 && |f * after| == |f * p| - if q in f then 1 else 0
    {
      assert f * after == f * p - {q};
    }

    /** The end of fuzzing an entry. */
    method FinishEntry(q: QueueEntry, stopSoon: bool)
      requires Valid() && q in queue
      modifies q`wasFuzzed, this`pendingNotFuzzed, this`pendingFavored
      ensures Valid()
      ensures q.wasFuzzed == (old(q.wasFuzzed) || (!stopSoon && q.calFailed == 0))
      ensures Pending() == old(Pending()) - (if q.wasFuzzed then {q} else {})
    {
      hide Consistent, Best, CoveredBy, Slots, State, Factors, Pending, Favored;
      Membership(q);
      if !stopSoon && q.calFailed == 0 && !q.wasFuzzed {
        OneLess(Pending(), Favored(), q, Pending() - {q});
        MarkFuzzed(q);
        pendingNotFuzzed := pendingNotFuzzed - 1;
        if q.favored {
          pendingFavored := pendingFavored - 1;
        }
      }
    }

    // ---------- choosing favorites ----------

    method ResetFavored()
      modifies queue`favored
      ensures Favored() == {}
      ensures State() == old(State()) && Slots() == old(Slots())
      ensures Factors() == old(Factors()) && Pending() == old(Pending())
    {
      hide State, Slots, Factors, Pending, QueueEntry.Factor;
      var n := 0;
      while n < |queue|
        invariant 0 <= n <= |queue| && forall m | 0 <= m < n :: !queue[m].favored
      {
        queue[n].favored := false;
        n := n + 1;
      }
    }

    method Favor(q: QueueEntry)
      requires q in queue
      modifies q`favored
      ensures Favored() == old(Favored()) + {q}
    {
      q.favored := true;
    }

    /** The holder of slot i covers its bytes from now on. */
    method CoverHolder(i: nat, tempV: array<byte>, ghost covered: set<nat>)
      requires i < topRated.Length == MAP_SIZE == 8 * tempV.Length && tempV != traceBits
      requires topRated[i] != null && Consistent(State(), hits)
      requires forall k: nat | k < MAP_SIZE :: Bit(tempV[..], k) <==> k !in covered
      modifies tempV
      ensures topRated[i] in hits
      ensures forall k: nat | k < MAP_SIZE :: Bit(tempV[..], k) <==> k !in covered + hits[topRated[i]]
    {
      hide Consistent, Slots, Refs, Minis, Bit;
      HolderMini(i);
      ClearBits(tempV, topRated[i].traceMini.value);
    }

    /** The counters after one more favorite. */
    method CountFavorite(w: QueueEntry)
      requires w in queue && w !in Favored()
      requires queuedFavored == |Favored()| && pendingFavored == |Favored() * Pending()|
      modifies this`queuedFavored, this`pendingFavored, w`favored
      ensures Favored() == old(Favored()) + {w} && queuedFavored == old(queuedFavored) + 1 == |Favored()|
      ensures pendingFavored == |Favored() * Pending()|
    {
      hide Favored, Pending;
      OneMoreFavored(w, Favored(), Pending());
      Membership(w);
      Favor(w);
      queuedFavored := queuedFavored + 1;
      if !w.wasFuzzed {
        pendingFavored := pendingFavored + 1;
      }
    }

    /** Slot i in the loop of cull_queue. */
    method PickAt(i: nat, tempV: array<byte>, ghost picks: seq<nat>, ghost covered: set<nat>)
      returns (ghost picks': seq<nat>, ghost covered': set<nat>)
      requires i < topRated.Length == MAP_SIZE == 8 * tempV.Length && tempV != traceBits
      requires Consistent(State(), hits) && Picking(State(), hits, picks, covered, i)
      requires Favored() == Chosen(State(), picks) && queuedFavored == |Favored()| == |picks|
        && pendingFavored == |Favored() * Pending()|
      requires forall k: nat | k < MAP_SIZE :: Bit(tempV[..], k) <==> k !in covered
      modifies this`queuedFavored, this`pendingFavored, queue`favored, tempV
      ensures Picking(State(), hits, picks', covered', i + 1)
      ensures Favored() == Chosen(State(), picks') && queuedFavored == |Favored()| == |picks'|
        && pendingFavored == |Favored() * Pending()|
      ensures forall k: nat | k < MAP_SIZE :: Bit(tempV[..], k) <==> k !in covered'
    {
      hide Consistent, Picking, Chosen, Picks, Slots, Refs, Minis, Favored, Pending, HitBytes;
      picks', covered' := picks, covered;
      SlotHolders(State(), i);
      BitAt(tempV, i);
      if topRated[i] != null && Digit(tempV[i / 8], i % 8) == 1 {
        var w := topRated[i];
        PickingTake(State(), hits, picks, covered, i);
        CoverHolder(i, tempV, covered);
        CountFavorite(w);
        picks', covered' := picks + [i], covered + hits[w];
      } else {
        PickingSkip(State(), hits, picks, covered, i);
      }
    }

    lemma BitAt(m: array<byte>, i: nat)
      requires i / 8 < m.Length
      ensures Bit(m[..], i) <==> Digit(m[i / 8], i % 8) == 1
    {}

    lemma HolderMini(i: nat)
      requires i < topRated.Length == MAP_SIZE && Consistent(State(), hits) && topRated[i] != null
      ensures topRated[i] in queue && topRated[i] in hits && topRated[i].traceMini.Some?
      ensures 8 * |topRated[i].traceMini.value| == MAP_SIZE
      ensures forall k: nat | k < MAP_SIZE :: Bit(topRated[i].traceMini.value, k) <==> k in hits[topRated[i]]
    {
      SlotHolders(State(), i);
      EntryState(topRated[i]);
      assert i in Owned(State().slots, topRated[i]);
    }

    lemma OneMoreFavored(w: QueueEntry, f: set<QueueEntry>, p: set<QueueEntry>)
      requires w !in f
      ensures |f + {w}| == |f| + 1 && |(f + {w}) * p| == |f * p| + if w in p then 1 else 0
    {
      assert (f + {w}) * p == f * p + if w in p then {w} else {};
    }

    /** Greedily picks holders until every byte with a holder is hit by a favorite. */
    method PickFavorites() returns (ghost picks: seq<nat>)
      requires traceBits.Length == topRated.Length == MAP_SIZE && Consistent(State(), hits)
      requires Favored() == {} && queuedFavored == pendingFavored == 0
      modifies this`queuedFavored, this`pendingFavored, queue`favored
      ensures picks == Picks(State(), hits, 0, {}) && Favored() == Chosen(State(), picks)
      ensures queuedFavored == |picks| == |Favored()| && pendingFavored == |Favored() * Pending()|
      ensures CoveredBy(Slots(), hits, Favored())
      ensures State() == old(State()) && Slots() == old(Slots())
      ensures Factors() == old(Factors()) && Pending() == old(Pending())
    {
      hide *;
      var tempV := NothingCovered();
      ghost var covered: set<nat> := {};
      picks := [];
      StartPicking();
      var i := 0;
      while i < MAP_SIZE
        invariant 0 <= i <= MAP_SIZE && Picking(State(), hits, picks, covered, i) && Consistent(State(), hits)
        invariant Favored() == Chosen(State(), picks) && queuedFavored == |Favored()| == |picks|
        invariant pendingFavored == |Favored() * Pending()|
        invariant forall k: nat | k < MAP_SIZE :: Bit(tempV[..], k) <==> k !in covered
      {
        picks, covered := PickAt(i, tempV, picks, covered);
        i := i + 1;
      }
      EndPicking(picks, covered);
    }

    lemma StartPicking()
      requires Consistent(State(), hits)
      ensures Picking(State(), hits, [], {}, 0) && Chosen(State(), []) == {}
    {
      PickingStart(State(), hits);
    }

    lemma EndPicking(picks: seq<nat>, covered: set<nat>)
      requires Picking(State(), hits, picks, covered, topRated.Length)
      ensures picks == Picks(State(), hits, 0, {}) && CoveredBy(Slots(), hits, Chosen(State(), picks))
    {
      PickingEnd(State(), hits, picks, covered);
    }

    /** A bit map with the bit of every byte still to cover. */
    method NothingCovered() returns (tempV: array<byte>)
      ensures fresh(tempV) && 8 * tempV.Length == MAP_SIZE
      ensures forall k: nat | k < MAP_SIZE :: Bit(tempV[..], k)
    {
      hide Bit;
      tempV := new byte[MAP_SIZE / 8](_ => 255);
      AllBitsSet(tempV);
    }

    lemma AllBitsSet(tempV: array<byte>)
      requires 8 * tempV.Length == MAP_SIZE && forall j | 0 <= j < tempV.Length :: tempV[j] == 255
      ensures forall k: nat | k < MAP_SIZE :: Bit(tempV[..], k)
    {
      Powers8();
      forall k: nat | k < MAP_SIZE ensures Bit(tempV[..], k) {
        AllOnes(8, k % 8);
      }
    }

    /** Chooses the favorites anew when some slot changed hands since the last time. */
    method CullQueue()
      requires Valid()
      modifies this`scoreChanged, this`queuedFavored, this`pendingFavored, queue`favored
      ensures Valid()
      ensures !dumbMode ==> CoveredBy(Slots(), hits, Favored())
      ensures !dumbMode && old(scoreChanged) ==>
                Favored() == Chosen(State(), Picks(State(), hits, 0, {})) && queuedFavored == |Favored()|
      ensures dumbMode || !old(scoreChanged) ==> Favored() == old(Favored())
    {
      hide Picks, Chosen, Consistent, Best, State, Slots, CoveredBy, Favored, Pending, Factors;
      if dumbMode || !scoreChanged {
        return;
      }
      scoreChanged := false;
      queuedFavored, pendingFavored := 0, 0;
      ResetFavored();
      ghost var picks := PickFavorites();
    }
  }
}
