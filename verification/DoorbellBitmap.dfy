/** The two 64-bit words that record which doorbell-record slots are taken, as values. A word
    is given by its bits, lowest first. */
module DoorbellBitmap {

  const SLOTS: nat := 128
  const PAIRS: nat := 64

  type Word = w: seq<bool> | |w| == 64 witness seq(64, _ => false)
  type Words = w: seq<Word> | |w| == 2 witness [seq(64, _ => false), seq(64, _ => false)]

  predicate Taken(words: Words, slot: nat)
    requires slot < SLOTS
  {
    words[slot / 64][slot % 64]
  }

  function Take(words: Words, slot: nat): Words
    requires slot < SLOTS
  {
    words[slot / 64 := words[slot / 64][slot % 64 := true]]
  }

  function Free(words: Words, slot: nat): Words
    requires slot < SLOTS
  {
    words[slot / 64 := words[slot / 64][slot % 64 := false]]
  }

  /** Taking or freeing a run of slots, lowest first. */
  function TakeRun(words: Words, slot: nat, count: nat): Words
    requires slot + count <= SLOTS
  {
    if count == 0 then words else Take(TakeRun(words, slot, count - 1), slot + count - 1)
  }

  function FreeRun(words: Words, slot: nat, count: nat): Words
    requires slot + count <= SLOTS
  {
    if count == 0 then words else Free(FreeRun(words, slot, count - 1), slot + count - 1)
  }

  predicate Fits(words: Words, slot: nat, count: nat) {
    slot + count <= SLOTS && forall i :: slot <= i < slot + count ==> !Taken(words, i)
  }

  /** What a first-fit search promises. */
  ghost predicate FirstFit(words: Words, count: nat, slot: nat) {
    Fits(words, slot, count) && forall s :: 0 <= s < slot ==> !Fits(words, s, count)
  }

  // Single slots

  lemma TakenAfterTake(words: Words, slot: nat, other: nat)
    requires slot < SLOTS && other < SLOTS
    ensures Taken(Take(words, slot), other) <==> other == slot || Taken(words, other)
  {
  }

  lemma TakenAfterFree(words: Words, slot: nat, other: nat)
    requires slot < SLOTS && other < SLOTS
    ensures Taken(Free(words, slot), other) <==> other != slot && Taken(words, other)
  {
  }

  /** Freeing a slot that was free before it was taken restores the words themselves. */
  lemma FreeUndoesTake(words: Words, slot: nat)
    requires slot < SLOTS && !Taken(words, slot)
    ensures Free(Take(words, slot), slot) == words
  {
    var w := words[slot / 64];
    assert w[slot % 64 := true][slot % 64 := false] == w;
  }

  lemma FreesCommute(words: Words, s: nat, t: nat)
    requires s < SLOTS && t < SLOTS
    ensures Free(Free(words, s), t) == Free(Free(words, t), s)
  {
    if s / 64 == t / 64 {
      var w := words[s / 64];
      assert w[s % 64 := false][t % 64 := false] == w[t % 64 := false][s % 64 := false];
    }
  }

  // Runs of slots

  lemma {:induction false} TakenAfterRun(words: Words, slot: nat, count: nat, other: nat)
    requires slot + count <= SLOTS && other < SLOTS
    ensures Taken(TakeRun(words, slot, count), other)
            <==> slot <= other < slot + count || Taken(words, other)
    ensures Taken(FreeRun(words, slot, count), other)
            <==> !(slot <= other < slot + count) && Taken(words, other)
  {
    hide Taken, Take, Free;
    if count > 0 {
      TakenAfterRun(words, slot, count - 1, other);
      TakenAfterTake(TakeRun(words, slot, count - 1), slot + count - 1, other);
      TakenAfterFree(FreeRun(words, slot, count - 1), slot + count - 1, other);
    }
  }

  lemma {:induction false} FreeRunLast(words: Words, slot: nat, count: nat, last: nat)
    requires slot + count <= SLOTS && last < SLOTS
    ensures FreeRun(Free(words, last), slot, count) == Free(FreeRun(words, slot, count), last)
  {
    hide Taken, Take, Free;
    if count > 0 {
      FreeRunLast(words, slot, count - 1, last);
      FreesCommute(FreeRun(words, slot, count - 1), last, slot + count - 1);
    }
  }

  /** Freeing the run that an allocation took restores both words bit for bit. */
  lemma {:induction false} FreeRunUndoesTakeRun(words: Words, slot: nat, count: nat)
    requires Fits(words, slot, count)
    ensures FreeRun(TakeRun(words, slot, count), slot, count) == words
  {
    hide Taken, Take, Free;
    if count > 0 {
      var last, taken := slot + count - 1, TakeRun(words, slot, count - 1);
      TakenAfterRun(words, slot, count - 1, last);
      FreeRunLast(Take(taken, last), slot, count - 1, last);
      FreeUndoesTake(taken, last);
      FreeRunLast(Take(taken, last), slot, count - 1, last);
      assert Fits(words, slot, count - 1);
      FreeRunUndoesTakeRun(words, slot, count - 1);
    }
  }

  // Pairs

  /** Slots are taken in even-aligned pairs only. */
  ghost predicate InPairs(words: Words) {
    forall p :: 0 <= p < PAIRS ==> (Taken(words, 2 * p) <==> Taken(words, 2 * p + 1))
  }

  ghost predicate PairLive(words: Words, p: nat)
    requires p < PAIRS
  {
    Taken(words, 2 * p)
  }

  /** When only pairs are taken, a first-fit search for two slots finds an even-aligned pair,
      the lowest free one, and it fails only when all 64 pairs are live. */
  lemma PairSearch(words: Words, slot: nat)
    requires InPairs(words)
    ensures FirstFit(words, 2, slot) ==> LowestFreePair(words, slot)
    ensures (exists s :: 0 <= s && Fits(words, s, 2)) <==> exists p :: 0 <= p < PAIRS && !PairLive(words, p)
  {
    hide Taken, Fits, PairLive;
    forall p | 0 <= p < PAIRS && !PairLive(words, p) ensures Fits(words, 2 * p, 2) {
      FreePairFits(words, p);
    }
    forall s | 0 <= s && Fits(words, s, 2) ensures 0 <= s / 2 < PAIRS && !PairLive(words, s / 2) {
      RoomIsPair(words, s);
    }
    if FirstFit(words, 2, slot) {
      RoomIsPair(words, slot);
      FreePairFits(words, slot / 2);
    }
  }

  ghost predicate LowestFreePair(words: Words, slot: nat) {
    && slot % 2 == 0 && slot / 2 < PAIRS && !PairLive(words, slot / 2)
    && forall p :: 0 <= p < slot / 2 ==> PairLive(words, p)
  }

  lemma FreePairFits(words: Words, p: nat)
    requires InPairs(words) && p < PAIRS && !PairLive(words, p)
    ensures Fits(words, 2 * p, 2)
  {
    hide Taken;
  }

  lemma RoomIsPair(words: Words, s: nat)
    requires InPairs(words) && Fits(words, s, 2)
    ensures s / 2 < PAIRS && !PairLive(words, s / 2)
  {
    hide Taken;
    assert !Taken(words, s);
    assert s == 2 * (s / 2) || s == 2 * (s / 2) + 1;
  }

  /** Taking or freeing pair p changes the liveness of that pair alone. */
  lemma PairSteps(words: Words, p: nat)
    requires InPairs(words) && p < PAIRS
    ensures InPairs(TakeRun(words, 2 * p, 2)) && InPairs(FreeRun(words, 2 * p, 2))
    ensures forall q :: 0 <= q < PAIRS ==>
              && (PairLive(TakeRun(words, 2 * p, 2), q) <==> q == p || PairLive(words, q))
              && (PairLive(FreeRun(words, 2 * p, 2), q) <==> q != p && PairLive(words, q))
  {
    hide Taken, Take, Free;
    forall q | 0 <= q < PAIRS
      ensures && (Taken(TakeRun(words, 2 * p, 2), 2 * q) <==> q == p || Taken(words, 2 * q))
              && (Taken(TakeRun(words, 2 * p, 2), 2 * q + 1) <==> q == p || Taken(words, 2 * q))
              && (Taken(FreeRun(words, 2 * p, 2), 2 * q) <==> q != p && Taken(words, 2 * q))
              && (Taken(FreeRun(words, 2 * p, 2), 2 * q + 1) <==> q != p && Taken(words, 2 * q))
    {
      TakenAfterRun(words, 2 * p, 2, 2 * q);
      TakenAfterRun(words, 2 * p, 2, 2 * q + 1);
    }
  }

  /** The live pairs of a bitmap. */
  ghost function LivePairs(words: Words): set<nat> {
    set p | 0 <= p < PAIRS && PairLive(words, p)
  }

  /** The first n pairs. */
  ghost function FirstPairs(n: nat): (r: set<nat>)
    ensures |r| == n && forall p: nat :: p in r <==> p < n
  {
    if n == 0 then {} else FirstPairs(n - 1) + {n - 1}
  }

  lemma {:induction false} SubsetCount(a: set<nat>, b: set<nat>)
    requires a <= b
    ensures |a| <= |b| && (|a| == |b| ==> a == b)
  {
    if a != {} {
      var x :| x in a;
      SubsetCount(a - {x}, b - {x});
      assert a == a - {x} + {x} && b == b - {x} + {x};
    }
  }

  /** A set of pairs has fewer than 64 exactly if one is missing. */
  lemma FullIffCounted(live: set<nat>)
    requires forall p :: p in live ==> 0 <= p < PAIRS
    ensures |live| <= 64 && (|live| < 64 <==> exists p :: 0 <= p < PAIRS && p !in live)
  {
    SubsetCount(live, FirstPairs(PAIRS));
    if forall p :: 0 <= p < PAIRS ==> p in live {
      assert live == FirstPairs(PAIRS);
    }
  }

  lemma LivePairsStep(words: Words, p: nat)
    requires InPairs(words) && p < PAIRS
    ensures LivePairs(TakeRun(words, 2 * p, 2)) == LivePairs(words) + {p}
    ensures LivePairs(FreeRun(words, 2 * p, 2)) == LivePairs(words) - {p}
  {
    hide Taken, TakeRun, FreeRun;
    PairSteps(words, p);
  }
}
