// Suppression of repeated messages: a ring of the last eight fingerprints with the time each was
// last seen.
module DtuDedup {
  import opened Options
  import opened Words

  const CACHE_SIZE := 8
  const WINDOW := 60000        // ticks of 10 ms: ten minutes

  // An accepted message: its fingerprint, when it was last seen, and when it was let through.
  datatype Sighting = Sighting(hash: Word, seen: int, accepted: int)

  // The history of accepted messages; the ring holds its last eight.
  type History = seq<Sighting>

  predicate Cached(hist: History, i: int) {
    0 <= i < |hist| <= i + CACHE_SIZE
  }

  predicate Live(hist: History, i: int, h: Word, now: int) {
    Cached(hist, i) && hist[i].hash == h && now - hist[i].seen < WINDOW
  }

  // The entry that ring slot holds.
  function InSlot(hist: History, slot: nat): (i: nat)
    requires slot < CACHE_SIZE && slot < |hist|
    ensures Cached(hist, i) && i % CACHE_SIZE == slot
  {
    slot + CACHE_SIZE * ((|hist| - 1 - slot) / CACHE_SIZE)
  }

  // The scan of sms_is_duplicate from a slot on.
  function Scan(hist: History, slot: nat, h: Word, now: int): (r: Option<nat>)
    requires slot <= CACHE_SIZE
    ensures r.Some? ==> Live(hist, r.value, h, now)
    ensures r.None? ==> forall i: nat :: i % CACHE_SIZE >= slot ==> !Live(hist, i, h, now)
    decreases CACHE_SIZE - slot
  {
    if slot == CACHE_SIZE || slot >= |hist| then None
    else if Live(hist, InSlot(hist, slot), h, now) then Some(InSlot(hist, slot))
    else
      SlotIsUnique(hist, slot);
      Scan(hist, slot + 1, h, now)
  }

  lemma SlotIsUnique(hist: History, slot: nat)
    requires slot < CACHE_SIZE && slot < |hist|
    ensures forall i: nat :: Cached(hist, i) && i % CACHE_SIZE == slot ==> i == InSlot(hist, slot)
  {
  }

  lemma SlotsOfLength(a: History, b: History, slot: nat)
    requires |a| == |b| && slot < CACHE_SIZE && slot < |a|
    ensures InSlot(a, slot) == InSlot(b, slot)
  {
  }

  // Accepting one more message changes the slot it goes to and no other.
  lemma SlotsAfterAccept(a: History, b: History, slot: nat)
    requires |b| == |a| + 1 && slot < CACHE_SIZE && slot < |b|
    ensures slot == |a| % CACHE_SIZE ==> InSlot(b, slot) == |a|
    ensures slot != |a| % CACHE_SIZE ==> slot < |a| && InSlot(b, slot) == InSlot(a, slot)
  {
    if slot == |a| % CACHE_SIZE {
      SlotIsUnique(b, slot);
      assert Cached(b, |a|);
    } else {
      SlotIsUnique(b, slot);
      assert slot < |a|;
      assert Cached(b, InSlot(a, slot));
    }
  }

  // A message is a duplicate exactly when one of the last eight accepted has its fingerprint and
  // was seen less than a window ago.
  lemma DuplicateExactly(hist: History, h: Word, now: int)
    ensures Scan(hist, 0, h, now).Some? <==> exists i: nat :: Live(hist, i, h, now)
  {
    var r := Scan(hist, 0, h, now);
  }

  lemma ScanInside(hist: History, h: Word, now: int)
    ensures Scan(hist, 0, h, now).Some? ==> Scan(hist, 0, h, now).value < |hist|
  {
    var r := Scan(hist, 0, h, now);
  }

  // ---------------------------------------------------------------- runs

  // A parsed message arrives: checked at `now`, recorded at `later` if the queue takes it.
  datatype Arrival = Arrival(hash: Word, now: int, later: int, accepts: bool)

  function Next(hist: History, a: Arrival): History {
    match Scan(hist, 0, a.hash, a.now)
    case Some(i) => hist[i := hist[i].(seen := a.now)]
    case None => if a.accepts then hist + [Sighting(a.hash, a.later, a.now)] else hist
  }

  function Run(arrivals: seq<Arrival>): History {
    if arrivals == [] then [] else Next(Run(arrivals[..|arrivals| - 1]), arrivals[|arrivals| - 1])
  }

  lemma RunSnoc(arrivals: seq<Arrival>, a: Arrival)
    ensures Run(arrivals + [a]) == Next(Run(arrivals), a)
  {
    assert (arrivals + [a])[..|arrivals|] == arrivals;
  }

  // The clock does not run backwards.
  predicate InOrder(arrivals: seq<Arrival>, clock: int) {
    if arrivals == [] then true
    else
      var n := |arrivals| - 1;
      arrivals[n].now <= arrivals[n].later <= clock && InOrder(arrivals[..n], arrivals[n].now)
  }

  // Equal fingerprints let through with fewer than eight others between them are a full window
  // apart, counted from the last time the first was seen.
  predicate Spaced(hist: History, clock: int) {
    && (forall i :: 0 <= i < |hist| ==> hist[i].seen <= clock && hist[i].accepted <= clock)
    && (forall i, k :: 0 <= i < k < |hist| && k <= i + CACHE_SIZE && hist[i].hash == hist[k].hash
          ==> hist[k].accepted - hist[i].seen >= WINDOW)
  }

  lemma NextKeepsSpaced(hist: History, a: Arrival, clock: int)
    requires Spaced(hist, clock) && clock <= a.now <= a.later
    ensures Spaced(Next(hist, a), a.later)
  {
    var next := Next(hist, a);
    forall i, k | 0 <= i < k < |next| && k <= i + CACHE_SIZE && next[i].hash == next[k].hash
      ensures next[k].accepted - next[i].seen >= WINDOW
    {
      if k == |hist| {
        assert Cached(hist, i) && !Live(hist, i, a.hash, a.now);
      }
    }
  }

  // Over every run.
  lemma {:induction false} DedupGuarantee(arrivals: seq<Arrival>, clock: int)
    requires InOrder(arrivals, clock)
    ensures Spaced(Run(arrivals), clock)
    decreases |arrivals|
  {
    if arrivals != [] {
      hide Next;
      var n := |arrivals| - 1;
      DedupGuarantee(arrivals[..n], arrivals[n].now);
      NextKeepsSpaced(Run(arrivals[..n]), arrivals[n], arrivals[n].now);
      SpacedLater(Run(arrivals), arrivals[n].later, clock);
    }
  }

  lemma SpacedLater(hist: History, t: int, clock: int)
    requires Spaced(hist, t) && t <= clock
    ensures Spaced(hist, clock)
  {
  }

  // After every run, at most one unexpired entry per fingerprint is in the ring.
  lemma OneLiveEntry(arrivals: seq<Arrival>, clock: int, i: nat, k: nat, h: Word)
    requires InOrder(arrivals, clock)
    requires Live(Run(arrivals), i, h, clock) && Live(Run(arrivals), k, h, clock)
    ensures i == k
  {
    DedupGuarantee(arrivals, clock);
    hide Run;
  }

  // Being suppressed counts as being seen.
  lemma DuplicateRefreshes(hist: History, a: Arrival)
    requires exists i: nat :: Live(hist, i, a.hash, a.now)
    ensures var next := Next(hist, a);
            |next| == |hist| && exists i: nat :: Cached(next, i) && next[i].hash == a.hash && next[i].seen == a.now
  {
    DuplicateExactly(hist, a.hash, a.now);
    var i := Scan(hist, 0, a.hash, a.now).value;
    assert Cached(Next(hist, a), i);
  }

  // The same message once more: it is let through again from 60000 ticks, ten minutes, after it was
  // recorded.
  lemma WindowEdge(h: Word, now: int, at: int, gap: int)
    ensures |Run([Arrival(h, now, at, true), Arrival(h, at + gap, at + gap, true)])| == if gap < 60000 then 1 else 2
  {
    var a, b := Arrival(h, now, at, true), Arrival(h, at + gap, at + gap, true);
    var hist := [Sighting(h, at, now)];
    RunSnoc([], a);
    RunSnoc([a], b);
    assert [] + [a] == [a] && [a] + [b] == [a, b];
    DuplicateExactly([], h, now);
    assert Run([a]) == hist;
    DuplicateExactly(hist, h, at + gap);
    assert gap < 60000 ==> Live(hist, 0, h, at + gap);
  }

  // ---------------------------------------------------------------- messages read again and again

  // When a fingerprint was last read: at its accepted entry's time, or later.
  function LastRead(seen: int, more: seq<Arrival>, h: Word): int {
    if more == [] then seen
    else
      var n := |more| - 1;
      if more[n].hash == h then more[n].now else LastRead(seen, more[..n], h)
  }

  // It is read at least once in every window.
  predicate ReadOften(seen: int, more: seq<Arrival>, h: Word) {
    if more == [] then true
    else
      var n := |more| - 1;
      && ReadOften(seen, more[..n], h)
      && (more[n].hash == h ==> more[n].now - LastRead(seen, more[..n], h) < WINDOW)
  }

  // Entry i is the newest with this fingerprint.
  predicate Newest(hist: History, i: nat, h: Word) {
    i < |hist| && hist[i].hash == h && forall k :: i < k < |hist| ==> hist[k].hash != h
  }

  lemma NextSighted(hist: History, a: Arrival, clock: int, i: nat, h: Word)
    requires Spaced(hist, clock) && clock <= a.now && i < |hist|
    requires a.hash == h && |hist| <= i + CACHE_SIZE ==> a.now - hist[i].seen < WINDOW
    ensures var next := Next(hist, a);
            Newest(next, i, h) && |next| <= i + CACHE_SIZE ==>
              next[i].seen == if a.hash == h then a.now else hist[i].seen
  {
    var next := Next(hist, a);
    assert forall k :: 0 <= k < |hist| ==> hist[k].hash == next[k].hash;
    if a.hash == h && Newest(next, i, h) && |next| <= i + CACHE_SIZE {
      assert Live(hist, i, h, a.now);
    }
  }

  // Entry i of an earlier history is read in every window of what has arrived since, and nothing
  // of its fingerprint has been queued since.
  predicate KeptReading(was: History, hist: History, more: seq<Arrival>, i: nat, h: Word) {
    i < |was| && Newest(hist, i, h) && ReadOften(was[i].seen, more, h)
  }

  // While it is in the ring, it has the time of the last read.
  lemma {:induction false} ReadsSighted(all: seq<Arrival>, before: seq<Arrival>, more: seq<Arrival>, clock: int,
                                        was: History, hist: History, i: nat, h: Word)
    requires all == before + more && InOrder(all, clock) && was == Run(before) && hist == Run(all)
    requires KeptReading(was, hist, more, i, h)
    ensures |hist| <= i + CACHE_SIZE ==> hist[i].seen == LastRead(was[i].seen, more, h)
    decreases |more|
  {
    hide Next, Spaced, Newest, Run;
    if more == [] {
      assert before + more == before;
    } else {
      var n := |more| - 1;
      var most := before + more[..n];
      LastRun(before, more);
      RunSnoc(most, more[n]);
      DedupGuarantee(most, more[n].now);
      HistoryGrows(before, more[..n]);
      BeforeLast(Run(most), more[n], i, h);
      ReadsSighted(most, before, more[..n], more[n].now, was, Run(most), i, h);
      NextSighted(Run(most), more[n], more[n].now, i, h);
      NextGrows(Run(most), more[n]);
    }
  }

  lemma LastRun(before: seq<Arrival>, more: seq<Arrival>)
    requires more != []
    ensures var n := |more| - 1;
            && before + more == before + more[..n] + [more[n]]
            && forall clock :: InOrder(before + more, clock) ==> InOrder(before + more[..n], more[n].now)
  {
    var n := |more| - 1;
    assert (before + more)[..|before| + n] == before + more[..n];
  }

  lemma NextGrows(hist: History, a: Arrival)
    ensures |hist| <= |Next(hist, a)|
  {
  }

  lemma {:induction false} HistoryGrows(before: seq<Arrival>, more: seq<Arrival>)
    ensures |Run(before)| <= |Run(before + more)|
    decreases |more|
  {
    hide Run, Next;
    if more == [] {
      assert before + more == before;
    } else {
      var n := |more| - 1;
      LastRun(before, more);
      NextGrows(Run(before + more[..n]), more[n]);
      RunSnoc(before + more[..n], more[n]);
      HistoryGrows(before, more[..n]);
    }
  }

  lemma BeforeLast(hist: History, a: Arrival, i: nat, h: Word)
    requires i < |hist|
    ensures Newest(Next(hist, a), i, h) ==> Newest(hist, i, h)
  {
    var next := Next(hist, a);
    assert forall k :: 0 <= k < |hist| ==> hist[k].hash == next[k].hash;
  }

  // Refreshing does not keep a message that is read in every window suppressed: as long as it has
  // not been queued again, its next read is a duplicate exactly when fewer than eight others have
  // been accepted since it was; otherwise it is queued again if the queue takes it.
  lemma ReadAgain(all: seq<Arrival>, before: seq<Arrival>, more: seq<Arrival>, was: History, hist: History, i: nat,
                  h: Word, now: int, later: int, accepts: bool)
    requires all == before + more && InOrder(all, now) && was == Run(before) && hist == Run(all)
    requires KeptReading(was, hist, more, i, h)
    ensures var others := |hist| - 1 - i;
            now - LastRead(was[i].seen, more, h) < WINDOW ==>
              && ((exists k: nat :: Live(hist, k, h, now)) <==> others < CACHE_SIZE)
              && |Run(all + [Arrival(h, now, later, accepts)])| ==
                   |hist| + if others >= CACHE_SIZE && accepts then 1 else 0
  {
    hide Run, InOrder;
    ReadsSighted(all, before, more, now, was, hist, i, h);
    RunSnoc(all, Arrival(h, now, later, accepts));
    DuplicateExactly(hist, h, now);
    if |hist| <= i + CACHE_SIZE && now - LastRead(was[i].seen, more, h) < WINDOW {
      assert Live(hist, i, h, now);
    }
  }

  // ---------------------------------------------------------------- the ring

  datatype Entry = Entry(hash: Word, tick: int, valid: bool)

  class Dedup {
    const cache: array<Entry>
    var next: nat
    ghost var hist: History

    ghost predicate Valid()
      reads this, cache
    {
      cache.Length == CACHE_SIZE && next == |hist| % CACHE_SIZE && Ring()
    }

    // Each slot holds the newest entry of the history that went to it.
    ghost predicate Ring()
      requires cache.Length == CACHE_SIZE
      reads this, cache
    {
      && (forall s: nat :: s < CACHE_SIZE && s < |hist| ==>
            var e := hist[InSlot(hist, s)]; cache[s] == Entry(e.hash, e.seen, true))
      && (forall s: nat :: |hist| <= s < CACHE_SIZE ==> !cache[s].valid)
    }

    constructor ()
      ensures Valid() && hist == [] && fresh(cache)
    {
      cache := new Entry[CACHE_SIZE](_ => Entry(0, 0, false));
      next, hist := 0, [];
    }

    // sms_is_duplicate
    method IsDuplicate(h: Word, now: int) returns (dup: bool)
      requires Valid()
      modifies cache, `hist
      ensures Valid()
      ensures match Scan(old(hist), 0, h, now)
              case Some(i) => dup && hist == old(hist)[i := old(hist)[i].(seen := now)]
              case None => !dup && hist == old(hist)
    {
      hide InSlot;
      var s: nat := 0;
      while s < CACHE_SIZE
        invariant s <= CACHE_SIZE && Valid() && hist == old(hist)
        invariant Scan(hist, 0, h, now) == Scan(hist, s, h, now)
      {
        if cache[s].valid && cache[s].hash == h && now - cache[s].tick < WINDOW {
          Refresh(s, now);
          return true;
        }
        s := s + 1;
      }
      return false;
    }

    // The entry in a slot has been seen again.
    method Refresh(slot: nat, now: int)
      requires Valid() && slot < CACHE_SIZE && cache[slot].valid
      modifies cache, `hist
      ensures Valid() && slot < |old(hist)|
      ensures var i := InSlot(old(hist), slot); hist == old(hist)[i := old(hist)[i].(seen := now)]
    {
      hide InSlot;
      cache[slot] := cache[slot].(tick := now);
      ghost var was, i := hist, InSlot(hist, slot);
      hist := hist[i := hist[i].(seen := now)];
      forall s: nat | s < CACHE_SIZE && s < |hist|
        ensures var e := hist[InSlot(hist, s)]; cache[s] == Entry(e.hash, e.seen, true)
      {
        SlotsOfLength(was, hist, s);
      }
    }

    // sms_dedup_record
    method Record(h: Word, ghost now: int, later: int)
      requires Valid()
      modifies cache, `next, `hist
      ensures Valid() && hist == old(hist) + [Sighting(h, later, now)]
    {
      hide InSlot;
      cache[next] := Entry(h, later, true);
      next := (next + 1) % CACHE_SIZE;
      ghost var was := hist;
      hist := hist + [Sighting(h, later, now)];
      forall s: nat | s < CACHE_SIZE && s < |hist|
        ensures var e := hist[InSlot(hist, s)]; cache[s] == Entry(e.hash, e.seen, true)
      {
        SlotsAfterAccept(was, hist, s);
      }
    }
  }
}
