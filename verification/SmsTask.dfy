// The storage namespace and the task's retry state, updated in place.
module SmsTask {
  import opened Messages
  import opened Options
  import opened Sequences
  import opened SmsStorage
  import opened SmsProcessor

  class Storage {
    var blobs: map<nat, Message>
    var count: Option<nat>

    function State(): Nvs
      reads this
    {
      Nvs(blobs, count)
    }

    constructor ()
      ensures State() == EMPTY
    {
      blobs, count := map[], None;
    }

    method SaveSms(sms: Message, f: Faults) returns (ok: bool)
      modifies this
      ensures (State(), ok) == Save(old(State()), sms, f)
    {
      if Fails(f, 0) || Fails(f, 1) {
        return false;
      }
      var n := match count case None => 0 case Some(c) => c;
      if n >= MAX_STORED || Fails(f, 2) {
        return false;
      }
      var before := blobs;
      blobs := blobs[n := sms];
      if Fails(f, 3) {
        return false;
      }
      var countBefore := count;
      count := Some(n + 1);
      if Fails(f, 4) {
        if f.reverted {
          blobs, count := before, countBefore;
        }
        return false;
      }
      return true;
    }

    method Next(f: Faults) returns (r: Lookup)
      ensures r == GetNext(State(), f)
    {
      if Fails(f, 0) {
        return Failure;
      }
      if Fails(f, 1) || count == None || count == Some(0) {
        return NotFound;
      }
      if Fails(f, 2) || 0 !in blobs {
        return Failure;
      }
      return Found(blobs[0]);
    }

    // The shift loop of the source: read slot i+1, write slot i, until all are moved or a call fails.
    method ShiftDown(n: nat, f: Faults) returns (moved: nat)
      requires n > 0
      modifies `blobs
      ensures (blobs, moved) == Shift(old(blobs), 0, n, f)
    {
      moved := 0;
      while moved < n - 1
        invariant moved <= n - 1
        invariant Shift(old(blobs), 0, n, f) == Shift(blobs, moved, n, f)
        decreases n - moved
      {
        if Fails(f, 2 + 2 * moved) || moved + 1 !in blobs {
          return;
        }
        var sms := blobs[moved + 1];
        if Fails(f, 3 + 2 * moved) {
          return;
        }
        blobs := blobs[moved := sms];
        moved := moved + 1;
      }
    }

    method DeleteFirst(f: Faults) returns (ok: bool)
      modifies this
      ensures (State(), ok) == DeleteOldest(old(State()), f)
    {
      if Fails(f, 0) {
        return false;
      }
      var n := match count case None => 0 case Some(c) => c;
      if Fails(f, 1) || n == 0 {
        return true;
      }
      var before, countBefore := blobs, count;
      var moved := ShiftDown(n, f);
      if moved < n - 1 {
        return false;
      }
      if !Fails(f, 2 * n) {
        blobs := blobs - {n - 1};
      }
      if Fails(f, 2 * n + 1) {
        return false;
      }
      count := Some(n - 1);
      if Fails(f, 2 * n + 2) {
        if f.reverted {
          blobs, count := before, countBefore;
        }
        return false;
      }
      return true;
    }

    method CountStored(f: Faults) returns (n: int)
      ensures n == GetCount(State(), f)
    {
      if Fails(f, 0) || Fails(f, 1) {
        return -1;
      }
      n := match count case None => 0 case Some(c) => c;
    }
  }

  // The rounds the drain loop makes: it goes on after a round that publishes a message.
  function LoopSteps(p: Proc, rounds: seq<Round>): seq<Step>
    decreases |rounds|
  {
    if rounds == [] then []
    else
      var step := RoundStep(rounds[0]);
      [step] + if GoesOn(p.store, rounds[0]) then LoopSteps(SmsProcessor.Next(p, step), rounds[1..]) else []
  }

  // It has ended within these rounds.
  predicate LoopEnded(p: Proc, rounds: seq<Round>)
    decreases |rounds|
  {
    rounds != [] &&
    (!GoesOn(p.store, rounds[0]) || LoopEnded(SmsProcessor.Next(p, RoundStep(rounds[0])), rounds[1..]))
  }

  lemma LoopNothing(p: Proc)
    ensures LoopSteps(p, []) == [] && !LoopEnded(p, [])
  {
  }

  lemma LoopUnfold(p: Proc, rounds: seq<Round>)
    requires rounds != []
    ensures var step := RoundStep(rounds[0]);
            var q := SmsProcessor.Next(p, step);
            && LoopSteps(p, rounds) == [step] + (if GoesOn(p.store, rounds[0]) then LoopSteps(q, rounds[1..]) else [])
            && (LoopEnded(p, rounds) <==> !GoesOn(p.store, rounds[0]) || LoopEnded(q, rounds[1..]))
  {
  }

  class Task {
    const storage: Storage
    var retrySms: Message
    var retryCount: nat
    var nextRetryTime: int
    var isActive: bool
    var published: seq<Message>

    ghost var taken: seq<Message>
    ghost var lost: seq<Message>
    ghost var saved: seq<Message>
    ghost var resent: seq<Message>
    ghost var initial: Nvs
    ghost var steps: seq<Step>

    ghost function Abs(): Proc
      reads this, storage
    {
      Proc(storage.State(), if isActive then Active(retrySms, retryCount, nextRetryTime) else Inactive,
           taken, published, lost, saved, resent)
    }

    // The history is a run of the machine over the store found at start.
    ghost predicate Valid()
      reads this, storage
    {
      Abs() == After(initial, steps)
    }

    constructor (storage: Storage)
      ensures Valid() && this.storage == storage && initial == storage.State() && steps == []
    {
      this.storage := storage;
      retrySms, retryCount, nextRetryTime, isActive := Message("", ""), 0, 0, false;
      published, taken, lost, saved, resent := [], [], [], [], [];
      initial, steps := storage.State(), [];
    }

    // Save to the store, or log the message as lost.
    method SaveOrLose(sms: Message, f: Faults)
      modifies `saved, `lost, storage
      ensures Abs() == Persist(old(Abs()), sms, f)
    {
      hide Save;
      var ok := storage.SaveSms(sms, f);
      if ok {
        saved := saved + [sms];
      } else {
        lost := lost + [sms];
      }
    }

    // One round of the drain loop; false when the loop stops.
    method DrainOne(round: Round) returns (more: bool)
      requires Valid()
      modifies `published, `resent, `steps, storage
      ensures Valid() && steps == old(steps) + [Drain(true, round.get, round.publishes, round.delete)]
      ensures more <==> GoesOn(old(storage.State()), round)
    {
      hide After, GetNext, DeleteOldest;
      RunExtends(initial, steps, Drain(true, round.get, round.publishes, round.delete));
      var r := storage.Next(round.get);
      more := r.Found? && round.publishes;
      if more {
        published, resent := published + [r.sms], resent + [r.sms];
        var _ := storage.DeleteFirst(round.delete);     // its result is ignored
      }
      steps := steps + [Drain(true, round.get, round.publishes, round.delete)];
    }

    // The drain loop, for as many rounds as have been observed of it: connected, it makes exactly
    // the machine's rounds, and says whether it has ended.
    method DrainStored(connected: bool, rounds: seq<Round>) returns (ended: bool)
      requires Valid()
      modifies `published, `resent, `steps, storage
      ensures Valid() && steps == old(steps + if connected then LoopSteps(Abs(), rounds) else [])
      ensures ended == (!connected || LoopEnded(old(Abs()), rounds))
    {
      hide After, GetNext, LoopSteps, LoopEnded, SmsProcessor.Next;
      if !connected {
        assert steps + [] == steps;
        return true;
      }
      ghost var goal, ends := steps + LoopSteps(Abs(), rounds), LoopEnded(Abs(), rounds);
      var done := 0;
      ended := false;
      assert rounds[0..] == rounds;
      while !ended && done < |rounds|
        invariant done <= |rounds| && Valid()
        invariant if ended then steps == goal && ends
                  else steps + LoopSteps(Abs(), rounds[done..]) == goal && LoopEnded(Abs(), rounds[done..]) == ends
      {
        ghost var before, step := steps, RoundStep(rounds[done]);
        LoopUnfold(Abs(), rounds[done..]);
        RunExtends(initial, steps, step);
        var more := DrainOne(rounds[done]);
        assert rounds[done..][1..] == rounds[done + 1..];
        Assoc(before, [step], if more then LoopSteps(Abs(), rounds[done + 1..]) else []);
        assert more || steps + [] == steps;
        ended := !more;
        done := done + 1;
      }
      if !ended {
        LoopNothing(Abs());
        assert rounds[done..] == [] && steps + [] == steps;
      }
    }

    // With storage and broker working the loop ends by itself, with the store empty.
    method DrainAll(f: Faults)
      requires Valid() && Working(f) && WellFormed(storage.State())
      modifies `published, `resent, `steps, storage
      ensures Valid() && WellFormed(storage.State()) && Contents(storage.State()) == []
      ensures published == old(published) + old(Contents(storage.State()))
    {
      hide After, GetNext, DeleteOldest, WellFormed, Contents;
      ghost var c := Contents(storage.State());
      var more := true;
      GetNextRefines(storage.State(), f);
      while more
        invariant Valid() && WellFormed(storage.State())
        invariant published + Contents(storage.State()) == old(published) + c
        invariant !more ==> Contents(storage.State()) == []
        decreases |Contents(storage.State())|, more
      {
        ghost var st, sent := storage.State(), published;
        GetNextRefines(st, f);
        DeleteRefines(st, f);
        more := DrainOne(Round(f, true, f));
        DrainOneEffect(initial, steps, f);
        assert more ==> sent + Contents(st) == (sent + [Contents(st)[0]]) + Contents(st)[1..];
      }
      assert published + [] == published;
    }

    // The retry check of a loop pass.
    method CheckRetry(now: int, connected: bool, publishes: bool, save: Faults)
      requires Valid()
      modifies `retryCount, `nextRetryTime, `isActive, `published, `lost, `saved, `steps, storage
      ensures Valid() && steps == old(steps) + [RetryCheck(now, connected, publishes, save)]
      ensures old(isActive && nextRetryTime <= now) && connected && publishes ==>
                && published == old(published) + [old(retrySms)] && !isActive
                && storage.State() == old(storage.State()) && lost == old(lost) && saved == old(saved)
      ensures !(old(isActive && nextRetryTime <= now) && connected && publishes) ==> published == old(published)
      ensures !old(isActive && nextRetryTime <= now) ==> Abs() == old(Abs())
    {
      hide After, Persist;
      RunExtends(initial, steps, RetryCheck(now, connected, publishes, save));
      ghost var before := Abs();
      PersistFrame(before, retrySms, save);
      if isActive && now >= nextRetryTime {
        if connected && publishes {
          published := published + [retrySms];
          isActive := false;
        } else if retryCount + 1 >= MAX_ATTEMPTS {
          SaveOrLose(retrySms, save);
          retryCount := retryCount + 1;
          isActive := false;
        } else {
          retryCount := retryCount + 1;
          nextRetryTime := now + RETRY_DELAY;
        }
      }
      steps := steps + [RetryCheck(now, connected, publishes, save)];
    }

    // A message received from the queue.
    method OnReceived(sms: Message, now: int, connected: bool, publishes: bool, save: Faults)
      requires Valid()
      modifies `retrySms, `retryCount, `nextRetryTime, `isActive, `taken, `published, `lost, `saved, `steps, storage
      ensures Valid() && steps == old(steps) + [Receive(sms, now, connected, publishes, save)]
      ensures taken == old(taken) + [sms]
      ensures !old(isActive) && connected && publishes ==>
                && published == old(published) + [sms] && !isActive
                && storage.State() == old(storage.State()) && lost == old(lost) && saved == old(saved)
      ensures !old(isActive) && !(connected && publishes) ==>
                && published == old(published) && isActive && retrySms == sms && retryCount == 1
                && nextRetryTime == now + 1000
                && storage.State() == old(storage.State()) && lost == old(lost) && saved == old(saved)
      ensures old(isActive) ==> published == old(published) && isActive && retrySms == old(retrySms)
    {
      hide After, Persist;
      RunExtends(initial, steps, Receive(sms, now, connected, publishes, save));
      taken := taken + [sms];
      if isActive {
        SaveOrLose(sms, save);
      } else if connected && publishes {
        published := published + [sms];
      } else {
        retrySms, retryCount, nextRetryTime, isActive := sms, 1, now + RETRY_DELAY, true;
      }
      steps := steps + [Receive(sms, now, connected, publishes, save)];
    }

    // At any time, every message is accounted for.
    lemma Accounted(m: Message)
      requires Valid()
      ensures Occurs(taken, m) + Stored(initial, m) <= Tally(Abs(), m)
    {
      NothingUnaccounted(initial, steps, m);
    }
  }

  lemma DrainOneEffect(initial: Nvs, steps: seq<Step>, f: Faults)
    requires steps != []
    ensures After(initial, steps) == SmsProcessor.Next(After(initial, steps[..|steps| - 1]), steps[|steps| - 1])
  {
  }
}
