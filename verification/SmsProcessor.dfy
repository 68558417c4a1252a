// sms_processor_task: one retry slot on top of the store, as a machine over its loop's parts.
module SmsProcessor {
  import opened Messages
  import opened Options
  import opened Sequences
  import opened SmsStorage

  const MAX_ATTEMPTS := 3
  const RETRY_DELAY := 1000      // ticks of 10 ms: 10 seconds

  datatype Retry = Inactive | Active(sms: Message, attempts: nat, next: int)

  datatype Proc = Proc(
    store: Nvs,
    retry: Retry,
    taken: seq<Message>,         // from the queue
    published: seq<Message>,
    lost: seq<Message>,          // logged as lost
    saved: seq<Message>,         // accepted by the store
    resent: seq<Message>)        // published from the store

  datatype Step =
    // one round of the drain loop: get_next, publish, delete_oldest
    | Drain(connected: bool, get: Faults, publishes: bool, delete: Faults)
    // the retry check of a loop pass
    | RetryCheck(now: int, connected: bool, publishes: bool, save: Faults)
    // a message received from the queue
    | Receive(sms: Message, now: int, connected: bool, publishes: bool, save: Faults)

  function Persist(p: Proc, sms: Message, f: Faults): Proc {
    var (st, ok) := Save(p.store, sms, f);
    if ok then p.(store := st, saved := p.saved + [sms]) else p.(store := st, lost := p.lost + [sms])
  }

  function Next(p: Proc, step: Step): Proc {
    match step
    case Drain(connected, get, publishes, delete) =>
      if !connected then p
      else
        (match GetNext(p.store, get)
         case Found(sms) =>
           if publishes then
             p.(published := p.published + [sms], resent := p.resent + [sms],
                store := DeleteOldest(p.store, delete).0)
           else p
         case _ => p)
    case RetryCheck(now, connected, publishes, save) =>
      (match p.retry
       case Inactive => p
       case Active(sms, attempts, next) =>
         if now < next then p
         else if connected && publishes then p.(published := p.published + [sms], retry := Inactive)
         else if attempts + 1 >= MAX_ATTEMPTS then Persist(p, sms, save).(retry := Inactive)
         else p.(retry := Active(sms, attempts + 1, now + RETRY_DELAY)))
    case Receive(sms, now, connected, publishes, save) =>
      var q := p.(taken := p.taken + [sms]);
      if p.retry.Active? then Persist(q, sms, save)
      else if connected && publishes then q.(published := q.published + [sms])
      else q.(retry := Active(sms, 1, now + RETRY_DELAY))
  }

  function Start(store: Nvs): Proc {
    Proc(store, Inactive, [], [], [], [], [])
  }

  function After(store: Nvs, steps: seq<Step>): Proc {
    if steps == [] then Start(store) else Next(After(store, steps[..|steps| - 1]), steps[|steps| - 1])
  }

  ghost predicate NoFaults(step: Step) {
    match step
    case Drain(_, get, _, delete) => Working(get) && Working(delete)
    case RetryCheck(_, _, _, save) => Working(save)
    case Receive(_, _, _, _, save) => Working(save)
  }

  // ---------------------------------------------------------------- conservation

  function Occurs(s: seq<Message>, m: Message): nat {
    multiset(s)[m]
  }

  // How often a message occurs outside the queue and the modem: published, to be retried, stored
  // or lost.
  function Tally(p: Proc, m: Message): nat {
    Occurs(p.published, m) + (if p.retry.Active? && p.retry.sms == m then 1 else 0)
    + Stored(p.store, m) + Occurs(p.lost, m)
  }

  function Taken(step: Step, m: Message): nat {
    if step.Receive? && step.sms == m then 1 else 0
  }

  lemma SnocCount(s: seq<Message>, x: Message, m: Message)
    ensures Occurs(s + [x], m) == Occurs(s, m) + if x == m then 1 else 0
  {
    assert multiset(s + [x]) == multiset(s) + multiset{x};
  }

  lemma PersistLosesNothing(p: Proc, sms: Message, f: Faults, m: Message)
    ensures var q := Persist(p, sms, f);
            Occurs(q.lost, m) + Stored(q.store, m)
            >= Occurs(p.lost, m) + Stored(p.store, m) + if sms == m then 1 else 0
  {
    hide Occurs, Save, Stored;
    SaveKeepsStored(p.store, sms, f, m);
    SnocCount(p.lost, sms, m);
  }

  lemma StepLosesNothing(p: Proc, step: Step, m: Message)
    ensures Tally(Next(p, step), m) >= Tally(p, m) + Taken(step, m)
  {
    match step
    case Drain(connected, get, publishes, delete) =>
      hide Occurs, Stored, DeleteOldest;
      DeleteLosesOnlyFirst(p.store, delete, m);
      if GetNext(p.store, get).Found? {
        SnocCount(p.published, p.store.blobs[0], m);
      }
    case RetryCheck(now, connected, publishes, save) =>
      hide Occurs, Stored, Persist;
      if p.retry.Active? {
        PersistFrame(p, p.retry.sms, save);
        SnocCount(p.published, p.retry.sms, m);
        PersistLosesNothing(p, p.retry.sms, save, m);
      }
    case Receive(sms, now, connected, publishes, save) =>
      hide Occurs, Stored, Persist;
      var q := p.(taken := p.taken + [sms]);
      PersistFrame(q, sms, save);
      SnocCount(p.published, sms, m);
      PersistLosesNothing(q, sms, save, m);
  }

  // Persisting touches the store and two logs only.
  lemma PersistFrame(p: Proc, sms: Message, f: Faults)
    ensures var q := Persist(p, sms, f);
            q == p.(store := q.store, saved := q.saved, lost := q.lost)
  {
  }

  // Whatever fails in storage, at every point of every run each message has been published, waits
  // for a retry, is stored or is logged as lost, at least as often as it was taken or stored first.
  lemma {:induction false} NothingUnaccounted(store: Nvs, steps: seq<Step>, m: Message)
    ensures var p := After(store, steps);
            Occurs(p.taken, m) + Stored(store, m) <= Tally(p, m)
  {
    if steps != [] {
      hide Occurs, Tally, Stored;
      var before, step := steps[..|steps| - 1], steps[|steps| - 1];
      NothingUnaccounted(store, before, m);
      StepLosesNothing(After(store, before), step, m);
      TakenCount(After(store, before), step, m);
    }
  }

  lemma TakenCount(p: Proc, step: Step, m: Message)
    ensures Occurs(Next(p, step).taken, m) == Occurs(p.taken, m) + Taken(step, m)
  {
    if step.Receive? {
      SnocCount(p.taken, step.sms, m);
    }
  }

  // With working storage: nothing is duplicated either, the stored messages come out in the order
  // they were saved, and a message is lost only while 20 are stored.
  ghost predicate Exact(store: Nvs, p: Proc)
    requires WellFormed(store)
  {
    && WellFormed(p.store)
    && Contents(store) + p.saved == p.resent + Contents(p.store)
    && (p.retry.Active? ==> 1 <= p.retry.attempts < MAX_ATTEMPTS)
    && forall m :: Occurs(p.taken, m) + Stored(store, m) == Tally(p, m)
  }

  lemma PersistExact(p: Proc, sms: Message, f: Faults, m: Message)
    requires WellFormed(p.store) && Working(f)
    ensures var q := Persist(p, sms, f);
            && WellFormed(q.store)
            && (q.lost != p.lost ==> |Contents(p.store)| == MAX_STORED)
            && (if q.lost == p.lost then
                  q.saved == p.saved + [sms] && Contents(q.store) == Contents(p.store) + [sms]
                else
                  q.saved == p.saved && Contents(q.store) == Contents(p.store) && q.lost == p.lost + [sms])
            && Occurs(q.lost, m) + Stored(q.store, m) ==
                 Occurs(p.lost, m) + Stored(p.store, m) + if sms == m then 1 else 0
  {
    SaveRefines(p.store, sms, f);
    var q := Persist(p, sms, f);
    StoredIsContents(p.store, m);
    StoredIsContents(q.store, m);
    SnocCount(p.lost, sms, m);
    SnocCount(Contents(p.store), sms, m);
  }

  // Persisting a message adds it to the store and to the saved, or, at 20, to the lost.
  lemma PersistAdds(p: Proc, sms: Message, f: Faults) returns (added: seq<Message>)
    requires WellFormed(p.store) && Working(f)
    ensures var q := Persist(p, sms, f);
            && WellFormed(q.store)
            && q.saved == p.saved + added && Contents(q.store) == Contents(p.store) + added
            && (q.lost != p.lost ==> |Contents(p.store)| == MAX_STORED)
  {
    SaveRefines(p.store, sms, f);
    added := if Save(p.store, sms, f).1 then [sms] else [];
  }

  // A retry check or a receipt: the same messages reach the store and the log of the saved.
  lemma SlotAdds(p: Proc, step: Step) returns (added: seq<Message>)
    requires WellFormed(p.store) && NoFaults(step) && !step.Drain?
    ensures var q := Next(p, step);
            && WellFormed(q.store) && q.resent == p.resent
            && q.saved == p.saved + added && Contents(q.store) == Contents(p.store) + added
            && (q.lost != p.lost ==> |Contents(p.store)| == MAX_STORED)
  {
    hide WellFormed, Contents, Persist;
    var q := Next(p, step);
    if step.Receive? && p.retry.Active? {
      var r := p.(taken := p.taken + [step.sms]);
      PersistFrame(r, step.sms, step.save);
      added := PersistAdds(r, step.sms, step.save);
    } else if step.RetryCheck? && p.retry.Active? && step.now >= p.retry.next
              && !(step.connected && step.publishes) && p.retry.attempts + 1 >= MAX_ATTEMPTS {
      PersistFrame(p, p.retry.sms, step.save);
      added := PersistAdds(p, p.retry.sms, step.save);
    } else {
      added := [];
      assert p.saved + [] == p.saved && Contents(p.store) + [] == Contents(p.store);
    }
  }

  lemma SlotTally(p: Proc, step: Step, m: Message)
    requires WellFormed(p.store) && NoFaults(step) && !step.Drain?
    ensures Tally(Next(p, step), m) == Tally(p, m) + Taken(step, m)
  {
    hide Occurs, WellFormed, Contents, Persist, Stored;
    if step.RetryCheck? {
      if p.retry.Active? {
        PersistFrame(p, p.retry.sms, step.save);
        PersistExact(p, p.retry.sms, step.save, m);
        SnocCount(p.published, p.retry.sms, m);
      }
    } else {
      var r := p.(taken := p.taken + [step.sms]);
      PersistFrame(r, step.sms, step.save);
      PersistExact(r, step.sms, step.save, m);
      SnocCount(p.published, step.sms, m);
    }
  }

  // A round of the drain with working storage: nothing changes, or the oldest stored message is
  // published and gone.
  lemma DrainStep(p: Proc, step: Step)
    requires WellFormed(p.store) && NoFaults(step) && step.Drain?
    ensures var q := Next(p, step);
            || q == p
            || (&& WellFormed(q.store) && Contents(p.store) != []
                && Contents(q.store) == Contents(p.store)[1..]
                && q == p.(store := q.store, published := p.published + [Contents(p.store)[0]],
                           resent := p.resent + [Contents(p.store)[0]]))
  {
    GetNextRefines(p.store, step.get);
    DeleteRefines(p.store, step.delete);
    hide WellFormed, Contents, DeleteOldest, GetNext;
  }

  lemma DrainExact(p: Proc, step: Step)
    requires WellFormed(p.store) && NoFaults(step) && step.Drain?
    ensures var q := Next(p, step);
            && WellFormed(q.store) && q.lost == p.lost && q.saved == p.saved
            && q.resent + Contents(q.store) == p.resent + Contents(p.store)
  {
    DrainStep(p, step);
    hide WellFormed, Contents, Next, NoFaults;
    var c := Contents(p.store);
    assert c != [] ==> (p.resent + [c[0]]) + c[1..] == p.resent + c;
  }

  lemma DrainTally(p: Proc, step: Step, m: Message)
    requires WellFormed(p.store) && NoFaults(step) && step.Drain?
    ensures Tally(Next(p, step), m) == Tally(p, m)
  {
    DrainStep(p, step);
    hide WellFormed, Contents, Next, NoFaults, Stored, Occurs;
    var q := Next(p, step);
    if q != p {
      StoredIsContents(p.store, m);
      StoredIsContents(q.store, m);
      SnocCount(p.published, Contents(p.store)[0], m);
      ConsCount(Contents(p.store), m);
    }
  }

  lemma ConsCount(s: seq<Message>, m: Message)
    requires s != []
    ensures Occurs(s, m) == Occurs(s[1..], m) + if s[0] == m then 1 else 0
  {
    assert s == [s[0]] + s[1..];
  }

  // One side of an equality of two concatenations, extended like the other.
  lemma ExtendBoth<T>(a: seq<T>, b: seq<T>, c: seq<T>, d: seq<T>, x: seq<T>)
    requires a + b == c + d
    ensures a + (b + x) == c + (d + x)
  {
    assert a + (b + x) == (a + b) + x && c + (d + x) == (c + d) + x;
  }

  lemma OrderExact(store: Nvs, p: Proc, step: Step)
    requires WellFormed(store) && WellFormed(p.store) && NoFaults(step)
    requires Contents(store) + p.saved == p.resent + Contents(p.store)
    ensures var q := Next(p, step);
            && WellFormed(q.store) && Contents(store) + q.saved == q.resent + Contents(q.store)
            && (q.lost != p.lost ==> |Contents(p.store)| == MAX_STORED)
  {
    hide Next, Contents, WellFormed, NoFaults;
    if step.Drain? {
      DrainExact(p, step);
    } else {
      var added := SlotAdds(p, step);
      ExtendBoth(Contents(store), p.saved, p.resent, Contents(p.store), added);
    }
  }

  lemma StepExact(store: Nvs, p: Proc, step: Step)
    requires WellFormed(store) && Exact(store, p) && NoFaults(step)
    ensures Exact(store, Next(p, step))
    ensures Next(p, step).lost != p.lost ==> |Contents(p.store)| == MAX_STORED
  {
    var q := Next(p, step);
    AttemptsBounded(p, step);
    hide Occurs, Next, Tally, Contents, WellFormed, NoFaults, Stored, Taken;
    OrderExact(store, p, step);
    forall m ensures Occurs(q.taken, m) + Stored(store, m) == Tally(q, m) {
      TakenCount(p, step, m);
      TallyStep(p, step, m);
    }
  }

  lemma TallyStep(p: Proc, step: Step, m: Message)
    requires WellFormed(p.store) && NoFaults(step)
    ensures Tally(Next(p, step), m) == Tally(p, m) + Taken(step, m)
  {
    hide Next, Tally, WellFormed, NoFaults;
    if step.Drain? {
      DrainTally(p, step, m);
    } else {
      SlotTally(p, step, m);
    }
  }

  lemma AttemptsBounded(p: Proc, step: Step)
    requires p.retry.Active? ==> 1 <= p.retry.attempts < MAX_ATTEMPTS
    ensures var q := Next(p, step); q.retry.Active? ==> 1 <= q.retry.attempts < MAX_ATTEMPTS
  {
  }

  lemma {:induction false} RunExact(store: Nvs, steps: seq<Step>)
    requires WellFormed(store) && forall step :: step in steps ==> NoFaults(step)
    ensures Exact(store, After(store, steps))
  {
    hide Occurs, Next, Tally, Contents, WellFormed, NoFaults, Stored;
    if steps == [] {
      StartExact(store);
    } else {
      var before, step := steps[..|steps| - 1], steps[|steps| - 1];
      RunExact(store, before);
      StepExact(store, After(store, before), step);
    }
  }

  lemma StartExact(store: Nvs)
    requires WellFormed(store)
    ensures Exact(store, Start(store))
  {
    assert Contents(store) + [] == [] + Contents(store);
  }

  // Each step of such a run loses a message only when 20 are stored.
  lemma LostOnlyWhenFull(store: Nvs, steps: seq<Step>, step: Step)
    requires WellFormed(store) && (forall s :: s in steps ==> NoFaults(s)) && NoFaults(step)
    ensures var p := After(store, steps);
            Next(p, step).lost != p.lost ==> WellFormed(p.store) && |Contents(p.store)| == MAX_STORED
  {
    RunExact(store, steps);
    StepExact(store, After(store, steps), step);
  }

  // No message is published more often than it was taken from the queue or stored first.
  lemma PublishedAtMostOnce(store: Nvs, steps: seq<Step>, m: Message)
    requires WellFormed(store) && forall step :: step in steps ==> NoFaults(step)
    ensures var p := After(store, steps);
            Occurs(p.published, m) <= Occurs(p.taken, m) + Stored(store, m)
  {
    RunExact(store, steps);
  }

  // ---------------------------------------------------------------- the retry slot

  function Run(p: Proc, steps: seq<Step>): Proc
    decreases |steps|
  {
    if steps == [] then p else Run(Next(p, steps[0]), steps[1..])
  }

  predicate FailedCheck(step: Step) {
    step.RetryCheck? && !(step.connected && step.publishes)
  }

  // No retry check of these steps is made at or after `time`; drain rounds and messages from the
  // queue may come at any time.
  predicate ChecksBefore(steps: seq<Step>, time: int) {
    forall step :: step in steps && step.RetryCheck? ==> step.now < time
  }

  // Until its next attempt is due the slot keeps its message, whatever else the loop does.
  lemma {:induction false} SlotKept(p: Proc, steps: seq<Step>)
    requires p.retry.Active? && ChecksBefore(steps, p.retry.next)
    ensures Run(p, steps).retry == p.retry
    decreases |steps|
  {
    if steps != [] {
      assert steps[0] in steps;
      var q := Next(p, steps[0]);
      SlotKept(q, steps[1..]);
    }
  }

  lemma {:induction false} RunConcat(p: Proc, a: seq<Step>, b: seq<Step>)
    ensures Run(p, a + b) == Run(Run(p, a), b)
    decreases |a|
  {
    if a == [] {
      assert a + b == b;
    } else {
      hide Next;
      assert (a + b)[1..] == a[1..] + b;
      RunConcat(Next(p, a[0]), a[1..], b);
    }
  }

  lemma RunSnoc(p: Proc, steps: seq<Step>, step: Step)
    ensures Run(p, steps + [step]) == Next(Run(p, steps), step)
  {
    hide Next;
    RunConcat(p, steps, [step]);
    assert [step][1..] == [];
  }

  // A message that cannot be published: three attempts, each at least ten seconds after the one
  // before, whatever the drain publishes and the queue brings in between.  The third leaves
  // everything else as it was: the slot is free, and the message is the newest stored or, when 20
  // are stored, lost.
  lemma UnsentPersists(p: Proc, receive: Step, early: seq<Step>, second: Step, late: seq<Step>, third: Step)
    requires p.retry.Inactive? && receive.Receive? && !(receive.connected && receive.publishes)
    requires FailedCheck(second) && FailedCheck(third)
    requires second.now >= receive.now + RETRY_DELAY && ChecksBefore(early, receive.now + RETRY_DELAY)
    requires third.now >= second.now + RETRY_DELAY && ChecksBefore(late, second.now + RETRY_DELAY)
    ensures var before := [receive] + early + [second] + late;
            var r, q := Run(p, before), Run(p, before + [third]);
            && r.retry == Active(receive.sms, 2, second.now + RETRY_DELAY)
            && q == r.(retry := Inactive, store := q.store, saved := q.saved, lost := q.lost)
            && (Working(third.save) && WellFormed(r.store) ==>
                  && WellFormed(q.store)
                  && if Count(r.store) < MAX_STORED then
                       Contents(q.store) == Contents(r.store) + [receive.sms] && q.lost == r.lost
                     else
                       Contents(q.store) == Contents(r.store) && q.lost == r.lost + [receive.sms])
  {
    hide Run, Contents, WellFormed, ChecksBefore, Save, Working;
    var first := [receive] + early;
    RunSnoc(p, [], receive);
    assert [] + [receive] == [receive];
    RunNothing(p);
    RunConcat(p, [receive], early);
    SlotKept(Run(p, [receive]), early);
    RunSnoc(p, first, second);
    RunConcat(p, first + [second], late);
    SlotKept(Run(p, first + [second]), late);
    var r := Run(p, first + [second] + late);
    RunSnoc(p, first + [second] + late, third);
    if WellFormed(r.store) {
      if Working(third.save) {
        SaveRefines(r.store, receive.sms, third.save);
        ContentsCount(r.store);
      }
    }
  }

  lemma RunNothing(p: Proc)
    ensures Run(p, []) == p
  {
  }

  // ---------------------------------------------------------------- the drain loop

  // What the environment does in one round of the drain loop.
  datatype Round = Round(get: Faults, publishes: bool, delete: Faults)

  function RoundStep(round: Round): Step {
    Drain(true, round.get, round.publishes, round.delete)
  }

  // The state after k rounds; a round that finds nothing to publish changes nothing.
  function Drained(p: Proc, rounds: nat -> Round, k: nat): Proc {
    if k == 0 then p else Next(Drained(p, rounds, k - 1), RoundStep(rounds(k - 1)))
  }

  // The loop goes on after a round that finds a message and publishes it.
  predicate GoesOn(st: Nvs, round: Round) {
    GetNext(st, round.get).Found? && round.publishes
  }

  // Reading the store and publishing work; deleting may fail in any way.
  ghost predicate OnlyDeletesFail(rounds: nat -> Round) {
    forall i: nat :: Working(rounds(i).get) && rounds(i).publishes
  }

  // How far the loop has got: so many messages stored, or an empty slot above slot 0, or slot 0
  // empty.
  datatype Progress = Left(count: nat) | HoleAbove | HoleInFront

  function Progressed(x: Progress, delete: Faults): Progress {
    match x
    case Left(n) =>
      if CountFalls(n, delete) then Left(n - 1)
      else if EraseOutrunsCount(n, delete) then (if n == 1 then HoleInFront else HoleAbove)
      else x
    case _ => x
  }

  function ProgressAfter(n: nat, rounds: nat -> Round, k: nat): Progress {
    if k == 0 then Left(n) else Progressed(ProgressAfter(n, rounds, k - 1), rounds(k - 1).delete)
  }

  predicate Over(x: Progress) {
    x == Left(0) || x == HoleInFront
  }

  // Rounds whose delete leaves the count: each publishes a message that stays stored.
  function Repeats(n: nat, rounds: nat -> Round, k: nat): nat {
    if k == 0 then 0
    else
      var x := ProgressAfter(n, rounds, k - 1);
      Repeats(n, rounds, k - 1) + if Over(x) || Progressed(x, rounds(k - 1).delete) != x then 0 else 1
  }

  ghost predicate Shows(st: Nvs, x: Progress) {
    match x
    case Left(n) => WellFormed(st) && Count(st) == n
    case HoleAbove => exists h: nat :: h > 0 && HoleAt(st, h)
    case HoleInFront => HoleAt(st, 0)
  }

  lemma FoundUnlessOver(st: Nvs, x: Progress, round: Round)
    requires Shows(st, x) && Working(round.get) && round.publishes
    ensures GoesOn(st, round) <==> !Over(x)
  {
    if x.HoleAbove? {
      var h: nat :| h > 0 && HoleAt(st, h);
      assert Slot(st.blobs, 0).Some?;
    } else {
      assert Slot(st.blobs, 0) == if 0 in st.blobs then Some(st.blobs[0]) else None;
    }
  }

  lemma RoundProgress(p: Proc, x: Progress, round: Round)
    requires Shows(p.store, x) && Working(round.get) && round.publishes
    ensures var q := Next(p, RoundStep(round));
            && Shows(q.store, Progressed(x, round.delete))
            && |q.published| == |p.published| + (if Over(x) then 0 else 1)
            && q.retry == p.retry && q.lost == p.lost
  {
    var f := round.delete;
    FoundUnlessOver(p.store, x, round);
    hide GetNext;
    if x.HoleAbove? {
      var h: nat :| h > 0 && HoleAt(p.store, h);
      HoleStays(p.store, h, Message("", ""), f);
    } else if x.Left? && x.count > 0 {
      var k := DeleteOutcome(p.store, f);
      DeleteCount(p.store, f);
      hide DeleteOldest, Contents;
    }
  }

  // For every way deletes may fail: after k rounds the store is as the counts and the faults alone
  // say; what is published has grown by the messages deleted and by one for every round whose
  // delete left the count; and the loop goes on until nothing is counted, or slot 0 is empty.
  lemma {:induction false} DrainProgress(p: Proc, rounds: nat -> Round, k: nat)
    requires WellFormed(p.store) && OnlyDeletesFail(rounds)
    ensures var n, q := Count(p.store), Drained(p, rounds, k);
            var x := ProgressAfter(n, rounds, k);
            && Shows(q.store, x)
            && (GoesOn(q.store, rounds(k)) <==> !Over(x))
            && (x.Left? ==> |q.published| + x.count == |p.published| + n + Repeats(n, rounds, k))
            && (!Over(x) ==> |q.published| == |p.published| + k)
            && q.retry == p.retry && q.lost == p.lost
  {
    var n, x := Count(p.store), ProgressAfter(Count(p.store), rounds, k);
    if k > 0 {
      hide Next, Shows;
      DrainProgress(p, rounds, k - 1);
      RoundProgress(Drained(p, rounds, k - 1), ProgressAfter(n, rounds, k - 1), rounds(k - 1));
    }
    FoundUnlessOver(Drained(p, rounds, k).store, x, rounds(k));
  }

  // The loop ends exactly when, by the counts and the faults alone, nothing is counted any more or
  // the last counted slot is emptied while it is slot 0.
  lemma DrainEnds(p: Proc, rounds: nat -> Round)
    requires WellFormed(p.store) && OnlyDeletesFail(rounds)
    ensures (exists k: nat :: !GoesOn(Drained(p, rounds, k).store, rounds(k)))
       <==> (exists k: nat :: Over(ProgressAfter(Count(p.store), rounds, k)))
  {
    hide GoesOn, Over, Drained, ProgressAfter;
    var n := Count(p.store);
    if k: nat :| !GoesOn(Drained(p, rounds, k).store, rounds(k)) {
      DrainProgress(p, rounds, k);
      assert Over(ProgressAfter(n, rounds, k));
    }
    if k: nat :| Over(ProgressAfter(n, rounds, k)) {
      DrainProgress(p, rounds, k);
      assert !GoesOn(Drained(p, rounds, k).store, rounds(k));
    }
  }

  // When it ends with nothing counted, every message stored at the start has been published.
  lemma DrainedAllPublished(p: Proc, rounds: nat -> Round, k: nat, m: Message)
    requires WellFormed(p.store) && OnlyDeletesFail(rounds)
    requires ProgressAfter(Count(p.store), rounds, k) == Left(0)
    ensures Occurs(Drained(p, rounds, k).published, m) >= Occurs(p.published, m) + Stored(p.store, m)
  {
    DrainProgress(p, rounds, k);
    DrainTallies(p, rounds, k, m);
  }

  lemma {:induction false} DrainTallies(p: Proc, rounds: nat -> Round, k: nat, m: Message)
    ensures Tally(Drained(p, rounds, k), m) >= Tally(p, m)
  {
    if k > 0 {
      hide Tally, Next;
      DrainTallies(p, rounds, k - 1, m);
      StepLosesNothing(Drained(p, rounds, k - 1), RoundStep(rounds(k - 1)), m);
    }
  }

  // With working deletes it ends: as many rounds as messages are stored publish them all, oldest
  // first, and empty the store.
  lemma DrainEmptiesStore(p: Proc, rounds: nat -> Round)
    requires WellFormed(p.store) && OnlyDeletesFail(rounds) && forall i: nat :: Working(rounds(i).delete)
    ensures var n := Count(p.store);
            var q := Drained(p, rounds, n);
            && WellFormed(q.store) && Contents(q.store) == []
            && q.published == p.published + Contents(p.store)
            && !GoesOn(q.store, rounds(n))
  {
    var n := Count(p.store);
    DrainInOrder(p, rounds, n);
    var q := Drained(p, rounds, n);
    assert Contents(p.store)[..n] == Contents(p.store);
    GetNextRefines(q.store, rounds(n).get);
  }

  lemma {:induction false} DrainInOrder(p: Proc, rounds: nat -> Round, k: nat)
    requires WellFormed(p.store) && k <= Count(p.store)
    requires OnlyDeletesFail(rounds) && forall i: nat :: Working(rounds(i).delete)
    ensures var c, q := Contents(p.store), Drained(p, rounds, k);
            WellFormed(q.store) && Contents(q.store) == c[k..] && q.published == p.published + c[..k]
  {
    if k > 0 {
      DrainInOrder(p, rounds, k - 1);
      var q := Drained(p, rounds, k - 1);
      ContentsCount(p.store);
      hide WellFormed, Contents, Next;
      WorkingRound(q, rounds(k - 1));
      MoveOver(p.published, Contents(p.store), k);
    } else {
      assert Contents(p.store)[0..] == Contents(p.store) && p.published + Contents(p.store)[..0] == p.published;
    }
  }

  lemma MoveOver<T>(a: seq<T>, c: seq<T>, k: nat)
    requires 0 < k <= |c|
    ensures c[k - 1..] != [] && c[k - 1..][1..] == c[k..]
    ensures (a + c[..k - 1]) + [c[k - 1..][0]] == a + c[..k]
  {
  }

  // A round in which everything works publishes the oldest stored message and deletes it.
  lemma WorkingRound(p: Proc, round: Round)
    requires WellFormed(p.store) && Contents(p.store) != []
    requires Working(round.get) && round.publishes && Working(round.delete)
    ensures var c, q := Contents(p.store), Next(p, RoundStep(round));
            WellFormed(q.store) && Contents(q.store) == c[1..] && q.published == p.published + [c[0]]
  {
    GetNextRefines(p.store, round.get);
    DeleteRefines(p.store, round.delete);
    hide WellFormed, Contents, DeleteOldest, GetNext;
  }

  // Deletes that never write the count publish without end, though no slot is ever empty.
  lemma {:induction false} UndeletedForever(p: Proc, rounds: nat -> Round, k: nat)
    requires WellFormed(p.store) && Count(p.store) > 0 && OnlyDeletesFail(rounds)
    requires forall i: nat :: Fails(rounds(i).delete, 0)
    ensures var q := Drained(p, rounds, k);
            && q.store == p.store && GoesOn(q.store, rounds(k))
            && |q.published| == |p.published| + k
  {
    assert Slot(p.store.blobs, 0).Some?;
    if k > 0 {
      UndeletedForever(p, rounds, k - 1);
      assert Fails(rounds(k - 1).delete, 0);
    }
  }

  // ---------------------------------------------------------------- what the task publishes itself

  // After every run: a message received with the slot free, connected and accepted by the broker is
  // published at once, and nothing else changes.
  lemma ReceiptPublished(store: Nvs, steps: seq<Step>, sms: Message, now: int, f: Faults)
    requires After(store, steps).retry.Inactive?
    ensures var p, q := After(store, steps), After(store, steps + [Receive(sms, now, true, true, f)]);
            q == p.(taken := p.taken + [sms], published := p.published + [sms])
  {
    RunExtends(store, steps, Receive(sms, now, true, true, f));
    hide After;
  }

  // A due check of the slot's message that is connected and accepted publishes it, and frees the slot.
  lemma RetryPublished(store: Nvs, steps: seq<Step>, now: int, f: Faults)
    requires var r := After(store, steps).retry; r.Active? && now >= r.next
    ensures var p, q := After(store, steps), After(store, steps + [RetryCheck(now, true, true, f)]);
            q == p.(published := p.published + [p.retry.sms], retry := Inactive)
  {
    RunExtends(store, steps, RetryCheck(now, true, true, f));
    hide After;
  }

  // Offline or refused, a received message takes the free slot, to be tried again 1000 ticks later,
  // or is saved when the slot is taken; a check publishes nothing, and before it is due changes
  // nothing.
  lemma NotPublished(store: Nvs, steps: seq<Step>, step: Step)
    requires !step.Drain? && !(step.connected && step.publishes)
    ensures var p, q := After(store, steps), After(store, steps + [step]);
            && q.published == p.published
            && (step.Receive? && p.retry.Inactive? ==>
                  q == p.(taken := p.taken + [step.sms], retry := Active(step.sms, 1, step.now + 1000)))
            && (step.Receive? && p.retry.Active? ==>
                  && q.retry == p.retry && q.taken == p.taken + [step.sms]
                  && (q.saved, q.lost) in {(p.saved + [step.sms], p.lost), (p.saved, p.lost + [step.sms])})
            && (step.RetryCheck? && (p.retry.Inactive? || step.now < p.retry.next) ==> q == p)
  {
    RunExtends(store, steps, step);
    hide After, Save;
  }

  // A message that found the broker away is published 1000 ticks, ten seconds, later, and not before.
  lemma RetryEdge(sms: Message, at: int, gap: int, f: Faults)
    ensures After(EMPTY, [Receive(sms, at, false, false, f), RetryCheck(at + gap, true, true, f)]).published ==
            if gap < 1000 then [] else [sms]
  {
    var receive, check := Receive(sms, at, false, false, f), RetryCheck(at + gap, true, true, f);
    RunExtends(EMPTY, [], receive);
    RunExtends(EMPTY, [receive], check);
    assert [] + [receive] == [receive] && [receive] + [check] == [receive, check];
  }

  // Offline or refused, a round of the drain loop changes nothing; otherwise it publishes the message
  // in slot 0 that was read, and deletes it.
  lemma DrainPublishes(store: Nvs, steps: seq<Step>, step: Step)
    requires step.Drain?
    ensures var p, q := After(store, steps), After(store, steps + [step]);
            var found := GetNext(p.store, step.get);
            if step.connected && step.publishes && found.Found? then
              && q.published == p.published + [found.sms] && q.resent == p.resent + [found.sms]
              && q.store == DeleteOldest(p.store, step.delete).0
              && q.retry == p.retry && q.lost == p.lost && q.taken == p.taken && q.saved == p.saved
            else q == p
  {
    RunExtends(store, steps, step);
    hide After, GetNext, DeleteOldest;
  }

  // The broker is connected and accepts everything.
  predicate Online(step: Step) {
    step.connected && step.publishes
  }

  function Received(step: Step): seq<Message> {
    if step.Receive? then [step.sms] else []
  }

  // Then, from an empty store, every message is published once, in the order it came, and nothing
  // is stored, lost or waiting.
  lemma {:induction false} OnlinePublishesAll(steps: seq<Step>)
    requires forall step :: step in steps ==> Online(step)
    ensures After(EMPTY, steps) ==
            Start(EMPTY).(taken := FlatMap(Received, steps), published := FlatMap(Received, steps))
    decreases |steps|
  {
    hide FlatMap;
    if steps == [] {
      FlatMapNil(Received);
    } else {
      var n := |steps| - 1;
      LastSplit(steps);
      assert steps[n] in steps;
      OnlinePublishesAll(steps[..n]);
      FlatMapSnoc(Received, steps[..n], steps[n]);
      OnlineStep(steps[..n], steps[n], FlatMap(Received, steps[..n]));
    }
  }

  lemma OnlineStep(steps: seq<Step>, step: Step, done: seq<Message>)
    requires Online(step) && After(EMPTY, steps) == Start(EMPTY).(taken := done, published := done)
    ensures After(EMPTY, steps + [step]) ==
            Start(EMPTY).(taken := done + Received(step), published := done + Received(step))
  {
    RunExtends(EMPTY, steps, step);
    hide After, Save, DeleteOldest;
    assert done + [] == done;
  }

  // ---------------------------------------------------------------- a hole in the slots

  // A hole in the slots is permanent.  In slot 0 it stops every delivery from the store.
  lemma {:induction false} HoleForever(p: Proc, h: nat, steps: seq<Step>)
    requires HoleAt(p.store, h)
    ensures HoleAt(Run(p, steps).store, h)
    ensures h == 0 ==> Run(p, steps).resent == p.resent
    decreases |steps|
  {
    if steps != [] {
      var q := Next(p, steps[0]);
      HoleStep(p, h, steps[0]);
      HoleForever(q, h, steps[1..]);
    }
  }

  lemma HoleStep(p: Proc, h: nat, step: Step)
    requires HoleAt(p.store, h)
    ensures HoleAt(Next(p, step).store, h)
    ensures h == 0 ==> Next(p, step).resent == p.resent
  {
    var sms := if step.Receive? then step.sms else if p.retry.Active? then p.retry.sms else Message("", "");
    var f := match step case Drain(_, _, _, d) => d case RetryCheck(_, _, _, s) => s case Receive(_, _, _, _, s) => s;
    HoleStays(p.store, h, sms, f);
  }

  // Above slot 0 it keeps the drain loop publishing, connected, without end: whether or not
  // deletes work.
  lemma {:induction false} DrainNeverEnds(p: Proc, h: nat, rounds: nat -> Round, k: nat)
    requires HoleAt(p.store, h) && h > 0 && OnlyDeletesFail(rounds)
    ensures var q := Drained(p, rounds, k);
            && HoleAt(q.store, h) && GoesOn(q.store, rounds(k))
            && |q.published| == |p.published| + k && Count(q.store) == Count(p.store)
  {
    if k > 0 {
      DrainNeverEnds(p, h, rounds, k - 1);
      HoleStays(Drained(p, rounds, k - 1).store, h, Message("", ""), rounds(k - 1).delete);
      hide DeleteOldest;
    }
    FoundUnlessOver(Drained(p, rounds, k).store, HoleAbove, rounds(k));
  }

  lemma RunExtends(store: Nvs, steps: seq<Step>, step: Step)
    ensures After(store, steps + [step]) == Next(After(store, steps), step)
  {
    assert (steps + [step])[..|steps|] == steps;
  }
}
