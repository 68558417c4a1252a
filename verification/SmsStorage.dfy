// The store of unsent messages: numbered slots and a count in non-volatile storage, with every
// storage call free to fail.
module SmsStorage {
  import opened Messages
  import opened Options

  const MAX_STORED := 20

  // The namespace "sms_failed": the blobs sms_0, sms_1, ... and the key "count".
  datatype Nvs = Nvs(blobs: map<nat, Message>, count: Option<nat>)

  const EMPTY := Nvs(map[], None)

  // Which of the NVS calls of one operation fail, by position; calls beyond the list succeed.
  // After a failed commit the store is in the old state when `reverted`, else in the new one.
  datatype Faults = Faults(failing: seq<bool>, reverted: bool)

  predicate Fails(f: Faults, call: nat) {
    call < |f.failing| && f.failing[call]
  }

  ghost predicate Working(f: Faults) {
    forall i: nat :: !Fails(f, i)
  }

  function Count(st: Nvs): nat {
    match st.count
    case None => 0
    case Some(n) => n
  }

  datatype Lookup = NotFound | Failure | Found(sms: Message)

  // sms_storage_save: open, read count, write blob, write count, commit.
  function Save(st: Nvs, sms: Message, f: Faults): (Nvs, bool) {
    var n := Count(st);
    if Fails(f, 0) || Fails(f, 1) || n >= MAX_STORED || Fails(f, 2) then (st, false)
    else
      var blobbed := st.(blobs := st.blobs[n := sms]);
      if Fails(f, 3) then (blobbed, false)
      else
        var counted := blobbed.(count := Some(n + 1));
        if Fails(f, 4) then (if f.reverted then st else counted, false) else (counted, true)
  }

  // sms_storage_get_next: open, read count, read slot 0.  An unreadable count reads as none stored.
  function GetNext(st: Nvs, f: Faults): Lookup {
    if Fails(f, 0) then Failure
    else if Fails(f, 1) || Count(st) == 0 then NotFound
    else if Fails(f, 2) || 0 !in st.blobs then Failure
    else Found(st.blobs[0])
  }

  // The shift loop from slot i: the blobs it leaves and how many slots it moved.
  function Shift(blobs: map<nat, Message>, i: nat, n: nat, f: Faults): (map<nat, Message>, nat)
    decreases n - i
  {
    if i + 1 >= n then (blobs, i)
    else if Fails(f, 2 + 2 * i) || i + 1 !in blobs || Fails(f, 3 + 2 * i) then (blobs, i)
    else Shift(blobs[i := blobs[i + 1]], i + 1, n, f)
  }

  // sms_storage_delete_oldest: open, read count, shift, erase the last slot (a failure there is
  // only logged), write count, commit.
  function DeleteOldest(st: Nvs, f: Faults): (Nvs, bool) {
    var n := Count(st);
    if Fails(f, 0) then (st, false)
    else if Fails(f, 1) || n == 0 then (st, true)
    else
      var (shifted, moved) := Shift(st.blobs, 0, n, f);
      if moved + 1 < n then (st.(blobs := shifted), false)
      else
        var erased := if Fails(f, 2 * n) then shifted else shifted - {n - 1};
        if Fails(f, 2 * n + 1) then (st.(blobs := erased), false)
        else
          var counted := Nvs(erased, Some(n - 1));
          if Fails(f, 2 * n + 2) then (if f.reverted then st else counted, false) else (counted, true)
  }

  // sms_storage_get_count
  function GetCount(st: Nvs, f: Faults): int {
    if Fails(f, 0) || Fails(f, 1) then -1 else Count(st)
  }

  // ---------------------------------------------------------------- the slots as a sequence

  predicate WellFormed(st: Nvs) {
    Count(st) <= MAX_STORED && forall i: nat :: i < Count(st) ==> Slot(st.blobs, i).Some?
  }

  function Contents(st: Nvs): seq<Message>
    requires WellFormed(st)
  {
    seq(Count(st), i requires 0 <= i < Count(st) => Slot(st.blobs, i).value)
  }

  function Slot(blobs: map<nat, Message>, i: nat): Option<Message> {
    if i in blobs then Some(blobs[i]) else None
  }

  // Slot j once slots i+1..moved have moved down by one.
  function Moved(blobs: map<nat, Message>, i: nat, moved: nat, j: nat): Option<Message> {
    if i <= j < moved then Slot(blobs, j + 1) else Slot(blobs, j)
  }

  // What the shift loop leaves after moving slots i+1..moved down by one.
  lemma {:induction false} ShiftShape(blobs: map<nat, Message>, i: nat, n: nat, f: Faults)
    requires i + 1 <= n
    ensures var (b, moved) := Shift(blobs, i, n, f);
            && i <= moved < n
            && (forall j: nat :: Slot(b, j) == Moved(blobs, i, moved, j))
            && (forall j: nat :: i < j <= moved ==> Slot(blobs, j).Some?)
            && (forall j: nat :: i <= j < moved ==> !Fails(f, 2 + 2 * j) && !Fails(f, 3 + 2 * j))
            && (moved + 1 < n ==> Fails(f, 2 + 2 * moved) || moved + 1 !in blobs || Fails(f, 3 + 2 * moved))
    decreases n - i
  {
    if !(i + 1 >= n || Fails(f, 2 + 2 * i) || i + 1 !in blobs || Fails(f, 3 + 2 * i)) {
      var next := blobs[i := blobs[i + 1]];
      ShiftShape(next, i + 1, n, f);
      var (b, moved) := Shift(next, i + 1, n, f);
      forall j: nat
        ensures Slot(b, j) == Moved(blobs, i, moved, j)
      {
        assert Slot(b, j) == Moved(next, i + 1, moved, j);
      }
      assert forall j: nat :: i + 1 < j <= moved ==> Slot(next, j).Some? && Slot(next, j) == Slot(blobs, j);
    }
  }

  // With working storage the operations are those of a queue of at most 20 messages.
  lemma SaveRefines(st: Nvs, sms: Message, f: Faults)
    requires WellFormed(st) && Working(f)
    ensures var (t, ok) := Save(st, sms, f);
            && WellFormed(t) && (ok <==> |Contents(st)| < MAX_STORED)
            && Contents(t) == if ok then Contents(st) + [sms] else Contents(st)
  {
    SlotUpdate(st.blobs, Count(st), sms, st.blobs[Count(st) := sms]);
  }

  // Twenty messages are the limit; and whatever fails, a save reports success only if it stored its
  // message as the newest, and a found message is the one in slot 0.
  lemma StoreLimit(st: Nvs, sms: Message, f: Faults)
    ensures var (t, ok) := Save(st, sms, f);
            && (ok <==> Count(st) < 20 && forall call: nat :: call < 5 ==> !Fails(f, call))
            && (ok ==> t == Nvs(st.blobs[Count(st) := sms], Some(Count(st) + 1)))
    ensures GetNext(st, f).Found? <==>
            0 < Count(st) && 0 in st.blobs && forall call: nat :: call < 3 ==> !Fails(f, call)
    ensures GetNext(st, f).Found? ==> GetNext(st, f).sms == st.blobs[0]
    ensures GetCount(st, f) == if Fails(f, 0) || Fails(f, 1) then -1 else Count(st)
  {
    var five := Fails(f, 0) || Fails(f, 1) || Fails(f, 2) || Fails(f, 3) || Fails(f, 4);
    assert five <==> exists call: nat :: call < 5 && Fails(f, call);
    var three := Fails(f, 0) || Fails(f, 1) || Fails(f, 2);
    assert three <==> exists call: nat :: call < 3 && Fails(f, call);
  }

  lemma SlotUpdate(blobs: map<nat, Message>, n: nat, sms: Message, next: map<nat, Message>)
    requires next == blobs[n := sms]
    ensures Slot(next, n) == Some(sms)
    ensures forall i: nat :: i != n ==> Slot(next, i) == Slot(blobs, i)
  {
  }

  lemma GetNextRefines(st: Nvs, f: Faults)
    requires WellFormed(st) && Working(f)
    ensures GetNext(st, f) == if Contents(st) == [] then NotFound else Found(Contents(st)[0])
    ensures GetCount(st, f) == |Contents(st)|
  {
  }

  lemma DeleteRefines(st: Nvs, f: Faults)
    requires WellFormed(st) && Working(f)
    ensures var (t, ok) := DeleteOldest(st, f);
            && ok && WellFormed(t)
            && Contents(t) == if Contents(st) == [] then [] else Contents(st)[1..]
  {
    var n := Count(st);
    if n > 0 {
      ShiftShape(st.blobs, 0, n, f);
      var (b, moved) := Shift(st.blobs, 0, n, f);
      assert moved + 1 < n ==> Slot(st.blobs, moved + 1).Some?;
      ErasedLast(b, n, st.blobs, moved, b - {n - 1});
      var t := DeleteOldest(st, f).0;
      assert t == Nvs(b - {n - 1}, Some(n - 1));
      assert forall i: nat :: i < n - 1 ==> Slot(t.blobs, i) == Slot(st.blobs, i + 1);
    }
  }

  // The slots below the erased one.
  lemma ErasedLast(b: map<nat, Message>, n: nat, blobs: map<nat, Message>, moved: nat, erased: map<nat, Message>)
    requires n > 0 && moved == n - 1 && erased == b - {n - 1}
    requires forall j: nat :: Slot(b, j) == Moved(blobs, 0, moved, j)
    ensures forall i: nat :: i < n - 1 ==> Slot(erased, i) == Slot(b, i) == Slot(blobs, i + 1)
  {
    forall i: nat | i < n - 1 ensures Slot(erased, i) == Slot(b, i) == Slot(blobs, i + 1) {
      assert Slot(b, i) == Moved(blobs, 0, moved, i);
    }
  }

  // A delete interrupted in its shift loop: of m it leaves m[1..k+1] + m[k..] for the number k of
  // slots moved, so every message but perhaps the first survives, in order.
  lemma InterruptedDelete(st: Nvs, f: Faults)
    requires WellFormed(st) && Count(st) > 0 && !Fails(f, 0) && !Fails(f, 1)
    requires Shift(st.blobs, 0, Count(st), f).1 + 1 < Count(st)
    ensures var k := Shift(st.blobs, 0, Count(st), f).1;
            var (t, ok) := DeleteOldest(st, f);
            var m := Contents(st);
            !ok && WellFormed(t) && Contents(t) == m[1..k + 1] + m[k..]
  {
    ShiftShape(st.blobs, 0, Count(st), f);
    var (b, k) := Shift(st.blobs, 0, Count(st), f);
    var t, m := DeleteOldest(st, f).0, Contents(st);
    forall i: nat | i < |m| ensures Slot(b, i) == Some((m[1..k + 1] + m[k..])[i]) {
      assert Slot(b, i) == Moved(st.blobs, 0, k, i);
      assert Slot(st.blobs, i).Some? && (i + 1 < |m| ==> Slot(st.blobs, i + 1).Some?);
    }
  }

  // The calls before this one succeed.
  predicate Reaches(f: Faults, call: nat) {
    forall i: nat :: i < call ==> !Fails(f, i)
  }

  // A delete from n messages makes its calls 0 to 2n - 1 for the shift, call 2n to erase the last
  // slot, 2n + 1 to write the count and 2n + 2 to commit.  Here the slot is erased, and the
  // smaller count is not written.
  predicate EraseOutrunsCount(n: nat, f: Faults) {
    n > 0 && Reaches(f, 2 * n) && !Fails(f, 2 * n) && Fails(f, 2 * n + 1)
  }

  // Here the smaller count is written and stays.
  predicate CountFalls(n: nat, f: Faults) {
    n > 0 && Reaches(f, 2 * n) && !Fails(f, 2 * n + 1) && !(Fails(f, 2 * n + 2) && f.reverted)
  }

  // The shift moves all slots exactly when all of its calls succeed.
  lemma ShiftCompletes(st: Nvs, f: Faults)
    requires WellFormed(st) && Count(st) > 0 && !Fails(f, 0) && !Fails(f, 1)
    ensures Shift(st.blobs, 0, Count(st), f).1 + 1 == Count(st) <==> Reaches(f, 2 * Count(st))
  {
    var n := Count(st);
    ShiftShape(st.blobs, 0, n, f);
    var moved := Shift(st.blobs, 0, n, f).1;
    if moved + 1 < n {
      assert Slot(st.blobs, moved + 1).Some?;
    } else {
      forall i: nat | i < 2 * n ensures !Fails(f, i) {
        if i >= 2 {
          var j: nat := (i - 2) / 2;
          assert j < moved && (i == 2 + 2 * j || i == 3 + 2 * j);
        }
      }
    }
  }

  // Every delete from a store of m, whatever fails in it.  The first message is gone and the count
  // with it; or a counted slot is empty; or the count is as before, and of m the store holds
  // m[1..k+1] + m[k..], with one message twice in place of the first.
  lemma DeleteOutcome(st: Nvs, f: Faults) returns (k: nat)
    requires WellFormed(st) && Count(st) > 0
    ensures var n, m, t := Count(st), Contents(st), DeleteOldest(st, f).0;
            && k < n
            && (CountFalls(n, f) ==> WellFormed(t) && Contents(t) == m[1..])
            && (EraseOutrunsCount(n, f) ==> HoleAt(t, n - 1) && Count(t) == n)
            && (!CountFalls(n, f) && !EraseOutrunsCount(n, f) ==>
                  WellFormed(t) && Contents(t) == m[1..k + 1] + m[k..])
  {
    if Reaches(f, 2 * Count(st)) {
      k := ShiftedAll(st, f);
    } else if !Fails(f, 0) && !Fails(f, 1) {
      k := ShiftStopped(st, f);
    } else {
      k := 0;
      var m := Contents(st);
      assert DeleteOldest(st, f).0 == st;
      assert m[1..1] + m[0..] == m;
    }
  }

  // The outcome when the shift stops early.
  lemma ShiftStopped(st: Nvs, f: Faults) returns (k: nat)
    requires WellFormed(st) && Count(st) > 0
    requires !Fails(f, 0) && !Fails(f, 1) && !Reaches(f, 2 * Count(st))
    ensures var m, t := Contents(st), DeleteOldest(st, f).0;
            k < Count(st) && WellFormed(t) && Contents(t) == m[1..k + 1] + m[k..]
  {
    hide WellFormed, Contents, DeleteOldest, Reaches;
    ShiftCompletes(st, f);
    k := Shift(st.blobs, 0, Count(st), f).1;
    ShiftShape(st.blobs, 0, Count(st), f);
    InterruptedDelete(st, f);
  }

  // The outcomes once the shift is through.
  lemma ShiftedAll(st: Nvs, f: Faults) returns (k: nat)
    requires WellFormed(st) && Count(st) > 0 && Reaches(f, 2 * Count(st))
    ensures var n, m, t := Count(st), Contents(st), DeleteOldest(st, f).0;
            && k < n
            && (CountFalls(n, f) ==> WellFormed(t) && Contents(t) == m[1..])
            && (EraseOutrunsCount(n, f) ==> HoleAt(t, n - 1) && Count(t) == n)
            && (!CountFalls(n, f) && !EraseOutrunsCount(n, f) ==>
                  WellFormed(t) && Contents(t) == m[1..k + 1] + m[k..])
  {
    var n, m, t := Count(st), Contents(st), DeleteOldest(st, f).0;
    ShiftCompletes(st, f);
    ShiftShape(st.blobs, 0, n, f);
    var (b, moved) := Shift(st.blobs, 0, n, f);
    ErasedLast(b, n, st.blobs, moved, b - {n - 1});
    forall i: nat | i + 1 < n ensures Slot(b, i) == Some(m[i + 1]) {
      assert Slot(st.blobs, i + 1).Some?;
    }
    if CountFalls(n, f) {
      k := 0;
    } else if EraseOutrunsCount(n, f) {
      k := 0;
      assert Slot(t.blobs, n - 1) == None;
    } else if Fails(f, 2 * n + 1) {
      k := n - 1;
      assert t == st.(blobs := b);
      assert Slot(b, n - 1) == Moved(st.blobs, 0, moved, n - 1) && Slot(st.blobs, n - 1).Some?;
      assert Contents(t) == m[1..n] + m[n - 1..];
    } else {
      k := 0;
      assert t == st && m[1..1] + m[0..] == m;
    }
  }

  // Deleting keeps every counted slot filled except when the erase outruns the count.
  lemma DeleteKeepsWellFormed(st: Nvs, f: Faults)
    requires WellFormed(st)
    ensures WellFormed(DeleteOldest(st, f).0) <==> !EraseOutrunsCount(Count(st), f)
  {
    if Count(st) > 0 {
      var k := DeleteOutcome(st, f);
    }
  }

  // The count falls exactly when the smaller count is written and stays.
  lemma DeleteCount(st: Nvs, f: Faults)
    requires WellFormed(st)
    ensures Count(DeleteOldest(st, f).0) == Count(st) - if CountFalls(Count(st), f) then 1 else 0
  {
    if Count(st) > 0 {
      var k := DeleteOutcome(st, f);
      ContentsCount(st);
      var t := DeleteOldest(st, f).0;
      if WellFormed(t) {
        ContentsCount(t);
      }
    }
  }

  lemma ContentsCount(st: Nvs)
    requires WellFormed(st)
    ensures |Contents(st)| == Count(st)
  {
  }

  // Two messages, and a delete whose sixth call, the write of the count, fails.
  lemma HoleExample(a: Message, b: Message)
    ensures var st := Nvs(map[0 := a, 1 := b], Some(2));
            var f := Faults([false, false, false, false, false, true], false);
            WellFormed(st) && EraseOutrunsCount(2, f) && DeleteOldest(st, f) == (Nvs(map[0 := b], Some(2)), false)
  {
    var st := Nvs(map[0 := a, 1 := b], Some(2));
    var f := Faults([false, false, false, false, false, true], false);
    assert Slot(st.blobs, 0).Some? && Slot(st.blobs, 1).Some?;
    var shifted := st.blobs[0 := b];
    assert Shift(st.blobs, 0, 2, f) == (shifted, 1);
    assert shifted - {1} == map[0 := b];
  }

  lemma SaveKeepsWellFormed(st: Nvs, sms: Message, f: Faults)
    requires WellFormed(st)
    ensures WellFormed(Save(st, sms, f).0)
  {
    SlotUpdate(st.blobs, Count(st), sms, st.blobs[Count(st) := sms]);
  }

  // ---------------------------------------------------------------- nothing unsent is lost

  // How often a message is stored: in slot i, in the slots below n, in the store.
  function Has(blobs: map<nat, Message>, i: nat, m: Message): nat {
    if Slot(blobs, i) == Some(m) then 1 else 0
  }

  function Copies(blobs: map<nat, Message>, n: nat, m: Message): nat {
    if n == 0 then 0 else Copies(blobs, n - 1, m) + Has(blobs, n - 1, m)
  }

  function Stored(st: Nvs, m: Message): nat {
    Copies(st.blobs, Count(st), m)
  }

  lemma {:induction false} CopiesAgree(a: map<nat, Message>, b: map<nat, Message>, n: nat, m: Message)
    requires forall i: nat :: i < n ==> Slot(a, i) == Slot(b, i)
    ensures Copies(a, n, m) == Copies(b, n, m)
  {
    if n > 0 {
      CopiesAgree(a, b, n - 1, m);
    }
  }

  // Overwriting one slot trades its message for another.
  lemma {:induction false} CopiesUpdate(blobs: map<nat, Message>, i: nat, sms: Message, next: map<nat, Message>,
                                        n: nat, m: Message)
    requires i < n && next == blobs[i := sms]
    ensures Copies(next, n, m) + Has(blobs, i, m) == Copies(blobs, n, m) + Has(next, i, m)
  {
    SlotUpdate(blobs, i, sms, next);
    if i < n - 1 {
      CopiesUpdate(blobs, i, sms, next, n - 1, m);
    } else {
      CopiesAgree(next, blobs, n - 1, m);
    }
  }

  // Shifting trades the message of the first slot for that of the last one moved.
  lemma {:induction false} ShiftCopies(blobs: map<nat, Message>, i: nat, n: nat, f: Faults, m: Message)
    requires i < n
    ensures var (b, moved) := Shift(blobs, i, n, f);
            i <= moved < n && Copies(b, n, m) + Has(blobs, i, m) == Copies(blobs, n, m) + Has(b, moved, m)
    decreases n - i
  {
    if !(i + 1 >= n || Fails(f, 2 + 2 * i) || i + 1 !in blobs || Fails(f, 3 + 2 * i)) {
      var next := blobs[i := blobs[i + 1]];
      CopiesUpdate(blobs, i, blobs[i + 1], next, n, m);
      ShiftCopies(next, i + 1, n, f, m);
      assert Slot(next, i) == Slot(next, i + 1);
    }
  }

  // Whatever fails, a delete loses at most one copy of the message in slot 0.
  lemma DeleteLosesOnlyFirst(st: Nvs, f: Faults, m: Message)
    ensures Stored(st, m) <= Stored(DeleteOldest(st, f).0, m) + Has(st.blobs, 0, m)
  {
    var n := Count(st);
    if n > 0 {
      ShiftCopies(st.blobs, 0, n, f, m);
      var (b, moved) := Shift(st.blobs, 0, n, f);
      ErasedCopies(b, n, b - {n - 1}, m);
    }
  }

  lemma ErasedCopies(b: map<nat, Message>, n: nat, erased: map<nat, Message>, m: Message)
    requires n > 0 && erased == b - {n - 1}
    ensures Copies(erased, n - 1, m) == Copies(erased, n, m) == Copies(b, n - 1, m)
  {
    CopiesAgree(erased, b, n - 1, m);
  }

  // Whatever fails, a save keeps what is stored, and one that reports success stores its message.
  lemma SaveKeepsStored(st: Nvs, sms: Message, f: Faults, m: Message)
    ensures var (t, ok) := Save(st, sms, f);
            Stored(st, m) + (if ok && m == sms then 1 else 0) <= Stored(t, m)
  {
    var n := Count(st);
    var next := st.blobs[n := sms];
    SlotUpdate(st.blobs, n, sms, next);
    CopiesAgree(next, st.blobs, n, m);
  }

  // In a well-formed store the copies are those of its sequence.
  lemma StoredIsContents(st: Nvs, m: Message)
    requires WellFormed(st)
    ensures Stored(st, m) == multiset(Contents(st))[m]
  {
    PrefixCopies(st, Count(st), m);
    assert Contents(st)[..Count(st)] == Contents(st);
  }

  lemma {:induction false} PrefixCopies(st: Nvs, n: nat, m: Message)
    requires WellFormed(st) && n <= Count(st)
    ensures Copies(st.blobs, n, m) == multiset(Contents(st)[..n])[m]
  {
    if n > 0 {
      PrefixCopies(st, n - 1, m);
      assert Contents(st)[..n] == Contents(st)[..n - 1] + [Contents(st)[n - 1]];
      assert Slot(st.blobs, n - 1).Some?;
    }
  }

  // ---------------------------------------------------------------- a hole in the slots

  // The first counted slot that is empty.
  predicate HoleAt(st: Nvs, h: nat) {
    h < Count(st) && Slot(st.blobs, h) == None && forall i: nat :: i < h ==> Slot(st.blobs, i).Some?
  }

  // An erase that outruns the count leaves the last counted slot empty.
  lemma HoleAppears(st: Nvs, f: Faults)
    requires WellFormed(st) && EraseOutrunsCount(Count(st), f)
    ensures HoleAt(DeleteOldest(st, f).0, Count(st) - 1)
  {
    var k := DeleteOutcome(st, f);
  }

  // No save ever fills the hole, and above slot 0 no delete does or counts below it, whatever fails
  // or succeeds.
  lemma HoleStays(st: Nvs, h: nat, sms: Message, f: Faults)
    requires HoleAt(st, h)
    ensures HoleAt(Save(st, sms, f).0, h)
    ensures h > 0 ==> HoleAt(DeleteOldest(st, f).0, h) && Count(DeleteOldest(st, f).0) == Count(st)
  {
    var n := Count(st);
    SlotUpdate(st.blobs, n, sms, st.blobs[n := sms]);
    if h > 0 {
      ShiftShape(st.blobs, 0, n, f);
      var (b, moved) := Shift(st.blobs, 0, n, f);
      assert moved >= h ==> Slot(st.blobs, h).Some?;
      forall i: nat | i <= h ensures Slot(b, i).Some? <==> i < h {
        assert Slot(b, i) == Moved(st.blobs, 0, moved, i);
      }
    }
  }

  // A delete keeps a hole in slot 0 exactly when it fails before it moves or counts anything, finds
  // nothing to move down, or is reverted as a whole.
  lemma FirstHoleKept(st: Nvs, f: Faults)
    requires HoleAt(st, 0)
    ensures var n := Count(st);
            var moved := Shift(st.blobs, 0, n, f).1;
            HoleAt(DeleteOldest(st, f).0, 0) <==>
              || Fails(f, 0) || Fails(f, 1)
              || (if n == 1 then Fails(f, 3) else moved == 0)
              || (moved + 1 >= n && !Fails(f, 2 * n + 1) && Fails(f, 2 * n + 2) && f.reverted)
  {
    var n := Count(st);
    ShiftShape(st.blobs, 0, n, f);
    var (b, moved) := Shift(st.blobs, 0, n, f);
    assert Slot(b, 0) == Moved(st.blobs, 0, moved, 0);
  }

  // One that works moves the next message into it.
  lemma FirstHoleFilled(a: Message)
    ensures var st := Nvs(map[1 := a], Some(2));
            HoleAt(st, 0) && Slot(DeleteOldest(st, Faults([], false)).0.blobs, 0) == Some(a)
  {
    var st := Nvs(map[1 := a], Some(2));
    assert Shift(st.blobs, 0, 2, Faults([], false)) == (st.blobs[0 := a], 1);
  }
}
