// The delay before the modem's configuration is tried again: wait_for_recovery_retry as a run of
// the two tasks, and when it leaves a report behind.
module AtRecovery {
  import opened Text
  import opened SmsStream
  import opened AtTasks
  import opened Sequences

  // One turn of the loop of wait_for_recovery_retry: chunks that arrive before its wait returns,
  // and chunks between a wake-up and its drain.
  datatype Turn = Turn(before: seq<string>, between: seq<string>)

  // The state after a turn that was woken.
  function Turned(s: System, turn: Turn): System {
    Next(Heard(Next(Heard(s, turn.before), Wake), turn.between), Drain)
  }

  // The steps of the delay.  The loop is left by its guard, when the turns made are all the time
  // allows, or by a wait that is not woken; `rest` arrives before the delay returns.
  function Recovery(s: System, turns: seq<Turn>, rest: seq<string>): seq<Step>
    decreases |turns|
  {
    if turns == [] then Uarts(rest)
    else
      Uarts(turns[0].before) + [Wake] +
      if Heard(s, turns[0].before).urcBit then
        Uarts(turns[0].between) + [Drain] + Recovery(Turned(s, turns[0]), turns[1..], rest)
      else Uarts(rest)
  }

  // It is left by such a wait.
  predicate WaitedOut(s: System, turns: seq<Turn>)
    decreases |turns|
  {
    turns != [] &&
    (!Heard(s, turns[0].before).urcBit || WaitedOut(Turned(s, turns[0]), turns[1..]))
  }

  lemma RecoveryStep(s: System, turns: seq<Turn>, rest: seq<string>)
    ensures turns == [] ==> Recovery(s, turns, rest) == Uarts(rest) && !WaitedOut(s, turns)
    ensures turns != [] ==>
              var woken := Heard(s, turns[0].before).urcBit;
              var next := Turned(s, turns[0]);
              && Recovery(s, turns, rest) == Uarts(turns[0].before) + [Wake] +
                   (if woken then Uarts(turns[0].between) + [Drain] + Recovery(next, turns[1..], rest) else Uarts(rest))
              && (WaitedOut(s, turns) <==> !woken || WaitedOut(next, turns[1..]))
  {
    hide Heard, Turned;
  }

  lemma RecoveryGrouped(before: seq<Step>, turn: Turn, more: seq<Step>)
    ensures before + (Uarts(turn.before) + [Wake] + (Uarts(turn.between) + [Drain] + more))
         == (before + Uarts(turn.before) + [Wake] + Uarts(turn.between) + [Drain]) + more
  {
    Assoc(Uarts(turn.between), [Drain], more);
    Assoc(before, Uarts(turn.before), [Wake]);
    Assoc(before + Uarts(turn.before) + [Wake], Uarts(turn.between), [Drain]);
    var a := Uarts(turn.before) + [Wake];
    var b := Uarts(turn.between) + [Drain];
    Assoc(before, a, b + more);
    Assoc(before + a, b, more);
  }

  // An idle task's pending block has its wake-up.
  lemma InvWaits(s: System)
    requires Inv(s) && s.pc == Pc.Idle
    ensures HasBlock(s.buf) ==> s.urcBit
  {
  }

  // ---------------------------------------------------------------- what it leaves pending

  // The state in which the loop is left: after the last drain, or after the wait that is not woken.
  function Settled(s: System, turns: seq<Turn>): System
    decreases |turns|
  {
    if turns == [] then s
    else if Heard(s, turns[0].before).urcBit then Settled(Turned(s, turns[0]), turns[1..])
    else Next(Heard(s, turns[0].before), Wake)
  }

  lemma SettledStep(s: System, turns: seq<Turn>)
    requires turns != []
    ensures Settled(s, turns) ==
            if Heard(s, turns[0].before).urcBit then Settled(Turned(s, turns[0]), turns[1..])
            else Next(Heard(s, turns[0].before), Wake)
  {
  }

  lemma SettledNothing(s: System)
    ensures Settled(s, []) == s
  {
  }

  // A turn of an idle task, as steps; woken or not, the drain leaves nothing complete.
  lemma TurnedAfter(steps: seq<Step>, turn: Turn)
    requires After(steps).pc == Pc.Idle
    ensures var t := Turned(After(steps), turn);
            && After(steps + Uarts(turn.before) + [Wake] + Uarts(turn.between) + [Drain]) == t
            && t.pc == Pc.Idle && !HasBlock(t.buf) && Filter(t.buf) == t.buf
  {
    hide After, Next, Heard, Uarts, HasBlock, Filter;
    var heard := steps + Uarts(turn.before);
    var woken := heard + [Wake];
    var all := woken + Uarts(turn.between);
    HeardAfter(steps, turn.before);
    UartsKeepPc(steps, turn.before);
    RunExtends(heard, Wake);
    WakePc(After(heard));
    HeardAfter(woken, turn.between);
    UartsKeepPc(woken, turn.between);
    RunExtends(all, Drain);
    DrainQuiets(all);
    NoLostWakeup(all + [Drain]);
  }

  lemma WakePc(s: System)
    requires s.pc == Pc.Idle
    ensures Next(s, Wake).pc != InCommand && Next(s, Wake).buf == s.buf
  {
  }

  // A wait that is not woken ends with nothing complete in the buffer.
  lemma NotWoken(steps: seq<Step>, chunks: seq<string>)
    requires After(steps).pc == Pc.Idle && !Heard(After(steps), chunks).urcBit
    ensures var t := Next(Heard(After(steps), chunks), Wake);
            && After(steps + (Uarts(chunks) + [Wake])) == t
            && t.pc == Pc.Idle && !HasBlock(t.buf) && Filter(t.buf) == t.buf
  {
    hide After, Heard, Uarts, HasBlock, Filter;
    var heard := steps + Uarts(chunks);
    HeardAfter(steps, chunks);
    UartsKeepPc(steps, chunks);
    NoLostWakeup(heard);
    InvWaits(After(heard));
    RunExtends(heard, Wake);
    WakePc(After(heard));
    Assoc(steps, Uarts(chunks), [Wake]);
  }

  // On both exits, the delay ends as the loop and the last chunks leave it.
  lemma {:induction false} DelayEnds(steps: seq<Step>, turns: seq<Turn>, rest: seq<string>)
    requires After(steps).pc == Pc.Idle
    ensures var s := After(steps);
            After(steps + Recovery(s, turns, rest)) == Heard(Settled(s, turns), rest)
    decreases |turns|
  {
    hide *;
    var s := After(steps);
    RecoveryStep(s, turns, rest);
    if turns == [] {
      SettledNothing(s);
      HeardAfter(steps, rest);
    } else if Heard(s, turns[0].before).urcBit {
      var turn, more := turns[0], turns[1..];
      var next := steps + Uarts(turn.before) + [Wake] + Uarts(turn.between) + [Drain];
      TurnedAfter(steps, turn);
      DelayEnds(next, more, rest);
      RecoveryGrouped(steps, turn, Recovery(After(next), more, rest));
      SettledStep(s, turns);
    } else {
      var waited := Uarts(turns[0].before) + [Wake];
      NotWoken(steps, turns[0].before);
      HeardAfter(steps + waited, rest);
      Assoc(steps, waited, Uarts(rest));
      SettledStep(s, turns);
    }
  }

  // What the loop leaves: nothing complete, once it has waited.
  lemma {:induction false} SettledQuiet(steps: seq<Step>, turns: seq<Turn>)
    requires After(steps).pc == Pc.Idle
    ensures var t := Settled(After(steps), turns);
            t.pc == Pc.Idle && Filter(t.buf) == t.buf && (turns != [] ==> !HasBlock(t.buf))
    decreases |turns|
  {
    hide After, Next, Heard, Settled, Turned, HasBlock, Filter, Uarts;
    if turns == [] {
      SettledNothing(After(steps));
      NoLostWakeup(steps);
    } else {
      var turn, more := turns[0], turns[1..];
      SettledStep(After(steps), turns);
      if Heard(After(steps), turn.before).urcBit {
        TurnedAfter(steps, turn);
        SettledQuiet(steps + Uarts(turn.before) + [Wake] + Uarts(turn.between) + [Drain], more);
        if more == [] {
          SettledNothing(Turned(After(steps), turn));
        }
      } else {
        NotWoken(steps, turn.before);
      }
    }
  }

  // Exactly when the delay, left either way, ends with a complete report in the buffer: the chunks
  // since the last drain or wait left a text with one.  Once there was a wait, they complete it.
  lemma LeftPending(steps: seq<Step>, turns: seq<Turn>, rest: seq<string>)
    requires After(steps).pc == Pc.Idle
    ensures var s := After(steps);
            var t := Settled(s, turns);
            && (turns != [] ==> !HasBlock(t.buf))
            && (HasBlock(After(steps + Recovery(s, turns, rest)).buf) <==> HasBlock(Heard(t, rest).buf))
  {
    hide *;
    DelayEnds(steps, turns, rest);
    SettledQuiet(steps, turns);
  }

  // For chunks that fit, whatever their cut: one is left pending if and only if the text left by
  // the last drain or wait, and what arrived since, hold one when filtered.
  lemma LastChunksLeavePending(steps: seq<Step>, turns: seq<Turn>, rest: seq<string>)
    requires After(steps).pc == Pc.Idle
    ensures var s := After(steps);
            var b := Settled(s, turns).buf;
            && (turns != [] ==> !HasBlock(b))
            && (|b| + |Flatten(rest)| < BUF_SIZE ==>
                  (HasBlock(After(steps + Recovery(s, turns, rest)).buf) <==> HasBlock(Filter(b + Flatten(rest)))))
  {
    hide *;
    var t := Settled(After(steps), turns);
    LeftPending(steps, turns, rest);
    SettledQuiet(steps, turns);
    if |t.buf| + |Flatten(rest)| < BUF_SIZE {
      HeardText(t, rest);
    }
  }

  // One report wakes the delay and is drained; the next arrives before the guard ends the loop and
  // stays, with its wake-up pending.
  lemma GuardLeavesPending(header: string, first: string, second: string)
    requires IsHeader(header) && IsBody(first) && !Removable(first) && IsBody(second) && !Removable(second)
    requires |Block(header, first)| < BUF_SIZE && |Block(header, second)| < BUF_SIZE
    ensures var turns := [Turn([Block(header, first)], [])];
            var t := After(Recovery(INIT, turns, [Block(header, second)]));
            && !WaitedOut(INIT, turns) && t.handed == [Block(header, first)]
            && t.buf == Block(header, second) && HasBlock(t.buf) && t.urcBit && t.pc == Pc.Idle
  {
    hide *;
    var b, c := Block(header, first), Block(header, second);
    var turns := [Turn([b], [])];
    AfterInit();
    OneReport(INIT, header, first);
    TurnTaken(b);
    OneReport(Turned(INIT, turns[0]), header, second);
    DelayEnds([], turns, [c]);
    RecoveryStep(INIT, turns, [c]);
    SettledStep(INIT, turns);
    SettledNothing(Turned(INIT, turns[0]));
    assert turns[1..] == [];
    RecoveryStep(Turned(INIT, turns[0]), [], [c]);
    assert [] + Recovery(INIT, turns, [c]) == Recovery(INIT, turns, [c]);
  }

  // A report that arrives after a wait that was not woken stays as well.
  lemma WaitLeavesPending(header: string, content: string)
    requires IsHeader(header) && IsBody(content) && !Removable(content) && |Block(header, content)| < BUF_SIZE
    ensures var turns := [Turn([], [])];
            var t := After(Recovery(INIT, turns, [Block(header, content)]));
            WaitedOut(INIT, turns) && t.buf == Block(header, content) && HasBlock(t.buf) && t.urcBit && t.pc == Pc.Idle
  {
    hide *;
    var b := Block(header, content);
    var turns := [Turn([], [])];
    AfterInit();
    HeardNothing(INIT);
    NothingToWakeFor();
    RecoveryStep(INIT, turns, [b]);
    SettledStep(INIT, turns);
    OneReport(INIT, header, content);
    DelayEnds([], turns, [b]);
    assert [] + Recovery(INIT, turns, [b]) == Recovery(INIT, turns, [b]);
  }

  lemma NothingToWakeFor()
    ensures Next(INIT, Wake) == INIT && !INIT.urcBit
  {
  }

  lemma AfterInit()
    ensures After([]) == INIT && INIT.buf == "" && INIT.pc == Pc.Idle && INIT.handed == []
  {
  }

  // A report that arrives in an empty buffer.
  lemma OneReport(s: System, header: string, content: string)
    requires s.buf == "" && IsHeader(header) && IsBody(content) && !Removable(content)
    requires |Block(header, content)| < BUF_SIZE
    ensures var b := Block(header, content);
            var t := Heard(s, [b]);
            && t.buf == b && t.urcBit && t.pc == s.pc && t.handed == s.handed
            && HasBlock(b) && Blocks(b) == [b] && Rest(b) == ""
  {
    hide *;
    var b := Block(header, content);
    BlockWhole(header, content);
    HeardStep(s, [b]);
    assert [b][1..] == [];
    HeardNothing(Next(s, Uart(b)));
    StoredWhole(s, b);
  }

  lemma StoredWhole(s: System, b: string)
    requires s.buf == "" && |b| < BUF_SIZE
    ensures var t := Next(s, Uart(b));
            && t.pc == s.pc && t.handed == s.handed
            && (b != "" && Filter(b) == b && HasBlock(b) ==> t.buf == b && t.urcBit)
  {
    hide Filter, HasBlock, SaysOk, SaysError, Clear;
    assert s.buf + b == b;
  }

  lemma BlockWhole(header: string, content: string)
    requires IsHeader(header) && IsBody(content) && !Removable(content)
    ensures var b := Block(header, content);
            b != "" && Filter(b) == b && HasBlock(b) && Blocks(b) == [b] && Rest(b) == ""
  {
    hide Filter, Removable, IsBody, StartsWith, Find, BlockEnd, BlockStart;
    var b := Block(header, content);
    ReportBlock(header, content);
    BlockHeadExtend(b, "");
    EmptyText();
    assert b + "" == b;
    HeaderLine(header, content + CRLF + "");
    KeptLine(content, "");
    assert header + CRLF + (content + CRLF + "") == b;
    assert header + CRLF + (content + CRLF + Filter("")) == b;
  }

  // It wakes the task, which drains it.
  lemma TurnTaken(b: string)
    ensures var h := Heard(INIT, [b]);
            var t := Turned(INIT, Turn([b], []));
            h.urcBit && h.pc == Pc.Idle ==>
              t.buf == Rest(h.buf) && t.pc == Pc.Idle && t.handed == h.handed + Blocks(h.buf)
  {
    hide Blocks, Rest, Heard;
    HeardNothing(Next(Heard(INIT, [b]), Wake));
  }
}
