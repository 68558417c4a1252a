// The receive buffer of uart_at_manager.c, updated in place by both tasks, and what the AT task
// does with it.  A method that is one mutex section refines one step of AtTasks; those made of
// several, with the chunks that arrive in between, refine a run.
module AtReceiver {
  import opened Text
  import opened CStrings
  import opened SmsStream
  import opened AtTasks
  import opened AtAnswers
  import opened AtRecovery
  import opened CmtParser
  import opened Reassembly
  import opened Hex
  import opened Sequences
  import opened Utf8
  import FragmentBuffer

  lemma AfterNothing()
    ensures After([]) == INIT && ParseAll([]) == []
  {
  }

  class Receiver {
    const buf: array<char>
    var idx: nat
    var urcBit: bool
    var okBit: bool
    var errorBit: bool
    const fragments: FragmentBuffer.Buffer

    ghost var pc: Pc
    ghost var handed: seq<string>
    ghost var stream: string
    ghost var steps: seq<Step>

    ghost predicate BufferOk()
      reads `idx, buf
    {
      buf.Length == BUF_SIZE && idx < BUF_SIZE && buf[idx] == NUL && NulFree(buf[..idx])
    }

    ghost function Contents(): string
      requires BufferOk()
      reads `idx, buf
    {
      buf[..idx]
    }

    ghost function Abs(): System
      requires BufferOk()
      reads this, buf
    {
      System(Contents(), urcBit, pc, handed, stream, okBit, errorBit)
    }

    ghost function Footprint(): set<object> {
      {this, buf, fragments, fragments.sender, fragments.accumulated}
    }

    // The buffer is in order, and the fragments are those of the blocks handed over.
    ghost predicate Ready()
      reads Footprint()
    {
      && BufferOk()
      && buf != fragments.sender && buf != fragments.accumulated
      && fragments.Valid()
      && Arrivals(fragments.events) == ParseAll(handed)
    }

    // And the whole history is a run of the two tasks.
    ghost predicate Valid()
      reads Footprint()
    {
      Ready() && Abs() == After(steps)
    }

    constructor ()
      ensures Valid() && steps == [] && fresh(Footprint() - {this})
    {
      hide After;
      AfterNothing();
      buf := new char[BUF_SIZE];
      fragments := new FragmentBuffer.Buffer();
      idx, urcBit, okBit, errorBit := 0, false, false, false;
      pc, handed, stream, steps := Pc.Idle, [], "", [];
      new;
      buf[0] := NUL;
    }

    // strstr over the buffer, from an offset: where the pattern first occurs.
    method StrStr(pat: string, from: nat) returns (pos: int)
      requires BufferOk() && from <= idx
      ensures FirstAt(Contents(), pat, from, pos)
      ensures pos == Find(Contents(), pat, from)
    {
      pos := Find(buf[..idx], pat, from);
      FindFirst(Contents(), pat, from);
    }

    // memmove of the text from `from` on, with its NUL, down to `dst`.
    method CutOut(dst: nat, from: nat)
      requires BufferOk() && dst <= from <= idx
      modifies `idx, buf
      ensures BufferOk() && Contents() == old(Contents()[..dst] + Contents()[from..])
    {
      ghost var was, n := buf[..], idx;
      MoveDown(buf, dst, from, idx + 1);
      idx := idx - (from - dst);
      assert was[from..n + 1] == old(buf[from..idx + 1]) && was[..dst] == old(buf[..dst]);
      TextMoved(was, buf[..], dst, from, n);
    }

    lemma TextMoved(was: string, now: string, dst: nat, from: nat, n: nat)
      requires dst <= from <= n < |was| == |now|
      requires now[..dst] == was[..dst] && now[dst..dst + (n + 1 - from)] == was[from..n + 1]
      ensures now[..n - (from - dst)] == was[..dst] + was[from..n]
      ensures now[n - (from - dst)] == was[n]
    {
      var k := n - (from - dst);
      assert now[dst..k] == now[dst..k + 1][..k - dst] == was[from..n + 1][..n - from] == was[from..n];
      assert now[k] == now[dst..k + 1][k - dst];
      assert now[..k] == now[..dst] + now[dst..k];
    }

    // The clean-up loop of the UART task: unrelated URC lines are cut out of the text.
    method FilterUrcs()
      requires BufferOk()
      modifies `idx, buf
      ensures BufferOk() && Contents() == Filter(old(Contents()))
    {
      hide Filter;
      var p: nat, more := 0, true;
      ghost var whole := Contents();
      assert whole[0..] == whole;
      EmptyText();
      while more && buf[p] != NUL
        invariant BufferOk() && p <= idx
        invariant Filter(whole) == Contents()[..p] + Filter(Contents()[p..])
        invariant !more ==> Filter(Contents()[p..]) == Contents()[p..]
        decreases more, idx - p
      {
        p, more := FilterOneLine(p);
      }
      assert p == idx ==> Contents()[p..] == "";
      assert Contents()[..p] + Contents()[p..] == Contents();
    }

    // One round of the loop: the line at p is passed, cut out, or left because it is incomplete.
    method FilterOneLine(p: nat) returns (q: nat, more: bool)
      requires BufferOk() && p < idx
      modifies `idx, buf
      ensures BufferOk() && q <= idx
      ensures Contents()[..q] + Filter(Contents()[q..]) == old(Contents()[..p] + Filter(Contents()[p..]))
      ensures if more then idx - q < old(idx) - p else Filter(Contents()[q..]) == Contents()[q..]
    {
      hide Filter, Find, Removable, StartsWith, At;
      ghost var kept, s := Contents()[..p], Contents()[p..];
      var lineEnd := StrStr(CRLF, p);
      SuffixFind(kept, s, Contents());
      q, more := p, lineEnd >= 0;
      if lineEnd < 0 {
        FilterPartial(s);
        return;       // an incomplete line is kept
      }
      ghost var n := lineEnd + 2 - p;
      FilterUnfold(s);
      assert s[n..] == Contents()[lineEnd + 2..];
      if Removable(buf[p..idx]) {
        CutOut(p, lineEnd + 2);
        assert Contents()[..p] == kept && Contents()[p..] == s[n..];
      } else {
        q := lineEnd + 2;
        KeepLine(kept, s[..n], Filter(s[n..]));
        assert Contents()[..q] == kept + s[..n];
      }
    }

    lemma KeepLine(kept: string, line: string, rest: string)
      ensures (kept + line) + rest == kept + (line + rest)
    {
    }

    lemma SuffixFind(p: string, s: string, text: string)
      requires text == p + s
      ensures Find(text, CRLF, |p|) == Shifted(|p|, Find(s, CRLF, 0))
    {
      FindFrom(p, s, CRLF, 0);
    }

    lemma FilterUnfold(s: string)
      requires Find(s, CRLF, 0) >= 0
      ensures var e := Find(s, CRLF, 0);
              Filter(s) == if Removable(s) then Filter(s[e + 2..]) else s[..e + 2] + Filter(s[e + 2..])
    {
    }

    // ---------------------------------------------------------------- the UART task

    // The overflow branch: only the text from the first mark on is kept.
    method MakeRoom()
      requires BufferOk()
      modifies `idx, buf
      ensures idx < BUF_SIZE == buf.Length && buf[..idx] == Clear(old(Contents()))
      ensures idx == BUF_SIZE - 1 ==> buf[idx] == NUL
    {
      var cmt := StrStr(CMT, 0);
      if cmt >= 0 {
        MoveDown(buf, 0, cmt, idx);
        assert buf[..idx - cmt] == buf[0..0 + (idx - cmt)];
        assert cmt == 0 ==> buf[idx] == buf[idx..][0] == old(buf[idx..])[0];
        idx := idx - cmt;
      } else {
        idx := 0;
      }
    }

    // Copies as much of the chunk as fits, after making room if it does not.
    method Store(chunk: string)
      requires BufferOk() && NulFree(chunk)
      modifies `idx, buf
      ensures BufferOk() && Contents() == Accept(old(Contents()), chunk)
    {
      hide Find, Clear, Filter;
      ghost var was := Contents();
      ClearIsSuffix(was);
      if idx + |chunk| >= BUF_SIZE {
        MakeRoom();
      }
      if idx + |chunk| < BUF_SIZE {
        Append(chunk);
      } else {
        var room := BUF_SIZE - idx - 1;
        if room > 0 {
          Append(chunk[..room]);
        } else {
          assert buf[..idx] + chunk[..room] == buf[..idx];
        }
      }
    }

    method Append(s: string)
      requires buf.Length == BUF_SIZE && idx + |s| < BUF_SIZE && NulFree(s) && NulFree(buf[..idx])
      modifies `idx, buf
      ensures BufferOk() && Contents() == old(buf[..idx]) + s
    {
      WriteAt(buf, idx, s);
      assert buf[..idx + |s|] == buf[..idx] + buf[idx..idx + |s|];
      idx := idx + |s|;
    }

    // has_complete_sms_urc_locked
    method HasCompleteUrc() returns (complete: bool)
      requires BufferOk()
      ensures complete == HasBlock(Contents())
    {
      var cmt := StrStr(CMT, 0);
      if cmt < 0 {
        return false;
      }
      var first := StrStr(CRLF, cmt);
      if first < 0 {
        return false;
      }
      var second := StrStr(CRLF, first + 2);
      complete := second >= 0;
    }

    // The UART_DATA case of uart_event_task.
    method OnUartData(chunk: string)
      requires Valid() && NulFree(chunk)
      modifies `idx, `urcBit, `okBit, `errorBit, `stream, `steps, buf
      ensures Valid() && steps == old(steps) + [Uart(chunk)]
      ensures Abs() == Next(old(Abs()), Uart(chunk))
    {
      hide After, Received, HasBlock, Find, ParseAll, Run, Arrivals, SaysOk, SaysError;
      RunExtends(steps, Uart(chunk));
      ReceivedNothing(Contents());
      if |chunk| > 0 {
        Receive(chunk);
      }
      stream := stream + chunk;
      steps := steps + [Uart(chunk)];
    }

    method Receive(chunk: string)
      requires BufferOk() && NulFree(chunk) && chunk != ""
      modifies `idx, `urcBit, `okBit, `errorBit, buf
      ensures BufferOk() && Contents() == Received(old(Contents()), chunk)
      ensures urcBit == (old(urcBit) || HasBlock(Contents()))
      ensures okBit == (old(okBit) || SaysOk(Contents()))
      ensures errorBit == (old(errorBit) || SaysError(Contents()))
    {
      hide Filter, Accept, HasBlock, Find, SaysOk, SaysError;
      Store(chunk);
      FilterUrcs();
      SignalResponse();
      var complete := HasCompleteUrc();
      if complete {
        urcBit := true;
      }
    }

    method SignalResponse()
      requires BufferOk()
      modifies `okBit, `errorBit
      ensures okBit == (old(okBit) || SaysOk(Contents()))
      ensures errorBit == (old(errorBit) || SaysError(Contents()))
    {
      hide Find;
      var ok := StrStr(OK, 0);
      var error := StrStr("ERROR\r\n", 0);
      var cme := StrStr(CME_ERROR, 0);
      var cms := StrStr(CMS_ERROR, 0);
      var prompt := StrStr("> ", 0);
      if ok >= 0 {
        okBit := true;
      } else if error >= 0 || cme >= 0 || cms >= 0 || prompt >= 0 {
        errorBit := true;
      }
    }

    // Chunks that arrive one after the other while the AT task does something else or waits.
    method ReceiveAll(chunks: seq<string>)
      requires Valid() && forall i :: 0 <= i < |chunks| ==> NulFree(chunks[i])
      modifies `idx, `urcBit, `okBit, `errorBit, `stream, `steps, buf
      ensures Valid() && steps == old(steps) + Uarts(chunks)
      ensures Abs() == Heard(old(Abs()), chunks)
    {
      hide After, Next, Heard, BufferOk, Run, Arrivals, ParseAll;
      var i := 0;
      assert chunks[0..] == chunks && chunks[..0] == [] && steps + [] == steps;
      while i < |chunks|
        invariant i <= |chunks| && Valid() && steps == old(steps) + Uarts(chunks[..i])
        invariant Heard(Abs(), chunks[i..]) == Heard(old(Abs()), chunks)
      {
        HeardStep(Abs(), chunks[i..]);
        assert chunks[..i + 1] == chunks[..i] + [chunks[i]] && chunks[i..][1..] == chunks[i + 1..];
        UartsSnoc(chunks[..i], chunks[i]);
        OnUartData(chunks[i]);
        i := i + 1;
      }
      HeardNothing(Abs());
      assert chunks[..i] == chunks && chunks[i..] == [];
    }

    // ---------------------------------------------------------------- the AT task

    // A wait for the URC bit that returns; the bit is consumed when it was set.
    method WaitForUrc() returns (woken: bool)
      requires Valid() && pc == Pc.Idle
      modifies `urcBit, `pc, `steps
      ensures Valid() && steps == old(steps) + [Wake] && Abs() == Next(old(Abs()), Wake)
      ensures woken == old(urcBit) && !urcBit && pc == if woken then Woken else Pc.Idle
    {
      hide After, Run, Arrivals, ParseAll;
      RunExtends(steps, Wake);
      woken := urcBit;
      if woken {
        urcBit, pc := false, Woken;
      }
      steps := steps + [Wake];
    }

    // handle_urc: the first complete block goes to the parser, its fragment to the reassembly.
    method HandleUrc() returns (processed: nat)
      requires Ready()
      modifies `handed, fragments, fragments.sender, fragments.accumulated
      ensures Ready() && Contents() == old(Contents())
      ensures var s := Contents();
              if HasBlock(s) then
                processed == BlockEnd(s) && handed == old(handed) + [s[BlockStart(s)..BlockEnd(s)]]
              else processed == 0 && handed == old(handed)
    {
      hide Find, BlockEnd, BlockStart, ParseAll, Parse, Run, Arrivals;
      var start, end := LocateBlock();
      processed := 0;
      if end >= 0 {
        ghost var s := Contents();
        var block := buf[start..end];
        assert forall i :: 0 <= i < |block| ==> block[i] == buf[start + i] == s[start..end][i];
        assert block == s[start..end];
        Deliver(block);
        processed := end;
      }
    }

    method LocateBlock() returns (start: int, end: int)
      requires BufferOk()
      ensures start == BlockStart(Contents()) && end == BlockEnd(Contents())
    {
      hide Find;
      start := StrStr(CMT, 0);
      end := -1;
      if start >= 0 {
        var first := StrStr(CRLF, start);
        if first >= 0 {
          var second := StrStr(CRLF, first + 2);
          if second >= 0 {
            end := second + 2;
          }
        }
      }
    }

    // What handle_urc does with the text of a block.
    method Deliver(block: string)
      requires Ready() && NulFree(block)
      modifies `handed, fragments, fragments.sender, fragments.accumulated
      ensures Ready() && handed == old(handed) + [block]
    {
      hide Parse, ParseAll, Run, Arrivals, FlatMap, BufferOk;
      var now: int, later: int, accepts: bool := *, *, *;   // the clock, and room in the queue
      var parsed := ParseInto(block);
      if parsed.Parsed? {
        ParseNulFree(block);
        ghost var arrival := Arrival(parsed.fragment, now, later, accepts);
        ArrivalsConcat(fragments.events, [arrival]);
        OneArrival(arrival);
        fragments.OnFragment(parsed.fragment, now, later, accepts);
      }
      ParseAllSnoc(handed, block);
      handed := handed + [block];
    }

    // One round of process_pending_sms_urcs_locked: the first complete block is handed over and
    // cut off the front.
    method ProcessFirst() returns (processed: nat)
      requires Ready()
      modifies `idx, `handed, buf, fragments, fragments.sender, fragments.accumulated
      ensures Ready() && Rest(Contents()) == Rest(old(Contents()))
      ensures handed + Blocks(Contents()) == old(handed + Blocks(Contents()))
      ensures if processed > 0 then idx < old(idx) else !HasBlock(Contents())
    {
      hide Find, BlockEnd, BlockStart, ParseAll, Run, Arrivals, Blocks, Rest, HasBlock;
      ghost var s, sofar := Contents(), handed;
      DrainOneBlock(s);
      processed := HandleUrc();
      if processed > 0 {
        CutOut(0, processed);
        assert s[..0] + s[processed..] == s[processed..];
        Assoc(sofar, [s[BlockStart(s)..BlockEnd(s)]], Blocks(s[processed..]));
      }
    }

    lemma DrainOneBlock(s: string)
      ensures HasBlock(s) ==>
                && 0 <= BlockStart(s) <= BlockEnd(s) <= |s| && Rest(s) == Rest(s[BlockEnd(s)..])
                && Blocks(s) == [s[BlockStart(s)..BlockEnd(s)]] + Blocks(s[BlockEnd(s)..])
    {
    }

    // process_pending_sms_urcs_locked
    method ProcessPendingLocked()
      requires Ready()
      modifies `idx, `handed, `urcBit, buf, fragments, fragments.sender, fragments.accumulated
      ensures Ready() && Contents() == Rest(old(Contents()))
      ensures handed == old(handed) + Blocks(old(Contents()))
      ensures urcBit == HasBlock(Contents())
    {
      hide Find, BlockEnd, BlockStart, ParseAll, Run, Arrivals, Blocks, Rest, HasBlock;
      ghost var whole, before := Contents(), handed;
      var processed: nat := 1;
      while processed > 0 && idx > 0
        invariant Ready()
        invariant Rest(whole) == Rest(Contents())
        invariant before + Blocks(whole) == handed + Blocks(Contents())
        invariant processed == 0 ==> !HasBlock(Contents())
        decreases processed > 0, idx
      {
        processed := ProcessFirst();
      }
      assert idx == 0 ==> Contents() == "";
      NothingToDrain(Contents());
      assert handed + [] == handed;
      var complete := HasCompleteUrc();
      urcBit := complete;
    }

    // process_pending_sms_urcs
    method ProcessPending()
      requires Valid() && pc != InCommand
      modifies `idx, `handed, `urcBit, `pc, `steps, buf, fragments, fragments.sender, fragments.accumulated
      ensures Valid() && steps == old(steps) + [Drain] && Abs() == Next(old(Abs()), Drain) && pc == Pc.Idle
    {
      hide After, Rest, Blocks, HasBlock, ParseAll, Run, Arrivals;
      RunExtends(steps, Drain);
      ProcessPendingLocked();
      pc := Pc.Idle;
      steps := steps + [Drain];
    }

    // clear_command_data_preserving_sms_locked
    method ClearCommandData()
      requires BufferOk()
      modifies `idx, buf
      ensures BufferOk() && Contents() == Clear(old(Contents()))
    {
      var cmt := StrStr(CMT, 0);
      if cmt >= 0 {
        CutOut(0, cmt);
      } else {
        idx := 0;
        buf[0] := NUL;
      }
    }

    // What both sections of at_send_command do: drain, then clear.
    method DrainAndClear()
      requires Ready()
      modifies `idx, `handed, `urcBit, buf, fragments, fragments.sender, fragments.accumulated
      ensures Ready()
      ensures Contents() == Clear(Rest(old(Contents()))) && handed == old(handed) + Blocks(old(Contents()))
      ensures urcBit == HasBlock(Rest(old(Contents())))
    {
      hide Rest, Blocks, HasBlock, Clear, ParseAll, Run, Arrivals;
      ProcessPendingLocked();
      ClearCommandData();
    }

    // The section before the exchange with the modem.
    method OpenCommandSection()
      requires Valid() && pc == Pc.Idle
      modifies `idx, `handed, `urcBit, `pc, `steps, buf, fragments, fragments.sender, fragments.accumulated
      ensures Valid() && steps == old(steps) + [OpenCommand] && pc == InCommand
    {
      hide After, Next, Rest, Blocks, HasBlock, Clear, ParseAll, Run, Arrivals;
      RunExtends(steps, OpenCommand);
      SectionStep(Abs(), OpenCommand);
      DrainAndClear();
      pc := InCommand;
      steps := steps + [OpenCommand];
    }

    // The response bits are read and cleared: by xEventGroupClearBits, and by the wait for the answer.
    method TakeAnswer() returns (ok: bool, error: bool)
      requires Valid() && pc == InCommand
      modifies `okBit, `errorBit, `steps
      ensures Valid() && steps == old(steps) + [ClearAnswer]
      ensures ok == old(okBit) && error == old(errorBit)
    {
      hide After, Run, Arrivals, ParseAll;
      RunExtends(steps, ClearAnswer);
      ok, error := okBit, errorBit;
      okBit, errorBit := false, false;
      steps := steps + [ClearAnswer];
    }

    // strncpy of the text to a buffer of so many bytes.
    method CopyOut(size: nat) returns (text: string)
      requires BufferOk() && size > 0
      ensures text == CutTo(Contents(), size)
    {
      text := if idx < size then buf[..idx] else buf[..size - 1];
      assert idx >= size ==> Contents()[..size - 1] == buf[..size - 1];
    }

    // The section after the exchange, with the copy of what is received for the caller.
    method CloseCommandSection(size: nat) returns (response: string)
      requires Valid() && pc == InCommand && size > 0
      modifies `idx, `handed, `urcBit, `pc, `steps, buf, fragments, fragments.sender, fragments.accumulated
      ensures Valid() && steps == old(steps) + [CloseCommand] && pc == Pc.Idle
      ensures response == CutTo(old(Contents()), size)
    {
      hide After, Next, Rest, Blocks, HasBlock, Clear, ParseAll, Run, Arrivals, CutTo;
      RunExtends(steps, CloseCommand);
      SectionStep(Abs(), CloseCommand);
      response := CopyOut(size);
      DrainAndClear();
      pc := Pc.Idle;
      steps := steps + [CloseCommand];
    }

    // at_send_command.  Chunks may come between the section that opens it and the clearing of the
    // response bits, during the wait, and before the section that closes it.  OK is reported
    // exactly when, since the bits were cleared, a chunk left a text that says so; CommandAnswer
    // says when that OK is a new one.
    method SendCommand(early: seq<string>, during: seq<string>, late: seq<string>, size: nat)
      returns (ok: bool, response: string)
      requires Valid() && pc == Pc.Idle && size > 0
      requires forall chunk :: chunk in early + during + late ==> NulFree(chunk)
      modifies `idx, `handed, `urcBit, `okBit, `errorBit, `stream, `pc, `steps, buf
      modifies fragments, fragments.sender, fragments.accumulated
      ensures Valid() && pc == Pc.Idle
      ensures var sent := old(steps) + [OpenCommand] + Uarts(early) + [ClearAnswer];
              var answered := sent + Uarts(during);
              && steps == answered + [ClearAnswer] + Uarts(late) + [CloseCommand]
              && (ok <==> OkSince(answered, |sent|))
              && response == CutTo(After(answered + [ClearAnswer] + Uarts(late)).buf, size)
    {
      hide After, BufferOk, Run, Arrivals, ParseAll, OkSince, ErrorSince, Clears, Next, Heard;
      OpenCommandSection();
      ReceiveAll(early);
      ghost var asking := steps;
      assert After(asking).pc == InCommand;
      var _, _ := TakeAnswer();
      ghost var sent := steps;
      ReceiveAll(during);
      AnswerTaken(asking, sent, during);
      var bit, _ := TakeAnswer();
      ok := bit;
      ReceiveAll(late);
      response := CloseCommandSection(size);
    }

    // ---------------------------------------------------------------- waiting

    // wait_for_recovery_retry: `turns` are what the time allows, with the chunks that arrive in them,
    // and `rest` arrives between the loop and the return.
    method WaitForRecovery(turns: seq<Turn>, rest: seq<string>) returns (timedOut: bool)
      requires Valid() && pc == Pc.Idle
      requires forall turn :: turn in turns ==> TurnNulFree(turn)
      requires forall i :: 0 <= i < |rest| ==> NulFree(rest[i])
      modifies `idx, `handed, `urcBit, `okBit, `errorBit, `stream, `pc, `steps, buf
      modifies fragments, fragments.sender, fragments.accumulated
      ensures Valid() && pc == Pc.Idle
      ensures steps == old(steps + Recovery(Abs(), turns, rest))
      ensures timedOut == WaitedOut(old(Abs()), turns)
      // a block may be pending, LeftPending says when, but never without its wake-up
      ensures HasBlock(Contents()) ==> urcBit
    {
      hide After, Next, Recovery, WaitedOut, Turned, Heard, HasBlock, BufferOk, Run, Arrivals, ParseAll, TurnNulFree;
      ghost var goal, out := steps + Recovery(Abs(), turns, rest), WaitedOut(Abs(), turns);
      var i := 0;
      timedOut := false;
      assert turns[0..] == turns;
      while !timedOut && i < |turns|
        invariant i <= |turns| && Valid() && pc == Pc.Idle
        invariant if timedOut then steps + Uarts(rest) == goal && out
                  else steps + Recovery(Abs(), turns[i..], rest) == goal && WaitedOut(Abs(), turns[i..]) == out
      {
        RecoveryStep(Abs(), turns[i..], rest);
        assert turns[i..][1..] == turns[i + 1..];
        ghost var before := steps;
        timedOut := RecoveryTurn(turns[i]);
        if timedOut {
          Assoc(before, Uarts(turns[i].before), [Wake]);
          Assoc(before, Uarts(turns[i].before) + [Wake], Uarts(rest));
        } else {
          RecoveryGrouped(before, turns[i], Recovery(Abs(), turns[i + 1..], rest));
        }
        i := i + 1;
      }
      if !timedOut {
        RecoveryStep(Abs(), turns[i..], rest);
      }
      ReceiveAll(rest);
      NoLostWakeup(steps);
      InvWaits(Abs());
    }

    // One turn of its loop: a wait, and when it is woken a drain.
    method RecoveryTurn(turn: Turn) returns (timedOut: bool)
      requires Valid() && pc == Pc.Idle && TurnNulFree(turn)
      modifies `idx, `handed, `urcBit, `okBit, `errorBit, `stream, `pc, `steps, buf
      modifies fragments, fragments.sender, fragments.accumulated
      ensures Valid() && pc == Pc.Idle
      ensures timedOut == !Heard(old(Abs()), turn.before).urcBit
      ensures timedOut ==> !urcBit && steps == old(steps) + Uarts(turn.before) + [Wake]
      ensures !timedOut ==> Abs() == Turned(old(Abs()), turn)
      ensures !timedOut ==>
                steps == old(steps) + Uarts(turn.before) + [Wake] + Uarts(turn.between) + [Drain]
    {
      hide After, Next, Heard, BufferOk, Run, Arrivals, ParseAll, HasBlock;
      ReceiveAll(turn.before);
      var woken := WaitForUrc();
      timedOut := !woken;
      if woken {
        ReceiveAll(turn.between);
        ProcessPending();
      }
    }

    // One pass of the main loop: a wait of at most a second, a drain if it is woken, and the check
    // of the fragment timeout.
    method MainLoopPass(between: seq<string>, at: int, accepts: bool)
      requires Valid() && pc == Pc.Idle
      requires forall i :: 0 <= i < |between| ==> NulFree(between[i])
      modifies `idx, `handed, `urcBit, `okBit, `errorBit, `stream, `pc, `steps, buf
      modifies fragments, fragments.sender, fragments.accumulated
      ensures Valid() && pc == Pc.Idle
      ensures steps == old(steps) + [Wake] + if old(urcBit) then Uarts(between) + [Drain] else []
      ensures fragments.events != [] && fragments.events[|fragments.events| - 1] == Poll(at, accepts)
      ensures old(!urcBit) ==> fragments.events == old(fragments.events) + [Poll(at, accepts)]
    {
      hide After, Next, Heard, BufferOk, Run, Arrivals, ParseAll, HasBlock;
      var woken := WaitForUrc();
      if woken {
        ReceiveAll(between);
        ProcessPending();
      } else {
        assert steps + [] == steps;
      }
      PollAddsNothing(fragments.events, at, accepts);
      fragments.OnPoll(at, accepts);
    }
  }

  predicate TurnNulFree(turn: Turn) {
    && (forall i :: 0 <= i < |turn.before| ==> NulFree(turn.before[i]))
    && (forall i :: 0 <= i < |turn.between| ==> NulFree(turn.between[i]))
  }

  lemma SectionStep(s: System, step: Step)
    requires (step.OpenCommand? && s.pc == Pc.Idle) || (step.CloseCommand? && s.pc == InCommand)
    ensures Next(s, step) ==
            s.(buf := Clear(Rest(s.buf)), urcBit := HasBlock(Rest(s.buf)), handed := s.handed + Blocks(s.buf),
               pc := if step.OpenCommand? then InCommand else Pc.Idle)
  {
    hide Rest, Blocks, HasBlock, Clear;
  }

  // A poll is no arrival.
  lemma PollAddsNothing(events: seq<Event>, at: int, accepts: bool)
    ensures Arrivals(events + [Poll(at, accepts)]) == Arrivals(events)
  {
    ArrivalsConcat(events, [Poll(at, accepts)]);
    OneArrival(Poll(at, accepts));
    assert Arrivals(events) + [] == Arrivals(events);
  }

  lemma NothingToDrain(s: string)
    requires !HasBlock(s)
    ensures Rest(s) == s && Blocks(s) == []
  {
  }

  lemma ClearIsSuffix(s: string)
    requires NulFree(s)
    ensures |Clear(s)| <= |s| && NulFree(Clear(s))
  {
  }

  lemma ParseNulFree(block: string)
    requires NulFree(block)
    ensures var p := Parse(block);
            p.Parsed? ==> |p.fragment.sender| < 32 && NulFree(p.fragment.sender) && NulFree(p.fragment.hex)
  {
  }

  lemma ReceivedNothing(b: string)
    ensures Received(b, "") == b
  {
  }

  lemma OneArrival(ev: Event)
    ensures Arrivals([ev]) == EventFragments(ev)
  {
    FlatMapOne(EventFragments, ev);
  }

  // ---------------------------------------------------------------- end to end

  // Modem output: a line, or a report printed with its sender in UCS2 digits.
  datatype Print =
    | Line(line: string)
    | Sms(sender: seq<CodeUnit>, fields: string, urcs: seq<string>, digits: string)

  function ToItem(p: Print): Item {
    match p
    case Line(line) => Noise(line)
    case Sms(sender, fields, urcs, digits) => Report(ReportHeader(sender, fields), urcs, digits)
  }

  function ToItems(ps: seq<Print>): seq<Item> {
    FlatMap(PrintItems, ps)
  }

  function PrintItems(p: Print): seq<Item> {
    [ToItem(p)]
  }

  predicate Printable(p: Print) {
    match p
    case Line(line) => Expected(Noise(line))
    case Sms(sender, fields, urcs, digits) =>
      && IsBody(ReportHeader(sender, fields))
      && IsHex(digits) && digits != ""
      && forall u :: u in urcs ==> IsBody(u) && Unrelated(u)
  }

  // The fragments a modem meant to send, each sender as the parser shows it.
  function Meant(ps: seq<Print>): seq<Fragment> {
    FlatMap(MeantBy, ps)
  }

  function MeantBy(p: Print): seq<Fragment> {
    if p.Sms? then [Fragment(SenderShown(p.sender), p.digits)] else []
  }

  lemma {:induction false} PrintsParse(ps: seq<Print>)
    requires forall p :: p in ps ==> Printable(p)
    ensures forall item :: item in ToItems(ps) ==> Expected(item)
    ensures ParseAll(Reports(ToItems(ps))) == Meant(ps)
  {
    hide FlatMap, Printable, Expected, ItemReports, MeantBy, ToItem;
    if ps == [] {
      FlatMapNil(PrintItems);
      FlatMapNil(ItemReports);
      FlatMapNil(MeantBy);
      FlatMapNil(ParseBlock);
    } else {
      var p, rest := ps[0], ps[1..];
      assert ps == [p] + rest;
      assert Printable(p);
      PrintsParse(rest);
      PrintParses(p);
      FlatMapCons(PrintItems, p, rest);
      FlatMapCons(MeantBy, p, rest);
      FlatMapCons(ItemReports, ToItem(p), ToItems(rest));
      ParseAllConcat(ItemReports(ToItem(p)), Reports(ToItems(rest)));
    }
  }

  lemma PrintParses(p: Print)
    requires Printable(p)
    ensures Expected(ToItem(p))
    ensures ParseAll(ItemReports(ToItem(p))) == MeantBy(p)
  {
    hide Find, Parse, Removable, Unrelated, StartsWith, IsBody, ReportHeader, FlatMap;
    FlatMapNil(ParseBlock);
    if p.Sms? {
      UnrelatedRemoved(p.digits);
      var header := ReportHeader(p.sender, p.fields);
      HeaderStarts(p.sender, p.fields);
      HexContent(p.digits);
      ParsePrint(p.sender, p.fields, p.digits);
      FlatMapOne(ParseBlock, Block(header, p.digits));
    }
  }

  lemma HeaderStarts(us: seq<CodeUnit>, fields: string)
    ensures StartsWith(ReportHeader(us, fields), CMT)
  {
  }

  // Whatever the chunks, the task switches and the unrelated URCs, once the buffer is drained the
  // fragments of the modem's reports have all reached the reassembly, each once, in order, byte
  // for byte; and the reassembly accounts for every one of them.
  lemma EndToEnd(r: Receiver, ps: seq<Print>)
    requires r.Valid() && Undisturbed(r.steps)
    requires r.stream == ModemOutput(ToItems(ps)) && forall p :: p in ps ==> Printable(p)
    requires !HasBlock(r.Contents())
    ensures Arrivals(r.fragments.events) == Meant(ps)
    ensures Fragments(r.fragments.outs) + PendingFragments(r.fragments.state) == Meant(ps)
  {
    hide HasBlock, Printable, ModemOutput, Meant, ToItems, Run, Bounded;
    PrintsParse(ps);
    EveryReportDelivered(r.steps, ToItems(ps));
    NothingToDrain(r.Contents());
    assert r.handed + [] == r.handed;
    r.fragments.Accounted();
  }
}
