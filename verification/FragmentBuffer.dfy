// The fragment buffer of uart_at_manager.c, updated in place.
module FragmentBuffer {
  import opened CStrings
  import opened Messages
  import opened Reassembly
  import opened Sequences
  import Ucs2

  datatype Status = Ok | InvalidState    // ESP_OK, ESP_ERR_INVALID_STATE

  // The messages that entered the SMS queue.
  function Sent(outs: seq<Out>): seq<Message> {
    FlatMap(SentFor, outs)
  }

  function SentFor(out: Out): seq<Message> {
    if out.Delivered? then [Assemble(out.sender, out.parts)] else []
  }

  lemma SentSnoc(outs: seq<Out>, out: Out)
    ensures Sent(outs + [out]) == Sent(outs) + SentFor(out)
  {
    FlatMapSnoc(SentFor, outs, out);
  }

  class Buffer {
    const sender: array<char>
    const accumulated: array<char>
    var lastTime: int
    var count: nat
    var active: bool
    var queue: seq<Message>          // everything sent to the SMS queue so far

    ghost var state: State
    ghost var outs: seq<Out>
    ghost var events: seq<Event>

    // The fields represent the state.
    ghost predicate Represents()
      reads `lastTime, `count, `active, `queue, `state, `outs, sender, accumulated
    {
      && sender.Length == SENDER_SIZE && accumulated.Length == CONTENT_SIZE && sender != accumulated
      && active == state.Collecting?
      && (active ==> Holds(state.sender, state.parts) && lastTime == state.last && count == |state.parts|)
      && Bounded(state)
      && queue == Sent(outs)
    }

    // And what happened is a run of the state machine from an empty buffer.
    ghost predicate Valid()
      reads this, sender, accumulated
    {
      Represents() && Run(Idle, events) == (state, outs)
    }

    constructor ()
      ensures Valid() && state == Idle && outs == [] && events == [] && queue == []
      ensures fresh(sender) && fresh(accumulated)
    {
      sender := new char[SENDER_SIZE];
      accumulated := new char[CONTENT_SIZE];
      lastTime, count, active, queue := 0, 0, false, [];
      state, outs, events := Idle, [], [];
    }

    // is_fragment_timeout
    method IsTimeout(now: int) returns (late: bool)
      requires Represents()
      ensures late == TimedOut(state, now)
    {
      late := active && (now - lastTime) * TICK_MS > FRAGMENT_TIMEOUT_MS;
    }

    // The buffers hold these parts of this sender.
    ghost predicate Holds(from: string, parts: seq<string>)
      reads sender, accumulated
    {
      && sender.Length == SENDER_SIZE && accumulated.Length == CONTENT_SIZE
      && NUL in sender[..] && CStr(sender[..]) == from
      && NUL in accumulated[..] && CStr(accumulated[..]) == Flatten(parts)
    }

    // Decodes what is accumulated into a message of the stored sender.
    method AssembleStored(ghost from: string, ghost parts: seq<string>) returns (msg: Message)
      requires Holds(from, parts)
      ensures msg == Assemble(from, parts)
    {
      var content := new char[CONTENT_SIZE];
      var m := Strlen(sender);
      var n := Strlen(accumulated);
      var len := Ucs2.DecodeInto(accumulated[..n], content);
      assert accumulated[..][..n] == accumulated[..n] && sender[..][..m] == sender[..m];
      msg := Message(sender[..m], content[..len]);
    }

    // reset_fragment_buffer
    method ClearFields()
      requires sender.Length == SENDER_SIZE && accumulated.Length == CONTENT_SIZE && sender != accumulated
      requires queue == Sent(outs)
      modifies this
      ensures Represents() && state == Idle
      ensures outs == old(outs) && events == old(events) && queue == old(queue)
    {
      lastTime, count, active := 0, 0, false;
      state := Idle;
    }

    // flush_fragment_buffer_to_queue; `accepts` says whether the queue has room.
    method Flush(accepts: bool)
      requires Represents()
      modifies this
      ensures Represents() && state == Idle
      ensures outs == old(outs) + Flushed(old(state), accepts) && events == old(events)
      ensures queue == old(queue) +
                if old(active) && accepts then [Assemble(old(state).sender, old(state).parts)] else []
    {
      if !active {
        return;
      }
      var msg := AssembleStored(state.sender, state.parts);
      ghost var out := Flushed(state, accepts)[0];
      ClearFields();
      if accepts {
        queue := queue + [msg];
      }
      SentSnoc(outs, out);
      outs := outs + [out];
    }

    // process_sms_fragment
    method ProcessFragment(from: string, hex: string, now: int, later: int, accepts: bool)
      returns (status: Status, msg: Message)
      requires Represents() && |from| < SENDER_SIZE && NulFree(from) && NulFree(hex)
      modifies this, sender, accumulated
      ensures Represents() && events == old(events)
      ensures var (s, flushed, done) := Process(old(state), Fragment(from, hex), now, later, accepts);
              && state == s && outs == old(outs) + flushed
              && (status == Ok <==> !done.None?)
              && (status == Ok ==> msg == Assemble(done.sender, done.parts))
      decreases active
    {
      var late := IsTimeout(now);
      if late {
        Flush(accepts);
      }
      if !active {
        status, msg := Start(from, hex, later, accepts);
      } else {
        var m := Strlen(sender);
        assert sender[..][..m] == sender[..m];
        if sender[..m] == from {
          status, msg := Accumulate(hex, later, accepts);
        } else {
          Flush(accepts);
          status, msg := ProcessFragment(from, hex, now, later, accepts);
        }
      }
    }

    // The branch for an empty buffer: a part is kept, anything else is a whole message.
    method Start(from: string, hex: string, later: int, ghost accepts: bool) returns (status: Status, msg: Message)
      requires Represents() && !active && |from| < SENDER_SIZE && NulFree(from) && NulFree(hex)
      modifies this, sender, accumulated
      ensures Represents() && events == old(events) && outs == old(outs)
      ensures var (s, flushed, done) := Take(Idle, Fragment(from, hex), later, accepts);
              && state == s && flushed == []
              && (status == Ok <==> !done.None?)
              && (status == Ok ==> msg == Assemble(done.sender, done.parts))
    {
      msg := Message("", "");
      var isPart := IsPartLength(|hex|);
      FlattenOne(hex);
      if isPart {
        WriteAt(sender, 0, from);
        WriteAt(accumulated, 0, hex);
        lastTime, count, active := later, 1, true;
        state := Collecting(from, [hex], later);
        SingleFits(hex);
        status := InvalidState;
      } else {
        var content := new char[CONTENT_SIZE];
        var len := Ucs2.DecodeInto(hex, content);
        msg := Message(from, content[..len]);
        status := Ok;
      }
    }

    // The branch for a further fragment of the pending sender.
    method Accumulate(hex: string, later: int, ghost accepts: bool) returns (status: Status, msg: Message)
      requires Represents() && active && NulFree(hex)
      modifies this, accumulated
      ensures Represents() && events == old(events) && outs == old(outs)
      ensures var (s, flushed, done) := Take(old(state), Fragment(old(state).sender, hex), later, accepts);
              && state == s && flushed == []
              && (status == Ok <==> !done.None?)
              && (status == Ok ==> msg == Assemble(done.sender, done.parts))
    {
      msg := Message("", "");
      var current := Strlen(accumulated);
      if |hex| < CONTENT_SIZE - current - 1 {
        TakeBounded(state, Fragment(state.sender, hex), later, accepts);
        FlattenSnoc(state.parts, hex);
        assert accumulated[..current] == accumulated[..][..current];
        WriteAt(accumulated, current, hex);
        var isPart := IsPartLength(|hex|);
        if isPart {
          state := Collecting(state.sender, state.parts + [hex], later);
          count, lastTime := count + 1, later;
          status := InvalidState;
        } else {
          msg := AssembleStored(state.sender, state.parts + [hex]);
          ClearFields();
          status := Ok;
        }
      } else {
        msg := AssembleStored(state.sender, state.parts);
        ClearFields();
        status := Ok;
      }
    }

    // A fragment is processed and the message it completes is sent (the send waits for room).
    method ProcessAndSend(f: Fragment, now: int, later: int, accepts: bool)
      requires Represents() && |f.sender| < SENDER_SIZE && NulFree(f.sender) && NulFree(f.hex)
      modifies this, sender, accumulated
      ensures Represents() && events == old(events)
      ensures var (s, flushed, done) := Process(old(state), f, now, later, accepts);
              state == s && outs == (old(outs) + flushed) + CompletedOuts(done)
    {
      hide Process, Bounded, Holds, CompletedOuts, Sent;
      ghost var done := Process(state, f, now, later, accepts).2;
      var status, msg := ProcessFragment(f.sender, f.hex, now, later, accepts);
      SentCompleted(outs, done);
      queue := queue + if status == Ok then [msg] else [];
      outs := outs + CompletedOuts(done);
    }

    // One fragment from the parser.
    method OnFragment(f: Fragment, now: int, later: int, accepts: bool)
      requires Valid() && |f.sender| < SENDER_SIZE && NulFree(f.sender) && NulFree(f.hex)
      modifies this, sender, accumulated
      ensures Valid() && events == old(events) + [Arrival(f, now, later, accepts)]
    {
      StepSplits(outs, state, f, now, later, accepts);
      RunSnoc(Idle, events, Arrival(f, now, later, accepts));
      hide Process, Step, Run, Bounded, Holds, Sent;
      ProcessAndSend(f, now, later, accepts);
      events := events + [Arrival(f, now, later, accepts)];
    }

    lemma StepSplits(outs: seq<Out>, st: State, f: Fragment, now: int, later: int, accepts: bool)
      ensures var (s, flushed, done) := Process(st, f, now, later, accepts);
              var (t, more) := Step(st, Arrival(f, now, later, accepts));
              t == s && outs + more == (outs + flushed) + CompletedOuts(done)
    {
    }

    // The timeout check of the main loop.
    method OnPoll(at: int, accepts: bool)
      requires Valid()
      modifies this
      ensures Valid() && events == old(events) + [Poll(at, accepts)]
    {
      RunSnoc(Idle, events, Poll(at, accepts));
      hide Run, Bounded, Holds, Sent;
      var late := IsTimeout(at);
      if late {
        Flush(accepts);
      } else {
        assert outs + [] == outs;
      }
      events := events + [Poll(at, accepts)];
    }

    // At any time, every fragment that arrived is delivered, refused, dropped or pending, in
    // order; the queue received the delivered ones; and every message fits its buffer.
    lemma Accounted()
      requires Valid()
      ensures Fragments(outs) + PendingFragments(state) == Arrivals(events)
      ensures queue == Sent(outs)
      ensures forall out :: out in outs ==> OutFits(out)
    {
      Conservation(Idle, events);
      RunBounded(Idle, events);
      assert PendingFragments(Idle) + Arrivals(events) == Arrivals(events);
    }
  }

  lemma SentCompleted(outs: seq<Out>, done: Completed)
    ensures Sent(outs + CompletedOuts(done)) ==
            Sent(outs) + if done.None? then [] else [Assemble(done.sender, done.parts)]
  {
    match done
    case None =>
      assert outs + [] == outs;
    case Whole(sender, parts) =>
      SentSnoc(outs, Delivered(sender, parts));
    case Overflow(sender, parts, dropped) =>
      var out := Delivered(sender, parts);
      SentSnoc(outs, out);
      SentSnoc(outs + [out], Dropped(dropped));
      assert outs + [out, Dropped(dropped)] == (outs + [out]) + [Dropped(dropped)];
  }
}
