// From the modem's reports to the messages queued for publishing: receiver, parser, reassembly and
// decoding together.
module AtMessages {
  import opened Hex
  import opened Messages
  import opened SmsStream
  import opened AtTasks
  import opened AtReceiver
  import opened Reassembly
  import opened Sequences
  import FragmentBuffer

  predicate HexParts(sms: Sms) {
    forall i :: 0 <= i < |sms.parts| ==> IsHex(sms.parts[i])
  }

  // The message an SMS is meant to become: its sender, and its parts decoded one by one.
  function MessageOf(sms: Sms): Message {
    Message(sms.sender, DecodeEach(sms.parts))
  }

  lemma Assembled(sms: Sms)
    requires Sendable(sms) && HexParts(sms)
    ensures Assemble(sms.sender, sms.parts) == MessageOf(sms)
  {
    hide FlatMap;
    if |sms.parts| > 1 {
      DecodingCommutes(sms.parts);
    } else {
      assert sms.parts == [sms.parts[0]];
      FlattenOne(sms.parts[0]);
      FlatMapOne(DecodePart, sms.parts[0]);
    }
  }

  // Messages that leave the reassembly one by one are queued one by one.
  lemma {:induction false} SentOneEach(smses: seq<Sms>)
    requires forall sms :: sms in smses ==> Sendable(sms) && HexParts(sms)
    ensures var queue := FragmentBuffer.Sent(OneEach(smses));
            |queue| == |smses| && forall i :: 0 <= i < |smses| ==> queue[i] == MessageOf(smses[i])
    decreases |smses|
  {
    hide FlatMap, Sendable, HexParts, MessageOf, Assemble;
    if smses == [] {
      FlatMapNil(FragmentBuffer.SentFor);
    } else {
      var sms := smses[0];
      assert sms in smses;
      Assembled(sms);
      SentOneEach(smses[1..]);
      FlatMapCons(FragmentBuffer.SentFor, Delivered(sms.sender, sms.parts), OneEach(smses[1..]));
    }
  }

  lemma {:induction false} MeantAreHex(ps: seq<Print>)
    requires forall p :: p in ps ==> Printable(p)
    ensures forall f :: f in Meant(ps) ==> IsHex(f.hex)
    decreases |ps|
  {
    hide FlatMap, IsHex;
    if ps == [] {
      FlatMapNil(MeantBy);
    } else {
      assert ps == [ps[0]] + ps[1..] && Printable(ps[0]);
      FlatMapCons(MeantBy, ps[0], ps[1..]);
      MeantAreHex(ps[1..]);
    }
  }

  lemma {:induction false} PartsAreHex(smses: seq<Sms>)
    requires forall f :: f in FlatMap(SmsFragments, smses) ==> IsHex(f.hex)
    ensures forall sms :: sms in smses ==> HexParts(sms)
    decreases |smses|
  {
    hide FlatMap, IsHex;
    if smses != [] {
      var sms := smses[0];
      var own, more := SmsFragments(sms), FlatMap(SmsFragments, smses[1..]);
      assert smses == [sms] + smses[1..];
      FlatMapCons(SmsFragments, sms, smses[1..]);
      forall i | 0 <= i < |sms.parts| ensures IsHex(sms.parts[i]) {
        assert own[i] in own + more && own[i].hex == sms.parts[i];
      }
      PartsAreHex(smses[1..]);
    }
  }

  // The receiver's stream was the printed reports and other lines; what its reassembly saw is SMS
  // after SMS, and timeout checks after the last as before it.
  ghost predicate Carried(r: Receiver, ps: seq<Print>, smses: seq<Sms>, runs: seq<seq<Event>>, after: seq<Event>)
    reads r, r.fragments
  {
    && r.stream == ModemOutput(ToItems(ps)) && (forall p :: p in ps ==> Printable(p))
    && Traffic(smses, runs) && r.fragments.events == Flatten(runs) + after
    && forall ev :: ev in after ==> ev.Poll?
  }

  // Whatever the chunks, the task switches, the unrelated URCs and the timeout checks, after every
  // pass of the main loop: the SMS are those whose parts the modem reported, and each has become
  // one queued message with the sender shown and all its parts decoded, in order; nothing is pending.
  lemma EndToEnd(r: Receiver, ps: seq<Print>, smses: seq<Sms>, runs: seq<seq<Event>>, after: seq<Event>)
    requires r.Valid() && Undisturbed(r.steps) && !HasBlock(r.Contents())
    requires Carried(r, ps, smses, runs, after)
    ensures FlatMap(SmsFragments, smses) == Meant(ps)
    ensures r.fragments.state == State.Idle
    ensures |r.fragments.queue| == |smses|
    ensures forall i :: 0 <= i < |smses| ==> r.fragments.queue[i] == MessageOf(smses[i])
  {
    hide HasBlock, Printable, ModemOutput, Meant, ToItems, Run, FlatMap, Sendable, Carries, MessageOf, HexParts;
    AtReceiver.EndToEnd(r, ps);
    TrafficArrivals(smses, runs);
    TrafficDelivered(smses, runs);
    PollsIdle(after);
    RunConcat(State.Idle, Flatten(runs), after);
    ArrivalsConcat(Flatten(runs), after);
    assert OneEach(smses) + [] == OneEach(smses);
    assert FlatMap(SmsFragments, smses) + [] == FlatMap(SmsFragments, smses);
    MeantAreHex(ps);
    PartsAreHex(smses);
    SentOneEach(smses);
    r.fragments.Accounted();
  }
}
