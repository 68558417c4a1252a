// Reassembly of long SMS: the rules of process_sms_fragment as a state machine, and what every run
// of it keeps.
module Reassembly {
  import opened Hex
  import opened Messages
  import opened Utf8
  import opened Sequences
  import Ucs2

  const FRAGMENT_TIMEOUT_MS := 30000
  const TICK_MS := 10            // FreeRTOS tick of 100 Hz

  // Payload of a part that is not the last: GSM-7 and UCS-2, 8- and 16-bit reference.
  predicate IsPartLength(n: int) {
    n == 612 || n == 608 || n == 268 || n == 264
  }

  // The digits of a part that is not last, four a character, from the coding (3GPP TS 23.040): 140
  // bytes less a header of so many bytes, filled with 7-bit or 16-bit characters.
  function FullPart(udh: nat, bits: nat): int
    requires bits > 0
  {
    4 * ((140 - udh) * 8 / bits)
  }

  // The lengths tested for are exactly those of full parts with 8-bit and 16-bit references.
  lemma PartLengths(n: int)
    ensures IsPartLength(n) <==> n in {FullPart(6, 7), FullPart(7, 7), FullPart(6, 16), FullPart(7, 16)}
    ensures IsPartLength(n) <==> n == 612 || n == 608 || n == 268 || n == 264
  {
  }

  datatype Fragment = Fragment(sender: string, hex: string)

  // The fragment buffer: nothing pending, or the parts of one sender.
  datatype State = Idle | Collecting(sender: string, parts: seq<string>, last: int)

  // What happens to fragments: delivered together, refused by a full queue together, or dropped
  // because the buffer was full.
  datatype Out =
    | Delivered(sender: string, parts: seq<string>)
    | Refused(sender: string, parts: seq<string>)
    | Dropped(fragment: Fragment)

  function Assemble(sender: string, parts: seq<string>): Message {
    Message(sender, Ucs2.Decode(Flatten(parts), CONTENT_SIZE))
  }

  predicate TimedOut(st: State, now: int) {
    st.Collecting? && (now - st.last) * TICK_MS > FRAGMENT_TIMEOUT_MS
  }

  // flush_fragment_buffer_to_queue: the queue may be full, the fragments are gone either way.
  function Flushed(st: State, accepts: bool): seq<Out> {
    if st.Idle? then []
    else if accepts then [Delivered(st.sender, st.parts)]
    else [Refused(st.sender, st.parts)]
  }

  // A message completed by a call, with the fragment the call had to drop for it, if any.
  datatype Completed =
    | None
    | Whole(sender: string, parts: seq<string>)
    | Overflow(sender: string, parts: seq<string>, dropped: Fragment)

  function CompletedOuts(done: Completed): seq<Out> {
    match done
    case None => []
    case Whole(sender, parts) => [Delivered(sender, parts)]
    case Overflow(sender, parts, dropped) => [Delivered(sender, parts), Dropped(dropped)]
  }

  // A fragment meets the buffer: the next state, what was flushed, what was completed.
  function Take(st: State, f: Fragment, later: int, accepts: bool): (State, seq<Out>, Completed)
    decreases st.Collecting?
  {
    match st
    case Idle =>
      if IsPartLength(|f.hex|) then (Collecting(f.sender, [f.hex], later), [], None)
      else (Idle, [], Whole(f.sender, [f.hex]))
    case Collecting(sender, parts, _) =>
      if sender != f.sender then
        var (s, _, done) := Take(Idle, f, later, accepts);
        (s, Flushed(st, accepts), done)
      else if |f.hex| < CONTENT_SIZE - |Flatten(parts)| - 1 then
        if IsPartLength(|f.hex|) then (Collecting(sender, parts + [f.hex], later), [], None)
        else (Idle, [], Whole(sender, parts + [f.hex]))
      else (Idle, [], Overflow(sender, parts, f))
  }

  // process_sms_fragment; `now` and `later` are its two readings of the tick count.
  function Process(st: State, f: Fragment, now: int, later: int, accepts: bool): (State, seq<Out>, Completed) {
    if TimedOut(st, now) then
      var (s, _, done) := Take(Idle, f, later, accepts);
      (s, Flushed(st, accepts), done)
    else Take(st, f, later, accepts)
  }

  datatype Event =
    | Arrival(fragment: Fragment, now: int, later: int, accepts: bool)
    | Poll(at: int, accepts: bool)     // the timeout check of the task's main loop

  function Step(st: State, ev: Event): (State, seq<Out>) {
    match ev
    case Arrival(f, now, later, accepts) =>
      var (s, flushed, done) := Process(st, f, now, later, accepts);
      (s, flushed + CompletedOuts(done))
    case Poll(at, accepts) =>
      if TimedOut(st, at) then (Idle, Flushed(st, accepts)) else (st, [])
  }

  function Run(st: State, evs: seq<Event>): (State, seq<Out>)
    decreases |evs|
  {
    if evs == [] then (st, [])
    else
      var (s, outs) := Step(st, evs[0]);
      var (t, more) := Run(s, evs[1..]);
      (t, outs + more)
  }

  // ---------------------------------------------------------------- conservation

  function Tagged(sender: string, parts: seq<string>): (r: seq<Fragment>)
    ensures |r| == |parts| && forall i :: 0 <= i < |r| ==> r[i] == Fragment(sender, parts[i])
  {
    seq(|parts|, i requires 0 <= i < |parts| => Fragment(sender, parts[i]))
  }

  function OutFragments(out: Out): seq<Fragment> {
    match out
    case Delivered(sender, parts) => Tagged(sender, parts)
    case Refused(sender, parts) => Tagged(sender, parts)
    case Dropped(f) => [f]
  }

  function Fragments(outs: seq<Out>): seq<Fragment> {
    FlatMap(OutFragments, outs)
  }

  function PendingFragments(st: State): seq<Fragment> {
    if st.Idle? then [] else Tagged(st.sender, st.parts)
  }

  function Arrivals(evs: seq<Event>): seq<Fragment> {
    FlatMap(EventFragments, evs)
  }

  function EventFragments(ev: Event): seq<Fragment> {
    if ev.Arrival? then [ev.fragment] else []
  }

  lemma FragmentsConcat(a: seq<Out>, b: seq<Out>)
    ensures Fragments(a + b) == Fragments(a) + Fragments(b)
  {
    FlatMapConcat(OutFragments, a, b);
  }

  lemma FragmentsOfOne(out: Out)
    ensures Fragments([out]) == OutFragments(out)
  {
    FlatMapOne(OutFragments, out);
  }

  lemma FragmentsOfTwo(a: Out, b: Out)
    ensures Fragments([a, b]) == OutFragments(a) + OutFragments(b)
  {
    assert [a, b] == [a] + [b];
    FragmentsConcat([a], [b]);
    FragmentsOfOne(a);
    FragmentsOfOne(b);
  }

  lemma FlushedFragments(st: State, accepts: bool)
    ensures Fragments(Flushed(st, accepts)) == PendingFragments(st)
  {
    if st.Collecting? {
      FragmentsOfOne(Flushed(st, accepts)[0]);
    }
  }

  lemma CompletedFragments(done: Completed)
    ensures Fragments(CompletedOuts(done)) ==
            match done
            case None => []
            case Whole(sender, parts) => Tagged(sender, parts)
            case Overflow(sender, parts, dropped) => Tagged(sender, parts) + [dropped]
  {
    match done
    case None =>
    case Whole(sender, parts) => FragmentsOfOne(Delivered(sender, parts));
    case Overflow(sender, parts, dropped) => FragmentsOfTwo(Delivered(sender, parts), Dropped(dropped));
  }

  lemma TakeKeepsFragments(st: State, f: Fragment, later: int, accepts: bool)
    ensures var (s, flushed, done) := Take(st, f, later, accepts);
            Fragments(flushed) + Fragments(CompletedOuts(done)) + PendingFragments(s) == PendingFragments(st) + [f]
    decreases st.Collecting?
  {
    hide Fragments, Tagged, CompletedOuts;
    var (s, flushed, done) := Take(st, f, later, accepts);
    CompletedFragments(done);
    NothingOut();
    if st.Collecting? && st.sender != f.sender {
      FlushedFragments(st, accepts);
      IdleTake(f, later, accepts);
      var p, c, r := PendingFragments(st), Fragments(CompletedOuts(done)), PendingFragments(s);
      assert (p + c) + r == p + (c + r);
    } else if st.Collecting? {
    } else {
      assert [] + [f.hex] == [f.hex] && Tagged(f.sender, []) == [];
    }
  }

  lemma IdleTake(f: Fragment, later: int, accepts: bool)
    ensures var (s, flushed, done) := Take(Idle, f, later, accepts);
            Fragments(CompletedOuts(done)) + PendingFragments(s) == [f]
  {
    hide Fragments, CompletedOuts;
    CompletedFragments(Take(Idle, f, later, accepts).2);
  }

  lemma ProcessKeepsFragments(st: State, f: Fragment, now: int, later: int, accepts: bool)
    ensures var (s, flushed, done) := Process(st, f, now, later, accepts);
            Fragments(flushed) + Fragments(CompletedOuts(done)) + PendingFragments(s) == PendingFragments(st) + [f]
  {
    hide Fragments, PendingFragments, Flushed, CompletedOuts, Take;
    if TimedOut(st, now) {
      var (s, _, done) := Take(Idle, f, later, accepts);
      FlushedFragments(st, accepts);
      IdleTake(f, later, accepts);
      var p, c, r := PendingFragments(st), Fragments(CompletedOuts(done)), PendingFragments(s);
      assert (p + c) + r == p + (c + r);
    } else {
      TakeKeepsFragments(st, f, later, accepts);
    }
  }

  lemma StepKeepsFragments(st: State, ev: Event)
    ensures var (s, outs) := Step(st, ev);
            Fragments(outs) + PendingFragments(s) == PendingFragments(st) + EventFragments(ev)
  {
    match ev
    case Arrival(f, now, later, accepts) =>
      hide Fragments, PendingFragments, Process;
      var (s, flushed, done) := Process(st, f, now, later, accepts);
      FragmentsConcat(flushed, CompletedOuts(done));
      ProcessKeepsFragments(st, f, now, later, accepts);
    case Poll(at, accepts) =>
      FlushedFragments(st, accepts);
  }

  // Over every run, what was delivered, refused or dropped, followed by what is pending, is every
  // fragment exactly once, in arrival order and under its own sender.
  lemma {:induction false} Conservation(st: State, evs: seq<Event>)
    ensures var (t, outs) := Run(st, evs);
            Fragments(outs) + PendingFragments(t) == PendingFragments(st) + Arrivals(evs)
    decreases |evs|
  {
    hide Fragments, PendingFragments, Step, EventFragments;
    if evs == [] {
      NothingOut();
    } else {
      var (s, outs) := Step(st, evs[0]);
      var (t, more) := Run(s, evs[1..]);
      StepKeepsFragments(st, evs[0]);
      Conservation(s, evs[1..]);
      FragmentsConcat(outs, more);
      Shuffle(Fragments(outs), Fragments(more), PendingFragments(t), PendingFragments(s),
              PendingFragments(st), EventFragments(evs[0]), Arrivals(evs[1..]));
    }
  }

  lemma {:induction false} RunSnoc(st: State, evs: seq<Event>, ev: Event)
    ensures var (s, outs) := Run(st, evs);
            var (t, more) := Step(s, ev);
            Run(st, evs + [ev]) == (t, outs + more)
    decreases |evs|
  {
    hide Step;
    if evs == [] {
      var (t, more) := Step(st, ev);
      assert [] + [ev] == [ev] && [ev][1..] == [];
      assert [] + more == more + [] == more;
    } else {
      assert (evs + [ev])[1..] == evs[1..] + [ev];
      var (s, outs) := Step(st, evs[0]);
      RunSnoc(s, evs[1..], ev);
      var (u, o2) := Run(s, evs[1..]);
      var (t, o3) := Step(u, ev);
      assert outs + (o2 + o3) == (outs + o2) + o3;
    }
  }

  // The newest pending part came with an arrival, whose second clock reading is the buffer's time.
  ghost predicate NewestPart(st: State, evs: seq<Event>) {
    st.Collecting? ==>
      && st.parts != []
      && exists ev :: ev in evs && ev.Arrival? && ev.later == st.last
                      && ev.fragment == Fragment(st.sender, st.parts[|st.parts| - 1])
  }

  lemma StepNewest(st: State, ev: Event, evs: seq<Event>)
    requires NewestPart(st, evs)
    ensures NewestPart(Step(st, ev).0, evs + [ev])
  {
    hide Flatten, IsPartLength, Take;
    assert ev in evs + [ev] && forall e :: e in evs ==> e in evs + [ev];
    if ev.Arrival? {
      TakeNewest(Idle, ev.fragment, ev.later, ev.accepts);
      TakeNewest(st, ev.fragment, ev.later, ev.accepts);
    }
  }

  lemma TakeNewest(st: State, f: Fragment, later: int, accepts: bool)
    ensures var s := Take(st, f, later, accepts).0;
            s.Collecting? ==>
              s.parts != [] && s.last == later && Fragment(s.sender, s.parts[|s.parts| - 1]) == f
  {
    hide Flatten, IsPartLength;
  }

  lemma {:induction false} RunNewest(evs: seq<Event>)
    ensures NewestPart(Run(Idle, evs).0, evs)
  {
    hide NewestPart, Step, Run;
    if evs == [] {
      NewestAtStart();
    } else {
      var before, ev := evs[..|evs| - 1], evs[|evs| - 1];
      assert evs == before + [ev];
      RunNewest(before);
      RunSnoc(Idle, before, ev);
      StepNewest(Run(Idle, before).0, ev, before);
    }
  }

  lemma NewestAtStart()
    ensures NewestPart(Run(Idle, []).0, [])
  {
  }

  // Nothing is kept for long: after every run and a timeout check at `at`, what is still pending
  // got its newest part from an arrival at most 30 seconds before.
  lemma NothingStale(evs: seq<Event>, at: int, accepts: bool)
    ensures var t := Run(Idle, evs + [Poll(at, accepts)]).0;
            t.Collecting? ==>
              && t.parts != []
              && exists ev :: ev in evs && ev.Arrival? && (at - ev.later) * TICK_MS <= FRAGMENT_TIMEOUT_MS
                              && ev.fragment == Fragment(t.sender, t.parts[|t.parts| - 1])
  {
    RunSnoc(Idle, evs, Poll(at, accepts));
    RunNewest(evs);
    hide Run;
  }

  lemma ArrivalsConcat(a: seq<Event>, b: seq<Event>)
    ensures Arrivals(a + b) == Arrivals(a) + Arrivals(b)
  {
    FlatMapConcat(EventFragments, a, b);
  }

  lemma NothingOut()
    ensures Fragments([]) == []
  {
    FlatMapNil(OutFragments);
  }

  lemma Shuffle<T>(outs: seq<T>, more: seq<T>, end: seq<T>, mid: seq<T>, start: seq<T>, a: seq<T>, rest: seq<T>)
    requires outs + mid == start + a && more + end == mid + rest
    ensures (outs + more) + end == start + (a + rest)
  {
    assert (outs + more) + end == outs + (more + end) == (outs + mid) + rest;
  }

  // ---------------------------------------------------------------- sizes

  predicate AllParts(parts: seq<string>) {
    forall i :: 0 <= i < |parts| ==> IsPartLength(|parts[i]|)
  }

  // A pending buffer: 1 to 7 parts, whole groups of four digits, at most 2044 of them.
  predicate Bounded(st: State) {
    st.Collecting? ==>
      && 1 <= |st.parts| <= 7 && AllParts(st.parts)
      && |Flatten(st.parts)| % 4 == 0 && |Flatten(st.parts)| <= 2044
  }

  // A message's parts: every part but the last is a full part; joined parts fit the buffer.
  predicate FitParts(parts: seq<string>) {
    && parts != []
    && AllParts(parts[..|parts| - 1])
    && (|parts| > 1 ==> |Flatten(parts)| <= 2046)
  }

  predicate OutFits(out: Out) {
    out.Dropped? || FitParts(out.parts)
  }

  lemma {:induction false} PartsLength(parts: seq<string>)
    requires AllParts(parts)
    ensures |Flatten(parts)| % 4 == 0 && |Flatten(parts)| >= 264 * |parts|
    decreases |parts|
  {
    if parts != [] {
      hide Flatten;
      LastSplit(parts);
      FlattenSnoc(parts[..|parts| - 1], parts[|parts| - 1]);
      PartsLength(parts[..|parts| - 1]);
    }
  }

  lemma TakeBounded(st: State, f: Fragment, later: int, accepts: bool)
    requires Bounded(st)
    ensures var (s, flushed, done) := Take(st, f, later, accepts);
            && Bounded(s)
            && (forall out :: out in flushed + CompletedOuts(done) ==> OutFits(out))
  {
    hide Flatten;
    SingleFits(f.hex);
    if st.Collecting? {
      FlattenSnoc(st.parts, f.hex);
      if IsPartLength(|f.hex|) && |f.hex| + |Flatten(st.parts)| <= 2046 {
        PartsLength(st.parts + [f.hex]);
      }
      assert (st.parts + [f.hex])[..|st.parts|] == st.parts;
    }
  }

  lemma SingleFits(hex: string)
    ensures FitParts([hex])
    ensures IsPartLength(|hex|) ==> AllParts([hex]) && |Flatten([hex])| % 4 == 0 && |Flatten([hex])| <= 2044
  {
    FlattenOne(hex);
  }

  lemma StepBounded(st: State, ev: Event)
    requires Bounded(st)
    ensures var (s, outs) := Step(st, ev);
            Bounded(s) && forall out :: out in outs ==> OutFits(out)
  {
    hide Flatten;
    if ev.Arrival? {
      TakeBounded(st, ev.fragment, ev.later, ev.accepts);
      TakeBounded(Idle, ev.fragment, ev.later, ev.accepts);
    }
  }

  // Every reachable buffer is bounded and every message of every run fits.
  lemma {:induction false} RunBounded(st: State, evs: seq<Event>)
    requires Bounded(st)
    ensures var (t, outs) := Run(st, evs);
            Bounded(t) && forall out :: out in outs ==> OutFits(out)
    decreases |evs|
  {
    hide Step, Bounded, OutFits;
    if evs != [] {
      StepBounded(st, evs[0]);
      RunBounded(Step(st, evs[0]).0, evs[1..]);
    }
  }

  // ---------------------------------------------------------------- decoding

  function DecodePart(hex: string): string {
    Ucs2.Decode(hex, CONTENT_SIZE)
  }

  function DecodeEach(parts: seq<string>): string {
    FlatMap(DecodePart, parts)
  }

  lemma DecodesWhole(hex: string)
    requires |hex| <= 2046
    ensures Ucs2.Decode(hex, CONTENT_SIZE) == EncodeAll(Ucs2.Units(hex))
    ensures |Ucs2.Decode(hex, CONTENT_SIZE)| <= 1533
  {
    var us := Ucs2.Units(hex);
    EncodedLength(us);
    Ucs2.TakesAll(us, 0, CONTENT_SIZE);
    if us != [] {
      EncodedLength(us[..|us| - 1]);
    }
  }

  lemma {:induction false} PartsHex(parts: seq<string>)
    requires forall i :: 0 <= i < |parts| ==> IsHex(parts[i])
    ensures IsHex(Flatten(parts))
    decreases |parts|
  {
    if parts != [] {
      hide Flatten;
      LastSplit(parts);
      FlattenSnoc(parts[..|parts| - 1], parts[|parts| - 1]);
      PartsHex(parts[..|parts| - 1]);
    }
  }

  // Decoding the joined parts of a message is joining the decoded parts, and nothing of it is cut.
  lemma {:induction false} DecodingCommutes(parts: seq<string>)
    requires parts != [] && AllParts(parts[..|parts| - 1]) && |Flatten(parts)| <= 2046
    requires forall i :: 0 <= i < |parts| ==> IsHex(parts[i])
    ensures Ucs2.Decode(Flatten(parts), CONTENT_SIZE) == DecodeEach(parts)
    ensures DecodeAll(DecodeEach(parts)) == Ucs2.Units(Flatten(parts))
    ensures |DecodeEach(parts)| <= 1533
    decreases |parts|
  {
    hide Flatten, EncodeAll, Ucs2.Units, DecodeAll, Ucs2.Decode;
    var n := |parts| - 1;
    var init, last := parts[..n], parts[n];
    LastSplit(parts);
    FlattenSnoc(init, last);
    FlatMapSnoc(DecodePart, init, last);
    DecodesWhole(Flatten(parts));
    DecodesWhole(last);
    DecodeEncode(Ucs2.Units(Flatten(parts)));
    if n == 0 {
      assert parts == [last];
      FlattenOne(last);
      FlatMapOne(DecodePart, last);
    } else {
      DecodingCommutes(init);
      DecodesWhole(Flatten(init));
      PartsLength(init);
      PartsHex(init);
      Ucs2.UnitsConcat(Flatten(init), last);
      EncodeConcat(Ucs2.Units(Flatten(init)), Ucs2.Units(last));
    }
  }

  // ---------------------------------------------------------------- whole messages

  // The events of one SMS: its parts in order, no part late, with timeout checks in between.
  predicate Carries(evs: seq<Event>, sender: string, parts: seq<string>, started: bool, last: int)
    decreases |evs|
  {
    if parts == [] then evs == []
    else
      evs != [] &&
      match evs[0]
      case Poll(at, _) =>
        && (started ==> (at - last) * TICK_MS <= FRAGMENT_TIMEOUT_MS)
        && Carries(evs[1..], sender, parts, started, last)
      case Arrival(f, now, later, _) =>
        && f == Fragment(sender, parts[0])
        && (started ==> (now - last) * TICK_MS <= FRAGMENT_TIMEOUT_MS)
        && Carries(evs[1..], sender, parts[1..], true, later)
  }

  function Resuming(sender: string, done: seq<string>, last: int): State {
    if done == [] then Idle else Collecting(sender, done, last)
  }

  // One more part of the same SMS, in time and within the buffer.
  lemma OnePart(sender: string, done: seq<string>, last: int, part: string, now: int, later: int, accepts: bool)
    requires done != [] ==> (now - last) * TICK_MS <= FRAGMENT_TIMEOUT_MS
    requires done != [] ==> |Flatten(done)| + |part| <= 2046
    ensures var (s, outs) := Step(Resuming(sender, done, last), Arrival(Fragment(sender, part), now, later, accepts));
            && s == (if IsPartLength(|part|) then Collecting(sender, done + [part], later) else Idle)
            && outs == if IsPartLength(|part|) then [] else [Delivered(sender, done + [part])]
  {
    hide Flatten;
    assert done == [] ==> done + [part] == [part];
  }

  // From the parts already collected, the rest of an SMS completes it, unless its final part has
  // the length of a part that is not final: then the message stays in the buffer.
  lemma {:induction false} CarriedSms(evs: seq<Event>, sender: string, done: seq<string>, parts: seq<string>, last: int)
    requires parts != [] && AllParts(parts[..|parts| - 1])
    requires |done + parts| > 1 ==> |Flatten(done + parts)| <= 2046
    requires Carries(evs, sender, parts, done != [], last)
    ensures var (t, outs) := Run(Resuming(sender, done, last), evs);
            if IsPartLength(|parts[|parts| - 1]|) then
              t.Collecting? && t.sender == sender && t.parts == done + parts && outs == []
            else
              t == Idle && outs == [Delivered(sender, done + parts)]
    decreases |evs|
  {
    hide Flatten;
    match evs[0]
    case Poll(at, accepts) =>
      CarriedSms(evs[1..], sender, done, parts, last);
    case Arrival(f, now, later, accepts) =>
      var more := parts[1..];
      var next := done + [parts[0]];
      assert done + parts == next + more;
      FlattenSnoc(done, parts[0]);
      FlattenConcat(next, more);
      OnePart(sender, done, last, parts[0], now, later, accepts);
      hide Step, AllParts;
      if more == [] {
        assert evs[1..] == [] && next + more == next;
        var outs := [Delivered(sender, next)];
        assert outs + [] == outs;
      } else {
        InitIsPart(parts);
        CarriedSms(evs[1..], sender, next, more, later);
      }
  }

  lemma InitIsPart(parts: seq<string>)
    requires |parts| > 1 && AllParts(parts[..|parts| - 1])
    ensures IsPartLength(|parts[0]|) && AllParts(parts[1..][..|parts| - 2])
    ensures parts[1..][|parts| - 2] == parts[|parts| - 1]
  {
    assert parts[..|parts| - 1][0] == parts[0];
    assert parts[1..][..|parts| - 2] == parts[..|parts| - 1][1..];
  }

  // A full part and a last part of one sender are joined if they come at most 3000 ticks, 30 seconds,
  // apart; later, the full part leaves alone and the last is a message of its own.
  lemma TwoParts(sender: string, first: string, last: string, at: int, gap: int, accepts: bool)
    requires |first| in {612, 608, 268, 264} && |last| !in {612, 608, 268, 264} && |first| + |last| <= 2046
    ensures Run(Idle, [Arrival(Fragment(sender, first), at, at, accepts),
                       Arrival(Fragment(sender, last), at + gap, at + gap, true)]) ==
            (Idle, if gap <= 3000 then [Delivered(sender, [first, last])]
                   else [Delivered(sender, [first]), Delivered(sender, [last])])
  {
    hide Flatten;
    var a := Arrival(Fragment(sender, first), at, at, accepts);
    var b := Arrival(Fragment(sender, last), at + gap, at + gap, true);
    RunSnoc(Idle, [], a);
    RunSnoc(Idle, [a], b);
    assert [] + [a] == [a] && [a] + [b] == [a, b];
    assert Run(Idle, []) == (Idle, []);
    assert Take(Idle, a.fragment, at, accepts) == (Collecting(sender, [first], at), [], None);
    assert Step(Idle, a) == (Collecting(sender, [first], at), []);
    LastStep(sender, first, last, at, b);
    hide Run, Step;
    assert Run(Idle, [a]) == (Collecting(sender, [first], at), [] + []);
    assert [] + Step(Collecting(sender, [first], at), b).1 == Step(Collecting(sender, [first], at), b).1;
  }

  lemma LastStep(sender: string, first: string, last: string, at: int, b: Event)
    requires b.Arrival? && b.fragment == Fragment(sender, last) && b.accepts
    requires |last| !in {612, 608, 268, 264} && |first| + |last| <= 2046
    ensures Step(Collecting(sender, [first], at), b) ==
            (Idle, if b.now - at <= 3000 then [Delivered(sender, [first, last])]
                   else [Delivered(sender, [first]), Delivered(sender, [last])])
  {
    hide Flatten;
    FlattenOne(first);
    var st := Collecting(sender, [first], at);
    if b.now - at > 3000 {
      assert TimedOut(st, b.now);
      assert Take(Idle, b.fragment, b.later, true) == (Idle, [], Whole(sender, [last]));
      assert Step(st, b).1 == [Delivered(sender, [first])] + [Delivered(sender, [last])];
      assert Step(st, b).1 == [Delivered(sender, [first]), Delivered(sender, [last])];
    } else {
      assert Take(st, b.fragment, b.later, true) == (Idle, [], Whole(sender, [first] + [last]));
      assert [first] + [last] == [first, last];
      assert Step(st, b).1 == [] + [Delivered(sender, [first, last])] == [Delivered(sender, [first, last])];
    }
  }

  // A timeout check lets a part wait for 30 seconds, and no longer.
  lemma PollFlushes(sender: string, parts: seq<string>, last: int, at: int, accepts: bool)
    ensures Step(Collecting(sender, parts, last), Poll(at, accepts)) ==
            if at - last <= 3000 then (Collecting(sender, parts, last), [])
            else (Idle, [if accepts then Delivered(sender, parts) else Refused(sender, parts)])
  {
  }

  datatype Sms = Sms(sender: string, parts: seq<string>)

  // What a sender transmits: full parts and a last part, small enough for the buffer.
  predicate Sendable(sms: Sms) {
    && sms.parts != [] && AllParts(sms.parts[..|sms.parts| - 1])
    && (|sms.parts| > 1 ==> |Flatten(sms.parts)| <= 2046)
  }

  // An SMS that reaches an idle buffer is delivered by its own last part, whole and alone, exactly
  // when that part does not have the length of a part that is not final.
  lemma DeliveredByOwnParts(evs: seq<Event>, sms: Sms)
    requires Sendable(sms) && Carries(evs, sms.sender, sms.parts, false, 0)
    ensures Run(Idle, evs) == (Idle, [Delivered(sms.sender, sms.parts)])
            <==> |sms.parts[|sms.parts| - 1]| !in {612, 608, 268, 264}
  {
    hide Flatten, Carries, Run;
    PartLengths(|sms.parts[|sms.parts| - 1]|);
    assert [] + sms.parts == sms.parts;
    CarriedSms(evs, sms.sender, [], sms.parts, 0);
  }

  lemma {:induction false} RunConcat(st: State, a: seq<Event>, b: seq<Event>)
    ensures var (s, outs) := Run(st, a);
            var (t, more) := Run(s, b);
            Run(st, a + b) == (t, outs + more)
    decreases |a|
  {
    hide Step;
    if a == [] {
      assert a + b == b;
      assert [] + Run(st, b).1 == Run(st, b).1;
    } else {
      assert (a + b)[1..] == a[1..] + b;
      var (s, outs) := Step(st, a[0]);
      RunConcat(s, a[1..], b);
      var (u, o2) := Run(s, a[1..]);
      var (t, o3) := Run(u, b);
      assert outs + (o2 + o3) == (outs + o2) + o3;
    }
  }

  // Traffic: each SMS with the events that carry it, one SMS after the other.
  predicate Traffic(smses: seq<Sms>, runs: seq<seq<Event>>) {
    && |smses| == |runs|
    && forall i :: 0 <= i < |smses| ==>
         && Sendable(smses[i])
         && !IsPartLength(|smses[i].parts[|smses[i].parts| - 1]|)
         && Carries(runs[i], smses[i].sender, smses[i].parts, false, 0)
  }

  function OneEach(smses: seq<Sms>): seq<Out> {
    if smses == [] then [] else [Delivered(smses[0].sender, smses[0].parts)] + OneEach(smses[1..])
  }

  // Every SMS of such traffic comes out as one message of exactly its parts, in order.
  lemma {:induction false} TrafficDelivered(smses: seq<Sms>, runs: seq<seq<Event>>)
    requires Traffic(smses, runs)
    ensures Run(Idle, Flatten(runs)) == (Idle, OneEach(smses))
    decreases |runs|
  {
    if runs != [] {
      hide Flatten, Carries;
      assert runs == [runs[0]] + runs[1..];
      FlattenCons(runs[0], runs[1..]);
      DeliveredByOwnParts(runs[0], smses[0]);
      TrafficDelivered(smses[1..], runs[1..]);
      RunConcat(Idle, runs[0], Flatten(runs[1..]));
    }
  }

  // Timeout checks of an empty buffer change nothing.
  lemma {:induction false} PollsIdle(polls: seq<Event>)
    requires forall ev :: ev in polls ==> ev.Poll?
    ensures Run(Idle, polls) == (Idle, []) && Arrivals(polls) == []
    decreases |polls|
  {
    hide FlatMap;
    if polls == [] {
      FlatMapNil(EventFragments);
    } else {
      assert polls[0] in polls && polls == [polls[0]] + polls[1..];
      FlatMapCons(EventFragments, polls[0], polls[1..]);
      PollsIdle(polls[1..]);
    }
  }

  // The fragments an SMS is made of.
  function SmsFragments(sms: Sms): seq<Fragment> {
    Tagged(sms.sender, sms.parts)
  }

  lemma {:induction false} CarriedArrivals(evs: seq<Event>, sender: string, parts: seq<string>,
                                           started: bool, last: int)
    requires Carries(evs, sender, parts, started, last)
    ensures Arrivals(evs) == Tagged(sender, parts)
    decreases |evs|
  {
    hide FlatMap;
    if parts == [] {
      FlatMapNil(EventFragments);
    } else {
      assert evs == [evs[0]] + evs[1..];
      FlatMapCons(EventFragments, evs[0], evs[1..]);
      if evs[0].Arrival? {
        CarriedArrivals(evs[1..], sender, parts[1..], true, evs[0].later);
      } else {
        CarriedArrivals(evs[1..], sender, parts, started, last);
      }
    }
  }

  // The fragments that arrive in such traffic are those of its SMS.
  lemma {:induction false} TrafficArrivals(smses: seq<Sms>, runs: seq<seq<Event>>)
    requires Traffic(smses, runs)
    ensures Arrivals(Flatten(runs)) == FlatMap(SmsFragments, smses)
    decreases |runs|
  {
    hide FlatMap, Carries;
    if runs == [] {
      FlatMapNil(Same<Event>);
      FlatMapNil(EventFragments);
      FlatMapNil(SmsFragments);
    } else {
      var sms, run := smses[0], runs[0];
      assert smses == [sms] + smses[1..] && runs == [run] + runs[1..];
      CarriedArrivals(run, sms.sender, sms.parts, false, 0);
      TrafficArrivals(smses[1..], runs[1..]);
      FlattenCons(run, runs[1..]);
      FlatMapCons(SmsFragments, sms, smses[1..]);
      ArrivalsConcat(run, Flatten(runs[1..]));
    }
  }
}
