// Which SMS the parts of a message belong to.  The firmware does not read the concatenation header,
// so a fragment is joined to what is pending by sender and time alone.
module SmsJoining {
  import opened Messages
  import opened Reassembly
  import opened Sequences

  // The fragment is joined to the parts already pending.
  predicate Joins(st: State, f: Fragment, now: int) {
    && st.Collecting? && st.sender == f.sender && !TimedOut(st, now)
    && |f.hex| < CONTENT_SIZE - |Flatten(st.parts)| - 1
  }

  // All from one SMS.
  predicate OneSms(tags: seq<nat>) {
    forall i :: 0 < i < |tags| ==> tags[i] == tags[i - 1]
  }

  // Each tag names the SMS that a fragment is part of, in order.  Every message, delivered or
  // refused, holds parts of one SMS only, and so do the parts still pending.
  predicate Unmixed(outs: seq<Out>, tags: seq<nat>) {
    if outs == [] then OneSms(tags)
    else
      var n := |OutFragments(outs[0])|;
      n <= |tags| && OneSms(tags[..n]) && Unmixed(outs[1..], tags[n..])
  }

  // Every arrival that is joined belongs to the SMS of the arrival before it.
  predicate JoinsOwn(st: State, previous: nat, evs: seq<Event>, tags: seq<nat>)
    decreases |evs|
  {
    evs == [] ||
    match evs[0]
    case Poll(_, _) => JoinsOwn(Step(st, evs[0]).0, previous, evs[1..], tags)
    case Arrival(f, now, _, _) =>
      && tags != []
      && (Joins(st, f, now) ==> tags[0] == previous)
      && JoinsOwn(Step(st, evs[0]).0, tags[0], evs[1..], tags[1..])
  }

  lemma UnmixedCons(out: Out, outs: seq<Out>, own: seq<nat>, tags: seq<nat>)
    requires |own| == |OutFragments(out)|
    ensures Unmixed([out] + outs, own + tags) <==> OneSms(own) && Unmixed(outs, tags)
  {
    hide OneSms, OutFragments;
    assert ([out] + outs)[1..] == outs;
    assert (own + tags)[..|own|] == own && (own + tags)[|own|..] == tags;
  }

  lemma OneSmsSnoc(held: seq<nat>, tag: nat)
    ensures OneSms(held + [tag]) <==> OneSms(held) && (held != [] ==> tag == held[|held| - 1])
  {
    var all := held + [tag];
    if OneSms(all) {
      forall i | 0 < i < |held| ensures held[i] == held[i - 1] {
        assert all[i] == all[i - 1];
      }
      if held != [] {
        assert all[|held|] == all[|held| - 1];
      }
    }
  }

  // Tags held for the pending parts, the newest last.
  predicate HeldFor(st: State, held: seq<nat>, previous: nat) {
    |held| == |PendingFragments(st)| && (held != [] ==> held[|held| - 1] == previous)
  }

  // What one arrival does, by numbers of fragments.
  lemma ArrivalShape(st: State, ev: Event)
    requires ev.Arrival? && Bounded(st)
    ensures var (s, own) := Step(st, ev);
            var full := IsPartLength(|ev.fragment.hex|);
            var pending := |PendingFragments(st)|;
            && |PendingFragments(s)| == |Kept(st, seq(pending, _ => 0), ev, 0)|
            && if Joins(st, ev.fragment, ev.now) then
                 if full then own == [] else |own| == 1 && |OutFragments(own[0])| == pending + 1
               else if Overflows(st, ev) then
                 |own| == 2 && |OutFragments(own[0])| == pending && |OutFragments(own[1])| == 1
               else
                 var last := if full then 0 else 1;
                 && |own| == last + (if st.Idle? then 0 else 1)
                 && (st.Collecting? ==> |OutFragments(own[0])| == pending)
                 && (!full ==> |OutFragments(own[|own| - 1])| == 1)
  {
    ArrivalStep(st, ev);
    hide Step, Joins, Overflows, IsPartLength;
  }

  // The same as states.
  lemma ArrivalStep(st: State, ev: Event)
    requires ev.Arrival?
    ensures var f := ev.fragment;
            var full := IsPartLength(|f.hex|);
            Step(st, ev) ==
            if Joins(st, f, ev.now) then
              if full then (Collecting(f.sender, st.parts + [f.hex], ev.later), [])
              else (Idle, [Delivered(f.sender, st.parts + [f.hex])])
            else if Overflows(st, ev) then (Idle, [Delivered(f.sender, st.parts), Dropped(f)])
            else
              var flushed := Flushed(st, ev.accepts);
              if full then (Collecting(f.sender, [f.hex], ev.later), flushed)
              else (Idle, flushed + [Delivered(f.sender, [f.hex])])
  {
    hide Flatten, IsPartLength, TimedOut;
    var (_, flushed, done) := Process(st, ev.fragment, ev.now, ev.later, ev.accepts);
    FirstTaken(ev.fragment, ev.later, ev.accepts);
    NothingFlushed(flushed, done);
  }

  lemma NothingFlushed(flushed: seq<Out>, done: Completed)
    ensures done.None? ==> flushed + CompletedOuts(done) == flushed
    ensures flushed == [] ==> flushed + CompletedOuts(done) == CompletedOuts(done)
  {
  }

  lemma FirstTaken(f: Fragment, later: int, accepts: bool)
    ensures Take(Idle, f, later, accepts) ==
            if IsPartLength(|f.hex|) then (Collecting(f.sender, [f.hex], later), [], None)
            else (Idle, [], Whole(f.sender, [f.hex]))
  {
  }

  // Of the same sender and in time, but the buffer has no room for it.
  predicate Overflows(st: State, ev: Event)
    requires ev.Arrival?
  {
    && st.Collecting? && st.sender == ev.fragment.sender && !TimedOut(st, ev.now)
    && !Joins(st, ev.fragment, ev.now)
  }

  // The tags of what is pending after an arrival.
  function Kept(st: State, held: seq<nat>, ev: Event, tag: nat): seq<nat>
    requires ev.Arrival?
  {
    if !IsPartLength(|ev.fragment.hex|) || Overflows(st, ev) then []
    else if Joins(st, ev.fragment, ev.now) then held + [tag]
    else [tag]
  }

  // One arrival: what leaves is unmixed exactly when what was pending is and the arrival is joined
  // to its own SMS, if to any.
  lemma ArrivalUnmixed(st: State, held: seq<nat>, previous: nat, ev: Event, tag: nat, outs: seq<Out>, tags: seq<nat>)
    requires ev.Arrival? && Bounded(st) && HeldFor(st, held, previous)
    requires Unmixed(outs, Kept(st, held, ev, tag) + tags) ==> OneSms(Kept(st, held, ev, tag))
    ensures Unmixed(Step(st, ev).1 + outs, held + ([tag] + tags)) <==>
            && OneSms(held) && (Joins(st, ev.fragment, ev.now) ==> tag == previous)
            && Unmixed(outs, Kept(st, held, ev, tag) + tags)
  {
    hide *;
    ArrivalShape(st, ev);
    JoinsPending(st, ev);
    OneSmsSnoc(held, tag);
    OneSmsSnoc([], tag);
    Shortest();
    Pending(st);
    Leaves(Step(st, ev).1, outs, held, tag, tags);
    KeptTags(st, held, ev, tag, tags);
    HeldNewest(st, held, previous);
    assert [] + [tag] == [tag];
  }

  lemma HeldNewest(st: State, held: seq<nat>, previous: nat)
    requires HeldFor(st, held, previous)
    ensures |held| == |PendingFragments(st)| && (held != [] ==> held[|held| - 1] == previous)
  {
  }

  // Outs that leave with what was pending, and without it.
  lemma Leaves(own: seq<Out>, outs: seq<Out>, held: seq<nat>, tag: nat, tags: seq<nat>)
    ensures own == [] ==> Unmixed(own + outs, held + ([tag] + tags)) == Unmixed(outs, (held + [tag]) + tags)
    ensures |own| == 1 && |OutFragments(own[0])| == |held| + 1 ==>
              (Unmixed(own + outs, held + ([tag] + tags)) <==> OneSms(held + [tag]) && Unmixed(outs, tags))
    ensures |own| == 1 && |OutFragments(own[0])| == |held| ==>
              (Unmixed(own + outs, held + ([tag] + tags)) <==> OneSms(held) && Unmixed(outs, [tag] + tags))
    ensures |own| == 2 && |OutFragments(own[0])| == |held| && |OutFragments(own[1])| == 1 ==>
              (Unmixed(own + outs, held + ([tag] + tags)) <==> OneSms(held) && OneSms([tag]) && Unmixed(outs, tags))
  {
    hide *;
    Assoc(held, [tag], tags);
    if own == [] {
      assert own + outs == outs;
    } else if |own| == 1 {
      assert own + outs == [own[0]] + outs;
      if |OutFragments(own[0])| == |held| {
        UnmixedCons(own[0], outs, held, [tag] + tags);
      } else if |OutFragments(own[0])| == |held| + 1 {
        UnmixedCons(own[0], outs, held + [tag], tags);
      }
    } else if |own| == 2 && |OutFragments(own[0])| == |held| && |OutFragments(own[1])| == 1 {
      assert own + outs == [own[0]] + ([own[1]] + outs);
      UnmixedCons(own[0], [own[1]] + outs, held, [tag] + tags);
      UnmixedCons(own[1], outs, [tag], tags);
    }
  }

  lemma KeptTags(st: State, held: seq<nat>, ev: Event, tag: nat, tags: seq<nat>)
    requires ev.Arrival?
    ensures var kept := Kept(st, held, ev, tag);
            if !IsPartLength(|ev.fragment.hex|) || Overflows(st, ev) then kept + tags == tags
            else if Joins(st, ev.fragment, ev.now) then kept == held + [tag]
            else kept == [tag]
    ensures held == [] ==> held + [tag] == [tag]
  {
    hide IsPartLength, Overflows, Joins;
  }

  lemma JoinsPending(st: State, ev: Event)
    requires ev.Arrival?
    ensures Joins(st, ev.fragment, ev.now) || Overflows(st, ev) ==> st.Collecting?
    ensures !(Joins(st, ev.fragment, ev.now) && Overflows(st, ev))
  {
  }

  lemma Shortest()
    ensures OneSms([])
  {
  }

  lemma Pending(st: State)
    requires Bounded(st)
    ensures st.Idle? <==> PendingFragments(st) == []
  {
  }

  lemma PollUnmixed(st: State, held: seq<nat>, previous: nat, ev: Event, outs: seq<Out>, tags: seq<nat>)
    requires ev.Poll? && HeldFor(st, held, previous)
    ensures var (s, own) := Step(st, ev);
            if s == st then own == []
            else HeldFor(s, [], previous) && (Unmixed(own + outs, held + tags) <==> OneSms(held) && Unmixed(outs, tags))
  {
    hide OneSms, Unmixed;
    var (s, own) := Step(st, ev);
    if s != st {
      assert own + outs == [own[0]] + outs;
      UnmixedCons(own[0], outs, held, tags);
    }
  }

  // From any state of the buffer.
  lemma {:induction false} RunUnmixed(st: State, held: seq<nat>, previous: nat, evs: seq<Event>, tags: seq<nat>)
    requires Bounded(st) && HeldFor(st, held, previous) && |tags| == |Arrivals(evs)|
    ensures Unmixed(Run(st, evs).1, held + tags) <==> OneSms(held) && JoinsOwn(st, previous, evs, tags)
    decreases |evs|
  {
    hide Unmixed, OneSms, HeldFor, Bounded, Joins, Step, FlatMap, Kept;
    if evs == [] {
      FlatMapNil(EventFragments);
      assert held + tags == held;
      NothingUnmixed(held);
    } else {
      var ev, later := evs[0], evs[1..];
      var (s, own) := Step(st, ev);
      var more := Run(s, later).1;
      assert evs == [ev] + later;
      FlatMapCons(EventFragments, ev, later);
      StepBounded(st, ev);
      if ev.Poll? {
        PollUnmixed(st, held, previous, ev, more, tags);
        Shortest();
        assert [] + tags == tags && [] + more == more;
        RunUnmixed(s, if s == st then held else [], previous, later, tags);
      } else {
        var tag, rest := tags[0], tags[1..];
        assert tags == [tag] + rest;
        var kept := Kept(st, held, ev, tag);
        HeldAfter(st, held, previous, ev, tag);
        RunUnmixed(s, kept, tag, later, rest);
        ArrivalUnmixed(st, held, previous, ev, tag, more, rest);
        if OneSms(held) && (Joins(st, ev.fragment, ev.now) ==> tag == previous) {
          KeptUnmixed(st, held, previous, ev, tag);
        }
      }
    }
  }

  lemma HeldAfter(st: State, held: seq<nat>, previous: nat, ev: Event, tag: nat)
    requires ev.Arrival? && Bounded(st) && HeldFor(st, held, previous)
    ensures HeldFor(Step(st, ev).0, Kept(st, held, ev, tag), tag)
  {
    hide Step, IsPartLength, Joins;
    ArrivalShape(st, ev);
  }

  lemma KeptUnmixed(st: State, held: seq<nat>, previous: nat, ev: Event, tag: nat)
    requires ev.Arrival? && HeldFor(st, held, previous)
    requires OneSms(held) && (Joins(st, ev.fragment, ev.now) ==> tag == previous)
    ensures OneSms(Kept(st, held, ev, tag))
  {
    hide Joins, IsPartLength;
    OneSmsSnoc(held, tag);
  }

  lemma NothingUnmixed(held: seq<nat>)
    ensures Unmixed([], held) == OneSms(held)
  {
  }

  // Over every run from an empty buffer: no message mixes the parts of two SMS exactly when every
  // fragment that is joined to pending parts (same sender, in time, with room) belongs to the SMS
  // of the fragment before it.
  lemma UnmixedExactly(evs: seq<Event>, tags: seq<nat>)
    requires |tags| == |Arrivals(evs)|
    ensures Unmixed(Run(Idle, evs).1, tags) <==> JoinsOwn(Idle, 0, evs, tags)
  {
    RunUnmixed(Idle, [], 0, evs, tags);
    Shortest();
    assert [] + tags == tags;
  }

  // A short SMS that comes while a part of another SMS of its sender is pending becomes the end of
  // that message.
  lemma ShortSmsJoined(sender: string, part: string, short: string, at: int, accepts: bool)
    requires IsPartLength(|part|) && !IsPartLength(|short|) && |part| + |short| <= 2046
    ensures var first := Arrival(Fragment(sender, part), at, at, accepts);
            var second := Arrival(Fragment(sender, short), at, at, accepts);
            var outs := Run(Idle, [first, second]).1;
            && outs == [Delivered(sender, [part, short])]
            && !Unmixed(outs, [0, 1])
  {
    hide Flatten, IsPartLength, Unmixed;
    var first := Arrival(Fragment(sender, part), at, at, accepts);
    var second := Arrival(Fragment(sender, short), at, at, accepts);
    OnePart(sender, [], at, part, at, at, accepts);
    FlattenOne(part);
    OnePart(sender, [part], at, short, at, at, accepts);
    assert [] + [part] == [part] && [part] + [short] == [part, short];
    TwoEvents(Idle, first, second);
    TwoTags(Delivered(sender, [part, short]));
  }

  lemma TwoEvents(st: State, a: Event, b: Event)
    ensures var (s, outs) := Step(st, a);
            var (t, more) := Step(s, b);
            Run(st, [a, b]) == (t, outs + more)
  {
    hide Step;
    RunSnoc(st, [], a);
    RunSnoc(st, [a], b);
    assert [] + [a] == [a] && [a] + [b] == [a, b] && [] + Step(st, a).1 == Step(st, a).1;
  }

  lemma TwoTags(out: Out)
    requires |OutFragments(out)| == 2
    ensures !Unmixed([out], [0, 1])
  {
    assert [0, 1][..2][1] != [0, 1][..2][0];
  }

  // ---------------------------------------------------------------- whole SMS

  function Tags(tags: seq<nat>): set<nat> {
    set tag | tag in tags
  }

  // From one SMS, of which nothing was seen before.
  predicate NewSms(own: seq<nat>, seen: set<nat>) {
    OneSms(own) && Tags(own) !! seen
  }

  // The tags of every message, and at last of what is pending.
  function Groups(outs: seq<Out>, tags: seq<nat>): seq<seq<nat>> {
    if outs == [] then [tags]
    else
      var n := |OutFragments(outs[0])|;
      if n <= |tags| then [tags[..n]] + Groups(outs[1..], tags[n..]) else [tags]
  }

  // Every message holds the parts of one SMS only, and all of them that arrived.
  predicate WholeSms(groups: seq<seq<nat>>) {
    && (forall i :: 0 <= i < |groups| ==> OneSms(groups[i]))
    && forall i, k :: 0 <= i < k < |groups| ==> Tags(groups[i]) !! Tags(groups[k])
  }

  // The same read from the front, with what was seen before.
  predicate NewSmses(groups: seq<seq<nat>>, seen: set<nat>)
    decreases |groups|
  {
    groups == [] || (NewSms(groups[0], seen) && NewSmses(groups[1..], seen + Tags(groups[0])))
  }

  lemma {:induction false} NewSmsesMeans(groups: seq<seq<nat>>, seen: set<nat>)
    ensures NewSmses(groups, seen) <==>
            WholeSms(groups) && forall i :: 0 <= i < |groups| ==> Tags(groups[i]) !! seen
    decreases |groups|
  {
    if groups != [] {
      hide OneSms, Tags;
      var rest, more := groups[1..], seen + Tags(groups[0]);
      NewSmsesMeans(rest, more);
      if NewSmses(groups, seen) {
        forall i, k | 0 <= i < k < |groups| ensures Tags(groups[i]) !! Tags(groups[k]) {
          assert groups[k] == rest[k - 1] && (i > 0 ==> groups[i] == rest[i - 1]);
        }
        forall i | 0 <= i < |groups| ensures OneSms(groups[i]) && Tags(groups[i]) !! seen {
          assert i > 0 ==> groups[i] == rest[i - 1];
        }
      }
      if WholeSms(groups) && forall i :: 0 <= i < |groups| ==> Tags(groups[i]) !! seen {
        forall i | 0 <= i < |rest| ensures OneSms(rest[i]) && Tags(rest[i]) !! more {
          assert rest[i] == groups[i + 1];
        }
        forall i, k | 0 <= i < k < |rest| ensures Tags(rest[i]) !! Tags(rest[k]) {
          assert rest[i] == groups[i + 1] && rest[k] == groups[k + 1];
        }
      }
    }
  }

  // Every arrival is joined exactly when parts of its SMS came before it, and then the last of them
  // just before it.
  predicate JoinsWhole(st: State, previous: nat, seen: set<nat>, evs: seq<Event>, tags: seq<nat>)
    decreases |evs|
  {
    evs == [] ||
    match evs[0]
    case Poll(_, _) => JoinsWhole(Step(st, evs[0]).0, previous, seen, evs[1..], tags)
    case Arrival(f, now, _, _) =>
      && tags != []
      && (Joins(st, f, now) <==> tags[0] in seen)
      && (Joins(st, f, now) ==> tags[0] == previous)
      && JoinsWhole(Step(st, evs[0]).0, tags[0], seen + {tags[0]}, evs[1..], tags[1..])
  }

  predicate NewFrom(outs: seq<Out>, tags: seq<nat>, seen: set<nat>) {
    NewSmses(Groups(outs, tags), seen)
  }

  lemma NewFromCons(out: Out, outs: seq<Out>, own: seq<nat>, tags: seq<nat>, seen: set<nat>)
    requires |own| == |OutFragments(out)|
    ensures NewFrom([out] + outs, own + tags, seen) <==> NewSms(own, seen) && NewFrom(outs, tags, seen + Tags(own))
  {
    hide NewSms, OutFragments, Tags, Groups;
    GroupsCons(out, outs, own, tags);
    var more := Groups(outs, tags);
    assert ([own] + more)[1..] == more;
  }

  lemma GroupsCons(out: Out, outs: seq<Out>, own: seq<nat>, tags: seq<nat>)
    requires |own| == |OutFragments(out)|
    ensures Groups([out] + outs, own + tags) == [own] + Groups(outs, tags)
  {
    hide OutFragments;
    assert ([out] + outs)[1..] == outs;
    assert (own + tags)[..|own|] == own && (own + tags)[|own|..] == tags;
  }

  lemma NothingNew(held: seq<nat>, seen: set<nat>)
    ensures NewFrom([], held, seen) == NewSms(held, seen)
  {
    hide NewSms, Tags;
    assert Groups([], held) == [held] && [held][1..] == [];
    assert NewSmses([], seen + Tags(held));
  }

  lemma TagsSnoc(held: seq<nat>, tag: nat)
    ensures Tags(held + [tag]) == Tags(held) + {tag} && Tags([]) == {}
    ensures held != [] ==> held[|held| - 1] in Tags(held)
  {
    var all := held + [tag];
    assert all[|held|] == tag;
    forall t | t in Tags(held) ensures t in Tags(all) {
      var i :| 0 <= i < |held| && held[i] == t;
      assert all[i] == t;
    }
  }

  lemma NewSmsSnoc(held: seq<nat>, tag: nat, seen: set<nat>)
    ensures NewSms(held + [tag], seen) <==>
            NewSms(held, seen) && (if held == [] then tag !in seen else tag == held[|held| - 1])
  {
    hide OneSms, Tags;
    OneSmsSnoc(held, tag);
    TagsSnoc(held, tag);
  }

  // Outs that leave with what was pending, and without it.
  lemma LeavesWhole(own: seq<Out>, outs: seq<Out>, held: seq<nat>, tag: nat, tags: seq<nat>, gone: set<nat>)
    ensures own == [] ==>
              NewFrom(own + outs, held + ([tag] + tags), gone) == NewFrom(outs, (held + [tag]) + tags, gone)
    ensures |own| == 1 && |OutFragments(own[0])| == |held| + 1 ==>
              (NewFrom(own + outs, held + ([tag] + tags), gone) <==>
               NewSms(held + [tag], gone) && NewFrom(outs, tags, gone + Tags(held + [tag])))
    ensures |own| == 1 && |OutFragments(own[0])| == |held| ==>
              (NewFrom(own + outs, held + ([tag] + tags), gone) <==>
               NewSms(held, gone) && NewFrom(outs, [tag] + tags, gone + Tags(held)))
    ensures |own| == 2 && |OutFragments(own[0])| == |held| && |OutFragments(own[1])| == 1 ==>
              (NewFrom(own + outs, held + ([tag] + tags), gone) <==>
               NewSms(held, gone) && NewSms([tag], gone + Tags(held)) &&
               NewFrom(outs, tags, gone + Tags(held) + Tags([tag])))
  {
    hide *;
    Assoc(held, [tag], tags);
    if own == [] {
      assert own + outs == outs;
    } else if |own| == 1 {
      assert own + outs == [own[0]] + outs;
      if |OutFragments(own[0])| == |held| {
        NewFromCons(own[0], outs, held, [tag] + tags, gone);
      } else if |OutFragments(own[0])| == |held| + 1 {
        NewFromCons(own[0], outs, held + [tag], tags, gone);
      }
    } else if |own| == 2 && |OutFragments(own[0])| == |held| && |OutFragments(own[1])| == 1 {
      assert own + outs == [own[0]] + ([own[1]] + outs);
      NewFromCons(own[0], [own[1]] + outs, held, [tag] + tags, gone);
      NewFromCons(own[1], outs, [tag], tags, gone + Tags(held));
    }
  }

  // The tags that have left after an arrival.
  function Gone(st: State, held: seq<nat>, ev: Event, tag: nat, gone: set<nat>): set<nat>
    requires ev.Arrival?
  {
    var kept := Kept(st, held, ev, tag);
    if kept == [] then gone + Tags(held) + {tag}
    else if Joins(st, ev.fragment, ev.now) then gone
    else gone + Tags(held)
  }

  lemma ArrivalWhole(st: State, held: seq<nat>, previous: nat, ev: Event, tag: nat, outs: seq<Out>, tags: seq<nat>,
                     gone: set<nat>)
    requires ev.Arrival? && Bounded(st) && HeldFor(st, held, previous)
    requires var kept, left := Kept(st, held, ev, tag), Gone(st, held, ev, tag, gone);
             NewFrom(outs, kept + tags, left) ==> NewSms(kept, left)
    ensures var joins := Joins(st, ev.fragment, ev.now);
            NewFrom(Step(st, ev).1 + outs, held + ([tag] + tags), gone) <==>
            && NewSms(held, gone) && (joins <==> tag in gone + Tags(held)) && (joins ==> tag == previous)
            && NewFrom(outs, Kept(st, held, ev, tag) + tags, Gone(st, held, ev, tag, gone))
  {
    hide *;
    ArrivalShape(st, ev);
    JoinsPending(st, ev);
    NewSmsSnoc(held, tag, gone);
    NewSmsSnoc([], tag, gone + Tags(held));
    TagsSnoc(held, tag);
    SeenTags(held, tag, gone);
    NothingSeen(gone);
    NothingSeen(gone + Tags(held));
    Pending(st);
    LeavesWhole(Step(st, ev).1, outs, held, tag, tags, gone);
    KeptTags(st, held, ev, tag, tags);
    GoneTags(st, held, ev, tag, gone);
    HeldNewest(st, held, previous);
    assert [] + [tag] == [tag];
  }

  lemma SeenTags(held: seq<nat>, tag: nat, gone: set<nat>)
    ensures gone + Tags(held + [tag]) == gone + Tags(held) + {tag} == gone + Tags(held) + Tags([tag])
    ensures held == [] ==> gone + Tags(held) == gone
  {
    hide Tags;
    TagsSnoc(held, tag);
    TagsSnoc([], tag);
    assert [] + [tag] == [tag] && {} + {tag} == {tag};
  }

  lemma NothingSeen(seen: set<nat>)
    ensures NewSms([], seen)
  {
  }

  lemma GoneTags(st: State, held: seq<nat>, ev: Event, tag: nat, gone: set<nat>)
    requires ev.Arrival?
    ensures Gone(st, held, ev, tag, gone) ==
            if !IsPartLength(|ev.fragment.hex|) || Overflows(st, ev) then gone + Tags(held) + {tag}
            else if Joins(st, ev.fragment, ev.now) then gone
            else gone + Tags(held)
    ensures Gone(st, held, ev, tag, gone) + Tags(Kept(st, held, ev, tag)) == gone + Tags(held) + {tag}
  {
    hide IsPartLength, Overflows, Joins, Tags;
    TagsSnoc(held, tag);
    TagsSnoc([], tag);
    assert [] + [tag] == [tag];
  }

  lemma PollWhole(st: State, held: seq<nat>, previous: nat, ev: Event, outs: seq<Out>, tags: seq<nat>, gone: set<nat>)
    requires ev.Poll? && HeldFor(st, held, previous)
    ensures var (s, own) := Step(st, ev);
            if s == st then own == []
            else
              && HeldFor(s, [], previous)
              && (NewFrom(own + outs, held + tags, gone) <==>
                  NewSms(held, gone) && NewFrom(outs, tags, gone + Tags(held)))
  {
    hide NewSms, NewFrom, Tags;
    var (s, own) := Step(st, ev);
    if s != st {
      assert own + outs == [own[0]] + outs;
      NewFromCons(own[0], outs, held, tags, gone);
    }
  }

  // From any state of the buffer.
  lemma {:induction false} RunWhole(st: State, held: seq<nat>, previous: nat, evs: seq<Event>, tags: seq<nat>,
                                    gone: set<nat>)
    requires Bounded(st) && HeldFor(st, held, previous) && |tags| == |Arrivals(evs)|
    ensures NewFrom(Run(st, evs).1, held + tags, gone) <==>
            NewSms(held, gone) && JoinsWhole(st, previous, gone + Tags(held), evs, tags)
    decreases |evs|
  {
    hide NewFrom, NewSms, Tags, HeldFor, Bounded, Joins, Step, FlatMap, Kept, Gone;
    if evs == [] {
      FlatMapNil(EventFragments);
      assert held + tags == held;
      NothingNew(held, gone);
    } else {
      var ev, later := evs[0], evs[1..];
      var (s, own) := Step(st, ev);
      var more := Run(s, later).1;
      assert evs == [ev] + later;
      FlatMapCons(EventFragments, ev, later);
      StepBounded(st, ev);
      if ev.Poll? {
        PollWhole(st, held, previous, ev, more, tags, gone);
        NothingSeen(gone + Tags(held));
        TagsSnoc([], 0);
        assert [] + tags == tags && [] + more == more;
        assert gone + Tags(held) + {} == gone + Tags(held);
        RunWhole(s, if s == st then held else [], previous, later, tags, if s == st then gone else gone + Tags(held));
      } else {
        var tag, rest := tags[0], tags[1..];
        var kept, left := Kept(st, held, ev, tag), Gone(st, held, ev, tag, gone);
        var joins := Joins(st, ev.fragment, ev.now);
        assert tags == [tag] + rest;
        HeldAfter(st, held, previous, ev, tag);
        RunWhole(s, kept, tag, later, rest, left);
        ArrivalWhole(st, held, previous, ev, tag, more, rest, gone);
        GoneTags(st, held, ev, tag, gone);
        if NewSms(held, gone) && (joins <==> tag in gone + Tags(held)) && (joins ==> tag == previous) {
          KeptWhole(st, held, previous, ev, tag, gone);
        }
      }
    }
  }

  lemma KeptWhole(st: State, held: seq<nat>, previous: nat, ev: Event, tag: nat, gone: set<nat>)
    requires ev.Arrival? && Bounded(st) && HeldFor(st, held, previous) && NewSms(held, gone)
    requires Joins(st, ev.fragment, ev.now) <==> tag in gone + Tags(held)
    requires Joins(st, ev.fragment, ev.now) ==> tag == previous
    ensures NewSms(Kept(st, held, ev, tag), Gone(st, held, ev, tag, gone))
  {
    hide *;
    JoinsPending(st, ev);
    Pending(st);
    HeldNewest(st, held, previous);
    KeptTags(st, held, ev, tag, []);
    GoneTags(st, held, ev, tag, gone);
    NewSmsSnoc(held, tag, gone);
    NewSmsSnoc([], tag, gone + Tags(held));
    NothingSeen(gone + Tags(held));
    NothingSeen(gone + Tags(held) + {tag});
    assert [] + [tag] == [tag];
    assert Kept(st, held, ev, tag) + [] == Kept(st, held, ev, tag);
  }

  // Over every run from an empty buffer: every message holds exactly the parts of one SMS exactly
  // when every fragment is joined to pending parts if and only if parts of its SMS came before,
  // and then the fragment just before it is one of them.  A fragment of another sender in between,
  // a part that comes too late or finds no room, and an SMS joined to another break that.
  lemma WholeExactly(evs: seq<Event>, tags: seq<nat>)
    requires |tags| == |Arrivals(evs)|
    ensures WholeSms(Groups(Run(Idle, evs).1, tags)) <==> JoinsWhole(Idle, 0, {}, evs, tags)
  {
    hide NewSmses, WholeSms, Groups, JoinsWhole, FlatMap, Run;
    RunWhole(Idle, [], 0, evs, tags, {});
    NewSmsesMeans(Groups(Run(Idle, evs).1, tags), {});
    NothingSeen({});
    TagsSnoc([], 0);
    assert [] + tags == tags && {} + Tags([]) == {};
  }

  // A fragment of another sender between two parts splits an SMS into two messages.
  lemma OtherSenderSplits(a: string, b: string, part: string, short: string, last: string, at: int)
    requires a != b && IsPartLength(|part|) && !IsPartLength(|short|) && !IsPartLength(|last|)
    ensures var evs := [Arrival(Fragment(a, part), at, at, true), Arrival(Fragment(b, short), at, at, true),
                        Arrival(Fragment(a, last), at, at, true)];
            var outs := Run(Idle, evs).1;
            && outs == [Delivered(a, [part]), Delivered(b, [short]), Delivered(a, [last])]
            && !WholeSms(Groups(outs, [0, 1, 0]))
  {
    hide Flatten, IsPartLength, WholeSms;
    var first := Arrival(Fragment(a, part), at, at, true);
    var second := Arrival(Fragment(b, short), at, at, true);
    var third := Arrival(Fragment(a, last), at, at, true);
    ArrivalStep(Idle, first);
    ArrivalStep(Collecting(a, [part], at), second);
    ArrivalStep(Idle, third);
    TwoEvents(Idle, first, second);
    RunSnoc(Idle, [first, second], third);
    assert [first, second] + [third] == [first, second, third];
    SplitTags([Delivered(a, [part]), Delivered(b, [short]), Delivered(a, [last])]);
  }

  lemma SplitTags(outs: seq<Out>)
    requires |outs| == 3 && forall i :: 0 <= i < 3 ==> |OutFragments(outs[i])| == 1
    ensures !WholeSms(Groups(outs, [0, 1, 0]))
  {
    hide OutFragments;
    var groups := Groups(outs, [0, 1, 0]);
    GroupsCons(outs[0], outs[1..], [0], [1, 0]);
    GroupsCons(outs[1], outs[2..], [1], [0]);
    GroupsCons(outs[2], [], [0], []);
    assert outs == [outs[0]] + outs[1..] && outs[1..] == [outs[1]] + outs[2..] && outs[2..] == [outs[2]] + [];
    assert [0, 1, 0] == [0] + [1, 0] && [1, 0] == [1] + [0] && [0] == [0] + [];
    assert groups == [[0]] + ([[1]] + ([[0]] + Groups([], [])));
    assert groups[0] == [0] && groups[2] == [0];
    assert 0 in Tags(groups[0]) && 0 in Tags(groups[2]);
  }
}
