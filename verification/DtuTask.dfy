// The DTU task: lines off the wire, parsed, checked for repetition and queued.
module DtuTask {
  import opened Text
  import opened CStrings
  import opened Hex
  import opened Sequences
  import opened Messages
  import opened Options
  import opened DtuParser
  import opened Words
  import opened Fingerprint
  import opened DtuDedup
  import DtuFraming

  // An arriving message is let through when it is no duplicate and the queue takes it.
  ghost predicate LetThrough(hist: History, a: Arrival) {
    a.accepts && !exists i: nat :: Live(hist, i, a.hash, a.now)
  }

  // Of the messages that arrived, those let through.
  ghost function Kept(ms: seq<Message>, arrivals: seq<Arrival>): seq<Message>
    requires |ms| == |arrivals|
  {
    if ms == [] then []
    else
      var n := |ms| - 1;
      Kept(ms[..n], arrivals[..n]) + if LetThrough(Run(arrivals[..n]), arrivals[n]) then [ms[n]] else []
  }

  lemma KeptSnoc(ms: seq<Message>, arrivals: seq<Arrival>, m: Message, a: Arrival)
    requires |ms| == |arrivals|
    ensures Kept(ms + [m], arrivals + [a]) == Kept(ms, arrivals) + if LetThrough(Run(arrivals), a) then [m] else []
  {
    assert (ms + [m])[..|ms|] == ms && (arrivals + [a])[..|ms|] == arrivals;
  }

  lemma ParseNothing()
    ensures Parse("") == None
  {
  }

  // Every message that arrived, and every one queued, has its fingerprint on record.
  ghost predicate Arrived(ms: seq<Message>, arrivals: seq<Arrival>) {
    |ms| == |arrivals| && forall i :: 0 <= i < |ms| ==> arrivals[i].hash == Of(ms[i])
  }

  ghost predicate Queued(queue: seq<Message>, hist: History) {
    |queue| == |hist| && forall i :: 0 <= i < |queue| ==> hist[i].hash == Of(queue[i])
  }

  class Receiver {
    const dedup: Dedup
    var queue: seq<Message>
    ghost var messages: seq<Message>     // every message parsed so far
    ghost var arrivals: seq<Arrival>

    // The history is that of the arrivals, and the queue holds those let through.
    ghost predicate Valid()
      reads this, dedup, dedup.cache
    {
      && dedup.Valid() && dedup.hist == Run(arrivals)
      && Arrived(messages, arrivals) && Queued(queue, dedup.hist)
      && queue == Kept(messages, arrivals)
    }

    constructor ()
      ensures Valid() && queue == [] && messages == [] && arrivals == []
    {
      dedup := new Dedup();
      queue, messages, arrivals := [], [], [];
    }

    // dtu_handle_line; `accepts` says whether the queue takes the message.
    method HandleLine(line: string, now: int, later: int, accepts: bool)
      requires Valid() && NulFree(line)
      modifies this, dedup, dedup.cache
      ensures Valid()
      ensures match Parse(line)
              case None => queue == old(queue) && messages == old(messages) && arrivals == old(arrivals)
              case Some(m) =>
                var a := Arrival(Of(m), now, later, accepts);
                && messages == old(messages) + [m] && arrivals == old(arrivals) + [a]
                && queue == if LetThrough(old(dedup.hist), a) then old(queue) + [m] else old(queue)
    {
      hide *;
      if line == "" {
        ParseNothing();
        return;
      }
      var r := ParseLine(line);
      if r.Some? {
        HandleMessage(r.value, now, later, accepts);
      }
    }

    // A parsed message is queued unless it repeats one.
    method HandleMessage(m: Message, now: int, later: int, accepts: bool)
      requires Valid()
      modifies this, dedup, dedup.cache
      ensures Valid()
      ensures var a := Arrival(Of(m), now, later, accepts);
              && messages == old(messages) + [m] && arrivals == old(arrivals) + [a]
              && queue == if LetThrough(old(dedup.hist), a) then old(queue) + [m] else old(queue)
    {
      hide Run, Kept, Of, Scan, Live;
      var h := Compute(m);
      ghost var a := Arrival(h, now, later, accepts);
      RunSnoc(arrivals, a);
      KeptSnoc(messages, arrivals, m, a);
      DuplicateExactly(dedup.hist, h, now);
      ScanInside(dedup.hist, h, now);
      var dup := dedup.IsDuplicate(h, now);
      if !dup && accepts {
        queue := queue + [m];
        dedup.Record(h, now, later);
      }
      messages, arrivals := messages + [m], arrivals + [a];
    }

    // Copies of one message in the queue are eight messages or a full window apart.
    lemma QueueSpaced(clock: int)
      requires Valid()
      ensures InOrder(arrivals, clock) ==>
                forall i, k :: 0 <= i < k < |queue| && queue[i] == queue[k] ==>
                  k > i + CACHE_SIZE || dedup.hist[k].accepted - dedup.hist[i].seen >= WINDOW
    {
      if InOrder(arrivals, clock) {
        DedupGuarantee(arrivals, clock);
      }
    }
  }

  // What is parsed from a line as dtu_read_line hands it over: the C string in its buffer.
  function Received(body: string): seq<Message> {
    match Parse(CStr(DtuFraming.Chomped(body)))
    case None => []
    case Some(m) => [m]
  }

  // Of a line with a NUL only what precedes it is parsed.
  lemma NulEndsLine(text: string, x: string)
    requires NulFree(text)
    ensures Received(text + "\0" + x) == match Parse(text) case None => [] case Some(m) => [m]
  {
    hide Parse;
    var body := text + "\0" + x;
    var line := DtuFraming.Chomped(body);
    assert line == body[..|line|] && |line| > |text| && line[|text|] == '\0';
    var c := CStr(line);
    assert |c| <= |text| && c == line[..|c|] == text[..|c|];
    assert |c| < |line| && line[|c|] == '\0';
    assert forall i :: 0 <= i < |text| ==> line[i] == text[i] != '\0';
    assert |c| == |text|;
    assert c == text;
  }

  // The task's reader, line buffer and receiver.
  class Link {
    const reader: DtuFraming.LineReader
    const line: array<char>
    const receiver: Receiver

    // The messages the receiver has seen are those of the lines cut off the stream.
    ghost predicate Valid()
      reads this, reader, reader.acc, receiver, receiver.dedup, receiver.dedup.cache
    {
      && reader.Valid() && receiver.Valid()
      && line.Length == DtuFraming.LINE_BUF_SIZE && line != reader.acc
      && receiver.messages == FlatMap(Received, reader.bodies)
    }

    constructor ()
      ensures Valid() && reader.steps == [] && receiver.queue == []
    {
      reader := new DtuFraming.LineReader();
      line := new char[DtuFraming.LINE_BUF_SIZE];
      receiver := new Receiver();
      new;
      FlatMapNil(Received);
    }

    // One pass of the loop of uart_dtu_task: the line handled is the whole line cut off the stream,
    // up to a NUL.
    method ServeLine(polls: seq<DtuFraming.Poll>, deadline: int, now: int, later: int, accepts: bool)
      returns (got: bool)
      requires Valid() && polls != [] && polls[|polls| - 1].now >= deadline
      modifies reader, reader.acc, line, receiver, receiver.dedup, receiver.dedup.cache
      ensures Valid()
      ensures reader.steps == old(reader.steps + DtuFraming.Served(reader.Abs(), polls, deadline))
      ensures got == DtuFraming.InTime(old(reader.Abs()), polls, deadline)
      ensures exists taken ::
                && DtuFraming.TakenOff(old(reader.acc[..reader.len]), polls, deadline, taken)
                && reader.stream == old(reader.stream) + Flatten(taken)
                && (got <==> '\n' in old(reader.acc[..reader.len]) || '\n' in Flatten(taken))
      ensures !got ==> receiver.queue == old(receiver.queue) && receiver.arrivals == old(receiver.arrivals)
      ensures got ==>
                && reader.bodies != []
                && var seen := Received(reader.bodies[|reader.bodies| - 1]);
                   && receiver.messages == old(receiver.messages) + seen
                   && receiver.arrivals == old(receiver.arrivals) +
                        if seen == [] then [] else [Arrival(Of(seen[0]), now, later, accepts)]
    {
      hide Parse, Of, Run, Kept, FlatMap, DtuFraming.TakenOff, DtuFraming.After, DtuFraming.Chomped;
      hide DtuFraming.Served, DtuFraming.InTime;
      ghost var before := reader.bodies;
      var n;
      got, n := reader.ReadLine(line, polls, deadline);
      if got {
        ghost var body := reader.bodies[|reader.bodies| - 1];
        assert reader.bodies == before + [body];
        FlatMapSnoc(Received, before, body);
        var text := TextOf(line, n);
        receiver.HandleLine(text, now, later, accepts);
      }
    }
  }

  // The C string in the line buffer.
  method TextOf(line: array<char>, ghost n: nat) returns (text: string)
    requires n < line.Length && line[n] == NUL
    ensures text == CStr(line[..n])
  {
    var k := Strlen(line);
    text := line[..k];
  }

  // ---------------------------------------------------------------- from the wire to messages

  // A message the firmware can report: it fits and does not break its line.
  predicate Reportable(m: Message) {
    && IsSender(m.sender) && '\n' !in m.sender && NulFree(m.sender)
    && IsBytes(m.content) && 1 <= |m.content| < CONTENT_SIZE
  }

  function ReportLine(m: Message): string
    requires Reportable(m)
  {
    Line(m.sender, PrintHex(m.content))
  }

  // What the modem prints: a report, or another line, such as an answer to a command.
  datatype Output = Report(message: Message) | Other(body: string)

  // The other lines fit the buffer and are no reports.
  predicate Printed(o: Output) {
    match o
    case Report(m) => Reportable(m)
    case Other(body) => '\n' !in body && DtuFraming.Short(body) && Received(body) == []
  }

  // A line before its newline.
  function Body(o: Output): string {
    match o
    case Report(m) => if Reportable(m) then ReportLine(m) + "\r" else ""
    case Other(body) => body
  }

  function Wire(o: Output): string {
    Body(o) + "\n"
  }

  function WireLine(o: Output): seq<string> {
    [Body(o)]
  }

  function Sent(o: Output): seq<Message> {
    match o
    case Report(m) => [m]
    case Other(_) => []
  }

  lemma HexDigitsOnly(s: string, i: nat)
    requires IsBytes(s) && i < |PrintHex(s)|
    ensures HexVal(PrintHex(s)[i]) >= 0
  {
    PrintedBytes(s, i / 2);
    assert i == 2 * (i / 2) || i == 2 * (i / 2) + 1;
  }

  lemma ReportLineOk(m: Message)
    requires Reportable(m)
    ensures |ReportLine(m)| <= 4140 && '\n' !in ReportLine(m) && NulFree(ReportLine(m))
  {
    var hex := PrintHex(m.content);
    forall i | 0 <= i < |hex| ensures hex[i] != '\n' && hex[i] != NUL {
      HexDigitsOnly(m.content, i);
    }
    assert '\n' !in PREFIX && '\n' !in COMMA && NulFree(PREFIX) && NulFree(COMMA);
  }

  // A printed line is one short line, and only a report is a message.
  lemma PrintedBody(o: Output)
    requires Printed(o)
    ensures '\n' !in Body(o) && DtuFraming.Short(Body(o)) && Received(Body(o)) == Sent(o)
  {
    hide PrintHex, Line, Parse, Find;
    if o.Report? {
      var m := o.message;
      ReportLineOk(m);
      ParsePrint(m.sender, m.content);
      assert DtuFraming.Chomped(Body(o)) == ReportLine(m);
      CStrNulFree(ReportLine(m));
    }
  }

  lemma OneWireLine(body: string, x: string)
    requires '\n' !in body
    ensures DtuFraming.Lines(body + "\n" + x) == [body] + DtuFraming.Lines(x)
    ensures DtuFraming.Tail(body + "\n" + x) == DtuFraming.Tail(x)
  {
    hide Find;
    var s := body + "\n" + x;
    forall j: nat | j < |body| ensures !At(s, DtuFraming.NL, j) {
      AtChar(s, DtuFraming.NL, j, 0);
      assert s[j] == body[j];
    }
    assert s[|body|..|body| + 1] == DtuFraming.NL;
    FindIs(s, DtuFraming.NL, 0, |body|);
    var line, rest := DtuFraming.FirstLine(s);
    assert line == body && rest == x;
  }

  lemma {:induction false} WireSplits(os: seq<Output>)
    requires forall o :: o in os ==> Printed(o)
    ensures var s := FlatMap(Wire, os);
            && DtuFraming.Lines(s) == FlatMap(WireLine, os)
            && DtuFraming.Tail(s) == ""
            && FlatMap(Received, DtuFraming.Lines(s)) == FlatMap(Sent, os)
            && forall body :: body in DtuFraming.Lines(s) ==> DtuFraming.Short(body)
  {
    if os == [] {
      FindNone("", DtuFraming.NL, 0);
      DtuFraming.NoLineYet("");
    } else {
      hide FlatMap, Printed, Body, Sent, Received, DtuFraming.Lines, DtuFraming.Tail;
      var o, rest := os[0], os[1..];
      assert os == [o] + rest;
      assert Printed(o);
      WireSplits(rest);
      FlatMapCons(Wire, o, rest);
      FlatMapCons(WireLine, o, rest);
      FlatMapCons(Sent, o, rest);
      PrintedBody(o);
      OneWireLine(Body(o), FlatMap(Wire, rest));
      FlatMapCons(Received, Body(o), FlatMap(WireLine, rest));
    }
  }

  // A report in so many words.
  lemma ReportText(m: Message)
    requires Reportable(m)
    ensures Wire(Report(m)) == "config,sms,ok," + m.sender + "," + PrintHex(m.content) + "\r\n"
  {
    hide PrintHex;
  }

  // The sizes of the firmware's message record.
  lemma ReportableSizes(m: Message)
    ensures Reportable(m) <==>
            && 1 <= |m.sender| <= 31 && ',' !in m.sender && '\n' !in m.sender && '\0' !in m.sender
            && 1 <= |m.content| <= 2047 && forall i :: 0 <= i < |m.content| ==> m.content[i] as int < 256
  {
  }

  // One report, byte for byte, with digits in either case.
  lemma ReportExample()
    ensures Parse("config,sms,ok,10086,48c3A9") == Some(Message("10086", ['H', 0xC3 as char, 0xA9 as char]))
  {
    var rest, hex := "10086,48c3A9", "48c3A9";
    assert "config,sms,ok,10086,48c3A9"[|PREFIX|..] == rest;
    forall j: nat | j < 5 ensures !At(rest, COMMA, j) {
      AtChar(rest, COMMA, j, 0);
    }
    assert rest[5..6] == COMMA;
    FindIs(rest, COMMA, 0, 5);
    assert rest[6..] == hex && rest[..5] == "10086";
    assert ByteAt(hex, 0) == 0x48 && ByteAt(hex, 1) == 0xC3 && ByteAt(hex, 2) == 0xA9;
    var h, e, all := ['H'], ['H', 0xC3 as char], ['H', 0xC3 as char, 0xA9 as char];
    assert "" + h == h && h + [0xC3 as char] == e && e + [0xA9 as char] == all;
    assert Bytes(hex, 1) == Some(h) && Bytes(hex, 2) == Some(e) && Bytes(hex, 3) == Some(all);
    assert Decode(hex, CONTENT_SIZE) == Some(all);
  }

  // A line of another command's answer, or one without a content field, is no report.
  lemma AnswerIgnored(answer: string)
    requires NulFree(answer) && '\n' !in answer && |answer| + 1 < DtuFraming.LINE_BUF_SIZE
    requires StartsWith(answer, PREFIX) ==> ',' !in answer[|PREFIX|..]
    ensures Printed(Other(answer + "\r"))
  {
    hide Find;
    assert DtuFraming.Chomped(answer + "\r") == answer;
    CStrNulFree(answer);
    if StartsWith(answer, PREFIX) {
      var rest := answer[|PREFIX|..];
      forall j | 0 <= j ensures !At(rest, COMMA, j) {
        AtChar(rest, COMMA, j, 0);
      }
      FindNone(rest, COMMA, 0);
    }
  }

  // The answer to polling with no message cached.
  lemma EmptyPollIgnored()
    ensures Printed(Other("config,sms,ok,0\r"))
  {
    var answer := "config,sms,ok,0";
    assert answer[|PREFIX|..] == "0";
    assert answer + "\r" == "config,sms,ok,0\r";
    AnswerIgnored(answer);
  }

  // Whatever comes off the wire, in any chunks and with any timeouts: of whole lines, no byte is
  // dropped exactly when all are short, and then the lines cut out are all of them.
  lemma LinesDelivered(steps: seq<DtuFraming.Step>)
    ensures var r := DtuFraming.After(steps);
            DtuFraming.Tail(r.stream) == "" ==>
              && (r.dropped == 0 <==> forall body :: body in DtuFraming.Lines(r.stream) ==> DtuFraming.Short(body))
              && (r.dropped == 0 && r.acc == "" ==> r.bodies == DtuFraming.Lines(r.stream))
  {
    hide DtuFraming.After, DtuFraming.Short, DtuFraming.Lines, DtuFraming.Tail;
    var r := DtuFraming.After(steps);
    if DtuFraming.Tail(r.stream) == "" {
      DtuFraming.DropsExactlyLongLines(steps);
      if r.dropped == 0 {
        DtuFraming.FramingIndependence(steps);
        FindNone("", DtuFraming.NL, 0);
        DtuFraming.NoLineYet("");
        assert r.bodies + [] == r.bodies;
      }
    }
  }

  // For the in-place code: of whole, short lines no byte is dropped, and once all are cut off the
  // messages seen are those of the lines that parse, in order; the queue holds those among the
  // messages seen that were no duplicates and that it took.
  lemma StreamServed(link: Link)
    requires link.Valid()
    ensures var s := link.reader.stream;
            DtuFraming.Tail(s) == "" && (forall body :: body in DtuFraming.Lines(s) ==> DtuFraming.Short(body)) ==>
              && link.reader.dropped == 0
              && (link.reader.len == 0 ==> link.receiver.messages == FlatMap(Received, DtuFraming.Lines(s)))
    ensures link.receiver.queue == Kept(link.receiver.messages, link.receiver.arrivals)
  {
    hide FlatMap, Kept, Run, Received, DtuFraming.After, DtuFraming.Short, DtuFraming.Lines, DtuFraming.Tail;
    LinesDelivered(link.reader.steps);
  }

  // A stream of printed lines.
  predicate Carries(stream: string, os: seq<Output>) {
    (forall o :: o in os ==> Printed(o)) && stream == FlatMap(Wire, os)
  }

  // In any chunks and with any timeouts no byte of it is dropped, and once the buffer is empty the
  // lines cut out hold exactly the messages reported, in order.
  lemma WireDelivered(steps: seq<DtuFraming.Step>, os: seq<Output>)
    requires Carries(DtuFraming.After(steps).stream, os)
    ensures var r := DtuFraming.After(steps);
            r.dropped == 0 && (r.acc == "" ==> FlatMap(Received, r.bodies) == FlatMap(Sent, os))
  {
    hide FlatMap, Printed, Received, DtuFraming.After, DtuFraming.Short, DtuFraming.Lines, DtuFraming.Tail;
    WireSplits(os);
    LinesDelivered(steps);
  }

  // The whole path, with other lines anywhere between the reports: once everything received is cut
  // into lines, the messages seen are those reported, in order, and the queue holds exactly those
  // among them that were no duplicates and that it took.
  lemma EndToEnd(link: Link, os: seq<Output>)
    requires link.Valid() && Carries(link.reader.stream, os) && link.reader.len == 0
    ensures link.reader.dropped == 0
    ensures link.receiver.messages == FlatMap(Sent, os)
    ensures link.receiver.queue == Kept(FlatMap(Sent, os), link.receiver.arrivals)
  {
    hide FlatMap, Kept, Run, Received, Printed, DtuFraming.After, DtuFraming.Short, DtuFraming.Lines, DtuFraming.Tail;
    WireDelivered(link.reader.steps, os);
  }

  // All are accepted by the queue, and no two have one fingerprint.
  predicate AllNew(arrivals: seq<Arrival>) {
    && (forall i :: 0 <= i < |arrivals| ==> arrivals[i].accepts)
    && forall i, k :: 0 <= i < k < |arrivals| ==> arrivals[i].hash != arrivals[k].hash
  }

  // With room in the queue, messages of different fingerprints all get through.
  lemma {:induction false} DistinctAllKept(ms: seq<Message>, arrivals: seq<Arrival>)
    requires |ms| == |arrivals| && AllNew(arrivals)
    ensures Kept(ms, arrivals) == ms
    decreases |ms|
  {
    hide *;
    if ms == [] {
      KeptNothing();
    } else {
      var n := |ms| - 1;
      LastNew(arrivals);
      DistinctAllKept(ms[..n], arrivals[..n]);
      NewLetThrough(arrivals[..n], arrivals[n]);
      KeptSnoc(ms[..n], arrivals[..n], ms[n], arrivals[n]);
      assert ms == ms[..n] + [ms[n]] && arrivals == arrivals[..n] + [arrivals[n]];
    }
  }

  lemma KeptNothing()
    ensures Kept([], []) == []
  {
  }

  lemma LastNew(arrivals: seq<Arrival>)
    requires arrivals != [] && AllNew(arrivals)
    ensures var n := |arrivals| - 1;
            && AllNew(arrivals[..n]) && arrivals[n].accepts
            && forall k :: 0 <= k < n ==> arrivals[..n][k].hash != arrivals[n].hash
  {
  }

  // A fingerprint that no message had before is no duplicate.
  lemma NewLetThrough(arrivals: seq<Arrival>, a: Arrival)
    requires a.accepts && forall k :: 0 <= k < |arrivals| ==> arrivals[k].hash != a.hash
    ensures LetThrough(Run(arrivals), a)
  {
    hide Run, Live;
    forall i: nat ensures !Live(Run(arrivals), i, a.hash, a.now) {
      if Live(Run(arrivals), i, a.hash, a.now) {
        SeenArrived(arrivals, i, a.hash, a.now);
      }
    }
  }

  lemma {:induction false} NewRecorded(arrivals: seq<Arrival>)
    requires AllNew(arrivals)
    ensures var hist := Run(arrivals);
            && |hist| == |arrivals|
            && forall k :: 0 <= k < |hist| ==>
                 hist[k].hash == arrivals[k].hash && hist[k].seen == arrivals[k].later
    decreases |arrivals|
  {
    hide *;
    if arrivals == [] {
      RunNothing();
    } else {
      var n := |arrivals| - 1;
      LastNew(arrivals);
      NewRecorded(arrivals[..n]);
      NewLetThrough(arrivals[..n], arrivals[n]);
      NextNew(Run(arrivals[..n]), arrivals[n]);
      RunSnoc(arrivals[..n], arrivals[n]);
      assert arrivals == arrivals[..n] + [arrivals[n]];
    }
  }

  lemma RunNothing()
    ensures Run([]) == []
  {
  }

  lemma NextNew(hist: History, a: Arrival)
    requires LetThrough(hist, a)
    ensures DtuDedup.Next(hist, a) == hist + [Sighting(a.hash, a.later, a.now)]
  {
    hide Live, Scan;
    DuplicateExactly(hist, a.hash, a.now);
  }

  // Eight others are enough: the first message, read again after them, gets through however soon.
  lemma EightOthersEvict(arrivals: seq<Arrival>, a: Arrival)
    requires |arrivals| == 9 && AllNew(arrivals)
    requires a.accepts && a.hash == arrivals[0].hash
    ensures LetThrough(Run(arrivals), a)
  {
    hide Run;
    NewRecorded(arrivals);
    forall i: nat ensures !Live(Run(arrivals), i, a.hash, a.now) {
      assert i > 0 && i < |arrivals| ==> arrivals[0].hash != arrivals[i].hash;
    }
  }

  // Seven are not: within the window it stays suppressed.
  lemma {:induction false} SevenOthersKeep(arrivals: seq<Arrival>, a: Arrival)
    requires |arrivals| == 8 && AllNew(arrivals) && a.hash == arrivals[0].hash
    requires forall i :: 0 <= i < 8 ==> a.now - arrivals[i].later < 60000
    ensures !LetThrough(Run(arrivals), a)
  {
    hide Run;
    NewRecorded(arrivals);
    assert Live(Run(arrivals), 0, a.hash, a.now);
  }

  // A live entry is the fingerprint of an arrival.
  lemma SeenArrived(arrivals: seq<Arrival>, i: nat, h: Word, now: int)
    requires Live(Run(arrivals), i, h, now)
    ensures exists k :: 0 <= k < |arrivals| && arrivals[k].hash == h
  {
    HistoryArrived(arrivals, i);
  }

  lemma {:induction false} HistoryArrived(arrivals: seq<Arrival>, i: nat)
    requires i < |Run(arrivals)|
    ensures exists k :: 0 <= k < |arrivals| && arrivals[k].hash == Run(arrivals)[i].hash
    decreases |arrivals|
  {
    if arrivals != [] {
      hide Scan;
      var n := |arrivals| - 1;
      var hist := Run(arrivals[..n]);
      if i < |hist| {
        HistoryArrived(arrivals[..n], i);
        var k :| 0 <= k < n && arrivals[..n][k].hash == hist[i].hash;
        assert arrivals[k].hash == Run(arrivals)[i].hash;
      } else {
        assert arrivals[n].hash == Run(arrivals)[i].hash;
      }
    }
  }
}
