// The UART event task and the AT task as one state machine over the shared buffer and the event
// bits.  A step is one mutex section, one wait that returns or one clearing of bits, so a sequence
// of steps is an interleaving of the two tasks; a step that is not enabled leaves the state
// unchanged.
module AtTasks {
  import opened Text
  import opened SmsStream
  import opened Sequences

  datatype Pc = Idle | Woken | InCommand

  datatype System = System(
    buf: string,             // the receive buffer up to its NUL
    urcBit: bool,            // AT_RESPONSE_URC_BIT
    pc: Pc,                  // where the AT task is
    handed: seq<string>,     // blocks handed to the parser so far
    stream: string,          // every byte received so far
    okBit: bool,             // AT_RESPONSE_OK_BIT
    errorBit: bool)          // AT_RESPONSE_ERROR_BIT

  datatype Step =
    | Uart(chunk: string)    // one UART_DATA event
    | Wake                   // the AT task's wait returns and consumes the URC bit
    | Drain                  // process_pending_sms_urcs
    | OpenCommand            // first section of at_send_command
    | ClearAnswer            // it clears the response bits, and later its wait consumes them
    | CloseCommand           // its last section

  const INIT := System("", false, Idle, [], "", false, false)

  const OK := "OK\r\n"

  // The modem has answered: with OK, or else with an error or the prompt for a text.
  predicate SaysOk(s: string) {
    Find(s, OK, 0) >= 0
  }

  predicate SaysError(s: string) {
    && !SaysOk(s)
    && (|| Find(s, "ERROR\r\n", 0) >= 0 || Find(s, CME_ERROR, 0) >= 0
        || Find(s, CMS_ERROR, 0) >= 0 || Find(s, "> ", 0) >= 0)
  }

  // Room is made by dropping what precedes the first mark; what still does not fit is cut.
  function Accept(buf: string, chunk: string): string {
    var kept := if |buf| + |chunk| >= BUF_SIZE then Clear(buf) else buf;
    if |kept| + |chunk| < BUF_SIZE || BUF_SIZE <= |kept| then kept + chunk
    else kept + chunk[..BUF_SIZE - 1 - |kept|]
  }

  function Received(buf: string, chunk: string): string {
    if chunk == "" then buf else Filter(Accept(buf, chunk))
  }

  function Next(s: System, step: Step): System {
    match step
    case Uart(chunk) =>
      var b := Received(s.buf, chunk);
      s.(buf := b, urcBit := s.urcBit || (chunk != "" && HasBlock(b)), stream := s.stream + chunk,
         okBit := s.okBit || (chunk != "" && SaysOk(b)), errorBit := s.errorBit || (chunk != "" && SaysError(b)))
    case Wake =>
      if s.pc == Idle && s.urcBit then s.(urcBit := false, pc := Woken) else s
    case Drain =>
      if s.pc == InCommand then s else Drained(s).(pc := Idle)
    case OpenCommand =>
      if s.pc != Idle then s else var d := Drained(s); d.(buf := Clear(d.buf), pc := InCommand)
    case ClearAnswer =>
      if s.pc != InCommand then s else s.(okBit := false, errorBit := false)
    case CloseCommand =>
      if s.pc != InCommand then s else var d := Drained(s); d.(buf := Clear(d.buf), pc := Idle)
  }

  function Drained(s: System): System {
    s.(buf := Rest(s.buf), urcBit := HasBlock(Rest(s.buf)), handed := s.handed + Blocks(s.buf))
  }

  function After(steps: seq<Step>): System {
    if steps == [] then INIT else Next(After(steps[..|steps| - 1]), steps[|steps| - 1])
  }

  // Every command, and every chunk that found no room, found a buffer that may be cleared; and
  // then there was room.
  predicate StepUndisturbed(s: System, step: Step) {
    match step
    case Uart(chunk) =>
      || |s.buf| + |chunk| < BUF_SIZE
      || (ClearIsSafe(s.buf) && |Clear(s.buf)| + |chunk| < BUF_SIZE)
    case OpenCommand => s.pc == Idle ==> ClearIsSafe(Rest(s.buf))
    case CloseCommand => s.pc == InCommand ==> ClearIsSafe(Rest(s.buf))
    case _ => true
  }

  predicate Undisturbed(steps: seq<Step>) {
    steps == [] ||
    (Undisturbed(steps[..|steps| - 1]) && StepUndisturbed(After(steps[..|steps| - 1]), steps[|steps| - 1]))
  }

  // ---------------------------------------------------------------- what every run keeps

  predicate Inv(s: System) {
    && |s.buf| < BUF_SIZE
    && Filter(s.buf) == s.buf
    && (HasBlock(s.buf) ==> s.urcBit || s.pc == Woken)
  }

  // A block completed by a command clear would have been drained before it.
  lemma ClearedHasNoBlock(b: string)
    requires !HasBlock(b) && Filter(b) == b
    ensures !HasBlock(Clear(b)) && Filter(Clear(b)) == Clear(b) && |Clear(b)| <= |b|
  {
    hide Filter, Find, Removable, BlockEnd, StartsWith;
    if Find(b, CMT, 0) < 0 {
      EmptyText();
    } else {
      var p, h, s := MarkedParts(b);
      assert b == (p + h) + s;
      BlockEndShift(p + h, s);
      ClearedIsFiltered(p, h, s);
    }
  }

  lemma ClearedIsFiltered(p: string, h: string, s: string)
    requires Closed(p) && IsBody(h) && StartsWith(s, CMT) && Filter(p + (h + s)) == p + (h + s)
    ensures Filter(s) == s
  {
    FilteredHalves(p + (h + s), p, h + s);
    if Removable(h) {
      HeldRemovableLine(h, s);
    } else {
      HeldLine(h, s);
      assert Filter(s) == (h + Filter(s))[|h|..] == (h + s)[|h|..] == s;
    }
  }

  // In every interleaving, a complete SMS block in the buffer has its wake-up pending; the buffer
  // is filtered and leaves room for its NUL.  Overflows and clears are included.
  lemma {:induction false} NoLostWakeup(steps: seq<Step>)
    ensures Inv(After(steps))
  {
    if steps != [] {
      var s, step := After(steps[..|steps| - 1]), steps[|steps| - 1];
      NoLostWakeup(steps[..|steps| - 1]);
      NextKeepsInv(s, step);
    }
  }

  lemma NextKeepsInv(s: System, step: Step)
    requires Inv(s)
    ensures Inv(Next(s, step))
  {
    hide Filter, HasBlock, Blocks, Clear;
    DrainKeepsBlocks(s.buf, "");
    ClearedHasNoBlock(Rest(s.buf));
    match step
    case Uart(chunk) =>
      FilterIdempotent(Accept(s.buf, chunk));
      AcceptFits(s.buf, chunk);
    case _ =>
  }

  // What is stored of a chunk leaves room for the NUL in 4096 bytes.  A chunk that fits is appended
  // whole; one that does not is appended to the text from the first mark on, as far as it fits.
  lemma AcceptFits(buf: string, chunk: string)
    requires |buf| < 4096
    ensures var r := Accept(buf, chunk);
            && |r| < 4096
            && (|buf| + |chunk| < 4096 ==> r == buf + chunk)
            && (|buf| + |chunk| >= 4096 ==>
                  var mark := Find(buf, "+CMT:", 0);
                  var kept := if mark < 0 then "" else buf[mark..];
                  r <= kept + chunk && (r == kept + chunk || |r| == 4095))
  {
  }

  // And no wake-up is for nothing: while the URC bit is set, a complete block is in the buffer.
  lemma {:induction false} NoSpuriousWakeup(steps: seq<Step>)
    ensures After(steps).urcBit ==> HasBlock(After(steps).buf)
  {
    if steps != [] {
      NoSpuriousWakeup(steps[..|steps| - 1]);
      NoLostWakeup(steps[..|steps| - 1]);
      NextWakesForBlock(After(steps[..|steps| - 1]), steps[|steps| - 1]);
    }
  }

  lemma NextWakesForBlock(s: System, step: Step)
    requires Inv(s) && (s.urcBit ==> HasBlock(s.buf))
    ensures var t := Next(s, step); t.urcBit ==> HasBlock(t.buf)
  {
    hide Filter, HasBlock, Blocks, Rest, Clear, SaysOk, SaysError, Find;
    if step.Uart? {
      if s.urcBit {
        BlockStaysStored(s.buf, step.chunk);
      }
    } else {
      NothingLeft(s.buf);
    }
  }

  // A drain leaves nothing complete, before or after a clear.
  lemma NothingLeft(b: string)
    ensures !HasBlock(Rest(b))
  {
  }

  lemma BlockStays(b: string, c: string)
    requires Filter(b) == b && HasBlock(b)
    ensures HasBlock(Filter(b + c))
  {
    hide *;
    var p, x := FirstBlock(b);
    BlockHeadExtend(p, x);
    FilteredHalves(b, p, x);
    assert b + c == p + (x + c);
    FilterSplit(p, x + c);
    BlockHeadExtend(p, Filter(x + c));
  }

  // A complete block survives whatever is stored behind it, and the making of room.
  lemma BlockStaysStored(b: string, chunk: string)
    requires Filter(b) == b && HasBlock(b)
    ensures HasBlock(Received(b, chunk))
  {
    hide Filter, HasBlock, Clear, Find;
    if chunk != "" {
      ClearKeepsBlock(b);
      var kept := if |b| + |chunk| >= BUF_SIZE then Clear(b) else b;
      BlockStays(kept, chunk);
      if |kept| + |chunk| >= BUF_SIZE > |kept| {
        BlockStays(kept, chunk[..BUF_SIZE - 1 - |kept|]);
      }
    }
  }

  lemma ClearKeepsBlock(b: string)
    requires Filter(b) == b && HasBlock(b)
    ensures HasBlock(Clear(b)) && Filter(Clear(b)) == Clear(b)
  {
    hide Filter, Find, Removable, BlockEnd, StartsWith;
    assert Find(b, CMT, 0) >= 0 by { BlockHasMark(b); }
    var p, h, s := MarkedParts(b);
    assert b == (p + h) + s;
    BlockEndShift(p + h, s);
    ClearedIsFiltered(p, h, s);
  }

  lemma BlockHasMark(b: string)
    requires HasBlock(b)
    ensures Find(b, CMT, 0) >= 0
  {
  }

  // ---------------------------------------------------------------- delivery

  // For every continuation of the stream, what was handed over and what the buffer will still
  // yield are together the blocks of the filtered whole stream.
  lemma {:induction false} RunDelivers(steps: seq<Step>, c: string)
    requires Undisturbed(steps)
    ensures var s := After(steps); s.handed + Blocks(Filter(s.buf + c)) == Blocks(Filter(s.stream + c))
    decreases |steps|
  {
    if steps == [] {
      assert INIT.buf + c == INIT.stream + c;
    } else {
      var before := steps[..|steps| - 1];
      var s, step := After(before), steps[|steps| - 1];
      NoLostWakeup(before);
      if step.Uart? {
        RunDelivers(before, step.chunk + c);
        if |s.buf| + |step.chunk| < BUF_SIZE {
          UartDelivers(s, step.chunk, c);
        } else {
          OverflowDelivers(s, step.chunk, c);
        }
      } else {
        RunDelivers(before, c);
        TaskDelivers(s, step, c);
      }
    }
  }

  lemma UartDelivers(s: System, chunk: string, c: string)
    requires Filter(s.buf) == s.buf && |s.buf| + |chunk| < BUF_SIZE
    ensures Filter(Next(s, Uart(chunk)).buf + c) == Filter(s.buf + (chunk + c))
    ensures Next(s, Uart(chunk)).stream + c == s.stream + (chunk + c)
  {
    hide Filter;
    FilterAppend(s.buf + chunk, c);
    assert chunk == "" ==> chunk + c == c;
    assert s.buf + chunk + c == s.buf + (chunk + c);
  }

  // Room made by a safe clear costs no delivery.
  lemma OverflowDelivers(s: System, chunk: string, c: string)
    requires Filter(s.buf) == s.buf && ClearIsSafe(s.buf)
    requires |Clear(s.buf)| + |chunk| < BUF_SIZE <= |s.buf| + |chunk| && |s.buf| < BUF_SIZE
    ensures var t := Next(s, Uart(chunk));
            && t.handed == s.handed && t.stream + c == s.stream + (chunk + c)
            && Blocks(Filter(t.buf + c)) == Blocks(Filter(s.buf + (chunk + c)))
  {
    hide Filter, Blocks, ClearIsSafe, Clear, HasBlock, SaysOk, SaysError;
    assert chunk != "";
    ClearHarmless(s.buf, chunk + c);
    FilterAppend(Clear(s.buf) + chunk, c);
    assert Clear(s.buf) + chunk + c == Clear(s.buf) + (chunk + c);
    assert s.stream + chunk + c == s.stream + (chunk + c);
  }

  lemma TaskDelivers(s: System, step: Step, c: string)
    requires Filter(s.buf) == s.buf && !step.Uart? && StepUndisturbed(s, step)
    ensures var t := Next(s, step);
            t.stream == s.stream &&
            t.handed + Blocks(Filter(t.buf + c)) == s.handed + Blocks(Filter(s.buf + c))
  {
    hide Filter, Blocks, Rest, Clear, HasBlock, ClearIsSafe;
    DrainKeepsBlocks(s.buf, c);
    var t := Next(s, step);
    if step.OpenCommand? || step.CloseCommand? {
      if t != s {
        ClearHarmless(Rest(s.buf), c);
      }
    }
    assert s.handed + (Blocks(s.buf) + Blocks(Filter(Rest(s.buf) + c)))
        == (s.handed + Blocks(s.buf)) + Blocks(Filter(Rest(s.buf) + c));
  }

  // Neither the chunking nor the interleaving of the tasks changes what is delivered.
  lemma ChunkingIndependence(steps: seq<Step>)
    requires Undisturbed(steps)
    ensures var s := After(steps); s.handed + Blocks(s.buf) == Blocks(Filter(s.stream))
  {
    var s := After(steps);
    NoLostWakeup(steps);
    RunDelivers(steps, "");
    assert s.buf + "" == s.buf && s.stream + "" == s.stream;
  }

  lemma RunExtends(steps: seq<Step>, step: Step)
    ensures After(steps + [step]) == Next(After(steps), step)
  {
    assert (steps + [step])[..|steps|] == steps;
  }

  // Chunks arriving one after the other.
  function Uarts(chunks: seq<string>): seq<Step> {
    seq(|chunks|, i requires 0 <= i < |chunks| => Uart(chunks[i]))
  }

  lemma UartsSnoc(chunks: seq<string>, chunk: string)
    ensures Uarts(chunks + [chunk]) == Uarts(chunks) + [Uart(chunk)]
  {
  }

  lemma NoUarts()
    ensures Uarts([]) == []
  {
  }

  // They leave the AT task where it is.
  lemma {:induction false} UartsKeepPc(steps: seq<Step>, chunks: seq<string>)
    ensures After(steps + Uarts(chunks)).pc == After(steps).pc
    decreases |chunks|
  {
    hide *;
    if chunks == [] {
      NoUarts();
      assert steps + [] == steps;
    } else {
      var n := |chunks| - 1;
      var before := steps + Uarts(chunks[..n]);
      UartsKeepPc(steps, chunks[..n]);
      LastSplit(chunks);
      UartsSnoc(chunks[..n], chunks[n]);
      Assoc(steps, Uarts(chunks[..n]), [Uart(chunks[n])]);
      RunExtends(before, Uart(chunks[n]));
      UartKeepsPc(After(before), chunks[n]);
    }
  }

  lemma UartKeepsPc(s: System, chunk: string)
    ensures Next(s, Uart(chunk)).pc == s.pc
  {
    hide Received, HasBlock, SaysOk, SaysError;
  }

  // The state once chunks have arrived.
  function Heard(s: System, chunks: seq<string>): System
    decreases |chunks|
  {
    if chunks == [] then s else Heard(Next(s, Uart(chunks[0])), chunks[1..])
  }

  lemma HeardStep(s: System, chunks: seq<string>)
    requires chunks != []
    ensures Heard(s, chunks) == Heard(Next(s, Uart(chunks[0])), chunks[1..])
  {
  }

  lemma HeardNothing(s: System)
    ensures Heard(s, []) == s
  {
  }

  lemma {:induction false} HeardAfter(steps: seq<Step>, chunks: seq<string>)
    ensures After(steps + Uarts(chunks)) == Heard(After(steps), chunks)
    decreases |chunks|
  {
    hide *;
    if chunks == [] {
      NoUarts();
      HeardNothing(After(steps));
      assert steps + [] == steps;
    } else {
      HeardStep(After(steps), chunks);
      RunExtends(steps, Uart(chunks[0]));
      HeardAfter(steps + [Uart(chunks[0])], chunks[1..]);
      UartsCons(chunks);
      Assoc(steps, [Uart(chunks[0])], Uarts(chunks[1..]));
    }
  }

  lemma UartsCons(chunks: seq<string>)
    requires chunks != []
    ensures Uarts(chunks) == [Uart(chunks[0])] + Uarts(chunks[1..])
  {
  }

  // Chunks that fit change the text to that of the filtered whole, however it is cut.
  lemma {:induction false} HeardText(s: System, chunks: seq<string>)
    requires Filter(s.buf) == s.buf && |s.buf| + |Flatten(chunks)| < BUF_SIZE
    ensures Heard(s, chunks).buf == Filter(s.buf + Flatten(chunks))
    decreases |chunks|
  {
    hide Filter, FlatMap, Heard;
    if chunks == [] {
      HeardNothing(s);
      FlatMapNil(Same<char>);
      assert s.buf + [] == s.buf;
    } else {
      var chunk, more := chunks[0], chunks[1..];
      assert chunks == [chunk] + more;
      FlattenCons(chunk, more);
      UartDelivers(s, chunk, Flatten(more));
      ChunkFits(s, chunk);
      HeardStep(s, chunks);
      HeardText(Next(s, Uart(chunk)), more);
    }
  }

  lemma ChunkFits(s: System, chunk: string)
    requires Filter(s.buf) == s.buf && |s.buf| + |chunk| < BUF_SIZE
    ensures var t := Next(s, Uart(chunk));
            t.buf == Filter(s.buf + chunk) && Filter(t.buf) == t.buf && |t.buf| <= |s.buf| + |chunk|
  {
    assert chunk == "" ==> s.buf + chunk == s.buf;
    FilterIdempotent(s.buf + chunk);
    var r := Filter(s.buf + chunk);
    assert |r| <= |s.buf + chunk|;
    hide Filter, HasBlock, SaysOk, SaysError;
  }

  // An idle AT task with a clear event bit has handed over all that is complete.
  lemma QuietMeansDelivered(steps: seq<Step>)
    requires Undisturbed(steps) && After(steps).pc == Idle && !After(steps).urcBit
    ensures After(steps).handed == Blocks(Filter(After(steps).stream)) && !HasBlock(After(steps).buf)
  {
    hide Filter;
    var s := After(steps);
    NoLostWakeup(steps);
    ChunkingIndependence(steps);
    assert s.handed + Blocks(s.buf) == s.handed;
  }

  // An undisturbed run in which an idle task with a block pending waits and, after what arrives
  // meanwhile, drains.
  predicate WaitsAndDrains(all: seq<Step>, steps: seq<Step>, chunks: seq<string>) {
    && After(steps).pc == Idle && HasBlock(After(steps).buf)
    && all == steps + [Wake] + Uarts(chunks) + [Drain] && Undisturbed(all)
  }

  // A pending block wakes the AT task, and the drain that follows, whatever arrives in between,
  // leaves nothing complete: every block received so far has been handed over.
  lemma WakeupDelivers(all: seq<Step>, steps: seq<Step>, chunks: seq<string>)
    requires WaitsAndDrains(all, steps, chunks)
    ensures After(steps + [Wake]).pc == Woken && !After(steps + [Wake]).urcBit
    ensures var t := After(all);
            t.handed == Blocks(Filter(t.stream)) && !HasBlock(t.buf) && !t.urcBit && t.pc == Idle
  {
    var woken := steps + [Wake];
    NoLostWakeup(steps);
    RunExtends(steps, Wake);
    UartsKeepPc(woken, chunks);
    DrainQuiets(woken + Uarts(chunks));
    QuietMeansDelivered(all);
  }

  lemma DrainQuiets(steps: seq<Step>)
    requires After(steps).pc != InCommand
    ensures var t := After(steps + [Drain]); !HasBlock(t.buf) && !t.urcBit && t.pc == Idle
  {
    hide After, HasBlock, Blocks;
    RunExtends(steps, Drain);
  }

  // ---------------------------------------------------------------- modem output, line by line

  datatype Item =
    | Noise(line: string)
    | Report(header: string, between: seq<string>, content: string)

  function LineText(line: string): string {
    line + CRLF
  }

  function LinesText(lines: seq<string>): string {
    FlatMap(LineText, lines)
  }

  function ItemText(item: Item): string {
    match item
    case Noise(line) => line + CRLF
    case Report(header, between, content) => header + CRLF + (LinesText(between) + (content + CRLF))
  }

  function ModemOutput(items: seq<Item>): string {
    FlatMap(ItemText, items)
  }

  predicate IsHeader(header: string) {
    StartsWith(header, "+CMT:") && IsBody(header)
  }

  // A report by the modem that is neither an SMS nor an error.
  predicate Unrelated(line: string) {
    || StartsWith(line, "^")
    || (StartsWith(line, "+") && !StartsWith(line, "+CMT:")
        && !StartsWith(line, "+CME ERROR:") && !StartsWith(line, "+CMS ERROR:"))
  }

  // The filter's test finds exactly those.
  lemma UnrelatedRemoved(line: string)
    ensures Removable(line) <==> Unrelated(line)
  {
    assert line != "" ==> line[..1] == [line[0]];
  }

  // Line by line, in so many words: what the filter deletes, and what it keeps.
  lemma LinesFiltered(body: string, x: string)
    requires IsBody(body)
    ensures Filter("^" + body + "\r\n" + x) == Filter(x)
    ensures Filter("+" + body + "\r\n" + x) ==
            if StartsWith(body, "CMT:") || StartsWith(body, "CME ERROR:") || StartsWith(body, "CMS ERROR:") then
              "+" + body + "\r\n" + Filter(x)
            else Filter(x)
    ensures body == "" || body[0] !in "+^" ==> Filter(body + "\r\n" + x) == body + "\r\n" + Filter(x)
  {
    hide Filter, Find, IsBody, Removable, StartsWith;
    CharBody('^', body);
    CharBody('+', body);
    KeptLine("^" + body, x);
    KeptLine("+" + body, x);
    KeptLine(body, x);
    BodiesRemoved(body);
  }

  lemma BodiesRemoved(body: string)
    ensures Removable("^" + body)
    ensures Removable("+" + body) <==>
            !StartsWith(body, "CMT:") && !StartsWith(body, "CME ERROR:") && !StartsWith(body, "CMS ERROR:")
    ensures body == "" || body[0] !in "+^" ==> !Removable(body)
  {
    StartsAfter('+', body, "CMT:");
    StartsAfter('+', body, "CME ERROR:");
    StartsAfter('+', body, "CMS ERROR:");
    assert ("^" + body)[0] == '^' && ("+" + body)[0] == '+';
    hide StartsWith;
    NoMark(body);
  }

  lemma NoMark(body: string)
    ensures !StartsWith("^" + body, CMT) && !StartsWith("^" + body, CME_ERROR) && !StartsWith("^" + body, CMS_ERROR)
  {
    Unlike("^" + body, CMT, 0);
    Unlike("^" + body, CME_ERROR, 0);
    Unlike("^" + body, CMS_ERROR, 0);
  }

  lemma StartsAfter(c: char, body: string, pat: string)
    ensures StartsWith([c] + body, [c] + pat) == StartsWith(body, pat)
  {
    if |pat| <= |body| {
      assert ([c] + body)[..1 + |pat|] == [c] + body[..|pat|];
      assert ([c] + body[..|pat|])[1..] == body[..|pat|] && ([c] + pat)[1..] == pat;
    }
  }

  lemma CharBody(c: char, body: string)
    requires IsBody(body) && c != '\r'
    ensures IsBody([c] + body)
  {
    hide Find;
    FindFirst(body, CRLF, 0);
    forall j | 0 <= j ensures !At([c] + body, CRLF, j) {
      if j == 0 {
        AtChar([c] + body, CRLF, 0, 0);
      } else {
        AtShift([c], body, CRLF, j - 1);
      }
    }
    FindNone([c] + body, CRLF, 0);
  }

  // Lines of a modem: unrelated URCs, lines without a mark, and SMS reports that only unrelated
  // URCs may cut in two.
  predicate Expected(item: Item) {
    match item
    case Noise(line) => IsBody(line) && (Unrelated(line) || Find(line, "+CMT:", 0) < 0)
    case Report(header, between, content) =>
      && IsHeader(header) && IsBody(content) && !Unrelated(content)
      && forall u :: u in between ==> IsBody(u) && Unrelated(u)
  }

  function Block(header: string, content: string): string {
    header + CRLF + content + CRLF
  }

  function Reports(items: seq<Item>): seq<string> {
    FlatMap(ItemReports, items)
  }

  function ItemReports(item: Item): seq<string> {
    match item
    case Noise(_) => []
    case Report(header, _, content) => [Block(header, content)]
  }

  // The first line that the filter keeps.
  function FirstKept(lines: seq<string>, content: string): string {
    if lines == [] then content
    else if Removable(lines[0]) then FirstKept(lines[1..], content)
    else lines[0]
  }

  lemma RemovableBody(body: string)
    requires IsBody(body)
    ensures Removable(body + CRLF) == Removable(body)
  {
    StartsWithBody(body, CMT);
    StartsWithBody(body, CME_ERROR);
    StartsWithBody(body, CMS_ERROR);
  }

  lemma StartsWithBody(body: string, pat: string)
    requires '\r' !in pat
    ensures StartsWith(body + CRLF, pat) == StartsWith(body, pat)
  {
    var line := body + CRLF;
    if |pat| <= |body| {
      assert line[..|pat|] == body[..|pat|];
    } else if |pat| <= |line| {
      assert line[..|pat|][|body|] == '\r';
    }
  }

  lemma KeptLine(body: string, x: string)
    requires IsBody(body)
    ensures Filter(body + CRLF + x) == if Removable(body) then Filter(x) else body + CRLF + Filter(x)
  {
    RemovableBody(body);
    FilterBodyLine(body, x);
  }

  // Whatever lines follow a header, its block is the header and the first line the filter keeps.
  lemma {:induction false} FirstKeptLine(lines: seq<string>, content: string, x: string) returns (y: string)
    requires (forall u :: u in lines ==> IsBody(u)) && IsBody(content) && !Removable(content)
    ensures IsBody(FirstKept(lines, content))
    ensures Filter(LinesText(lines) + (content + CRLF + x)) == FirstKept(lines, content) + CRLF + y
    ensures (forall u :: u in lines ==> Removable(u)) ==> y == Filter(x)
    decreases |lines|
  {
    hide Filter, Removable, IsBody, FlatMap;
    if lines == [] {
      FlatMapNil(LineText);
      y := Filter(x);
      KeptLine(content, x);
      assert LinesText([]) + (content + CRLF + x) == content + CRLF + x;
    } else {
      var tail := LinesText(lines[1..]) + (content + CRLF + x);
      assert lines == [lines[0]] + lines[1..];
      FlatMapCons(LineText, lines[0], lines[1..]);
      assert LinesText(lines) + (content + CRLF + x) == lines[0] + CRLF + tail;
      KeptLine(lines[0], tail);
      if Removable(lines[0]) {
        y := FirstKeptLine(lines[1..], content, x);
      } else {
        y := Filter(tail);
      }
    }
  }

  // The block delivered for a header is the header and the first kept line after it.
  lemma ReportBecomesBlock(header: string, lines: seq<string>, content: string, x: string) returns (y: string)
    requires IsHeader(header) && IsBody(content) && !Removable(content)
    requires forall u :: u in lines ==> IsBody(u)
    ensures Blocks(Filter(header + CRLF + (LinesText(lines) + (content + CRLF + x)))) ==
            [Block(header, FirstKept(lines, content))] + Blocks(y)
    ensures (forall u :: u in lines ==> Removable(u)) ==> y == Filter(x)
  {
    hide Filter, Removable, Blocks, IsBlockHead, LinesText, FirstKept, StartsWith, IsBody;
    y := FirstKeptLine(lines, content, x);
    HeaderLine(header, LinesText(lines) + (content + CRLF + x));
    BlockAndRest(header, FirstKept(lines, content), y);
  }

  lemma HeaderLine(header: string, x: string)
    requires IsHeader(header)
    ensures Filter(header + CRLF + x) == header + CRLF + Filter(x)
  {
    hide Filter;
    HeaderNotRemovable(header);
    KeptLine(header, x);
  }

  lemma BlockAndRest(header: string, content: string, y: string)
    requires IsHeader(header) && IsBody(content)
    ensures Blocks(header + CRLF + (content + CRLF + y)) == [Block(header, content)] + Blocks(y)
  {
    hide Blocks, IsBlockHead, StartsWith, IsBody;
    ReportBlock(header, content);
    assert header + CRLF + (content + CRLF + y) == Block(header, content) + y;
    BlockHeadExtend(Block(header, content), y);
  }

  lemma HeaderNotRemovable(header: string)
    requires StartsWith(header, CMT)
    ensures !Removable(header)
  {
  }

  // A report reaches the parser intact exactly when the first kept line after its header is its
  // content: unrelated URCs may cut in, anything else (an empty line too) is taken for content.
  lemma ReportIntact(header: string, lines: seq<string>, content: string)
    requires IsHeader(header) && IsBody(content) && !Removable(content)
    requires forall u :: u in lines ==> IsBody(u)
    ensures var blocks := Blocks(Filter(header + CRLF + (LinesText(lines) + (content + CRLF))));
            && |blocks| > 0
            && (blocks[0] == Block(header, content) <==> FirstKept(lines, content) == content)
  {
    assert content + CRLF + "" == content + CRLF;
    var y := ReportBecomesBlock(header, lines, content, "");
    var kept := FirstKept(lines, content);
    var n := |header| + 2;
    if Block(header, kept) == Block(header, content) {
      assert kept == Block(header, kept)[n..|Block(header, kept)| - 2];
      assert content == Block(header, content)[n..|Block(header, content)| - 2];
    }
  }

  // An empty line after the header is its content, whatever the modem sends next.
  lemma EmptyLineTakenForContent(header: string, content: string)
    requires IsHeader(header) && IsBody(content) && !Removable(content)
    ensures var blocks := Blocks(Filter(header + CRLF + (LinesText([""]) + (content + CRLF))));
            |blocks| > 0 && blocks[0] == Block(header, "")
  {
    assert content + CRLF + "" == content + CRLF;
    var y := ReportBecomesBlock(header, [""], content, "");
    assert FirstKept([""], content) == "";
  }

  // Every header/content pair of an expected stream becomes one block, byte for byte, in order.
  lemma {:induction false} ItemsBecomeBlocks(items: seq<Item>)
    requires forall item :: item in items ==> Expected(item)
    ensures Blocks(Filter(ModemOutput(items))) == Reports(items)
    decreases |items|
  {
    hide Filter, Blocks, ItemText, ItemReports, FlatMap;
    if items == [] {
      NoBlocks("");
      FlatMapNil(ItemText);
      FlatMapNil(ItemReports);
    } else {
      assert items == [items[0]] + items[1..];
      FlatMapCons(ItemText, items[0], items[1..]);
      FlatMapCons(ItemReports, items[0], items[1..]);
      assert Expected(items[0]);
      ItemBecomesBlock(items[0], ModemOutput(items[1..]));
      ItemsBecomeBlocks(items[1..]);
    }
  }

  lemma NoBlocks(s: string)
    requires |s| < 5
    ensures Blocks(Filter(s)) == []
  {
    FindFirst(Filter(s), CMT, 0);
  }

  lemma ItemBecomesBlock(item: Item, x: string)
    requires Expected(item)
    ensures Blocks(Filter(ItemText(item) + x)) == ItemReports(item) + Blocks(Filter(x))
  {
    hide Filter, Blocks, Removable, Unrelated, IsBody, LinesText;
    match item
    case Noise(line) =>
      UnrelatedRemoved(line);
      NoiseAddsNothing(line, x);
    case Report(header, between, content) =>
      var tail := LinesText(between) + (content + CRLF + x);
      assert ItemText(item) + x == header + CRLF + tail;
      UnrelatedRemoved(content);
      forall u | u in between ensures Removable(u) {
        UnrelatedRemoved(u);
      }
      var y := ReportBecomesBlock(header, between, content, x);
      AllRemoved(between, content);
  }

  lemma {:induction false} AllRemoved(lines: seq<string>, content: string)
    requires forall u :: u in lines ==> Removable(u)
    ensures FirstKept(lines, content) == content
  {
    if lines != [] {
      AllRemoved(lines[1..], content);
    }
  }

  lemma NoiseAddsNothing(line: string, x: string)
    requires IsBody(line) && (Removable(line) || Find(line, CMT, 0) < 0)
    ensures Blocks(Filter(line + CRLF + x)) == Blocks(Filter(x))
  {
    hide Filter, Blocks, Removable;
    KeptLine(line, x);
    if !Removable(line) {
      UnmarkedLine(line);
      UnmarkedLines(line + CRLF, Filter(x));
    }
  }

  lemma UnmarkedLine(line: string)
    requires Find(line, CMT, 0) < 0
    ensures Closed(line + CRLF) && Find(line + CRLF, CMT, 0) < 0
  {
    FindFirst(line, CMT, 0);
    forall j | 0 <= j ensures !At(line + CRLF, CMT, j) {
      if j + 5 <= |line| {
        AtExtend(line, CRLF, CMT, j);
      } else if j <= |line| {
        AtChar(line + CRLF, CMT, j, |line| - j);
      }
    }
    FindNone(line + CRLF, CMT, 0);
  }

  // No interleaving corruption, end to end: chunks, task switches and URCs notwithstanding.
  lemma EveryReportDelivered(steps: seq<Step>, items: seq<Item>)
    requires Undisturbed(steps) && After(steps).stream == ModemOutput(items)
    requires forall item :: item in items ==> Expected(item)
    ensures var s := After(steps); s.handed + Blocks(s.buf) == Reports(items)
  {
    ChunkingIndependence(steps);
    ItemsBecomeBlocks(items);
  }
}
