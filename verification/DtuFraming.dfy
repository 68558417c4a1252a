// dtu_read_line: lines cut out of a byte stream with one buffer of fixed size.
module DtuFraming {
  import opened Text
  import opened CStrings
  import opened Sequences

  const LINE_BUF_SIZE := 4608
  const NL := "\n"

  // ---------------------------------------------------------------- the newline split

  // The lines of a text without their newlines, and what follows the last newline.
  function Lines(s: string): seq<string>
    decreases |s|
  {
    var k := Find(s, NL, 0);
    if k < 0 then [] else [s[..k]] + Lines(s[k + 1..])
  }

  function Tail(s: string): string
    decreases |s|
  {
    var k := Find(s, NL, 0);
    if k < 0 then s else Tail(s[k + 1..])
  }

  lemma LinesStep(s: string, x: string)
    requires Find(s, NL, 0) >= 0
    ensures var k := Find(s, NL, 0);
            && Lines(s + x) == [s[..k]] + Lines(s[k + 1..] + x)
            && Tail(s + x) == Tail(s[k + 1..] + x)
  {
    hide Find;
    var k := Find(s, NL, 0);
    FindExtend(s, x, NL, 0);
    assert (s + x)[..k] == s[..k] && (s + x)[k + 1..] == s[k + 1..] + x;
  }

  lemma NoLineYet(s: string)
    requires Find(s, NL, 0) < 0
    ensures Lines(s) == [] && Tail(s) == s
  {
  }

  // The first line off a text.
  lemma FirstLine(s: string) returns (line: string, rest: string)
    requires Find(s, NL, 0) >= 0
    ensures |rest| < |s| && line == s[..Find(s, NL, 0)] && rest == s[Find(s, NL, 0) + 1..]
    ensures Lines(s) == [line] + Lines(rest) && Tail(s) == Tail(rest)
  {
    var k := Find(s, NL, 0);
    line, rest := s[..k], s[k + 1..];
  }

  // A text may be split at any point: the split goes on from the tail of the first part.
  lemma {:induction false} LinesAppend(a: string, b: string)
    ensures Lines(a + b) == Lines(a) + Lines(Tail(a) + b)
    ensures Tail(a + b) == Tail(Tail(a) + b)
    decreases |a|
  {
    hide Lines, Tail, Find;
    if Find(a, NL, 0) < 0 {
      NoLineYet(a);
    } else {
      var line, rest := FirstLine(a);
      LinesStep(a, b);
      LinesAppend(rest, b);
      assert [line] + (Lines(rest) + Lines(Tail(rest) + b)) == ([line] + Lines(rest)) + Lines(Tail(rest) + b);
    }
  }

  lemma {:induction false} TailHasNoNewline(s: string)
    ensures Find(Tail(s), NL, 0) < 0 && |Tail(s)| <= |s|
    ensures Lines(Tail(s)) == [] && Tail(Tail(s)) == Tail(s)
    decreases |s|
  {
    hide Lines, Tail, Find;
    if Find(s, NL, 0) < 0 {
      NoLineYet(s);
    } else {
      var line, rest := FirstLine(s);
      TailHasNoNewline(rest);
    }
  }

  predicate Short(body: string) {
    |body| < LINE_BUF_SIZE
  }

  // Every line and the tail leave room for one more byte in the buffer.
  predicate FitsBuffer(s: string) {
    (forall body :: body in Lines(s) ==> Short(body)) && Short(Tail(s))
  }

  lemma {:induction false} LinesShort(s: string)
    requires |s| <= LINE_BUF_SIZE
    ensures forall body :: body in Lines(s) ==> Short(body)
    decreases |s|
  {
    if Find(s, NL, 0) >= 0 {
      LinesShort(s[Find(s, NL, 0) + 1..]);
    }
  }

  // A tail is the beginning of a line or of the tail of every longer text.
  lemma TailFits(s: string, x: string)
    requires FitsBuffer(s + x)
    ensures Short(Tail(s))
  {
    LinesAppend(s, x);
    TailHasNoNewline(s);
    var t := Tail(s);
    FindFirst(t, NL, 0);
    FindFirst(t + x, NL, 0);
    var k := Find(t + x, NL, 0);
    forall j: nat | j < |t| ensures !At(t + x, NL, j) {
      AtExtend(t, x, NL, j);
    }
    if k >= 0 {
      assert k >= |t|;
      assert Lines(t + x)[0] == (t + x)[..k];
      assert Lines(t + x)[0] in Lines(s + x);
    }
  }

  // ---------------------------------------------------------------- the reader

  datatype Reader = Reader(
    acc: string,             // s_rx_acc
    stream: string,          // every byte read
    bodies: seq<string>,     // lines cut out so far, without their newlines
    dropped: nat)            // bytes thrown away

  datatype Step = Read(chunk: string) | Take

  const START := Reader("", "", [], 0)

  // A read happens when no line is complete; a full buffer is thrown away first.
  function Next(r: Reader, step: Step): Reader {
    match step
    case Read(chunk) =>
      if Find(r.acc, NL, 0) >= 0 then r
      else
        var full := |r.acc| >= LINE_BUF_SIZE;
        var kept := if full then "" else r.acc;
        if |kept| + |chunk| > LINE_BUF_SIZE then r
        else Reader(kept + chunk, r.stream + chunk, r.bodies, r.dropped + if full then |r.acc| else 0)
    case Take =>
      var k := Find(r.acc, NL, 0);
      if k < 0 then r else r.(acc := r.acc[k + 1..], bodies := r.bodies + [r.acc[..k]])
  }

  function After(steps: seq<Step>): Reader {
    if steps == [] then START else Next(After(steps[..|steps| - 1]), steps[|steps| - 1])
  }

  predicate Inv(r: Reader) {
    && |r.acc| <= LINE_BUF_SIZE
    && (forall body :: body in r.bodies ==> Short(body))
    && (r.dropped == 0 ==> r.bodies + Lines(r.acc) == Lines(r.stream) && Tail(r.acc) == Tail(r.stream))
  }

  lemma ReadKeepsInv(r: Reader, chunk: string)
    requires Inv(r)
    ensures Inv(Next(r, Read(chunk)))
  {
    var t := Next(r, Read(chunk));
    if t != r && t.dropped == 0 {
      NoLineYet(r.acc);
      hide Lines, Tail, Find;
      LinesAppend(r.stream, chunk);
      assert r.bodies + [] == r.bodies;
    }
  }

  lemma TakeKeepsInv(r: Reader)
    requires Inv(r)
    ensures Inv(Next(r, Take))
  {
    var k := Find(r.acc, NL, 0);
    if k >= 0 {
      LinesStep(r.acc, "");
      assert r.acc + "" == r.acc && r.acc[k + 1..] + "" == r.acc[k + 1..];
      hide Lines, Tail, Find;
      assert (r.bodies + [r.acc[..k]]) + Lines(r.acc[k + 1..]) == r.bodies + ([r.acc[..k]] + Lines(r.acc[k + 1..]));
    }
  }

  lemma {:induction false} RunKeepsInv(steps: seq<Step>)
    ensures Inv(After(steps))
  {
    if steps != [] {
      hide Inv, Next;
      RunKeepsInv(steps[..|steps| - 1]);
      ReadKeepsInv(After(steps[..|steps| - 1]), if steps[|steps| - 1].Read? then steps[|steps| - 1].chunk else "");
      TakeKeepsInv(After(steps[..|steps| - 1]));
    } else {
      StartInv();
    }
  }

  lemma StartInv()
    ensures Inv(START)
  {
  }

  // Chunks and timeouts do not matter: while nothing was dropped, the lines cut out and those
  // still in the buffer are the newline split of everything read.
  lemma FramingIndependence(steps: seq<Step>)
    requires After(steps).dropped == 0
    ensures var r := After(steps); r.bodies + Lines(r.acc) == Lines(r.stream) && Tail(r.acc) == Tail(r.stream)
  {
    RunKeepsInv(steps);
  }

  // Nothing is ever dropped from a stream whose lines and tail fit.
  lemma {:induction false} NothingDropped(steps: seq<Step>, rest: string)
    requires FitsBuffer(After(steps).stream + rest)
    ensures After(steps).dropped == 0
    decreases |steps|
  {
    if steps != [] {
      var before, step := steps[..|steps| - 1], steps[|steps| - 1];
      var r, t := After(before), After(steps);
      RunKeepsInv(before);
      if t.stream == r.stream {
        NothingDropped(before, rest);
      } else {
        assert r.stream + (step.chunk + rest) == t.stream + rest;
        NothingDropped(before, step.chunk + rest);
        TailFits(r.stream, step.chunk + rest);
        NoLineYet(r.acc);
      }
      if step.Read? {
        ReadDrops(r, step.chunk, rest);
      }
    }
  }

  lemma ReadDrops(r: Reader, chunk: string, rest: string)
    requires Inv(r) && r.dropped == 0
    requires FitsBuffer(Next(r, Read(chunk)).stream + rest)
    ensures Next(r, Read(chunk)).dropped == 0
  {
    if Find(r.acc, NL, 0) < 0 {
      NoLineYet(r.acc);
      var t := Next(r, Read(chunk));
      if t.stream == r.stream {
        TailFits(r.stream, rest);
      } else {
        assert r.stream + (chunk + rest) == t.stream + rest;
        TailFits(r.stream, chunk + rest);
      }
    }
  }

  // For a stream that ends with a newline, a run drops bytes exactly when some line is too long.
  lemma DropsExactlyLongLines(steps: seq<Step>)
    requires Tail(After(steps).stream) == ""
    ensures After(steps).dropped == 0 <==> forall body :: body in Lines(After(steps).stream) ==> Short(body)
  {
    var r := After(steps);
    RunKeepsInv(steps);
    if r.dropped == 0 {
      LinesShort(r.acc);
      forall body | body in Lines(r.stream) ensures Short(body) {
        assert body in r.bodies + Lines(r.acc);
      }
    } else if forall body :: body in Lines(r.stream) ==> Short(body) {
      assert r.stream + "" == r.stream;
      NothingDropped(steps, "");
    }
  }

  lemma RunExtends(steps: seq<Step>, step: Step)
    ensures After(steps + [step]) == Next(After(steps), step)
  {
    assert (steps + [step])[..|steps|] == steps;
  }

  // ---------------------------------------------------------------- the buffer

  // One turn of the read loop: the clock, and what the UART then yields (possibly nothing).
  datatype Poll = Poll(now: int, bytes: string)

  // A line without the '\r' before its newline.
  function Chomped(body: string): (r: string)
    ensures r <= body
  {
    if body != "" && body[|body| - 1] == '\r' then body[..|body| - 1] else body
  }

  // One carriage return at the end of a line is cut off, no other.
  lemma ChompsOne(line: string)
    ensures Chomped(line + "\r") == line
    ensures line == "" || line[|line| - 1] != '\r' ==> Chomped(line) == line
  {
  }

  // What a read takes of the bytes at hand: as many as there is room for.
  function Fitting(r: Reader, bytes: string): string {
    var space := LINE_BUF_SIZE - if |r.acc| >= LINE_BUF_SIZE then 0 else |r.acc|;
    if |bytes| > space then bytes[..space] else bytes
  }

  // The steps of one call: reads until a line is complete, which is taken, or the deadline.
  function Served(r: Reader, polls: seq<Poll>, deadline: int): seq<Step>
    decreases |polls|
  {
    if Find(r.acc, NL, 0) >= 0 then [Take]
    else if polls == [] || polls[0].now >= deadline then []
    else
      var step := Read(Fitting(r, polls[0].bytes));
      [step] + Served(Next(r, step), polls[1..], deadline)
  }

  // The line came before the deadline.
  predicate InTime(r: Reader, polls: seq<Poll>, deadline: int)
    decreases |polls|
  {
    || Find(r.acc, NL, 0) >= 0
    || (polls != [] && polls[0].now < deadline
        && InTime(Next(r, Read(Fitting(r, polls[0].bytes))), polls[1..], deadline))
  }

  // What the reads of one call take, read by read, until a line is complete or the deadline: all
  // that is at hand if it fits in the 4608 bytes, and otherwise as much as fills them.  A buffer
  // that is full without a line is empty again.
  predicate TakenOff(acc: string, polls: seq<Poll>, deadline: int, taken: seq<string>)
    decreases |polls|
  {
    if '\n' in acc || polls == [] || polls[0].now >= deadline then taken == []
    else
      var held := if |acc| < 4608 then acc else "";
      var bytes := polls[0].bytes;
      && taken != [] && taken[0] <= bytes
      && (taken[0] == bytes || |held + taken[0]| == 4608)
      && |held + taken[0]| <= 4608
      && TakenOff(held + taken[0], polls[1..], deadline, taken[1..])
  }

  lemma HasNewline(s: string)
    ensures Find(s, NL, 0) >= 0 <==> '\n' in s
  {
    hide Find;
    FindFirst(s, NL, 0);
    if Find(s, NL, 0) >= 0 {
      AtChar(s, NL, Find(s, NL, 0), 0);
    }
    if '\n' in s {
      var i :| 0 <= i < |s| && s[i] == '\n';
      assert s[i..i + 1] == NL;
      assert At(s, NL, i);
    }
  }

  // After the steps of a call: the stream has grown by exactly what was taken off the polls.
  lemma {:induction false} ServedTakes(steps: seq<Step>, polls: seq<Poll>, deadline: int) returns (taken: seq<string>)
    ensures var r, t := After(steps), After(steps + Served(After(steps), polls, deadline));
            TakenOff(r.acc, polls, deadline, taken) && t.stream == r.stream + Flatten(taken)
    ensures InTime(After(steps), polls, deadline) <==> '\n' in After(steps).acc || '\n' in Flatten(taken)
    decreases |polls|
  {
    hide Find, After, FlatMap;
    var r := After(steps);
    HasNewline(r.acc);
    RunKeepsInv(steps);
    if Find(r.acc, NL, 0) >= 0 {
      taken := [];
      FlatMapNil(Same<char>);
      RunExtends(steps, Take);
      assert r.stream + [] == r.stream;
    } else if polls == [] || polls[0].now >= deadline {
      taken := [];
      FlatMapNil(Same<char>);
      assert steps + [] == steps && r.stream + [] == r.stream;
    } else {
      var bytes := Fitting(r, polls[0].bytes);
      var step := Read(bytes);
      RunExtends(steps, step);
      var more := ServedTakes(steps + [step], polls[1..], deadline);
      taken := [bytes] + more;
      FlattenCons(bytes, more);
      Assoc(steps, [step], Served(Next(r, step), polls[1..], deadline));
      Assoc(r.stream, bytes, Flatten(more));
      HasNewline(Next(r, step).acc);
    }
  }

  // The bytes of the polls.
  function Given(polls: seq<Poll>): string {
    if polls == [] then "" else polls[0].bytes + Given(polls[1..])
  }

  // When they fit with what is held, nothing of those that were read is left out.
  lemma {:induction false} TakesAllThatFits(acc: string, polls: seq<Poll>, deadline: int, taken: seq<string>)
    requires TakenOff(acc, polls, deadline, taken) && |acc| + |Given(polls)| <= 4608
    ensures |taken| <= |polls| && Flatten(taken) == Given(polls[..|taken|])
    decreases |polls|
  {
    hide FlatMap;
    if taken == [] {
      FlatMapNil(Same<char>);
    } else {
      TakesAllThatFits((if |acc| < 4608 then acc else "") + taken[0], polls[1..], deadline, taken[1..]);
      assert taken == [taken[0]] + taken[1..];
      FlattenCons(taken[0], taken[1..]);
      assert polls[..|taken|][1..] == polls[1..][..|taken| - 1];
    }
  }

  lemma ServedStep(r: Reader, polls: seq<Poll>, deadline: int)
    requires polls != []
    ensures var step := Read(Fitting(r, polls[0].bytes));
            && Served(r, polls, deadline) ==
                 (if Find(r.acc, NL, 0) >= 0 then [Take]
                  else if polls[0].now >= deadline then []
                  else [step] + Served(Next(r, step), polls[1..], deadline))
            && InTime(r, polls, deadline) ==
                 (|| Find(r.acc, NL, 0) >= 0
                  || (polls[0].now < deadline && InTime(Next(r, step), polls[1..], deadline)))
  {
  }

  class LineReader {
    const acc: array<char>
    var len: nat

    ghost var stream: string
    ghost var bodies: seq<string>
    ghost var dropped: nat
    ghost var steps: seq<Step>

    ghost predicate BufferOk()
      reads `len
    {
      acc.Length == LINE_BUF_SIZE && len <= LINE_BUF_SIZE
    }

    ghost function Abs(): Reader
      requires BufferOk()
      reads this, acc
    {
      Reader(acc[..len], stream, bodies, dropped)
    }

    ghost predicate Valid()
      reads this, acc
    {
      BufferOk() && Abs() == After(steps)
    }

    constructor ()
      ensures Valid() && steps == [] && fresh(acc)
    {
      acc := new char[LINE_BUF_SIZE];
      len, stream, bodies, dropped, steps := 0, "", [], 0, [];
    }

    // dtu_read_line, called with so much time before the deadline; the clock reaches it.
    method ReadLine(line: array<char>, polls: seq<Poll>, deadline: int) returns (got: bool, n: nat)
      requires Valid() && line.Length > 0 && line != acc
      requires polls != [] && polls[|polls| - 1].now >= deadline
      modifies this, acc, line
      ensures Valid() && steps == old(steps + Served(Abs(), polls, deadline))
      ensures got == InTime(old(Abs()), polls, deadline)
      ensures if got then |bodies| > 0 && bodies[..|bodies| - 1] == old(bodies) else bodies == old(bodies)
      ensures got ==>
                && n < line.Length && line[n] == NUL
                && line[..n] == CutTo(Chomped(bodies[|bodies| - 1]), line.Length)
      // what was read is what the polls gave, as far as it was read, and a line is found if and only
      // if a newline was held or read
      ensures exists taken ::
                && TakenOff(old(acc[..len]), polls, deadline, taken)
                && stream == old(stream) + Flatten(taken)
                && (got <==> '\n' in old(acc[..len]) || '\n' in Flatten(taken))
      // the full-size line buffer never cuts a line
      ensures got && line.Length >= LINE_BUF_SIZE ==> line[..n] == Chomped(bodies[|bodies| - 1])
    {
      hide After, Next, Find, Served, InTime, Chomped, CutTo, TakenOff, FlatMap;
      ghost var taken := ServedTakes(steps, polls, deadline);
      ghost var goal, intime := steps + Served(Abs(), polls, deadline), InTime(Abs(), polls, deadline);
      got, n := false, 0;
      var i := 0;
      assert polls[0..] == polls;
      while true
        invariant Valid() && i < |polls| && bodies == old(bodies)
        invariant steps + Served(Abs(), polls[i..], deadline) == goal
        invariant InTime(Abs(), polls[i..], deadline) == intime
        decreases |polls| - i
      {
        ServedStep(Abs(), polls[i..], deadline);
        var nl := Find(acc[..len], NL, 0);
        if nl >= 0 {
          n := TakeLine(nl, line);
          got := true;
          break;
        }
        if polls[i].now >= deadline {
          assert steps + [] == steps;
          break;
        }
        ghost var before, step := steps, Read(Fitting(Abs(), polls[i].bytes));
        RunExtends(steps, step);
        Fill(polls[i].bytes);
        assert polls[i..][1..] == polls[i + 1..];
        Assoc(before, [step], Served(Abs(), polls[i + 1..], deadline));
        i := i + 1;
      }
    }

    // A complete line is copied out and the rest moved to the front.
    method TakeLine(nl: nat, line: array<char>) returns (n: nat)
      requires Valid() && nl < len && Find(acc[..len], NL, 0) == nl
      requires line.Length > 0 && line != acc
      modifies `len, `bodies, `steps, acc, line
      ensures Valid() && steps == old(steps) + [Take] && bodies == old(bodies) + [old(acc[..nl])]
      ensures n < line.Length && line[n] == NUL && line[..n] == CutTo(Chomped(old(acc[..nl])), line.Length)
      ensures line.Length >= LINE_BUF_SIZE ==> line[..n] == Chomped(old(acc[..nl]))
    {
      hide After, Find;
      RunExtends(steps, Take);
      n := CopyLine(nl, line);
      ghost var text := acc[..len];
      assert text[..nl] == acc[..nl];
      bodies := bodies + [acc[..nl]];
      DropFront(nl + 1);
      steps := steps + [Take];
    }

    method CopyLine(nl: nat, line: array<char>) returns (n: nat)
      requires BufferOk() && nl < len && line.Length > 0 && line != acc
      modifies line
      ensures n < line.Length && line[n] == NUL && line[..n] == CutTo(Chomped(acc[..nl]), line.Length)
      ensures line.Length >= LINE_BUF_SIZE ==> line[..n] == Chomped(acc[..nl])
    {
      n := nl;
      if n > 0 && acc[n - 1] == '\r' {
        n := n - 1;
      }
      if n >= line.Length {
        n := line.Length - 1;
      }
      Copy(acc, line, n);
      line[n] := NUL;
    }

    method DropFront(k: nat)
      requires BufferOk() && k <= len
      modifies `len, acc
      ensures BufferOk() && acc[..len] == old(acc[..len][k..])
    {
      assert acc[..len][k..] == acc[k..len];
      MoveDown(acc, 0, k, len);
      len := len - k;
      assert acc[..len] == acc[0..0 + len];
    }

    // One read; a buffer that is full without a newline is thrown away first.
    method Fill(bytes: string)
      requires Valid() && Find(acc[..len], NL, 0) < 0
      modifies `len, `stream, `dropped, `steps, acc
      ensures Valid() && steps == old(steps + [Read(Fitting(Abs(), bytes))])
    {
      hide After, Find;
      var start := if len >= LINE_BUF_SIZE then 0 else len;
      var space := LINE_BUF_SIZE - start;
      var chunk := if |bytes| > space then bytes[..space] else bytes;
      RunExtends(steps, Read(chunk));
      if len >= LINE_BUF_SIZE {
        dropped := dropped + len;
        len := 0;
      }
      Append(chunk);
      stream := stream + chunk;
      steps := steps + [Read(chunk)];
    }

    method Append(chunk: string)
      requires BufferOk() && len + |chunk| <= LINE_BUF_SIZE
      modifies `len, acc
      ensures BufferOk() && acc[..len] == old(acc[..len]) + chunk
    {
      CopyIn(acc, len, chunk);
      assert acc[..len + |chunk|] == acc[..len] + acc[len..len + |chunk|];
      len := len + |chunk|;
    }
  }
}
