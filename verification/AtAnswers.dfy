// The answer to an AT command: what the response bits say over every run, and what
// at_send_command reports.
module AtAnswers {
  import opened Text
  import opened SmsStream
  import opened AtTasks
  import opened Sequences

  // The response bits are cleared by this step.
  predicate Clears(steps: seq<Step>, i: nat)
    requires i < |steps|
  {
    steps[i].ClearAnswer? && After(steps[..i]).pc == InCommand
  }

  // Chunk number i left a text that says so.
  predicate SaidOk(steps: seq<Step>, i: nat)
    requires i < |steps|
  {
    steps[i].Uart? && steps[i].chunk != "" && SaysOk(After(steps[..i + 1]).buf)
  }

  predicate SaidError(steps: seq<Step>, i: nat)
    requires i < |steps|
  {
    steps[i].Uart? && steps[i].chunk != "" && SaysError(After(steps[..i + 1]).buf)
  }

  predicate OkSince(steps: seq<Step>, from: nat) {
    exists i: nat :: from <= i < |steps| && SaidOk(steps, i)
  }

  predicate ErrorSince(steps: seq<Step>, from: nat) {
    exists i: nat :: from <= i < |steps| && SaidError(steps, i)
  }

  predicate NotClearedSince(steps: seq<Step>, from: nat) {
    forall i: nat :: from <= i < |steps| ==> !Clears(steps, i)
  }

  // Over every run: the OK bit is set exactly when, since the bits were last cleared, a chunk left
  // a text with an OK; the ERROR bit when one left a text with an error or a prompt and no OK.
  lemma {:induction false} AnswerSince(steps: seq<Step>, from: nat)
    requires from <= |steps| && (from > 0 ==> Clears(steps, from - 1))
    requires NotClearedSince(steps, from)
    ensures After(steps).okBit <==> OkSince(steps, from)
    ensures After(steps).errorBit <==> ErrorSince(steps, from)
    decreases |steps|
  {
    hide After, Clears, SaidOk, SaidError, OkSince, ErrorSince, NotClearedSince;
    if from < |steps| {
      SinceStep(steps, from);
      LastStep(steps);
      AnswerSince(steps[..|steps| - 1], from);
    } else {
      JustCleared(steps);
    }
  }

  lemma JustCleared(steps: seq<Step>)
    requires |steps| > 0 ==> Clears(steps, |steps| - 1)
    ensures !After(steps).okBit && !After(steps).errorBit
    ensures !OkSince(steps, |steps|) && !ErrorSince(steps, |steps|)
  {
    hide HasBlock, Blocks, Rest;
  }

  lemma SinceStep(steps: seq<Step>, from: nat)
    requires from < |steps| && NotClearedSince(steps, from)
    requires from > 0 ==> Clears(steps, from - 1)
    ensures var n := |steps| - 1;
            && !Clears(steps, n) && NotClearedSince(steps[..n], from)
            && (from > 0 ==> Clears(steps[..n], from - 1))
            && OkSince(steps, from) == (OkSince(steps[..n], from) || SaidOk(steps, n))
            && ErrorSince(steps, from) == (ErrorSince(steps[..n], from) || SaidError(steps, n))
  {
    hide Clears, OkSince, ErrorSince;
    var n := |steps| - 1;
    assert !Clears(steps, n);
    forall i: nat | from <= i < n ensures !Clears(steps[..n], i) {
      EarlierStep(steps, n, i);
    }
    if from > 0 {
      EarlierStep(steps, n, from - 1);
    }
    OkSinceStep(steps, from);
    ErrorSinceStep(steps, from);
  }

  lemma OkSinceStep(steps: seq<Step>, from: nat)
    requires from < |steps|
    ensures var n := |steps| - 1; OkSince(steps, from) == (OkSince(steps[..n], from) || SaidOk(steps, n))
  {
    hide SaidOk;
    var n := |steps| - 1;
    if OkSince(steps, from) {
      var i: nat :| from <= i < |steps| && SaidOk(steps, i);
      if i < n {
        EarlierStep(steps, n, i);
      }
    }
    if OkSince(steps[..n], from) {
      var i: nat :| from <= i < n && SaidOk(steps[..n], i);
      EarlierStep(steps, n, i);
    }
  }

  lemma ErrorSinceStep(steps: seq<Step>, from: nat)
    requires from < |steps|
    ensures var n := |steps| - 1; ErrorSince(steps, from) == (ErrorSince(steps[..n], from) || SaidError(steps, n))
  {
    hide SaidError;
    var n := |steps| - 1;
    if ErrorSince(steps, from) {
      var i: nat :| from <= i < |steps| && SaidError(steps, i);
      if i < n {
        EarlierStep(steps, n, i);
      }
    }
    if ErrorSince(steps[..n], from) {
      var i: nat :| from <= i < n && SaidError(steps[..n], i);
      EarlierStep(steps, n, i);
    }
  }

  // What a step says does not depend on later ones.
  lemma EarlierStep(steps: seq<Step>, n: nat, i: nat)
    requires i < n <= |steps|
    ensures Clears(steps[..n], i) == Clears(steps, i)
    ensures SaidOk(steps[..n], i) == SaidOk(steps, i) && SaidError(steps[..n], i) == SaidError(steps, i)
  {
    hide After, SaysOk, SaysError;
    assert steps[..n][..i] == steps[..i] && steps[..n][..i + 1] == steps[..i + 1];
  }

  lemma LastStep(steps: seq<Step>)
    requires steps != []
    ensures var n := |steps| - 1;
            !Clears(steps, n) ==>
              && After(steps).okBit == (After(steps[..n]).okBit || SaidOk(steps, n))
              && After(steps).errorBit == (After(steps[..n]).errorBit || SaidError(steps, n))
  {
    var n := |steps| - 1;
    assert steps[..n + 1] == steps;
    BitsStep(After(steps[..n]), steps[n]);
    hide Next, SaysOk, SaysError;
  }

  lemma BitsStep(s: System, step: Step)
    ensures var t := Next(s, step);
            !(step.ClearAnswer? && s.pc == InCommand) ==>
              && t.okBit == (s.okBit || (step.Uart? && step.chunk != "" && SaysOk(t.buf)))
              && t.errorBit == (s.errorBit || (step.Uart? && step.chunk != "" && SaysError(t.buf)))
  {
    hide HasBlock, Blocks, Rest, Clear, Received, SaysOk, SaysError;
  }

  ghost predicate Occurs(s: string, text: string) {
    exists i :: At(s, text, i)
  }

  // What counts as an answer, in so many words.
  lemma AnswerTexts(s: string)
    ensures SaysOk(s) <==> Occurs(s, "OK\r\n")
    ensures SaysError(s) <==>
            && !Occurs(s, "OK\r\n")
            && (|| Occurs(s, "ERROR\r\n") || Occurs(s, "+CME ERROR:")
                || Occurs(s, "+CMS ERROR:") || Occurs(s, "> "))
  {
    hide Find;
    OccursFound(s, "OK\r\n");
    OccursFound(s, "ERROR\r\n");
    OccursFound(s, "+CME ERROR:");
    OccursFound(s, "+CMS ERROR:");
    OccursFound(s, "> ");
  }

  lemma OccursFound(s: string, text: string)
    ensures Occurs(s, text) <==> Find(s, text, 0) >= 0
  {
    hide Find;
    FindFirst(s, text, 0);
  }

  // The section that opens a command leaves a text that says OK only if the header of a report
  // still arriving ends in OK.  What arrives between the section and the clearing of the bits is
  // another matter, see CommandAnswer.
  lemma OpenedSaysOk(steps: seq<Step>)
    requires After(steps).pc == Idle
    ensures var b := After(steps + [OpenCommand]).buf;
            var e := Find(b, CRLF, 0);
            SaysOk(b) <==> StartsWith(b, CMT) && e >= 2 && b[e - 2..e] == "OK"
  {
    hide Find, HasBlock, Rest, Blocks;
    RunExtends(steps, OpenCommand);
    NoLostWakeup(steps);
    DrainKeepsBlocks(After(steps).buf, "");
    ClearedHasNoBlock(Rest(After(steps).buf));
    ClearedStart(Rest(After(steps).buf));
    OkInHeader(After(steps + [OpenCommand]).buf);
  }

  // Either section of a command hands over every complete block and leaves of the rest only a
  // report still arriving: the text from the first mark on, nothing if there is none.
  lemma SectionLeaves(steps: seq<Step>, step: Step)
    requires var pc := After(steps).pc; (step.OpenCommand? && pc == Idle) || (step.CloseCommand? && pc == InCommand)
    ensures var s, t := After(steps), After(steps + [step]);
            var rest := Rest(s.buf);
            var mark := Find(rest, "+CMT:", 0);
            && t.handed == s.handed + Blocks(s.buf) && t.stream == s.stream
            && t.buf == (if mark < 0 then "" else rest[mark..])
            && !HasBlock(t.buf) && !t.urcBit && t.okBit == s.okBit && t.errorBit == s.errorBit
            && t.pc == if step.OpenCommand? then InCommand else Idle
  {
    hide Find, HasBlock, Rest, Blocks;
    var rest := Rest(After(steps).buf);
    RunExtends(steps, step);
    NoLostWakeup(steps);
    DrainKeepsBlocks(After(steps).buf, "");
    NothingLeft(After(steps).buf);
    ClearedHasNoBlock(rest);
  }

  lemma ClearedStart(b: string)
    ensures Clear(b) == "" || StartsWith(Clear(b), CMT)
  {
    FindFirst(b, CMT, 0);
  }

  lemma OkInHeader(b: string)
    requires (b == "" || StartsWith(b, CMT)) && !HasBlock(b)
    ensures var e := Find(b, CRLF, 0);
            SaysOk(b) <==> StartsWith(b, CMT) && e >= 2 && b[e - 2..e] == "OK"
  {
    hide Find;
    var e := Find(b, CRLF, 0);
    FindFirst(b, CRLF, 0);
    FindFirst(b, OK, 0);
    if SaysOk(b) {
      var k := Find(b, OK, 0);
      assert b[k + 2..k + 4] == b[k..k + 4][2..] == CRLF;
      assert At(b, CRLF, k + 2);
      OnlyLineEnd(b, e, k + 2);
      assert b[k..k + 2] == b[k..k + 4][..2] == "OK";
    }
    if StartsWith(b, CMT) && e >= 2 && b[e - 2..e] == "OK" {
      assert b[e - 2..e + 2] == b[e - 2..e] + b[e..e + 2];
      assert At(b, OK, e - 2);
    }
  }

  // A text that starts with a mark and has no complete block has one line end at most.
  lemma OnlyLineEnd(b: string, e: int, j: nat)
    requires StartsWith(b, CMT) && !HasBlock(b) && e == Find(b, CRLF, 0) && At(b, CRLF, j)
    ensures j == e
  {
    hide Find;
    FindFirst(b, CRLF, 0);
    assert At(b, CMT, 0);
    if j > e {
      assert j != e + 1 by { AtChar(b, CRLF, e, 1); AtChar(b, CRLF, j, 0); }
      HasBlockIf(b, 0, e, j);
    }
  }

  // Over the chunks that come while the answer is waited for, the OK bit is what AnswerSince says.
  lemma AnswerTaken(asking: seq<Step>, sent: seq<Step>, during: seq<string>)
    requires sent == asking + [ClearAnswer] && After(asking).pc == InCommand
    ensures After(sent + Uarts(during)).okBit <==> OkSince(sent + Uarts(during), |sent|)
  {
    hide After, OkSince, ErrorSince, SaidOk, SaidError;
    var answered := sent + Uarts(during);
    assert answered[..|sent| - 1] == asking;
    assert answered[|sent| - 1] == ClearAnswer;
    forall i: nat | |sent| <= i < |answered| ensures !Clears(answered, i) {
      assert answered[i] == Uart(during[i - |sent|]);
    }
    AnswerSince(answered, |sent|);
  }

  // ---------------------------------------------------------------- which OK is reported

  // A text that says OK goes on saying so.
  lemma OkStays(b: string, c: string)
    requires Filter(b) == b && SaysOk(b)
    ensures SaysOk(Filter(b + c))
  {
    hide Filter, Find, At;
    var k := Find(b, OK, 0);
    FindFirst(b, OK, 0);
    var p, x := b[..k + 4], b[k + 4..];
    assert b == p + x && b + c == p + (x + c);
    FilteredHalves(b, p, x);
    FilterSplit(p, x + c);
    AtExtend(p, x, OK, k);
    AtExtend(p, Filter(x + c), OK, k);
    FindFirst(p + Filter(x + c), OK, 0);
  }

  // Chunks that fit, since the bits were cleared: the OK bit is set exactly when something arrived
  // and the whole text says OK.
  lemma {:induction false} OkBitText(s: System, chunks: seq<string>)
    requires Filter(s.buf) == s.buf && |s.buf| + |Flatten(chunks)| < BUF_SIZE
    ensures Heard(s, chunks).okBit <==> s.okBit || (Flatten(chunks) != "" && SaysOk(Filter(s.buf + Flatten(chunks))))
    decreases |chunks|
  {
    hide Filter, FlatMap, Heard, Next, SaysOk;
    if chunks == [] {
      HeardNothing(s);
      FlatMapNil(Same<char>);
    } else {
      var chunk, more := chunks[0], chunks[1..];
      var t := Next(s, Uart(chunk));
      assert chunks == [chunk] + more;
      FlattenCons(chunk, more);
      ChunkFits(s, chunk);
      HeardStep(s, chunks);
      OkBitText(t, more);
      OkBitStep(s, chunk, Flatten(more));
    }
  }

  lemma OkBitStep(s: System, chunk: string, rest: string)
    requires Filter(s.buf) == s.buf && |s.buf| + |chunk| < BUF_SIZE
    ensures var t := Next(s, Uart(chunk));
            (t.okBit || (rest != "" && SaysOk(Filter(t.buf + rest)))) <==>
            (s.okBit || (chunk + rest != "" && SaysOk(Filter(s.buf + (chunk + rest)))))
  {
    hide Filter, SaysOk, Next;
    var t := Next(s, Uart(chunk));
    BitsStep(s, Uart(chunk));
    ChunkFits(s, chunk);
    UartDelivers(s, chunk, rest);
    if SaysOk(t.buf) {
      OkStays(t.buf, rest);
    }
    assert rest == "" ==> t.buf + rest == t.buf;
    assert chunk == "" ==> s.buf + chunk == s.buf;
  }

  // For chunks that fit, what a command reports: a text that says OK when the bits are cleared
  // makes any chunk at all an OK; with any other, an OK is one that the chunks bring.
  lemma AnswerExact(asking: seq<Step>, chunks: seq<string>, text: string)
    requires After(asking).pc == InCommand && |After(asking).buf| + |text| < BUF_SIZE
    requires text == Flatten(chunks)
    ensures var b := After(asking).buf;
            var sent := asking + [ClearAnswer];
            var reported := OkSince(sent + Uarts(chunks), |sent|);
            && (After(sent + Uarts(chunks)).okBit <==> reported)
            && (reported <==> text != "" && SaysOk(Filter(b + text)))
            && (SaysOk(b) ==> (reported <==> text != ""))
            && (!SaysOk(b) ==> (reported <==> SaysOk(Filter(b + text))))
  {
    hide *;
    var b := After(asking).buf;
    var sent := asking + [ClearAnswer];
    NoLostWakeup(asking);
    RunExtends(asking, ClearAnswer);
    BitsCleared(After(asking));
    HeardAfter(sent, chunks);
    OkBitText(After(sent), chunks);
    AnswerTaken(asking, sent, chunks);
    if SaysOk(b) {
      OkStays(b, text);
    }
    assert text == "" ==> b + text == b;
  }

  lemma BitsCleared(s: System)
    requires s.pc == InCommand
    ensures Next(s, ClearAnswer) == s.(okBit := false, errorBit := false)
  {
  }

  // A command may be opened, and the chunks until its answer is taken fit.
  predicate CommandFits(steps: seq<Step>, early: seq<string>, during: seq<string>) {
    && After(steps).pc == Pc.Idle
    && |Clear(Rest(After(steps).buf))| + |Flatten(early)| + |Flatten(during)| < BUF_SIZE
  }

  // The same from the section that opens the command on.  An OK that arrives before the bits are
  // cleared stays in the text, and the next chunk is reported as OK, whatever it is.
  lemma CommandAnswer(steps: seq<Step>, early: seq<string>, during: seq<string>)
    requires CommandFits(steps, early, during)
    ensures var kept := Clear(Rest(After(steps).buf));
            var sent := steps + [OpenCommand] + Uarts(early) + [ClearAnswer];
            var reported := OkSince(sent + Uarts(during), |sent|);
            var b := Filter(kept + Flatten(early));
            && After(sent).buf == b && !After(sent).okBit
            && (After(sent + Uarts(during)).okBit <==> reported)
            && (reported <==> Flatten(during) != "" && SaysOk(Filter(kept + Flatten(early) + Flatten(during))))
            && (SaysOk(b) ==> (reported <==> Flatten(during) != ""))
            && (!SaysOk(b) ==> (reported <==> SaysOk(Filter(b + Flatten(during)))))
  {
    hide *;
    Fits(steps, early, during);
    var open := steps + [OpenCommand];
    var asking := open + Uarts(early);
    var kept := Clear(Rest(After(steps).buf));
    RunExtends(steps, OpenCommand);
    Opened(After(steps));
    NoLostWakeup(open);
    HeardAfter(open, early);
    UartsKeepPc(open, early);
    HeardText(After(open), early);
    FilterAppend(kept + Flatten(early), Flatten(during));
    AnswerExact(asking, during, Flatten(during));
    RunExtends(asking, ClearAnswer);
    BitsCleared(After(asking));
  }

  lemma Fits(steps: seq<Step>, early: seq<string>, during: seq<string>)
    requires CommandFits(steps, early, during)
    ensures After(steps).pc == Pc.Idle
    ensures |Clear(Rest(After(steps).buf))| + |Flatten(early)| + |Flatten(during)| < BUF_SIZE
  {
    hide After, Clear, Rest, FlatMap;
  }

  lemma Opened(s: System)
    requires s.pc == Pc.Idle
    ensures Next(s, OpenCommand).buf == Clear(Rest(s.buf)) && Next(s, OpenCommand).pc == InCommand
  {
    hide Clear, Rest, HasBlock, Blocks;
  }

  // Text without a line feed completes no line: the filter keeps it, and it brings no OK.
  lemma {:induction false} NoLineFeed(b: string, c: string)
    requires Filter(b) == b && '\n' !in c
    ensures Filter(b + c) == b + c
    decreases |b|
  {
    hide Filter, Find, Removable;
    if Find(b, CRLF, 0) < 0 {
      NoNewEnd(b, c);
      FilterPartial(b + c);
    } else {
      var line, rest := FirstLine(b);
      FilterLine(line, rest);
      LineCloses(line);
      FilteredHalves(b, line, rest);
      NoLineFeed(rest, c);
      assert b + c == line + (rest + c);
      FilterSplit(line, rest + c);
      assert line + (rest + c) == (line + rest) + c;
    }
  }

  lemma LineCloses(line: string)
    requires IsLine(line)
    ensures Closed(line)
  {
    hide Find;
    FindFirst(line, CRLF, 0);
    assert At(line, CRLF, |line| - 2);
  }

  lemma NoNewEnd(b: string, c: string)
    requires Find(b, CRLF, 0) < 0 && '\n' !in c
    ensures Find(b + c, CRLF, 0) < 0
  {
    hide Find;
    FindFirst(b, CRLF, 0);
    forall j | 0 <= j ensures !At(b + c, CRLF, j) {
      if j + 2 <= |b| {
        AtExtend(b, c, CRLF, j);
      } else {
        AtChar(b + c, CRLF, j, 1);
      }
    }
    FindNone(b + c, CRLF, 0);
  }

  lemma NoNewOk(b: string, c: string)
    requires '\n' !in c
    ensures SaysOk(b + c) <==> SaysOk(b)
  {
    hide Find;
    FindFirst(b, OK, 0);
    FindFirst(b + c, OK, 0);
    if SaysOk(b) {
      AtExtend(b, c, OK, Find(b, OK, 0));
    }
    if SaysOk(b + c) {
      var k := Find(b + c, OK, 0);
      if k + 4 <= |b| {
        AtExtend(b, c, OK, k);
      } else {
        AtChar(b + c, OK, k, 3);
      }
    }
  }

  // An echo, or any text without a line feed, is reported as OK exactly when the text said OK when
  // the bits were cleared: only then is an OK reported that none of the chunks brought.
  lemma EchoReported(asking: seq<Step>, chunks: seq<string>, echo: string)
    requires After(asking).pc == InCommand && |After(asking).buf| + |echo| < BUF_SIZE
    requires echo == Flatten(chunks) && echo != "" && '\n' !in echo
    ensures var sent := asking + [ClearAnswer];
            OkSince(sent + Uarts(chunks), |sent|) <==> SaysOk(After(asking).buf)
  {
    hide *;
    var b := After(asking).buf;
    NoLostWakeup(asking);
    AnswerExact(asking, chunks, echo);
    NoLineFeed(b, echo);
    NoNewOk(b, echo);
  }

  // An answer that comes late, between the section and the clearing of the bits, and the first
  // character of the echo: OK is reported though none came since.
  lemma StaleAnswer()
    ensures var sent := [OpenCommand] + [Uart(OK)] + [ClearAnswer];
            && !After(sent).okBit
            && After(sent + [Uart("A")]).okBit && OkSince(sent + [Uart("A")], |sent|)
  {
    hide Next, OkSince, Clear, Rest, Filter, FlatMap;
    FlattenOne(OK);
    FlattenOne("A");
    EmptyOpens();
    OkFiltered();
    assert CommandFits([], [OK], ["A"]);
    CommandAnswer([], [OK], ["A"]);
    assert Uarts([OK]) == [Uart(OK)] && Uarts(["A"]) == [Uart("A")];
    assert [] + [OpenCommand] == [OpenCommand];
    assert "" + OK == OK;
  }

  lemma EmptyOpens()
    ensures After([]).pc == Pc.Idle && Clear(Rest(After([]).buf)) == ""
  {
    EmptyText();
  }

  lemma OkFiltered()
    ensures Filter(OK) == OK && SaysOk(OK)
  {
    NoCrIsBody("OK");
    FilterBodyLine("OK", "");
    assert "OK" + CRLF + "" == OK && "OK" + CRLF + Filter("") == OK;
    FindFirst(OK, OK, 0);
    assert At(OK, OK, 0);
  }
}
