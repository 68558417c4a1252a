// The text seen by the AT receiver: removal of unrelated URC lines, the `+CMT:` blocks handed to
// the parser, and the clearing of command data.  Everything here is a function of the text alone;
// AtReceiver.dfy proves that the in-place buffer code computes these functions.
module SmsStream {
  import opened Text

  const CMT := "+CMT:"
  const CME_ERROR := "+CME ERROR:"
  const CMS_ERROR := "+CMS ERROR:"
  const BUF_SIZE := 4096

  // ---------------------------------------------------------------- URC filter

  // The test made on the text at a line start: an unrelated URC, to be deleted once complete.
  predicate Removable(line: string) {
    && line != ""
    && (line[0] == '+' || line[0] == '^')
    && !StartsWith(line, CMT)
    && !StartsWith(line, CME_ERROR)
    && !StartsWith(line, CMS_ERROR)
  }

  // The text left after deleting every complete unrelated URC line.
  function Filter(s: string): (r: string)
    ensures |r| <= |s|
    decreases |s|
  {
    var e := Find(s, CRLF, 0);
    if e < 0 then s
    else if Removable(s) then Filter(s[e + 2..])
    else s[..e + 2] + Filter(s[e + 2..])
  }

  // Empty, or ending with a line terminator.
  predicate Closed(s: string) {
    s == "" || (|s| >= 2 && s[|s| - 2..] == CRLF)
  }

  // A single complete line.
  predicate IsLine(s: string) {
    |s| >= 2 && Find(s, CRLF, 0) == |s| - 2
  }

  lemma RemovableStable(line: string, x: string)
    requires IsLine(line)
    ensures Removable(line + x) == Removable(line)
  {
    FindFirst(line, CRLF, 0);
    assert line[|line| - 2..|line|] == CRLF;
    assert line[|line| - 2] == CRLF[0];
    StartsWithStable(line, x, CMT);
    StartsWithStable(line, x, CME_ERROR);
    StartsWithStable(line, x, CMS_ERROR);
  }

  // A pattern without '\r' cannot reach past a line terminator.
  lemma StartsWithStable(line: string, x: string, pat: string)
    requires |line| >= 2 && line[|line| - 2] == '\r'
    requires '\r' !in pat
    ensures StartsWith(line + x, pat) == StartsWith(line, pat)
  {
    if |pat| <= |line| {
      assert (line + x)[..|pat|] == line[..|pat|];
    } else if |pat| <= |line + x| {
      assert (line + x)[..|pat|][|line| - 2] == '\r';
    }
  }

  lemma FilterLine(line: string, x: string)
    requires IsLine(line)
    ensures Filter(line + x) == if Removable(line) then Filter(x) else line + Filter(x)
  {
    assert At(line, CRLF, |line| - 2) by { FindFirst(line, CRLF, 0); }
    FindExtend(line, x, CRLF, 0);
    RemovableStable(line, x);
    assert (line + x)[..|line|] == line;
    assert (line + x)[|line|..] == x;
  }

  // First line and remainder of a text that has a complete line.
  lemma FirstLine(s: string) returns (line: string, rest: string)
    requires Find(s, CRLF, 0) >= 0
    ensures s == line + rest && IsLine(line)
  {
    var e := Find(s, CRLF, 0);
    line, rest := s[..e + 2], s[e + 2..];
    FindFirst(s, CRLF, 0);
    forall j | 0 <= j <= e ensures At(line, CRLF, j) == At(s, CRLF, j) {
      AtExtend(line, rest, CRLF, j);
    }
    FindIs(line, CRLF, 0, e);
  }

  lemma EmptyText()
    ensures Filter("") == "" && !HasBlock("")
  {
  }

  lemma FilterPartial(s: string)
    requires Find(s, CRLF, 0) < 0
    ensures Filter(s) == s
  {
  }

  // Chunking does not matter to the filter: filtering early and again later is filtering once.
  lemma {:induction false} FilterAppend(a: string, b: string)
    ensures Filter(Filter(a) + b) == Filter(a + b)
    decreases |a|
  {
    hide Filter, Find, Removable, At;
    if Find(a, CRLF, 0) < 0 {
      FilterPartial(a);
    } else {
      var line, rest := FirstLine(a);
      FilterLine(line, rest);
      FilterAppend(rest, b);
      assert a + b == line + (rest + b);
      FilterLine(line, rest + b);
      if !Removable(line) {
        assert Filter(a) + b == line + (Filter(rest) + b);
        FilterLine(line, Filter(rest) + b);
      }
    }
  }

  // The first line of a non-empty closed text leaves a closed text.
  lemma FirstLineClosed(p: string) returns (line: string, rest: string)
    requires Closed(p) && p != ""
    ensures p == line + rest && IsLine(line) && Closed(rest) && |rest| < |p|
  {
    FindFirst(p, CRLF, 0);
    assert At(p, CRLF, |p| - 2);
    line, rest := FirstLine(p);
    assert At(line, CRLF, |line| - 2) by { FindFirst(line, CRLF, 0); }
    assert line[|line| - 2..] == CRLF;
    assert line[|line| - 1] == CRLF[1] == p[|line| - 1];
    assert p[|p| - 2] == CRLF[0];
    if |rest| >= 2 {
      assert rest[|rest| - 2..] == p[|p| - 2..];
    }
  }

  // The filter splits at every line boundary.
  lemma {:induction false} FilterSplit(p: string, x: string)
    requires Closed(p)
    ensures Filter(p + x) == Filter(p) + Filter(x)
    decreases |p|
  {
    hide *;
    if p == "" {
      assert p + x == x;
    } else {
      var line, rest := FirstLineClosed(p);
      FilterSplit(rest, x);
      FilterLine(line, rest);
      assert p + x == line + (rest + x);
      FilterLine(line, rest + x);
      if !Removable(line) {
        assert line + (Filter(rest) + Filter(x)) == (line + Filter(rest)) + Filter(x);
      }
    }
  }

  lemma {:induction false} FilterIdempotent(s: string)
    ensures Filter(Filter(s)) == Filter(s)
  {
    FilterAppend(s, "");
    assert Filter(s) + "" == Filter(s) && s + "" == s;
  }

  // Both halves of a filtered text cut at a line boundary are filtered.
  lemma FilteredHalves(s: string, p: string, x: string)
    requires Closed(p) && s == p + x && Filter(s) == s
    ensures Filter(p) == p && Filter(x) == x
  {
    FilterSplit(p, x);
    var fp, fx := Filter(p), Filter(x);
    assert |fp| + |fx| == |p| + |x|;
    assert fp == (fp + fx)[..|p|] == (p + x)[..|p|] == p;
    assert fx == (fp + fx)[|p|..] == (p + x)[|p|..] == x;
  }

  // ---------------------------------------------------------------- SMS blocks

  function BlockStart(s: string): int {
    Find(s, CMT, 0)
  }

  // End of the first complete block: two line terminators after the first "+CMT:".
  function BlockEnd(s: string): (r: int)
    ensures r < 0 || 0 <= BlockStart(s) < BlockStart(s) + 4 <= r <= |s|
  {
    var start := BlockStart(s);
    if start < 0 then -1 else
      var first := Find(s, CRLF, start);
      if first < 0 then -1 else
        var second := Find(s, CRLF, first + 2);
        if second < 0 then -1 else second + 2
  }

  predicate HasBlock(s: string) {
    BlockEnd(s) >= 0
  }

  // The blocks a drain hands to the parser, and what it leaves in the buffer.
  function Blocks(s: string): seq<string>
    decreases |s|
  {
    if !HasBlock(s) then [] else [s[BlockStart(s)..BlockEnd(s)]] + Blocks(s[BlockEnd(s)..])
  }

  function Rest(s: string): (r: string)
    ensures |r| <= |s| && !HasBlock(r)
    decreases |s|
  {
    if !HasBlock(s) then s else Rest(s[BlockEnd(s)..])
  }

  // A text up to and including its first block.
  predicate IsBlockHead(p: string) {
    HasBlock(p) && BlockEnd(p) == |p|
  }

  function HeadBlock(p: string): string
    requires IsBlockHead(p)
  {
    p[BlockStart(p)..]
  }

  lemma BlockEndExtend(p: string, x: string)
    requires IsBlockHead(p)
    ensures BlockStart(p + x) == BlockStart(p) && BlockEnd(p + x) == |p|
  {
    hide Find;
    var start := BlockStart(p);
    var first := Find(p, CRLF, start);
    FindExtend(p, x, CMT, 0);
    FindExtend(p, x, CRLF, start);
    FindExtend(p, x, CRLF, first + 2);
  }

  lemma BlockHeadClosed(p: string)
    requires IsBlockHead(p)
    ensures Closed(p)
  {
    FindFirst(p, CRLF, Find(p, CRLF, BlockStart(p)) + 2);
    assert At(p, CRLF, |p| - 2);
  }

  lemma BlockHeadExtend(p: string, x: string)
    requires IsBlockHead(p)
    ensures HasBlock(p + x) && Closed(p)
    ensures Blocks(p + x) == [HeadBlock(p)] + Blocks(x)
    ensures Rest(p + x) == Rest(x)
  {
    BlockEndExtend(p, x);
    BlockHeadClosed(p);
    hide BlockEnd, BlockStart;
    assert (p + x)[|p|..] == x;
    assert (p + x)[BlockStart(p)..|p|] == p[BlockStart(p)..];
  }

  lemma HeaderEndsAfterStart(s: string)
    requires BlockStart(s) >= 0
    ensures Find(s, CRLF, BlockStart(s)) != BlockStart(s)
  {
    var start := BlockStart(s);
    FindFirst(s, CMT, 0);
    FindFirst(s, CRLF, start);
    AtChar(s, CMT, start, 0);
    AtChar(s, CRLF, start, 0);
  }

  lemma FirstBlock(s: string) returns (p: string, x: string)
    requires HasBlock(s)
    ensures s == p + x && IsBlockHead(p) && |x| < |s|
  {
    hide Find, At;
    var start, end := BlockStart(s), BlockEnd(s);
    p, x := s[..end], s[end..];
    HeaderEndsAfterStart(s);
    FindTake(s, CMT, 0, end);
    FindTake(s, CRLF, start, end);
    FindTake(s, CRLF, Find(s, CRLF, start) + 2, end);
  }

  lemma FindTake(s: string, pat: string, from: nat, end: nat)
    requires from <= |s| && end <= |s| && 0 <= Find(s, pat, from) && Find(s, pat, from) + |pat| <= end
    ensures Find(s[..end], pat, from) == Find(s, pat, from)
  {
    var k := Find(s, pat, from);
    FindFirst(s, pat, from);
    assert s == s[..end] + s[end..];
    forall j | from <= j <= k ensures At(s[..end], pat, j) == At(s, pat, j) {
      AtExtend(s[..end], s[end..], pat, j);
    }
    FindIs(s[..end], pat, from, k);
  }

  // A drain cuts a filtered text at a line boundary: what it hands over and what it leaves
  // account for every block that any later text completes.
  lemma {:induction false} DrainKeepsBlocks(b: string, c: string)
    requires Filter(b) == b
    ensures Filter(Rest(b)) == Rest(b)
    ensures Blocks(Filter(b + c)) == Blocks(b) + Blocks(Filter(Rest(b) + c))
    decreases |b|
  {
    hide Filter, BlockEnd, BlockStart;
    if HasBlock(b) {
      var p, x := FirstBlock(b);
      BlockHeadExtend(p, x);
      FilteredHalves(p + x, p, x);
      DrainKeepsBlocks(x, c);
      assert b + c == p + (x + c);
      FilterSplit(p, x + c);
      BlockHeadExtend(p, Filter(x + c));
    }
  }

  lemma HasBlockIf(s: string, i: nat, j: nat, k: nat)
    requires At(s, CMT, i) && At(s, CRLF, j) && At(s, CRLF, k) && i <= j && j + 2 <= k
    ensures HasBlock(s)
  {
    FindFirst(s, CMT, 0);
    var start := BlockStart(s);
    FindFirst(s, CRLF, start);
    FindFirst(s, CRLF, Find(s, CRLF, start) + 2);
  }

  // Text in which no mark begins is passed over.
  lemma BlocksShift(p: string, y: string)
    requires forall j :: 0 <= j < |p| ==> !At(p + y, CMT, j)
    ensures Blocks(p + y) == Blocks(y)
  {
    hide BlockEnd, BlockStart, At;
    BlockEndShift(p, y);
    if HasBlock(y) {
      var start, end := BlockStart(y), BlockEnd(y);
      assert (p + y)[|p| + start..|p| + end] == y[start..end];
      assert (p + y)[|p| + end..] == y[end..];
    }
  }

  lemma BlockEndShift(p: string, y: string)
    requires forall j :: 0 <= j < |p| ==> !At(p + y, CMT, j)
    ensures HasBlock(p + y) == HasBlock(y)
    ensures HasBlock(y) ==> BlockStart(p + y) == |p| + BlockStart(y) && BlockEnd(p + y) == |p| + BlockEnd(y)
  {
    hide Find;
    FindShift(p, y, CMT);
    var start := BlockStart(y);
    if start >= 0 {
      FindFrom(p, y, CRLF, start);
      var first := Find(y, CRLF, start);
      if first >= 0 {
        FindFrom(p, y, CRLF, first + 2);
      }
    }
  }

  // Complete lines without a mark contribute no block.
  lemma UnmarkedLines(p: string, y: string)
    requires Closed(p) && Find(p, CMT, 0) < 0
    ensures Blocks(p + y) == Blocks(y)
  {
    FindFirst(p, CMT, 0);
    forall j | 0 <= j < |p| ensures !At(p + y, CMT, j) {
      if j + |CMT| <= |p| {
        AtExtend(p, y, CMT, j);
      } else {
        assert p[|p| - 1] == p[|p| - 2..][1];
        AtChar(p + y, CMT, j, |p| - 1 - j);
      }
    }
    BlocksShift(p, y);
  }

  // The body of a line: no terminator inside.
  predicate IsBody(s: string) {
    Find(s, CRLF, 0) < 0
  }

  lemma BodyLine(body: string, x: string)
    requires IsBody(body)
    ensures IsLine(body + CRLF)
    ensures Find(body + CRLF + x, CRLF, 0) == |body|
  {
    var line := body + CRLF;
    FindFirst(body, CRLF, 0);
    forall j | 0 <= j < |body| ensures !At(line, CRLF, j) {
      if j + 2 <= |body| {
        AtExtend(body, CRLF, CRLF, j);
      } else {
        AtChar(line, CRLF, j, 1);
      }
    }
    assert line[|body|..] == CRLF;
    FindIs(line, CRLF, 0, |body|);
    FindExtend(line, x, CRLF, 0);
  }

  lemma MarkAtStart(s: string, x: string)
    requires StartsWith(s, CMT)
    ensures StartsWith(s + x, CMT) && Find(s + x, CMT, 0) == 0 && !Removable(s + x)
  {
    assert (s + x)[..|CMT|] == s[..|CMT|];
  }

  // A header line and a content line form one block, whole.
  lemma ReportBlock(header: string, content: string)
    requires StartsWith(header, CMT) && IsBody(header) && IsBody(content)
    ensures var text := header + CRLF + content + CRLF;
            IsBlockHead(text) && HeadBlock(text) == text
  {
    var line := content + CRLF;
    var text := header + CRLF + content + CRLF;
    assert text == (header + CRLF) + line;
    assert text == header + (CRLF + line);
    MarkAtStart(header, CRLF + line);
    BodyLine(header, line);
    BodyLine(content, "");
    assert line + "" == line;
    FindFrom(header + CRLF, line, CRLF, 0);
  }

  // ---------------------------------------------------------------- clearing command data

  // What clear_command_data_preserving_sms_locked leaves: the text from the first mark on.
  function Clear(b: string): string {
    var q := Find(b, CMT, 0);
    if q < 0 then "" else b[q..]
  }

  // Start of the line that holds offset q.
  function LineStart(b: string, q: nat): (r: nat)
    requires q <= |b|
    ensures r <= q
  {
    if q == 0 then 0
    else if q >= 2 && At(b, CRLF, q - 2) then q
    else LineStart(b, q - 1)
  }

  // With no mark, the buffer must stop at a line boundary; with a mark, the text before it on
  // its own line must not read as an unrelated URC.
  predicate ClearIsSafe(b: string) {
    var q := Find(b, CMT, 0);
    if q < 0 then Closed(b) else !Removable(b[LineStart(b, q)..q])
  }

  lemma {:induction false} LineStartSplits(b: string, q: nat)
    requires q <= |b|
    ensures var r := LineStart(b, q);
            Closed(b[..r]) && forall j :: r <= j && j + 2 <= q ==> !At(b, CRLF, j)
  {
    if q == 0 {
    } else if q >= 2 && At(b, CRLF, q - 2) {
      assert b[..q][q - 2..] == b[q - 2..q];
    } else {
      LineStartSplits(b, q - 1);
    }
  }

  // A line that reaches a mark is judged by the text before the mark.
  lemma RemovableBeforeMark(h: string, s: string)
    requires h != "" && s != "" && s[0] == '+'
    ensures Removable(h + s) == Removable(h)
  {
    StartsWithBeforeMark(h, s, CMT);
    StartsWithBeforeMark(h, s, CME_ERROR);
    StartsWithBeforeMark(h, s, CMS_ERROR);
  }

  lemma StartsWithBeforeMark(h: string, s: string, pat: string)
    requires h != "" && s != "" && s[0] == '+'
    requires forall i :: 1 <= i < |pat| ==> pat[i] != '+'
    ensures StartsWith(h + s, pat) == StartsWith(h, pat)
  {
    if |pat| <= |h| {
      assert (h + s)[..|pat|] == h[..|pat|];
    } else if |pat| <= |h + s| {
      assert (h + s)[..|pat|][|h|] == s[0];
    }
  }

  // Text before a mark on its line stays with the line when that line is kept.
  lemma HeldLine(h: string, s: string)
    requires IsBody(h) && StartsWith(s, CMT)
    requires !Removable(h)
    ensures Filter(h + s) == h + Filter(s)
  {
    assert s[0] == '+';
    hide Filter, Find, Removable, StartsWith;
    if h == "" {
      assert h + s == s && h + Filter(s) == Filter(s);
    } else {
      RemovableBeforeMark(h, s);
      FindPastBody(h, s);
      if Find(s, CRLF, 0) < 0 {
        FilterPartial(s);
        FilterPartial(h + s);
      } else {
        var line, rest := FirstMarkedLine(s);
        assert h + s == (h + line) + rest;
        HeldFirstLine(h, line, rest);
      }
    }
  }

  lemma MarkedHead(s: string)
    requires StartsWith(s, CMT)
    ensures s != "" && s[0] == '+'
  {
    assert s[0] == s[..5][0];
  }

  lemma HeldFirstLine(h: string, line: string, rest: string)
    requires IsBody(h) && h != "" && !Removable(h)
    requires IsLine(line) && StartsWith(line, CMT) && !Removable(line)
    ensures Filter((h + line) + rest) == h + Filter(line + rest)
  {
    hide Filter, Find, Removable;
    MarkedHead(line);
    FindPastBody(h, line);
    RemovableBeforeMark(h, line);
    FilterLine(h + line, rest);
    FilterLine(line, rest);
    assert (h + line) + Filter(rest) == h + (line + Filter(rest));
  }

  // The first line of a text that starts with a mark keeps the mark and is never removable.
  lemma FirstMarkedLine(s: string) returns (line: string, rest: string)
    requires StartsWith(s, CMT) && Find(s, CRLF, 0) >= 0
    ensures s == line + rest && IsLine(line) && StartsWith(line, CMT) && !Removable(line)
  {
    line, rest := FirstLine(s);
    FindFirst(line, CRLF, 0);
    AtChar(line, CRLF, |line| - 2, 0);
    AtChar(line, CRLF, |line| - 2, 1);
    forall i | 0 <= i < |line| && i < 5 ensures line[i] == CMT[i] {
      assert s[i] == s[..5][i];
    }
    assert StartsWith(line, CMT);
  }

  lemma FindPastBody(h: string, s: string)
    requires IsBody(h) && s != "" && s[0] != '\n'
    ensures Find(h + s, CRLF, 0) == Shifted(|h|, Find(s, CRLF, 0))
  {
    FindFirst(h, CRLF, 0);
    forall j | 0 <= j < |h| ensures !At(h + s, CRLF, j) {
      if j + 2 <= |h| {
        AtExtend(h, s, CRLF, j);
      } else {
        AtChar(h + s, CRLF, j, 1);
      }
    }
    FindShift(h, s, CRLF);
  }

  // The three parts of a buffer with a mark: whole lines, the start of the marked line, the rest.
  lemma MarkedParts(b: string) returns (p: string, h: string, s: string)
    requires Find(b, CMT, 0) >= 0
    ensures b == p + (h + s) && s == Clear(b)
    ensures Closed(p) && IsBody(h) && StartsWith(s, CMT)
    ensures ClearIsSafe(b) == !Removable(h)
    ensures forall j :: 0 <= j < |p + h| ==> !At(b, CMT, j)
  {
    hide *;
    var q := Find(b, CMT, 0);
    var r := LineStart(b, q);
    LineStartSplits(b, q);
    FindFirst(b, CMT, 0);
    p, h, s := b[..r], b[r..q], b[q..];
    MarkStarts(b, q);
    SliceIsBody(b, r, q);
    ClearAt(b, q, r);
    assert b == p + (h + s) && p + h == b[..q];
  }

  lemma ClearAt(b: string, q: nat, r: nat)
    requires q == Find(b, CMT, 0) && r == LineStart(b, q)
    ensures Clear(b) == b[q..] && ClearIsSafe(b) == !Removable(b[r..q])
  {
    hide Find, LineStart, Removable;
  }

  lemma MarkStarts(b: string, q: nat)
    requires At(b, CMT, q)
    ensures q <= |b| && StartsWith(b[q..], CMT)
  {
    assert b[q..][..|CMT|] == b[q..q + |CMT|];
  }

  lemma SliceIsBody(b: string, r: nat, q: nat)
    requires r <= q <= |b|
    requires forall j :: r <= j && j + 2 <= q ==> !At(b, CRLF, j)
    ensures IsBody(b[r..q])
  {
    var p, h, x := b[..r], b[r..q], b[q..];
    assert b == p + (h + x);
    forall j | 0 <= j ensures !At(h, CRLF, j) {
      if j + 2 <= |h| {
        AtShift(p, h + x, CRLF, j);
        AtExtend(h, x, CRLF, j);
        assert !At(b, CRLF, r + j);
      }
    }
    hide Find;
    FindNone(h, CRLF, 0);
  }

  // Only the mark's own text decides where marks begin before it.
  lemma NoEarlierMark(j: string, s: string, y: string)
    requires StartsWith(s, CMT) && StartsWith(y, CMT)
    requires forall i :: 0 <= i < |j| ==> !At(j + s, CMT, i)
    ensures forall i :: 0 <= i < |j| ==> !At(j + y, CMT, i)
  {
    forall i | 0 <= i < |j| ensures !At(j + y, CMT, i) {
      assert !At(j + s, CMT, i);
      assert (j + y)[i..i + 5] == (j + s)[i..i + 5];
    }
  }

  lemma FilterKeepsMark(s: string)
    requires StartsWith(s, CMT)
    ensures StartsWith(Filter(s), CMT)
  {
    if Find(s, CRLF, 0) >= 0 {
      hide Filter;
      var line, rest := FirstMarkedLine(s);
      FilterLine(line, rest);
      MarkAtStart(line, Filter(rest));
    }
  }

  // A safe clear changes no delivery, whatever arrives later.
  lemma ClearHarmless(b: string, c: string)
    requires Filter(b) == b && ClearIsSafe(b)
    ensures Filter(Clear(b)) == Clear(b)
    ensures Blocks(Filter(Clear(b) + c)) == Blocks(Filter(b + c))
  {
    if Find(b, CMT, 0) < 0 {
      hide Blocks, Removable, Find;
      FilterSplit(b, c);
      UnmarkedLines(b, Filter(c));
      assert "" + c == c;
    } else {
      MarkedClearHarmless(b, c);
    }
  }

  lemma MarkedClearHarmless(b: string, c: string)
    requires Filter(b) == b && ClearIsSafe(b) && Find(b, CMT, 0) >= 0
    ensures Filter(Clear(b)) == Clear(b)
    ensures Blocks(Filter(Clear(b) + c)) == Blocks(Filter(b + c))
  {
    hide *;
    var p, h, s := MarkedParts(b);
    FilteredHalves(p + (h + s), p, h + s);
    HeldLine(h, s);
    assert Filter(s) == (h + Filter(s))[|h|..] == (h + s)[|h|..] == s;
    assert b + c == p + (h + (s + c));
    FilterSplit(p, h + (s + c));
    MarkAtStart(s, c);
    HeldLine(h, s + c);
    var y := Filter(s + c);
    FilterKeepsMark(s + c);
    assert p + (h + s) == (p + h) + s && p + (h + y) == (p + h) + y;
    NoEarlierMark(p + h, s, y);
    BlocksShift(p + h, y);
  }

  const FILLER := "A\r\n"

  // A kept first line, a removed first line.
  lemma FilterBodyLine(body: string, x: string)
    requires IsBody(body)
    ensures Filter(body + CRLF + x) == if Removable(body + CRLF) then Filter(x) else body + CRLF + Filter(x)
  {
    BodyLine(body, "");
    assert body + CRLF + "" == body + CRLF;
    FilterLine(body + CRLF, x);
  }

  lemma FillerFilters()
    ensures Filter(FILLER) == FILLER && IsBody("A")
  {
    FindNone("A", CRLF, 0);
    FilterBodyLine("A", "");
    assert "A" + CRLF + "" == FILLER && FILLER + Filter("") == FILLER;
  }

  lemma UnmarkedFiller()
    ensures Blocks(FILLER) == []
  {
    FindNone(FILLER, CMT, 0);
  }

  // A report with no content other than the filler is delivered when its header line is kept.
  lemma ReportWithFiller(header: string)
    requires StartsWith(header, CMT) && IsBody(header)
    ensures Filter(header + CRLF + FILLER) == header + CRLF + FILLER
    ensures Blocks(header + CRLF + FILLER) != []
  {
    FillerFilters();
    ReportBlock(header, "A");
    assert header + CRLF + FILLER == header + CRLF + "A" + CRLF;
    MarkAtStart(header, CRLF);
    FilterBodyLine(header, FILLER);
  }

  // An unsafe clear with no mark in the buffer: the held partial line changes what follows.
  lemma UnmarkedClearHarmful(b: string) returns (c: string)
    requires Filter(b) == b && !ClearIsSafe(b) && Find(b, CMT, 0) < 0
    ensures Blocks(Filter(Clear(b) + c)) != Blocks(Filter(b + c))
  {
    assert Clear(b) == "";
    hide *;
    var p, t := WholeLinesAndTail(b);
    c := if Removable(t) then CMT + CRLF + FILLER else "+X+CMT:" + CRLF + FILLER;
    assert "" + c == c;
    if Removable(t) {
      NoCrIsBody(CMT);
      TailTakesHeader(p, t, CMT);
      ReportWithFiller(CMT);
      MarkStarts(CMT, 0);
      UnmarkedLines(p, FILLER);
      UnmarkedFiller();
    } else {
      KeptTail(p, t, c);
      KeptHeader(b, c);
    }
  }

  lemma KeptTail(p: string, t: string, c: string)
    requires Closed(p) && Filter(p + t) == p + t && IsBody(t) && t != ""
    requires !Removable(t) && c == "+X+CMT:" + CRLF + FILLER
    ensures Filter(p + t + c) == p + t + c
  {
    hide *;
    NoCrIsBody("+X+CMT:");
    TailTakesHeader(p, t, "+X+CMT:");
    assert p + (t + "+X+CMT:" + CRLF + FILLER) == (p + t) + c;
  }

  lemma BodyConcat(h: string, s: string)
    requires IsBody(h) && IsBody(s) && s != "" && s[0] != '\n'
    ensures IsBody(h + s)
  {
    FindPastBody(h, s);
  }

  lemma NoCrIsBody(s: string)
    requires '\r' !in s
    ensures IsBody(s)
  {
    forall j | 0 <= j ensures !At(s, CRLF, j) {
      AtChar(s, CRLF, j, 0);
    }
    FindNone(s, CRLF, 0);
  }

  // What arrives completes the held line.
  lemma TailTakesHeader(p: string, t: string, header: string)
    requires Closed(p) && Filter(p + t) == p + t && IsBody(t) && t != ""
    requires header != "" && header[0] == '+' && IsBody(header)
    ensures Filter(p + t + (header + CRLF + FILLER)) ==
            p + (if Removable(t) then FILLER else t + header + CRLF + FILLER)
  {
    hide *;
    FilteredHalves(p + t, p, t);
    FillerFilters();
    BodyConcat(t, header);
    RemovableBeforeMark(t, header + CRLF);
    var line := t + header + CRLF;
    assert t + (header + CRLF) == line;
    FilterBodyLine(t + header, FILLER);
    assert p + t + (header + CRLF + FILLER) == p + (line + FILLER);
    FilterSplit(p, line + FILLER);
  }

  lemma UnrelatedLine()
    ensures Filter("+X+CMT:" + CRLF + FILLER) == Filter(FILLER)
  {
    hide Filter, Find, StartsWith;
    var header := "+X+CMT:";
    NoCrIsBody(header);
    Unlike(header + CRLF, CMT, 1);
    Unlike(header + CRLF, CME_ERROR, 1);
    Unlike(header + CRLF, CMS_ERROR, 1);
    FilterBodyLine(header, FILLER);
  }

  lemma Unlike(s: string, pat: string, i: nat)
    requires i < |s| && i < |pat| && s[i] != pat[i]
    ensures !StartsWith(s, pat)
  {
    if |pat| <= |s| {
      assert s[..|pat|][i] == s[i];
    }
  }

  lemma KeptHeader(b: string, c: string)
    requires c == "+X+CMT:" + CRLF + FILLER
    ensures Blocks(b + c) != [] && Blocks(Filter(c)) == []
  {
    hide Filter, Find, BlockEnd, StartsWith;
    UnrelatedLine();
    FillerFilters();
    UnmarkedFiller();
    var k := |b| + 2;
    assert (b + c)[k..k + 5] == CMT;
    assert (b + c)[k + 5..k + 7] == CRLF;
    assert (b + c)[k + 8..k + 10] == CRLF;
    HasBlockIf(b + c, k, k + 5, k + 8);
  }

  lemma WholeLinesAndTail(b: string) returns (p: string, t: string)
    requires !Closed(b) && Find(b, CMT, 0) < 0
    ensures b == p + t && Closed(p) && IsBody(t) && t != "" && Find(p, CMT, 0) < 0
  {
    hide Find, LineStart, At;
    var r := LineStart(b, |b|);
    LineStartSplits(b, |b|);
    p, t := b[..r], b[r..];
    assert r == |b| ==> p == b;
    assert b == p + t;
    assert b[r..|b|] == t;
    SliceIsBody(b, r, |b|);
    UnmarkedPrefix(p, t);
  }

  lemma UnmarkedPrefix(p: string, t: string)
    requires Find(p + t, CMT, 0) < 0
    ensures Find(p, CMT, 0) < 0
  {
    hide Find;
    FindFirst(p + t, CMT, 0);
    forall j | 0 <= j ensures !At(p, CMT, j) {
      if j + 5 <= |p| {
        AtExtend(p, t, CMT, j);
      }
    }
    FindNone(p, CMT, 0);
  }

  // An unsafe clear with a mark revives a line that would have been deleted.
  lemma MarkedClearHarmful(b: string) returns (c: string)
    requires Filter(b) == b && !ClearIsSafe(b) && Find(b, CMT, 0) >= 0
    ensures Blocks(Filter(Clear(b) + c)) != Blocks(Filter(b + c))
  {
    hide *;
    c := CRLF + FILLER;
    var p, h, s := MarkedParts(b);
    FilteredHalves(p + (h + s), p, h + s);
    MarkedPrefixHasNoMark(p, h, s);
    HeldRemovableLine(h, s);
    ReportWithFiller(s);
    FillerFilters();
    UnmarkedLines(p, FILLER);
    UnmarkedFiller();
    assert s + c == s + CRLF + FILLER;
    assert b + c == p + (h + s + CRLF + FILLER);
    FilterSplit(p, h + s + CRLF + FILLER);
    FilterBodyLine(h + s, FILLER);
  }

  lemma MarkedPrefixHasNoMark(p: string, h: string, s: string)
    requires forall j :: 0 <= j < |p + h| ==> !At(p + (h + s), CMT, j)
    ensures Find(p, CMT, 0) < 0
  {
    forall j | 0 <= j ensures !At(p, CMT, j) {
      if j + 5 <= |p| {
        AtExtend(p, h + s, CMT, j);
      }
    }
    FindNone(p, CMT, 0);
  }

  lemma HeldRemovableLine(h: string, s: string)
    requires IsBody(h) && StartsWith(s, CMT) && Removable(h) && Filter(h + s) == h + s
    ensures IsBody(s) && IsBody(h + s) && Removable(h + s + CRLF)
  {
    assert h != "";
    hide Filter, Find, Removable, StartsWith;
    MarkedHead(s);
    FindPastBody(h, s);
    if Find(s, CRLF, 0) >= 0 {
      RemovedShrinks(h, s);
    }
    assert h + (s + CRLF) == h + s + CRLF;
    RemovableBeforeMark(h, s + CRLF);
  }

  lemma RemovedShrinks(h: string, s: string)
    requires IsBody(h) && StartsWith(s, CMT) && Removable(h) && Find(s, CRLF, 0) >= 0
    ensures |Filter(h + s)| < |h + s|
  {
    hide *;
    var line, rest := FirstMarkedLine(s);
    HeldLineIsLine(h, line);
    RemovedFirstLine(h + line, rest);
    assert (h + line) + rest == h + s;
  }

  lemma HeldLineIsLine(h: string, line: string)
    requires IsBody(h) && IsLine(line) && StartsWith(line, CMT) && Removable(h)
    ensures IsLine(h + line) && Removable(h + line)
  {
    assert h != "";
    hide Find, Removable;
    MarkedHead(line);
    FindPastBody(h, line);
    RemovableBeforeMark(h, line);
  }

  lemma RemovedFirstLine(line: string, rest: string)
    requires IsLine(line) && Removable(line)
    ensures |Filter(line + rest)| < |line + rest|
  {
    FilterLine(line, rest);
  }

  // Exactly when clearing command data can never change a delivery.
  lemma ClearSafety(b: string)
    requires Filter(b) == b
    ensures ClearIsSafe(b) <==> forall c :: Blocks(Filter(Clear(b) + c)) == Blocks(Filter(b + c))
  {
    if ClearIsSafe(b) {
      forall c ensures Blocks(Filter(Clear(b) + c)) == Blocks(Filter(b + c)) {
        ClearHarmless(b, c);
      }
    } else if Find(b, CMT, 0) < 0 {
      var c := UnmarkedClearHarmful(b);
    } else {
      var c := MarkedClearHarmful(b);
    }
  }
}
