// The text of one log line: colour codes removed in place, then its level, time stamp and tag.
module LogLines {
  import opened CStrings
  import opened LogText
  import opened Words
  import Utf8

  const ESC := 0x1b as char

  // ---------------------------------------------------------------- what rl_strip_line leaves

  // The byte that ends a control sequence "ESC [ ..." (ECMA-48, section 5.4).
  predicate IsFinal(c: char) {
    0x40 <= c as int <= 0x7e
  }

  // The text after the control sequence whose parameters start s.
  function AfterSequence(s: string): (r: string)
    ensures |r| <= |s|
  {
    if s == "" then ""
    else if IsFinal(s[0]) then s[1..]
    else AfterSequence(s[1..])
  }

  function Uncoloured(s: string): string
    decreases |s|
  {
    if s == "" then ""
    else if s[0] != ESC then [s[0]] + Uncoloured(s[1..])
    else if |s| > 1 && s[1] == '[' then Uncoloured(AfterSequence(s[2..]))
    else Uncoloured(s[1..])
  }

  predicate IsBreak(c: char) {
    c == '\n' || c == '\r'
  }

  function Chomp(s: string): (r: string)
    ensures r <= s
  {
    if s != "" && IsBreak(s[|s| - 1]) then Chomp(s[..|s| - 1]) else s
  }

  function Strip(s: string): string {
    Chomp(Uncoloured(s))
  }

  // ---------------------------------------------------------------- its properties

  // What follows a control sequence are the last characters of the text.
  lemma {:induction false} AfterIsSuffix(s: string)
    ensures var r := AfterSequence(s); r == s[|s| - |r|..]
  {
    if s != "" && !IsFinal(s[0]) {
      AfterIsSuffix(s[1..]);
    }
  }

  lemma {:induction false} NoEscapeLeft(s: string)
    ensures ESC !in Uncoloured(s) && |Uncoloured(s)| <= |s|
    ensures NulFree(s) ==> NulFree(Uncoloured(s))
    ensures IsBytes(s) ==> IsBytes(Uncoloured(s))
    decreases |s|
  {
    if s == "" {
    } else if s[0] != ESC {
      NoEscapeLeft(s[1..]);
    } else if |s| > 1 && s[1] == '[' {
      AfterIsSuffix(s[2..]);
      NoEscapeLeft(AfterSequence(s[2..]));
    } else {
      NoEscapeLeft(s[1..]);
    }
  }

  lemma {:induction false} PlainTextKept(s: string)
    requires ESC !in s
    ensures Uncoloured(s) == s
  {
    if s != "" {
      PlainTextKept(s[1..]);
    }
  }

  lemma {:induction false} ChompEnds(s: string)
    ensures var r := Chomp(s); (r == "" || !IsBreak(r[|r| - 1])) && Chomp(r) == r
    ensures forall i :: |Chomp(s)| <= i < |s| ==> IsBreak(s[i])
  {
    if s != "" && IsBreak(s[|s| - 1]) {
      ChompEnds(s[..|s| - 1]);
    }
  }

  // What is queued holds no escape character, ends in no line break, and is left alone by a
  // second pass.
  lemma StripSettles(s: string)
    ensures ESC !in Strip(s) && |Strip(s)| <= |s|
    ensures Strip(s) == "" || !IsBreak(Strip(s)[|Strip(s)| - 1])
    ensures Strip(Strip(s)) == Strip(s)
    ensures NulFree(s) ==> NulFree(Strip(s))
    ensures IsBytes(s) ==> IsBytes(Strip(s))
  {
    hide Uncoloured, Chomp;
    NoEscapeLeft(s);
    ChompEnds(Uncoloured(s));
    PlainTextKept(Strip(s));
  }

  // Stripping cuts no character in two: of UTF-8 it leaves UTF-8.
  lemma StripKeepsUtf8(s: string)
    requires Utf8.Valid(s)
    ensures Utf8.Valid(Strip(s))
  {
    UncolouredUtf8(s);
    ChompUtf8(Uncoloured(s));
  }

  lemma {:induction false} UncolouredUtf8(s: string)
    requires Utf8.Valid(s)
    ensures Utf8.Valid(Uncoloured(s))
    decreases |s|
  {
    if s == "" {
    } else if s[0] != ESC {
      var n := Utf8.CharLen(s);
      Utf8.WholeChar(s);
      assert s == s[..n] + s[n..];
      TextBefore(s[..n], s[n..]);
      UncolouredUtf8(s[n..]);
      Utf8.ValidConcat(s[..n], Uncoloured(s[n..]));
    } else if |s| > 1 && s[1] == '[' {
      assert s == s[..2] + s[2..];
      Utf8.AsciiThen(s[..2], s[2..]);
      AfterSequenceUtf8(s[2..]);
      UncolouredUtf8(AfterSequence(s[2..]));
    } else {
      UncolouredUtf8(s[1..]);
    }
  }

  lemma {:induction false} AfterSequenceUtf8(s: string)
    requires Utf8.Valid(s)
    ensures Utf8.Valid(AfterSequence(s))
    decreases |s|
  {
    if s != "" && !IsFinal(s[0]) {
      var n := Utf8.CharLen(s);
      PastBytes(s, n);
      AfterSequenceUtf8(s[n..]);
    }
  }

  // No byte of a character is a final byte unless it is the whole of it.
  lemma {:induction false} PastBytes(s: string, n: nat)
    requires n <= |s| && forall i :: 0 <= i < n ==> !IsFinal(s[i])
    ensures AfterSequence(s) == AfterSequence(s[n..])
  {
    if n > 0 {
      PastBytes(s[1..], n - 1);
      assert s[1..][n - 1..] == s[n..];
    } else {
      assert s[0..] == s;
    }
  }

  lemma {:induction false} ChompUtf8(s: string)
    requires Utf8.Valid(s)
    ensures Utf8.Valid(Chomp(s))
  {
    if s != "" && IsBreak(s[|s| - 1]) {
      var n := |s| - 1;
      assert s == s[..n] + s[n..];
      Utf8.SplitAtAscii(s[..n], s[n..]);
      ChompUtf8(s[..n]);
    }
  }

  lemma {:induction false} TextBefore(a: string, b: string)
    requires ESC !in a
    ensures Uncoloured(a + b) == a + Uncoloured(b)
  {
    if a == "" {
      assert a + b == b;
    } else {
      assert (a + b)[1..] == a[1..] + b;
      TextBefore(a[1..], b);
    }
  }

  function ControlSequence(params: string, final: char): string {
    [ESC, '['] + params + [final]
  }

  lemma {:induction false} SequenceEnds(params: string, final: char, b: string)
    requires IsFinal(final) && forall i :: 0 <= i < |params| ==> !IsFinal(params[i])
    ensures AfterSequence(params + [final] + b) == b
  {
    if params == "" {
      assert params + [final] + b == [final] + b;
      assert ([final] + b)[1..] == b;
    } else {
      assert (params + [final] + b)[1..] == params[1..] + [final] + b;
      SequenceEnds(params[1..], final, b);
    }
  }

  lemma SequenceRemoved(params: string, final: char, b: string)
    requires IsFinal(final) && forall i :: 0 <= i < |params| ==> !IsFinal(params[i])
    ensures Uncoloured(ControlSequence(params, final) + b) == Uncoloured(b)
  {
    var s := ControlSequence(params, final) + b;
    assert s[2..] == params + [final] + b;
    SequenceEnds(params, final, b);
  }

  // A coloured line as ESP-IDF prints it: the text between the colour codes is what is kept.
  lemma ColoursRemoved(before: string, text: string, after: string)
    requires ESC !in text && (text == "" || !IsBreak(text[|text| - 1]))
    requires forall i :: 0 <= i < |before| ==> !IsFinal(before[i])
    requires forall i :: 0 <= i < |after| ==> !IsFinal(after[i])
    ensures Strip(ControlSequence(before, 'm') + (text + (ControlSequence(after, 'm') + "\n"))) == text
  {
    hide Uncoloured, ControlSequence;
    SequenceRemoved(before, 'm', text + (ControlSequence(after, 'm') + "\n"));
    TextBefore(text, ControlSequence(after, 'm') + "\n");
    SequenceRemoved(after, 'm', "\n");
    PlainTextKept("\n");
    assert (text + "\n")[..|text|] == text;
    assert Chomp(text + "\n") == Chomp(text);
  }

  // What ends a control sequence, and what ESP-IDF's colours leave, in so many words.
  lemma ColourCodes(text: string)
    requires ESC !in text && (text == "" || text[|text| - 1] !in "\r\n")
    ensures Strip("\U{1b}[0;32m" + text + "\U{1b}[0m\r\n") == text
  {
    hide Uncoloured, Chomp;
    var before, after := "0;32", "0";
    assert "\U{1b}[0;32m" + text + "\U{1b}[0m\r\n"
        == ControlSequence(before, 'm') + (text + (ControlSequence(after, 'm') + "\r\n"));
    SequenceRemoved(before, 'm', text + (ControlSequence(after, 'm') + "\r\n"));
    TextBefore(text, ControlSequence(after, 'm') + "\r\n");
    SequenceRemoved(after, 'm', "\r\n");
    PlainTextKept("\r\n");
    ChompsBreaks(text);
    hide ControlSequence;
    assert Strip(ControlSequence(before, 'm') + (text + (ControlSequence(after, 'm') + "\r\n"))) == text;
  }

  lemma ChompsBreaks(text: string)
    requires text == "" || text[|text| - 1] !in "\r\n"
    ensures Chomp(text + "\r\n") == text
  {
    assert (text + "\r\n")[..|text| + 1] == text + "\r" && (text + "\r")[..|text|] == text;
    assert Chomp(text + "\r\n") == Chomp(text + "\r") == Chomp(text) == text;
  }

  // A sequence ends at its first byte from @ to ~; an escape character that starts none is dropped
  // by itself, and an unfinished sequence to the end of the text.
  lemma SequencesRemoved(params: string, final: char, rest: string)
    requires forall i :: 0 <= i < |params| ==> !('@' <= params[i] <= '~')
    ensures '@' <= final <= '~' ==> Uncoloured("\U{1b}[" + params + [final] + rest) == Uncoloured(rest)
    ensures Uncoloured("\U{1b}[" + params) == ""
    ensures rest == "" || rest[0] != '[' ==> Uncoloured("\U{1b}" + rest) == Uncoloured(rest)
  {
    if '@' <= final <= '~' {
      SequenceRemoved(params, final, rest);
      assert "\U{1b}[" + params + [final] + rest == ControlSequence(params, final) + rest;
    }
    Unfinished(params);
    assert ("\U{1b}[" + params)[2..] == params;
    assert ("\U{1b}" + rest)[1..] == rest;
  }

  lemma {:induction false} Unfinished(params: string)
    requires forall i :: 0 <= i < |params| ==> !IsFinal(params[i])
    ensures AfterSequence(params) == ""
  {
    if params != "" {
      Unfinished(params[1..]);
    }
  }

  // ---------------------------------------------------------------- rl_strip_line

  method StripLine(buf: array<char>, len: nat) returns (w: nat)
    requires len < buf.Length
    modifies buf
    ensures w <= len && buf[..w] == Strip(old(buf[..len])) && buf[w] == NUL
  {
    hide *;
    ghost var was := buf[..len];
    var r: nat := 0;
    w := 0;
    assert buf[0..len] == was && buf[..0] + Uncoloured(was) == Uncoloured(was);
    while r < len
      invariant w <= r <= len
      invariant buf[..w] + Uncoloured(buf[r..len]) == Uncoloured(was)
    {
      if buf[r] == ESC {
        r := SkipEscape(buf, r, len);
      } else {
        ghost var out, rest := buf[..w], buf[r + 1..len];
        var c := buf[r];
        UncolouredChar(buf[r..len], rest);
        Shift(out, c, Uncoloured(rest));
        buf[w] := c;
        assert buf[..w + 1] == out + [c] && buf[r + 1..len] == rest;
        w := w + 1;
        r := r + 1;
      }
    }
    UncolouredNil(buf[r..len]);
    assert buf[..w] + "" == buf[..w];
    w := ChompLine(buf, w);
    StripIs(was);
    ghost var kept := buf[..w];
    buf[w] := NUL;
    assert buf[..w] == kept;
  }

  lemma StripIs(s: string)
    ensures Strip(s) == Chomp(Uncoloured(s))
  {
  }

  // Past an escape character, with the control sequence it starts if it starts one.
  method SkipEscape(buf: array<char>, from: nat, len: nat) returns (r: nat)
    requires from < len <= buf.Length && buf[from] == ESC
    ensures from < r <= len && Uncoloured(buf[r..len]) == Uncoloured(buf[from..len])
  {
    hide Uncoloured, AfterSequence;
    ghost var s := buf[from..len];
    UncolouredEscape(s);
    if from + 1 < len && buf[from + 1] == '[' {
      r := SkipSequence(buf, from + 2, len);
      assert s[2..] == buf[from + 2..len];
      assert r < len ==> buf[from + 2..len][r - (from + 2) + 1..] == buf[r + 1..len];
      r := if r < len then r + 1 else len;
      assert buf[len..len] == "";
    } else {
      assert s[1..] == buf[from + 1..len];
      r := from + 1;
    }
  }

  method ChompLine(buf: array<char>, len: nat) returns (w: nat)
    requires len <= buf.Length
    ensures w <= len && buf[..w] == Chomp(buf[..len])
  {
    hide Chomp;
    w := len;
    while w > 0 && IsBreak(buf[w - 1])
      invariant w <= len
      invariant Chomp(buf[..w]) == Chomp(buf[..len])
    {
      ChompStep(buf[..w]);
      assert buf[..w][..w - 1] == buf[..w - 1];
      w := w - 1;
    }
    ChompStep(buf[..w]);
  }

  lemma UncolouredChar(s: string, rest: string)
    requires s != "" && s[0] != ESC && rest == s[1..]
    ensures Uncoloured(s) == [s[0]] + Uncoloured(rest)
  {
  }

  lemma UncolouredEscape(s: string)
    requires s != "" && s[0] == ESC
    ensures |s| > 1 && s[1] == '[' ==> Uncoloured(s) == Uncoloured(AfterSequence(s[2..]))
    ensures !(|s| > 1 && s[1] == '[') ==> Uncoloured(s) == Uncoloured(s[1..])
  {
  }

  lemma UncolouredNil(s: string)
    requires s == ""
    ensures Uncoloured(s) == ""
  {
  }

  lemma Shift(a: string, c: char, b: string)
    ensures a + ([c] + b) == (a + [c]) + b
  {
  }

  lemma ChompStep(s: string)
    ensures s != "" && IsBreak(s[|s| - 1]) ==> Chomp(s) == Chomp(s[..|s| - 1])
    ensures !(s != "" && IsBreak(s[|s| - 1])) ==> Chomp(s) == s
  {
  }

  // Up to the byte that ends the sequence, or the end of the text.
  method SkipSequence(buf: array<char>, from: nat, len: nat) returns (r: nat)
    requires from <= len <= buf.Length
    ensures from <= r <= len
    ensures AfterSequence(buf[from..len]) == if r < len then buf[from..len][r - from + 1..] else ""
  {
    hide *;
    ghost var s := buf[from..len];
    r := from;
    assert s[0..] == s;
    while r < len && !IsFinal(buf[r])
      invariant from <= r <= len
      invariant AfterSequence(s) == AfterSequence(s[r - from..])
    {
      AfterByte(s, r - from);
      r := r + 1;
    }
    if r < len {
      AfterFinal(s, r - from);
    } else {
      AfterAll(s);
    }
  }

  lemma AfterByte(s: string, k: nat)
    requires k < |s| && !IsFinal(s[k])
    ensures AfterSequence(s[k..]) == AfterSequence(s[k + 1..])
  {
    assert s[k..][1..] == s[k + 1..];
  }

  lemma AfterFinal(s: string, k: nat)
    requires k < |s| && IsFinal(s[k])
    ensures AfterSequence(s[k..]) == s[k + 1..]
  {
    assert s[k..][1..] == s[k + 1..];
  }

  lemma AfterAll(s: string)
    ensures AfterSequence(s[|s|..]) == ""
  {
  }

  // ---------------------------------------------------------------- rl_parse_prefix

  method ReadPrefix(line: string) returns (p: Prefix)
    ensures p == ParsePrefix(line)
  {
    hide DigitsLen, DigitsValue, Before;
    if |line| < 4 || line[0] !in "EWIDV" || line[1] != ' ' || line[2] != '(' || !IsDigit(line[3]) {
      return NoPrefix;
    }
    var i, ts := ReadDigits(line, 3);
    ghost var rest := line[3 + DigitsLen(line[3..])..];
    assert rest == line[i..] && line[3..][..i - 3] == line[3..i];
    if |line| - i < 2 || line[i] != ')' || line[i + 1] != ' ' {
      return NoPrefix;
    }
    var colon := FindChar(line, i + 2, ':');
    assert rest[2..] == line[i + 2..];
    if colon == |line| || colon == i + 2 {
      return NoPrefix;
    }
    return Prefix(line[0], line[i + 2..colon], ts);
  }

  // The decimal digits at from: where they end, and their value in 32 bits.
  method ReadDigits(line: string, from: nat) returns (i: nat, v: nat)
    requires from <= |line|
    ensures i == from + DigitsLen(line[from..]) <= |line|
    ensures AllDigits(line[from..i]) && v == DigitsValue(line[from..i])
  {
    hide DigitsLen, DigitsValue;
    i, v := from, 0;
    ValueNil(line[from..from]);
    while i < |line| && IsDigit(line[i])
      invariant from <= i <= |line| && AllDigits(line[from..i])
      invariant v == DigitsValue(line[from..i])
      invariant DigitsLen(line[from..]) == i - from + DigitsLen(line[i..])
    {
      assert line[i..][1..] == line[i + 1..];
      assert line[from..i + 1] == line[from..i] + [line[i]];
      ValueSnoc(line[from..i], line[i]);
      v := (v * 10 + DigitOf(line[i])) % WORD;
      i := i + 1;
    }
  }

  lemma ValueNil(s: string)
    requires s == ""
    ensures DigitsValue(s) == 0
  {
  }

  lemma ValueSnoc(s: string, c: char)
    requires AllDigits(s) && IsDigit(c)
    ensures AllDigits(s + [c]) && DigitsValue(s + [c]) == (DigitsValue(s) * 10 + DigitOf(c)) % WORD
  {
    assert (s + [c])[..|s|] == s;
  }

  // strchr: the first c at or after from, or the end of the text.
  method FindChar(s: string, from: nat, c: char) returns (k: nat)
    requires from <= |s|
    ensures from <= k <= |s| && s[from..k] == Before(s[from..], c)
    ensures k < |s| ==> s[k] == c
  {
    k := from;
    while k < |s| && s[k] != c
      invariant from <= k <= |s| && c !in s[from..k]
    {
      k := k + 1;
    }
    assert s[from..][..k - from] == s[from..k];
  }

  method ReadFields(item: string) returns (f: Fields)
    ensures f == FieldsOf(item)
  {
    var p := ReadPrefix(item);
    f := Fields('I', "raw", 0);
    if p.Prefix? {
      f := Fields(p.level, if '"' in p.tag || '\\' in p.tag then "raw" else p.tag, p.ts);
    }
  }
}
