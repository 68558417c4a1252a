// The JSON text of a batch of log lines, as it is printed and as RFC 8259 reads it back.
module LogText {
  import opened CStrings
  import opened Hex
  import opened Sequences
  import opened Words
  import Utf8

  // ---------------------------------------------------------------- printing

  // %lu
  function Dec(n: nat): (s: string)
    ensures s != "" && AllDigits(s)
  {
    if n < 10 then [Digit(n)] else Dec(n / 10) + [Digit(n % 10)]
  }

  predicate IsDigit(c: char) {
    '0' <= c <= '9'
  }

  function Digit(n: nat): (c: char)
    requires n < 10
    ensures IsDigit(c) && c as int == n + '0' as int
  {
    (n + '0' as int) as char
  }

  // %x, one digit
  function LowerDigit(n: nat): (c: char)
    requires n < 16
    ensures HexVal(c) == n
  {
    if n < 10 then (n + '0' as int) as char else (n - 10 + 'a' as int) as char
  }

  // One character of rl_json_escape.
  function EscapeChar(c: char): (s: string)
    ensures 1 <= |s| <= 6
  {
    if c == '"' || c == '\\' then ['\\', c]
    else if c < ' ' then ['\\', 'u', '0', '0', LowerDigit(c as int / 16), LowerDigit(c as int % 16)]
    else [c]
  }

  // Quotes, backslashes and control characters are escaped, nothing else.
  lemma EscapeTexts(c: char)
    ensures EscapeChar('"') == "\\\"" && EscapeChar('\\') == "\\\\"
    ensures EscapeChar('\n') == "\\u000a" && EscapeChar('\U{1f}') == "\\u001f"
    ensures c >= ' ' && c != '"' && c != '\\' ==> EscapeChar(c) == [c]
  {
  }

  function Escape(s: string): string {
    FlatMap(EscapeChar, s)
  }

  // ---------------------------------------------------------------- the fields of a line

  datatype Prefix = NoPrefix | Prefix(level: char, tag: string, ts: nat)

  // The digits at the start of s: how many, and their value modulo 2^32.
  function DigitsLen(s: string): (n: nat)
    ensures n <= |s| && AllDigits(s[..n])
    ensures n < |s| ==> !IsDigit(s[n])
  {
    if s == "" || !IsDigit(s[0]) then 0
    else
      assert s[..1 + DigitsLen(s[1..])] == [s[0]] + s[1..][..DigitsLen(s[1..])];
      1 + DigitsLen(s[1..])
  }

  function DigitsValue(s: string): (v: nat)
    requires AllDigits(s)
    ensures v < WORD
  {
    if s == "" then 0 else (DigitsValue(s[..|s| - 1]) * 10 + DigitOf(s[|s| - 1])) % WORD
  }

  predicate AllDigits(s: string) {
    forall i :: 0 <= i < |s| ==> IsDigit(s[i])
  }

  function DigitOf(c: char): (v: nat)
    requires IsDigit(c)
    ensures v < 10
  {
    c as int - '0' as int
  }

  // rl_parse_prefix: "L (12345) tag: ..."
  function ParsePrefix(line: string): Prefix {
    if |line| < 4 || line[0] !in "EWIDV" || line[1] != ' ' || line[2] != '(' || !IsDigit(line[3]) then NoPrefix
    else
      var n := DigitsLen(line[3..]);
      var p := line[3 + n..];
      if |p| < 2 || p[0] != ')' || p[1] != ' ' then NoPrefix
      else
        var tag := Before(p[2..], ':');
        if |tag| == |p| - 2 || tag == "" then NoPrefix
        else Prefix(line[0], tag, DigitsValue(line[3..][..n]))
  }

  // The text before the first c (all of it if there is none).
  function Before(s: string, c: char): (r: string)
    ensures r <= s && c !in r
    ensures |r| < |s| ==> s[|r|] == c
  {
    if s == "" || s[0] == c then "" else [s[0]] + Before(s[1..], c)
  }

  datatype Fields = Fields(level: char, tag: string, ts: nat)

  // What rl_batch_append prints beside the text: a tag with a quote or a backslash becomes "raw".
  function FieldsOf(item: string): Fields {
    match ParsePrefix(item)
    case NoPrefix => Fields('I', "raw", 0)
    case Prefix(level, tag, ts) =>
      Fields(level, if '"' in tag || '\\' in tag then "raw" else tag, ts)
  }

  lemma FieldsBounded(item: string)
    ensures var f := FieldsOf(item);
            && f.level in "EWIDV" && f.ts < WORD && |f.tag| <= |item| + 3
            && '"' !in f.tag && '\\' !in f.tag
  {
  }

  // ---------------------------------------------------------------- lines and batches

  const LEVEL_KEY := "{\"level\":\""
  const TAG_KEY := "\",\"tag\":\""
  const TS_KEY := "\",\"ts_ms\":"
  const MSG_KEY := ",\"msg\":\""
  const LINE_END := "\"}"
  const DEVICE_KEY := "{\"device\":\""
  const PHONE_KEY := "\",\"phone\":\""
  const SEQ_KEY := "\",\"seq\":"
  const DROPPED_KEY := ",\"dropped\":"
  const LINES_KEY := ",\"lines\":["
  const BATCH_END := "]}"

  // The part of a line before its text.
  function FieldsText(f: Fields): string {
    LEVEL_KEY + [f.level] + TAG_KEY + f.tag + TS_KEY + Dec(f.ts) + MSG_KEY
  }

  function LineHead(item: string): string {
    FieldsText(FieldsOf(item))
  }

  function LineText(item: string): string {
    LineHead(item) + Escape(item) + LINE_END
  }

  datatype Header = Header(device: string, phone: string, seqNo: nat, dropped: nat)

  function HeaderText(h: Header): string {
    DEVICE_KEY + h.device + PHONE_KEY + h.phone + SEQ_KEY + Dec(h.seqNo) + DROPPED_KEY + Dec(h.dropped) + LINES_KEY
  }

  function LinesText(items: seq<string>): string {
    if items == [] then ""
    else
      var n := |items| - 1;
      LinesText(items[..n]) + (if n == 0 then "" else ",") + LineText(items[n])
  }

  function Render(h: Header, items: seq<string>): string {
    HeaderText(h) + LinesText(items)
  }

  // ---------------------------------------------------------------- sizes

  lemma {:induction false} DecLength(n: nat, digits: nat)
    requires digits > 0 && n < Pow10(digits)
    ensures |Dec(n)| <= digits
    decreases digits
  {
    if n >= 10 {
      DecLength(n / 10, digits - 1);
    }
  }

  function Pow10(n: nat): nat {
    if n == 0 then 1 else 10 * Pow10(n - 1)
  }

  lemma WordLength(n: nat)
    requires n < WORD
    ensures |Dec(n)| <= 10
  {
    assert Pow10(5) == 100000;
    assert Pow10(10) == 10000000000;
    DecLength(n, 10);
  }

  lemma {:induction false} EscapeLength(s: string)
    ensures |s| <= |Escape(s)| <= 6 * |s|
  {
    if s != "" {
      hide EscapeChar;
      assert s == [s[0]] + s[1..];
      FlatMapCons(EscapeChar, s[0], s[1..]);
      EscapeLength(s[1..]);
    }
  }

  // A batch of one line of at most 255 bytes fits in 4092 bytes with room to spare.
  lemma OneLineFits(h: Header, item: string)
    requires |h.device| <= 31 && |h.phone| <= 23 && h.seqNo < WORD && h.dropped < WORD && |item| <= 255
    ensures |HeaderText(h)| <= 125 && |LineHead(item)| <= 311
    ensures |Render(h, [item])| <= 2048
  {
    WordLength(h.seqNo);
    WordLength(h.dropped);
    FieldsBounded(item);
    WordLength(FieldsOf(item).ts);
    EscapeLength(item);
    OneLine(item);
  }

  lemma OneLine(item: string)
    ensures LinesText([item]) == LineText(item)
  {
    assert [item][..0] == [];
    assert LinesText([]) + "" + LineText(item) == LineText(item);
  }

  // ---------------------------------------------------------------- reading JSON back

  // A parser's result: the value and the text after it.
  datatype Read<T> = Bad | Good(value: T, rest: string) {
    predicate IsFailure() { Bad? }
    function PropagateFailure<U>(): Read<U> requires Bad? { Bad }
    function Extract(): (T, string) requires Good? { (value, rest) }
  }

  function Expect(s: string, text: string): Read<()> {
    if text <= s then Good((), s[|text|..]) else Bad
  }

  function ReadNat(s: string): Read<nat> {
    var n := DigitsLen(s);
    if n == 0 then Bad else Good(ValueOf(s[..n]), s[n..])
  }

  function ValueOf(s: string): nat
    requires AllDigits(s)
  {
    if s == "" then 0 else ValueOf(s[..|s| - 1]) * 10 + DigitOf(s[|s| - 1])
  }

  // A number and its decimal digits.
  lemma DecimalExample()
    ensures Dec(4093) == "4093" && ValueOf("4093") == 4093
  {
    assert Dec(40) == "4" + "0" == "40";
    assert Dec(409) == "40" + "9" == "409";
    assert "4093"[..3] == "409" && "409"[..2] == "40" && "40"[..1] == "4" && "4"[..0] == "";
    assert ValueOf("4") == 4 && ValueOf("40") == 40 && ValueOf("409") == 409;
  }

  // The 32-bit accumulation yields the number modulo 2^32.
  lemma {:induction false} DigitsWrap(s: string)
    requires AllDigits(s)
    ensures DigitsValue(s) == ValueOf(s) % WORD
  {
    if s != "" {
      DigitsWrap(s[..|s| - 1]);
      WrapStep(ValueOf(s[..|s| - 1]), DigitOf(s[|s| - 1]));
    }
  }

  lemma WrapStep(v: nat, d: nat)
    ensures (v % WORD * 10 + d) % WORD == (v * 10 + d) % WORD
  {
    var q, a := v / WORD, v % WORD * 10 + d;
    assert v * 10 + d == a + 10 * q * WORD;
    assert a == a / WORD * WORD + a % WORD;
    assert v * 10 + d == (a / WORD + 10 * q) * WORD + a % WORD;
  }

  // The bytes that the first character or escape of a JSON string stands for (RFC 8259, section 7;
  // of escaped code units those that are no surrogates).
  function NextChar(s: string): (r: Read<string>)
    requires s != "" && s[0] != '"'
    ensures r.Good? ==> |r.rest| < |s| && r.rest == s[|s| - |r.rest|..]
  {
    if s[0] < ' ' then Bad
    else if s[0] != '\\' then Good([s[0]], s[1..])
    else if |s| >= 6 && s[1] == 'u' then
      var u := HexUnit(s[2], s[3], s[4], s[5]);
      if u < 0 || Utf8.Surrogate(u) then Bad else Good(Utf8.Encode(u), s[6..])
    else if |s| >= 2 && Unescape(s[1]).Good? then Good([Unescape(s[1]).value], s[2..])
    else Bad
  }

  // All of them, up to the closing quote.
  function ReadChars(s: string): Read<string>
    decreases |s|
  {
    if s == "" then Bad
    else if s[0] == '"' then Good("", s[1..])
    else
      var (c, more) :- NextChar(s);
      var (t, rest) :- ReadChars(more);
      Good(c + t, rest)
  }

  // Four hexadecimal digits, or -1.
  function HexUnit(a: char, b: char, c: char, d: char): (u: int)
    ensures -1 <= u < 0x10000
    ensures u >= 0 ==> a != '"' && b != '"' && c != '"' && d != '"'
  {
    if HexVal(a) < 0 || HexVal(b) < 0 || HexVal(c) < 0 || HexVal(d) < 0 then -1
    else HexVal(a) * 4096 + HexVal(b) * 256 + HexVal(c) * 16 + HexVal(d)
  }

  // A JSON string: what is read must be UTF-8 (section 8.1).
  function ReadString(s: string): (r: Read<string>)
    ensures r.Good? ==> |r.rest| < |s|
  {
    CharsRead(s);
    var (t, rest) :- ReadChars(s);
    if Utf8.Valid(s[..|s| - |rest|]) then Good(t, rest) else Bad
  }

  // What is left is what follows a quote.
  lemma {:induction false} CharsRead(s: string)
    ensures var r := ReadChars(s);
            r.Good? ==> |r.rest| < |s| && s[|s| - |r.rest|..] == r.rest && s[|s| - |r.rest| - 1] == '"'
    decreases |s|
  {
    hide NextChar;
    if s != "" && s[0] != '"' && NextChar(s).Good? {
      CharsRead(NextChar(s).rest);
    }
  }

  // Escapes take more bytes than they stand for, and every quote passed over is one of the bytes.
  lemma {:induction false} CharsCounted(s: string)
    ensures var r := ReadChars(s);
            r.Good? ==>
              && |r.value| + 1 + |r.rest| <= |s|
              && (|r.value| + 1 + |r.rest| == |s| ==> Plain(r.value))
              && Quotes(r.value) + 1 + Quotes(r.rest) >= Quotes(s)
    decreases |s|
  {
    hide NextChar, Quotes, Plain;
    PlainNothing();
    if s != "" && s[0] == '"' {
      FirstQuote(s);
    } else if s != "" && NextChar(s).Good? {
      CharCounted(s);
      CharsCounted(NextChar(s).rest);
      if ReadChars(NextChar(s).rest).Good? {
        ValueSplit(NextChar(s).value, ReadChars(NextChar(s).rest).value);
      }
    }
  }

  lemma PlainNothing()
    ensures Plain("") && Quotes("") == 0
  {
  }

  lemma FirstQuote(s: string)
    requires s != "" && s[0] == '"'
    ensures Quotes(s) == 1 + Quotes(s[1..])
  {
    assert s == [s[0]] + s[1..];
  }

  lemma CharCounted(s: string)
    requires s != "" && s[0] != '"' && NextChar(s).Good?
    ensures var r := NextChar(s);
            && |r.value| + |r.rest| <= |s|
            && (|r.value| + |r.rest| == |s| ==> Plain(r.value))
            && Quotes(r.value) + Quotes(r.rest) >= Quotes(s)
  {
    hide HexUnit, Utf8.Encode, Utf8.Surrogate, Quotes;
    if s[0] != '\\' {
      SplitCounted(s, 1);
      assert s[..1] == [s[0]];
    } else if |s| >= 6 && s[1] == 'u' {
      SplitCounted(s, 6);
      assert s[..6] == [s[0], s[1], s[2], s[3], s[4], s[5]];
      NoQuotes(s[..6]);
    } else {
      SplitCounted(s, 2);
      assert s[..2] == [s[0]] + [s[1]];
      ValueSplit([s[0]], [s[1]]);
      NoQuotes([s[0]]);
      if s[1] != '"' {
        NoQuotes([s[1]]);
      }
    }
  }

  lemma SplitCounted(s: string, n: nat)
    requires n <= |s|
    ensures Quotes(s) == Quotes(s[..n]) + Quotes(s[n..])
  {
    assert s == s[..n] + s[n..];
  }

  lemma NoQuotes(s: string)
    requires '"' !in s
    ensures Quotes(s) == 0
  {
  }

  function Quotes(s: string): nat {
    multiset(s)['"']
  }

  lemma ValueSplit(a: string, b: string)
    ensures Quotes(a + b) == Quotes(a) + Quotes(b)
    ensures Plain(a + b) <==> Plain(a) && Plain(b)
  {
    assert forall i :: 0 <= i < |a| ==> (a + b)[i] == a[i];
    assert forall i :: 0 <= i < |b| ==> (a + b)[|a| + i] == b[i];
  }

  function Unescape(c: char): Read<char> {
    if c == '"' || c == '\\' || c == '/' then Good(c, "")
    else if c == 'b' then Good(8 as char, "")
    else if c == 'f' then Good(12 as char, "")
    else if c == 'n' then Good('\n', "")
    else if c == 'r' then Good('\r', "")
    else if c == 't' then Good('\t', "")
    else Bad
  }

  datatype LogLine = LogLine(level: string, tag: string, ts: nat, msg: string)

  datatype Batch = Batch(device: string, phone: string, seqNo: nat, dropped: nat, lines: seq<LogLine>)

  // Keys end with the quote that opens a string value, or are followed by a number.
  function ReadLine(s: string): Read<LogLine> {
    var (_, s1) :- Expect(s, LEVEL_KEY);
    var (level, s2) :- ReadString(s1);
    var (_, s3) :- Expect(s2, TAG_KEY[1..]);
    var (tag, s4) :- ReadString(s3);
    var (_, s5) :- Expect(s4, TS_KEY[1..]);
    var (ts, s6) :- ReadNat(s5);
    var (_, s7) :- Expect(s6, MSG_KEY);
    var (msg, s8) :- ReadString(s7);
    var (_, s9) :- Expect(s8, LINE_END[1..]);
    Good(LogLine(level, tag, ts, msg), s9)
  }

  function ReadLines(s: string): Read<seq<LogLine>>
    decreases |s|
  {
    var (line, rest) :- ReadLine(s);
    if rest != "" && rest[0] == ',' && |rest| < |s| then
      var (more, end) :- ReadLines(rest[1..]);
      Good([line] + more, end)
    else Good([line], rest)
  }

  function ReadBatch(s: string): Read<Batch> {
    var (_, s1) :- Expect(s, DEVICE_KEY);
    var (device, s2) :- ReadString(s1);
    var (_, s3) :- Expect(s2, PHONE_KEY[1..]);
    var (phone, s4) :- ReadString(s3);
    var (_, s5) :- Expect(s4, SEQ_KEY[1..]);
    var (seqNo, s6) :- ReadNat(s5);
    var (_, s7) :- Expect(s6, DROPPED_KEY);
    var (dropped, s8) :- ReadNat(s7);
    var (_, s9) :- Expect(s8, LINES_KEY);
    var (lines, s10) :- ReadLines(s9);
    var (_, s11) :- Expect(s10, BATCH_END);
    if s11 == "" then Good(Batch(device, phone, seqNo, dropped, lines), "") else Bad
  }

  // ---------------------------------------------------------------- escaping and its inverse

  lemma ReadEscapedChar(c: char, s: string)
    requires c as int < 0x100 && ReadChars(s).Good?
    ensures ReadChars(EscapeChar(c) + s) == Good([c] + ReadChars(s).value, ReadChars(s).rest)
  {
    NextEscaped(c, s, EscapeChar(c) + s);
    hide NextChar, EscapeChar;
  }

  lemma NextEscaped(c: char, s: string, es: string)
    requires c as int < 0x100 && es == EscapeChar(c) + s
    ensures es != "" && es[0] != '"' && NextChar(es) == Good([c], s)
  {
    assert es[|EscapeChar(c)|..] == s;
    if c == '"' || c == '\\' {
      assert es[0] == '\\' && es[1] == c;
    } else if c < ' ' {
      var a, b := LowerDigit(c as int / 16), LowerDigit(c as int % 16);
      assert es[0] == '\\' && es[1] == 'u' && es[2] == '0' && es[3] == '0' && es[4] == a && es[5] == b;
    } else {
      assert es[0] == c;
    }
  }

  lemma ReadQuote(x: string)
    ensures ReadChars("\"" + x) == Good("", x)
  {
    assert ("\"" + x)[1..] == x;
  }

  // Reading the bytes of an escaped text back.
  lemma {:induction false} ReadEscapedChars(t: string, x: string)
    requires forall i :: 0 <= i < |t| ==> t[i] as int < 0x100
    ensures ReadChars(Escape(t) + ("\"" + x)) == Good(t, x)
  {
    hide FlatMap, EscapeChar, ReadChars;
    if t == "" {
      FlatMapNil(EscapeChar);
      assert "" + ("\"" + x) == "\"" + x;
      ReadQuote(x);
    } else {
      var rest := Escape(t[1..]) + ("\"" + x);
      assert t == [t[0]] + t[1..];
      FlatMapCons(EscapeChar, t[0], t[1..]);
      ReadEscapedChars(t[1..], x);
      assert Escape(t) + ("\"" + x) == EscapeChar(t[0]) + rest;
      ReadEscapedChar(t[0], rest);
    }
  }

  // No quote, backslash or control character: such text may stand in a string as it is.
  predicate Plain(s: string) {
    forall i :: 0 <= i < |s| ==> s[i] != '"' && s[i] != '\\' && s[i] >= ' '
  }

  // The bytes of raw text without quotes and backslashes are read back exactly when it is plain.
  lemma {:induction false} ReadRawChars(t: string, x: string)
    requires '"' !in t && '\\' !in t
    ensures Plain(t) ==> ReadChars(t + ("\"" + x)) == Good(t, x)
    ensures !Plain(t) ==> ReadChars(t + ("\"" + x)) == Bad
  {
    if t == "" {
      assert "" + ("\"" + x) == "\"" + x;
    } else {
      var s := t[1..] + ("\"" + x);
      assert t + ("\"" + x) == [t[0]] + s;
      assert ([t[0]] + s)[1..] == s;
      assert Plain(t) <==> t[0] >= ' ' && Plain(t[1..]) by {
        assert t == [t[0]] + t[1..];
      }
      ReadRawChars(t[1..], x);
    }
  }

  // Bytes above ASCII at the start of s.
  function HighRun(s: string): (n: nat)
    ensures n <= |s| && forall i :: 0 <= i < n ==> s[i] as int >= 0x80
    ensures n < |s| ==> s[n] as int < 0x80
  {
    if s == "" || s[0] as int < 0x80 then 0 else 1 + HighRun(s[1..])
  }

  lemma {:induction false} HighKept(p: string, q: string)
    requires forall i :: 0 <= i < |p| ==> p[i] as int >= 0x80
    ensures Escape(p + q) == p + Escape(q)
  {
    hide FlatMap;
    if p == "" {
      assert p + q == q;
    } else {
      assert p + q == [p[0]] + (p[1..] + q);
      FlatMapCons(EscapeChar, p[0], p[1..] + q);
      HighKept(p[1..], q);
      assert [p[0]] + (p[1..] + Escape(q)) == p + Escape(q);
    }
  }

  // Escaping neither makes nor breaks UTF-8.
  lemma {:induction false} EscapedValid(t: string)
    ensures Utf8.Valid(Escape(t)) <==> Utf8.Valid(t)
    decreases |t|
  {
    hide FlatMap, Utf8.Valid;
    var n := HighRun(t);
    if t == "" {
      FlatMapNil(EscapeChar);
    } else if n == 0 {
      assert t == [t[0]] + t[1..];
      FlatMapCons(EscapeChar, t[0], t[1..]);
      Utf8.AsciiThen([t[0]], t[1..]);
      Utf8.AsciiThen(EscapeChar(t[0]), Escape(t[1..]));
      EscapedValid(t[1..]);
    } else {
      var p, q := t[..n], t[n..];
      assert t == p + q;
      HighKept(p, q);
      if q == "" {
        FlatMapNil(EscapeChar);
        assert p + Escape(q) == p && p + q == p;
      } else {
        EscapedStart(q);
        Utf8.SplitAtAscii(p, q);
        Utf8.SplitAtAscii(p, Escape(q));
        EscapedValid(q);
      }
    }
  }

  lemma EscapedStart(q: string)
    requires q != "" && q[0] as int < 0x80
    ensures Escape(q) != "" && Escape(q)[0] as int < 0x80
  {
    assert q == [q[0]] + q[1..];
    FlatMapCons(EscapeChar, q[0], q[1..]);
  }

  lemma QuotedFront(t: string, x: string)
    ensures (t + ("\"" + x))[..|t + ("\"" + x)| - |x|] == t + "\""
  {
  }

  lemma PlainNoQuotes(t: string)
    requires Plain(t)
    ensures '"' !in t && '\\' !in t
  {
  }

  // What a string's bytes are worth as a JSON string.
  lemma StringRead(raw: string, t: string, x: string)
    requires ReadChars(raw + ("\"" + x)) == Good(t, x)
    ensures ReadString(raw + ("\"" + x)) == if Utf8.Valid(raw) then Good(t, x) else Bad
  {
    hide ReadChars, Utf8.Valid;
    QuotedFront(raw, x);
    Utf8.SplitAtAscii(raw, "\"");
    Utf8.AsciiValid("\"");
  }

  // A JSON reader gives back an escaped text exactly when it is UTF-8.
  lemma ReadEscaped(t: string, x: string)
    requires IsBytes(t)
    ensures ReadString(Escape(t) + ("\"" + x)) == if Utf8.Valid(t) then Good(t, x) else Bad
  {
    ReadEscapedChars(t, x);
    EscapedValid(t);
    StringRead(Escape(t), t, x);
  }

  // Text that may stand in a JSON string as it is.
  predicate Clean(s: string) {
    Plain(s) && Utf8.Valid(s)
  }

  // Raw text without quotes and backslashes is read back exactly when it is clean, and is no JSON
  // string otherwise.
  lemma ReadRaw(t: string, x: string)
    requires '"' !in t && '\\' !in t
    ensures ReadString(t + ("\"" + x)) == if Clean(t) then Good(t, x) else Bad
  {
    ReadRawChars(t, x);
    if Plain(t) {
      StringRead(t, t, x);
    }
  }

  // Any raw text is read back as itself exactly when it is clean.
  lemma ReadName(t: string, x: string)
    ensures var r := ReadString(t + ("\"" + x));
            && (Clean(t) ==> r == Good(t, x))
            && (r.Good? && r.value == t ==> Clean(t))
  {
    hide ReadChars, Utf8.Valid, Plain, Quotes;
    if Clean(t) {
      PlainNoQuotes(t);
      ReadRaw(t, x);
    }
    var s := t + ("\"" + x);
    var r := ReadString(s);
    if r.Good? && r.value == t {
      CharsRead(s);
      CharsCounted(s);
      if |r.rest| < |x| {
        RestInside(t, x, r.rest);
      } else {
        assert |r.rest| == |x|;
        QuotedFront(t, x);
        Utf8.SplitAtAscii(t, "\"");
      }
    }
  }

  // Reading past the end of t leaves one of its quotes uncounted.
  lemma RestInside(t: string, x: string, rest: string)
    requires var s := t + ("\"" + x);
             |rest| < |x| && s[|s| - |rest|..] == rest && s[|s| - |rest| - 1] == '"'
    ensures Quotes(t + ("\"" + x)) >= Quotes(t) + 2 + Quotes(rest)
  {
    var s, k := t + ("\"" + x), |x| - |rest|;
    assert x[k..] == rest && x[k - 1] == '"';
    assert x[..k] == x[..k - 1] + ["\""[0]];
    SplitCounted(x, k);
    ValueSplit(x[..k - 1], "\"");
    ValueSplit("\"", x);
    ValueSplit(t, "\"" + x);
  }

  lemma {:induction false} DecValue(n: nat)
    ensures ValueOf(Dec(n)) == n
  {
    if n >= 10 {
      DecValue(n / 10);
      assert Dec(n)[..|Dec(n)| - 1] == Dec(n / 10);
    } else {
      assert Dec(n)[..0] == "";
    }
  }

  lemma {:induction false} DigitsLenIs(s: string, x: string)
    requires AllDigits(s)
    requires x != "" ==> !IsDigit(x[0])
    ensures DigitsLen(s + x) == |s|
  {
    if s == "" {
      assert s + x == x;
    } else {
      assert (s + x)[1..] == s[1..] + x;
      DigitsLenIs(s[1..], x);
    }
  }

  lemma ReadDec(n: nat, x: string)
    requires x != "" ==> !IsDigit(x[0])
    ensures ReadNat(Dec(n) + x) == Good(n, x)
  {
    DigitsLenIs(Dec(n), x);
    DecValue(n);
    assert (Dec(n) + x)[..|Dec(n)|] == Dec(n) && (Dec(n) + x)[|Dec(n)|..] == x;
  }

  // ---------------------------------------------------------------- the batch read back

  // The line an item becomes.
  function LineOf(item: string): LogLine {
    var f := FieldsOf(item);
    LogLine([f.level], f.tag, f.ts, item)
  }

  // The printed line, grouped to the right, from each of its fields on.
  function FromMsg(item: string, x: string): string {
    MSG_KEY + (Escape(item) + ("\"" + (LINE_END[1..] + x)))
  }

  function FromTs(item: string, x: string): string {
    TS_KEY[1..] + (Dec(FieldsOf(item).ts) + FromMsg(item, x))
  }

  function FromTag(item: string, x: string): string {
    TAG_KEY[1..] + (FieldsOf(item).tag + ("\"" + FromTs(item, x)))
  }

  lemma LineTextGrouped(item: string, x: string)
    ensures LineText(item) + x == LEVEL_KEY + ([FieldsOf(item).level] + ("\"" + FromTag(item, x)))
  {
    var f := FieldsOf(item);
    hide FieldsOf, Dec, Escape;
    GroupLine(LEVEL_KEY, [f.level], TAG_KEY[1..], TAG_KEY, f.tag, TS_KEY[1..], TS_KEY, Dec(f.ts), MSG_KEY,
              Escape(item), LINE_END[1..], LINE_END, x);
  }

  lemma GroupLine(k1: string, level: string, k2: string, q2: string, tag: string, k3: string, q3: string,
                  ts: string, k4: string, e: string, k5: string, q5: string, x: string)
    requires q2 == "\"" + k2 && q3 == "\"" + k3 && q5 == "\"" + k5
    ensures k1 + level + q2 + tag + q3 + ts + k4 + e + q5 + x
         == k1 + (level + ("\"" + (k2 + (tag + ("\"" + (k3 + (ts + (k4 + (e + ("\"" + (k5 + x)))))))))))
  {
    var q := "\"";
    var x5 := e + (q + (k5 + x));
    var p := k1 + level + q2 + tag + q3 + ts + k4;
    Assoc(p, e, q + (k5 + x));
    var p3 := k1 + level + q2 + tag + q3;
    Assoc(p3 + ts, k4, x5);
    Assoc(p3, ts, k4 + x5);
    var x3 := ts + (k4 + x5);
    Assoc(k1 + level + q2, tag, q + (k3 + x3));
    var x2 := tag + (q + (k3 + x3));
    Assoc(k1, level, q + (k2 + x2));
  }

  lemma ReadFromTs(item: string, x: string) returns (s5: string)
    requires IsBytes(item)
    ensures Expect(FromTs(item, x), TS_KEY[1..]) == Good((), s5)
    ensures ReadNat(s5) == Good(FieldsOf(item).ts, FromMsg(item, x))
  {
    hide Dec, Escape, FieldsOf, ReadNat;
    s5 := Dec(FieldsOf(item).ts) + FromMsg(item, x);
    assert FromMsg(item, x)[0] == MSG_KEY[0];
    ReadDec(FieldsOf(item).ts, FromMsg(item, x));
  }

  lemma ReadFromMsg(item: string, x: string) returns (s7: string)
    requires IsBytes(item)
    ensures Expect(FromMsg(item, x), MSG_KEY) == Good((), s7)
    ensures ReadString(s7) == if Utf8.Valid(item) then Good(item, LINE_END[1..] + x) else Bad
    ensures Expect(LINE_END[1..] + x, LINE_END[1..]) == Good((), x)
  {
    hide Escape, ReadString;
    s7 := Escape(item) + ("\"" + (LINE_END[1..] + x));
    ReadEscaped(item, LINE_END[1..] + x);
  }

  lemma ReadFromLevel(item: string, x: string) returns (s1: string, s3: string)
    requires IsBytes(item)
    ensures Expect(LineText(item) + x, LEVEL_KEY) == Good((), s1)
    ensures ReadString(s1) == Good([FieldsOf(item).level], FromTag(item, x))
    ensures Expect(FromTag(item, x), TAG_KEY[1..]) == Good((), s3)
    ensures ReadString(s3) == if Clean(FieldsOf(item).tag) then Good(FieldsOf(item).tag, FromTs(item, x)) else Bad
  {
    var f := FieldsOf(item);
    FieldsBounded(item);
    hide ReadString, FieldsOf, FromTs;
    s1 := [f.level] + ("\"" + FromTag(item, x));
    LineTextGrouped(item, x);
    PlainLevel(f.level);
    ReadRaw([f.level], FromTag(item, x));
    s3 := f.tag + ("\"" + FromTs(item, x));
    ReadRaw(f.tag, FromTs(item, x));
  }

  lemma PlainLevel(c: char)
    requires c in "EWIDV"
    ensures Clean([c]) && '"' !in [c] && '\\' !in [c]
  {
    Utf8.AsciiValid([c]);
  }

  // The parts of a prefix: its n digits, and what follows the bracket and the space after them.
  lemma PrefixShape(item: string) returns (n: nat, p: string)
    requires ParsePrefix(item).Prefix?
    ensures 5 + n <= |item| && p == item[5 + n..]
    ensures ParsePrefix(item).tag == Before(p, ':') && |Before(p, ':')| < |p|
    ensures AllDigits(item[3..3 + n]) && item[0] in "EWIDV" && item[1] == ' ' && item[2] == '('
    ensures item[3 + n] == ')' && item[4 + n] == ' '
  {
    hide DigitsValue, Before;
    n := DigitsLen(item[3..]);
    assert item[3..3 + n] == item[3..][..n];
    p := item[3 + n..][2..];
    assert p == item[5 + n..];
  }

  // A prefix is ASCII before its tag, and a colon follows the tag.
  lemma PrefixParts(item: string) returns (head: string, rest: string)
    requires ParsePrefix(item).Prefix?
    ensures item == head + (ParsePrefix(item).tag + rest)
    ensures Utf8.Ascii(head) && rest != "" && rest[0] == ':'
  {
    hide ParsePrefix, Before, Utf8.Ascii;
    var n, p := PrefixShape(item);
    rest := p[|Before(p, ':')|..];
    head := item[..5 + n];
    HeadAscii(item[..3], item[3..3 + n], item[3 + n..5 + n]);
    assert head == item[..3] + item[3..3 + n] + item[3 + n..5 + n];
    assert p == Before(p, ':') + rest;
    assert item == head + p;
  }

  lemma HeadAscii(a: string, digits: string, c: string)
    requires |a| == 3 && a[0] in "EWIDV" && a[1] == ' ' && a[2] == '('
    requires AllDigits(digits) && |c| == 2 && c[0] == ')' && c[1] == ' '
    ensures Utf8.Ascii(a + digits + c)
  {
  }

  // A line as ESP_LOG prints it.
  function EspLine(level: char, ts: string, tag: string, text: string): string {
    [level] + " (" + ts + ") " + tag + ":" + text
  }

  // Its prefix is read back: level, tag and time stamp modulo 2^32.
  lemma PrefixRead(level: char, ts: string, tag: string, text: string)
    requires level in "EWIDV" && ts != "" && AllDigits(ts) && tag != "" && ':' !in tag
    ensures ParsePrefix(EspLine(level, ts, tag, text)) == Prefix(level, tag, DigitsValue(ts))
  {
    hide DigitsValue, DigitsLen, Before;
    var line := EspLine(level, ts, tag, text);
    var p := ") " + tag + ":" + text;
    assert line[3..] == ts + p;
    DigitsLenIs(ts, p);
    assert line[3 + |ts|..] == p;
    assert line[3..][..|ts|] == ts;
    assert p[2..] == tag + (":" + text);
    BeforeFirst(tag, ":" + text, ':');
    assert line[3] == ts[0];
  }

  // The parts ESP_LOG prints.
  predicate EspParts(level: char, ts: string, tag: string) {
    level in "EWIDV" && ts != "" && AllDigits(ts) && tag != "" && ':' !in tag
  }

  // Whatever has a prefix is such a line.
  lemma PrefixOnly(line: string) returns (ts: string, text: string)
    requires ParsePrefix(line).Prefix?
    ensures var p := ParsePrefix(line);
            EspParts(p.level, ts, p.tag) && line == EspLine(p.level, ts, p.tag, text)
  {
    PrefixStart(line);
    hide ParsePrefix, Before, DigitsLen;
    var n, p := PrefixShape(line);
    var tag := ParsePrefix(line).tag;
    ts, text := line[3..3 + n], p[|tag| + 1..];
    assert IsDigit(line[3]) && !IsDigit(line[3 + n]);
    EspLineParts(line, n, tag);
  }

  lemma EspLineParts(line: string, n: nat, tag: string)
    requires 5 + n + |tag| < |line| && line[1] == ' ' && line[2] == '(' && line[3 + n] == ')' && line[4 + n] == ' '
    requires line[5 + n..][..|tag|] == tag && line[5 + n + |tag|] == ':'
    ensures line == EspLine(line[0], line[3..3 + n], tag, line[5 + n..][|tag| + 1..])
  {
    var p := line[5 + n..];
    assert p == tag + ":" + p[|tag| + 1..];
    assert line == line[..3] + line[3..3 + n] + line[3 + n..5 + n] + p;
    assert line[..3] == [line[0]] + " (" && line[3 + n..5 + n] == ") ";
  }

  lemma PrefixStart(line: string)
    requires ParsePrefix(line).Prefix?
    ensures |line| > 3 && IsDigit(line[3]) && ParsePrefix(line).level == line[0] && ParsePrefix(line).tag != ""
  {
    hide DigitsLen, DigitsValue, Before;
  }

  // What a receiver is told of a line: the fields ESP_LOG printed, the tag only if it has no quote
  // and no backslash; of any other line, that it is one.
  ghost predicate Tells(l: LogLine, item: string) {
    && (forall level, ts, tag, text :: EspParts(level, ts, tag) && item == EspLine(level, ts, tag, text) ==>
          l == LogLine([level], if '"' in tag || '\\' in tag then "raw" else tag, ValueOf(ts) % 4294967296, item))
    && ((forall level, ts, tag, text :: EspParts(level, ts, tag) ==> item != EspLine(level, ts, tag, text)) ==>
          l == LogLine("I", "raw", 0, item))
  }

  lemma LineTells(item: string)
    ensures Tells(LineOf(item), item)
  {
    hide ParsePrefix, EspLine, ValueOf, DigitsValue;
    forall level, ts, tag, text | EspParts(level, ts, tag) && item == EspLine(level, ts, tag, text)
      ensures ParsePrefix(item) == Prefix(level, tag, ValueOf(ts) % 4294967296)
    {
      PrefixRead(level, ts, tag, text);
      DigitsWrap(ts);
    }
    if ParsePrefix(item).Prefix? {
      var ts, text := PrefixOnly(item);
    }
  }

  // A line of ESP_LOG with a plain tag is read back with the level, the tag and the time it printed.
  lemma EspLineRead(level: char, ts: string, tag: string, text: string, x: string)
    requires EspParts(level, ts, tag) && Plain(tag)
    requires var line := EspLine(level, ts, tag, text); IsBytes(line) && Utf8.Valid(line)
    ensures var line := EspLine(level, ts, tag, text);
            ReadLine(LineText(line) + x) == Good(LogLine([level], tag, ValueOf(ts) % 4294967296, line), x)
  {
    var line := EspLine(level, ts, tag, text);
    hide ReadLine, LineText, ParsePrefix, ValueOf, DigitsValue, Utf8.Valid, EspLine, IsBytes;
    PrefixRead(level, ts, tag, text);
    DigitsWrap(ts);
    ReadLineText(line, x);
  }

  lemma BeforeFirst(s: string, x: string, c: char)
    requires c !in s && x != "" && x[0] == c
    ensures Before(s + x, c) == s
  {
    var r := Before(s + x, c);
    assert (s + x)[|s|] == c && r == (s + x)[..|r|];
    assert forall i :: 0 <= i < |s| ==> (s + x)[i] == s[i];
    assert |r| == |s|;
  }

  // The tag of an item that is UTF-8 is UTF-8.
  lemma TagValid(item: string)
    requires Utf8.Valid(item)
    ensures Utf8.Valid(FieldsOf(item).tag)
  {
    hide Utf8.Valid, ParsePrefix;
    Utf8.AsciiValid("raw");
    if ParsePrefix(item).Prefix? {
      var head, rest := PrefixParts(item);
      Utf8.AsciiThen(head, ParsePrefix(item).tag + rest);
      Utf8.SplitAtAscii(ParsePrefix(item).tag, rest);
    }
  }

  // The line of such an item is JSON: its text is UTF-8, and its tag, which is printed as it is,
  // has no control character.
  predicate Readable(item: string) {
    Plain(FieldsOf(item).tag) && Utf8.Valid(item)
  }

  // A printed line is read back as its fields and its text, unless its tag has a control
  // character or it is not UTF-8: then it is not JSON.
  lemma ReadLineText(item: string, x: string)
    requires IsBytes(item)
    ensures ReadLine(LineText(item) + x) == if Readable(item) then Good(LineOf(item), x) else Bad
  {
    if Utf8.Valid(item) {
      TagValid(item);
    }
    hide ReadString, ReadNat, Expect, FieldsOf, FromTag, FromTs, FromMsg, LineText, Plain, Utf8.Valid;
    var s1, s3 := ReadFromLevel(item, x);
    var s5 := ReadFromTs(item, x);
    var s7 := ReadFromMsg(item, x);
  }

  function LineOfs(items: seq<string>): seq<LogLine> {
    FlatMap(OneLineOf, items)
  }

  function OneLineOf(item: string): seq<LogLine> {
    [LineOf(item)]
  }

  ghost predicate AllTell(lines: seq<LogLine>, items: seq<string>) {
    |lines| == |items| && forall i :: 0 <= i < |items| ==> Tells(lines[i], items[i])
  }

  lemma {:induction false} LinesTell(items: seq<string>)
    ensures AllTell(LineOfs(items), items)
    decreases |items|
  {
    hide FlatMap, LineOf, Tells;
    if items == [] {
      FlatMapNil(OneLineOf);
    } else {
      assert items == [items[0]] + items[1..];
      FlatMapCons(OneLineOf, items[0], items[1..]);
      LineTells(items[0]);
      LinesTell(items[1..]);
    }
  }

  predicate AllReadable(items: seq<string>) {
    forall i :: 0 <= i < |items| ==> Readable(items[i])
  }

  predicate AllBytes(items: seq<string>) {
    forall i :: 0 <= i < |items| ==> IsBytes(items[i])
  }

  // The same lines, grouped to the right.
  function Lines(items: seq<string>, x: string): string {
    if items == [] then x
    else LineText(items[0]) + (if |items| == 1 then x else "," + Lines(items[1..], x))
  }

  lemma {:induction false} LinesSnoc(items: seq<string>, item: string, x: string)
    requires items != []
    ensures Lines(items + [item], x) == Lines(items, "," + (LineText(item) + x))
    decreases |items|
  {
    hide LineText;
    assert (items + [item])[1..] == items[1..] + [item];
    if |items| > 1 {
      LinesSnoc(items[1..], item, x);
    } else {
      assert items[1..] + [item] == [item];
      assert "," + Lines([item], x) == "," + (LineText(item) + x);
    }
  }

  lemma {:induction false} LinesGrouped(items: seq<string>, x: string)
    ensures LinesText(items) + x == Lines(items, x)
    decreases |items|
  {
    hide LineText;
    if items == [] {
      assert "" + x == x;
    } else {
      var n := |items| - 1;
      var init, t := items[..n], LineText(items[n]);
      assert items == init + [items[n]];
      if n == 0 {
        assert LinesText(items) + x == t + x;
      } else {
        LinesGrouped(init, "," + (t + x));
        LinesSnoc(init, items[n], x);
        assert ((LinesText(init) + ",") + t) + x == LinesText(init) + ("," + (t + x));
      }
    }
  }

  lemma {:induction false} ReadLinesText(items: seq<string>, x: string)
    requires items != [] && AllBytes(items) && (x != "" ==> x[0] != ',')
    ensures ReadLines(Lines(items, x)) == if AllReadable(items) then Good(LineOfs(items), x) else Bad
    decreases |items|
  {
    hide LineText, ReadLine, Readable, LineOf, FlatMap, IsBytes;
    var item, more := items[0], items[1..];
    assert items == [item] + more;
    FlatMapCons(OneLineOf, item, more);
    var rest := if more == [] then x else "," + Lines(more, x);
    LineTextNotEmpty(item);
    ReadLineText(item, rest);
    if more == [] {
      OneLineOfs(item);
      assert items == [item];
      assert Lines(items, x) == LineText(item) + x;
      assert AllReadable(more);
    } else {
      assert rest[1..] == Lines(more, x);
      ReadLinesText(more, x);
    }
  }

  lemma OneLineOfs(item: string)
    ensures LineOfs([item]) == [LineOf(item)]
  {
    hide LineOf;
    FlatMapOne(OneLineOf, item);
  }

  lemma LineTextNotEmpty(item: string)
    ensures LineText(item) != ""
  {
  }

  // ---------------------------------------------------------------- whole batches

  function FromLines(items: seq<string>): string {
    LINES_KEY + Lines(items, BATCH_END)
  }

  function FromDropped(h: Header, items: seq<string>): string {
    DROPPED_KEY + (Dec(h.dropped) + FromLines(items))
  }

  function FromSeq(h: Header, items: seq<string>): string {
    SEQ_KEY[1..] + (Dec(h.seqNo) + FromDropped(h, items))
  }

  function FromPhone(h: Header, items: seq<string>): string {
    PHONE_KEY[1..] + (h.phone + ("\"" + FromSeq(h, items)))
  }

  lemma BatchGrouped(h: Header, items: seq<string>)
    ensures Render(h, items) + BATCH_END == DEVICE_KEY + (h.device + ("\"" + FromPhone(h, items)))
  {
    hide Dec, LinesText, Lines;
    LinesGrouped(items, BATCH_END);
    GroupBatch(DEVICE_KEY, h.device, PHONE_KEY[1..], PHONE_KEY, h.phone, SEQ_KEY[1..], SEQ_KEY, Dec(h.seqNo),
               DROPPED_KEY, Dec(h.dropped), LINES_KEY, LinesText(items), BATCH_END);
  }

  lemma GroupBatch(k1: string, device: string, k2: string, q2: string, phone: string, k3: string, q3: string,
                   a: string, k4: string, b: string, k5: string, n: string, x: string)
    requires q2 == "\"" + k2 && q3 == "\"" + k3
    ensures (k1 + device + q2 + phone + q3 + a + k4 + b + k5) + n + x
         == k1 + (device + ("\"" + (k2 + (phone + ("\"" + (k3 + (a + (k4 + (b + (k5 + (n + x)))))))))))
  {
    var q := "\"";
    var p3 := k1 + device + q2 + phone + q3;
    Assoc(p3 + a + k4 + b + k5, n, x);
    Assoc(p3 + a + k4 + b, k5, n + x);
    Assoc(p3 + a + k4, b, k5 + (n + x));
    Assoc(p3 + a, k4, b + (k5 + (n + x)));
    var x4 := k4 + (b + (k5 + (n + x)));
    Assoc(p3, a, x4);
    Assoc(k1 + device + q2, phone, q + (k3 + (a + x4)));
    var x2 := phone + (q + (k3 + (a + x4)));
    Assoc(k1, device, q + (k2 + x2));
  }

  lemma ReadNumbers(h: Header, items: seq<string>) returns (s5: string, s7: string)
    ensures Expect(FromSeq(h, items), SEQ_KEY[1..]) == Good((), s5)
    ensures ReadNat(s5) == Good(h.seqNo, FromDropped(h, items))
    ensures Expect(FromDropped(h, items), DROPPED_KEY) == Good((), s7)
    ensures ReadNat(s7) == Good(h.dropped, FromLines(items))
    ensures Expect(FromLines(items), LINES_KEY) == Good((), Lines(items, BATCH_END))
  {
    hide Dec, ReadNat, Lines;
    s5 := Dec(h.seqNo) + FromDropped(h, items);
    assert FromDropped(h, items)[0] == DROPPED_KEY[0];
    ReadDec(h.seqNo, FromDropped(h, items));
    s7 := Dec(h.dropped) + FromLines(items);
    assert FromLines(items)[0] == LINES_KEY[0];
    ReadDec(h.dropped, FromLines(items));
  }

  lemma ReadNames(h: Header, items: seq<string>) returns (s1: string, s3: string)
    ensures Expect(Render(h, items) + BATCH_END, DEVICE_KEY) == Good((), s1)
    ensures Clean(h.device) ==> ReadString(s1) == Good(h.device, FromPhone(h, items))
    ensures ReadString(s1).Good? && ReadString(s1).value == h.device ==> Clean(h.device)
    ensures Expect(FromPhone(h, items), PHONE_KEY[1..]) == Good((), s3)
    ensures Clean(h.phone) ==> ReadString(s3) == Good(h.phone, FromSeq(h, items))
    ensures ReadString(s3).Good? && ReadString(s3).value == h.phone ==> Clean(h.phone)
  {
    hide ReadString, Render, FromSeq, Clean;
    BatchGrouped(h, items);
    s1 := h.device + ("\"" + FromPhone(h, items));
    ReadName(h.device, FromPhone(h, items));
    s3 := h.phone + ("\"" + FromSeq(h, items));
    ReadName(h.phone, FromSeq(h, items));
  }

  // The batch a header and its items make.
  function BatchOf(h: Header, items: seq<string>): Batch {
    Batch(h.device, h.phone, h.seqNo, h.dropped, LineOfs(items))
  }

  // A flushed batch is read back as its header and exactly its items, in order, if and only if
  // device and phone are clean and all items readable.  With clean names and an unreadable item it
  // is no batch in JSON at all.
  lemma ReadBatchText(h: Header, items: seq<string>)
    requires items != [] && AllBytes(items)
    ensures ReadBatch(Render(h, items) + BATCH_END) == Good(BatchOf(h, items), "") <==>
            Clean(h.device) && Clean(h.phone) && AllReadable(items)
    ensures Clean(h.device) && Clean(h.phone) && !AllReadable(items) ==> ReadBatch(Render(h, items) + BATCH_END) == Bad
  {
    hide ReadString, ReadNat, Expect, ReadLines, Render, FromPhone, FromSeq, FromDropped, FromLines;
    hide Lines, Clean, AllReadable, LineOfs;
    var s1, s3 := ReadNames(h, items);
    var s5, s7 := ReadNumbers(h, items);
    ReadLinesText(items, BATCH_END);
    EndOfBatch();
  }

  lemma EndOfBatch()
    ensures Expect(BATCH_END, BATCH_END) == Good((), "")
  {
  }

  // ---------------------------------------------------------------- what is read is UTF-8

  lemma KeysAscii()
    ensures Utf8.Ascii(LEVEL_KEY) && Utf8.Ascii(TAG_KEY[1..]) && Utf8.Ascii(TS_KEY[1..]) && Utf8.Ascii(MSG_KEY)
    ensures Utf8.Ascii(LINE_END[1..]) && Utf8.Ascii(DEVICE_KEY) && Utf8.Ascii(PHONE_KEY[1..])
    ensures Utf8.Ascii(SEQ_KEY[1..]) && Utf8.Ascii(DROPPED_KEY) && Utf8.Ascii(LINES_KEY) && Utf8.Ascii(BATCH_END)
  {
  }

  lemma ExpectUtf8(s: string, text: string)
    requires Utf8.Ascii(text) && Expect(s, text).Good?
    ensures Utf8.Valid(s) == Utf8.Valid(Expect(s, text).rest)
  {
    assert s == text + s[|text|..];
    Utf8.AsciiThen(text, s[|text|..]);
  }

  lemma NatUtf8(s: string)
    requires ReadNat(s).Good?
    ensures Utf8.Valid(s) == Utf8.Valid(ReadNat(s).rest)
  {
    var n := DigitsLen(s);
    assert s == s[..n] + s[n..];
    Utf8.AsciiThen(s[..n], s[n..]);
  }

  lemma StringUtf8(s: string)
    requires ReadString(s).Good?
    ensures Utf8.Valid(s) == Utf8.Valid(ReadString(s).rest)
  {
    CharsRead(s);
    var n := |s| - |ReadString(s).rest|;
    assert s == s[..n] + s[n..];
    Utf8.ValidConcat(s[..n], s[n..]);
  }

  lemma LineUtf8(s: string)
    requires ReadLine(s).Good?
    ensures Utf8.Valid(s) == Utf8.Valid(ReadLine(s).rest)
  {
    hide Expect, ReadString, ReadNat, Utf8.Ascii, Utf8.Valid;
    KeysAscii();
    ExpectUtf8(s, LEVEL_KEY);
    var s1 := Expect(s, LEVEL_KEY).rest;
    StringUtf8(s1);
    var s2 := ReadString(s1).rest;
    ExpectUtf8(s2, TAG_KEY[1..]);
    var s3 := Expect(s2, TAG_KEY[1..]).rest;
    StringUtf8(s3);
    var s4 := ReadString(s3).rest;
    ExpectUtf8(s4, TS_KEY[1..]);
    var s5 := Expect(s4, TS_KEY[1..]).rest;
    NatUtf8(s5);
    var s6 := ReadNat(s5).rest;
    ExpectUtf8(s6, MSG_KEY);
    var s7 := Expect(s6, MSG_KEY).rest;
    StringUtf8(s7);
    ExpectUtf8(ReadString(s7).rest, LINE_END[1..]);
  }

  predicate BeginsWithLines(s: string) {
    ReadLines(s).Good?
  }

  lemma {:induction false} LinesUtf8(s: string)
    requires BeginsWithLines(s)
    ensures Utf8.Valid(s) == Utf8.Valid(ReadLines(s).rest)
    decreases |s|
  {
    hide ReadLine, Utf8.Valid;
    LineUtf8(s);
    var rest := ReadLine(s).rest;
    if rest != "" && rest[0] == ',' && |rest| < |s| {
      LinesUtf8(rest[1..]);
      assert rest == [rest[0]] + rest[1..];
      Utf8.AsciiThen([rest[0]], rest[1..]);
    }
  }

  // A text that reads as a batch is UTF-8 as a whole, as RFC 8259, section 8.1, wants it.
  lemma ReadsUtf8(s: string)
    ensures ReadBatch(s).Good? ==> Utf8.Valid(s)
  {
    hide Expect, ReadString, ReadNat, ReadLines, Utf8.Ascii;
    if ReadBatch(s).Good? {
      KeysAscii();
      ExpectUtf8(s, DEVICE_KEY);
      var s1 := Expect(s, DEVICE_KEY).rest;
      StringUtf8(s1);
      var s2 := ReadString(s1).rest;
      ExpectUtf8(s2, PHONE_KEY[1..]);
      var s3 := Expect(s2, PHONE_KEY[1..]).rest;
      StringUtf8(s3);
      var s4 := ReadString(s3).rest;
      ExpectUtf8(s4, SEQ_KEY[1..]);
      var s5 := Expect(s4, SEQ_KEY[1..]).rest;
      NatUtf8(s5);
      var s6 := ReadNat(s5).rest;
      ExpectUtf8(s6, DROPPED_KEY);
      var s7 := Expect(s6, DROPPED_KEY).rest;
      NatUtf8(s7);
      var s8 := ReadNat(s7).rest;
      ExpectUtf8(s8, LINES_KEY);
      var s9 := Expect(s8, LINES_KEY).rest;
      LinesUtf8(s9);
      ExpectUtf8(ReadLines(s9).rest, BATCH_END);
    }
  }

  // The items of a batch are the texts of its lines.
  lemma {:induction false} TextsAreItems(items: seq<string>)
    ensures |LineOfs(items)| == |items| && forall i :: 0 <= i < |items| ==> LineOfs(items)[i].msg == items[i]
  {
    if items == [] {
      FlatMapNil(OneLineOf);
    } else {
      hide FlatMap;
      assert items == [items[0]] + items[1..];
      FlatMapCons(OneLineOf, items[0], items[1..]);
      TextsAreItems(items[1..]);
    }
  }
}
