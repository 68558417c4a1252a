// SMS lines of the DTU firmware: config,sms,ok,<sender>,<content in hexadecimal UTF-8>.
module DtuParser {
  import opened Text
  import opened CStrings
  import opened Hex
  import opened Utf8
  import opened Messages
  import opened Options

  const PREFIX := "config,sms,ok,"
  const COMMA := ","

  // ---------------------------------------------------------------- cutting UTF-8

  // Trailing continuation bytes, at most three.
  function ContTail(s: string, limit: nat): (n: nat)
    ensures n <= limit && n <= |s|
    ensures forall i :: |s| - n <= i < |s| ==> IsCont(s[i])
    ensures n < limit && n < |s| ==> !IsCont(s[|s| - n - 1])
  {
    if limit > 0 && s != "" && IsCont(s[|s| - 1]) then 1 + ContTail(s[..|s| - 1], limit - 1) else 0
  }

  // utf8_trim_incomplete_tail: the length left after dropping an incomplete last character.
  function TrimLen(s: string): (n: nat)
    ensures n <= |s|
  {
    var back := ContTail(s, 3);
    var end := |s| - back;
    if end > 0 && back + 1 < LeadLen(s[end - 1]) then end - 1 else |s|
  }

  // Trimming a cut of valid UTF-8 gives the longest valid prefix.
  lemma TrimIsBoundary(s: string, n: nat)
    requires Valid(s) && n < |s|
    ensures TrimLen(s[..n]) == Boundary(s, n)
  {
    var r := Boundary(s, n);
    BoundaryIsLongest(s, n);
    if r < n {
      CutInside(s, n, r);
    } else if n > 0 {
      var c := LastChar(s[..n]);
      WholeEnd(s[..n], c);
    }
  }

  lemma {:induction false} ContTailIs(s: string, limit: nat, k: nat)
    requires k <= limit && k < |s| && !IsCont(s[|s| - k - 1])
    requires forall i :: |s| - k <= i < |s| ==> IsCont(s[i])
    ensures ContTail(s, limit) == k
  {
    if k > 0 {
      ContTailIs(s[..|s| - 1], limit - 1, k - 1);
    }
  }

  // The cut falls inside the character that starts at r.
  lemma CutInside(s: string, n: nat, r: nat)
    requires r < n < |s| && n < r + CharLen(s[r..])
    ensures TrimLen(s[..n]) == r
  {
  }

  // The text ends with the whole character that starts at c.
  lemma WholeEnd(s: string, c: nat)
    requires c < |s| && CharLen(s[c..]) == |s| - c
    ensures TrimLen(s) == |s|
  {
    assert s[..|s|] == s;
  }

  lemma {:induction false} LastChar(s: string) returns (c: nat)
    requires Valid(s) && s != ""
    ensures c < |s| && CharLen(s[c..]) == |s| - c
    decreases |s|
  {
    var k := CharLen(s);
    if k == |s| {
      c := 0;
      assert s[0..] == s;
    } else {
      var d := LastChar(s[k..]);
      c := k + d;
      assert s[k..][d..] == s[c..];
    }
  }

  // utf8_trim_incomplete_tail on the buffer.
  method TrimIncompleteTail(buf: array<char>, len: nat) returns (n: nat)
    requires len < buf.Length && buf[len] == NUL
    modifies buf
    ensures n == TrimLen(old(buf[..len])) && buf[n] == NUL && buf[..n] == old(buf[..n])
  {
    var end: nat, back: nat := len, 0;
    while end > 0 && back < 3 && IsCont(buf[end - 1])
      invariant end == len - back && back <= 3
      invariant back + ContTail(buf[..end], 3 - back) == ContTail(buf[..len], 3)
      decreases end
    {
      assert buf[..end][..end - 1] == buf[..end - 1];
      end, back := end - 1, back + 1;
    }
    if end == 0 {
      return len;
    }
    if back + 1 < LeadLen(buf[end - 1]) {
      buf[end - 1] := NUL;
      return end - 1;
    }
    return len;
  }

  // On any bytes: a lead byte with fewer continuation bytes after it than it announces goes with them;
  // nothing else does, not even continuation bytes without a lead.
  lemma TrimExactly(p: string, lead: char, tail: string)
    requires |tail| <= 3 && forall i :: 0 <= i < |tail| ==> 0x80 <= tail[i] as int < 0xC0
    requires !(0x80 <= lead as int < 0xC0)
    ensures var size := if 0xC0 <= lead as int < 0xE0 then 2
                        else if 0xE0 <= lead as int < 0xF0 then 3
                        else if 0xF0 <= lead as int < 0xF8 then 4 else 1;
            TrimLen(p + [lead] + tail) == if |tail| + 1 < size then |p| else |p| + 1 + |tail|
    ensures TrimLen(tail) == |tail|
  {
    var s := p + [lead] + tail;
    var n := ContTail(s, 3);
    assert forall i :: 0 <= i < |tail| ==> s[|p| + 1 + i] == tail[i];
    assert s[|p|] == lead && !IsCont(s[|s| - |tail| - 1]);
    assert n <= |tail|;
    var m := ContTail(tail, 3);
  }

  // ---------------------------------------------------------------- hexadecimal content

  function ByteAt(hex: string, i: nat): (v: int)
    requires 2 * i + 1 < |hex|
    ensures -1 <= v < 256
  {
    var hi, lo := HexVal(hex[2 * i]), HexVal(hex[2 * i + 1]);
    if hi < 0 || lo < 0 then -1 else hi * 16 + lo
  }

  // The first n bytes, if their digits are all hexadecimal.
  function Bytes(hex: string, n: nat): (r: Option<string>)
    requires 2 * n <= |hex|
    ensures r.Some? ==> |r.value| == n
  {
    if n == 0 then Some("")
    else
      match Bytes(hex, n - 1)
      case None => None
      case Some(s) => if ByteAt(hex, n - 1) < 0 then None else Some(s + [ByteAt(hex, n - 1) as char])
  }

  lemma {:induction false} BytesAre(hex: string, n: nat)
    requires 2 * n <= |hex|
    ensures var r := Bytes(hex, n);
            && (r.Some? <==> forall i: nat :: i < n ==> ByteAt(hex, i) >= 0)
            && (r.Some? ==> forall i: nat :: i < n ==> r.value[i] as int == ByteAt(hex, i))
  {
    if n > 0 {
      hide ByteAt;
      BytesAre(hex, n - 1);
    }
  }

  // decode_utf8_hex into a buffer of `size` bytes.
  function Decode(hex: string, size: nat): Option<string>
    requires size > 0
  {
    if hex == "" || |hex| % 2 != 0 then None
    else if |hex| / 2 < size then Bytes(hex, |hex| / 2)
    else
      match Bytes(hex, size - 1)
      case None => None
      case Some(s) => Some(s[..TrimLen(s)])
  }

  method DecodeBytes(hex: string, len: nat, buf: array<char>) returns (ok: bool)
    requires len < buf.Length && 2 * len <= |hex|
    modifies buf
    ensures ok <==> Bytes(hex, len).Some?
    ensures ok ==> Bytes(hex, len) == Some(buf[..len])
  {
    var i := 0;
    while i < len
      invariant i <= len
      invariant Bytes(hex, i) == Some(buf[..i])
    {
      var hi, lo := HexVal(hex[i * 2]), HexVal(hex[i * 2 + 1]);
      if hi < 0 || lo < 0 {
        BytesAre(hex, len);
        assert ByteAt(hex, i) < 0;
        return false;
      }
      buf[i] := (hi * 16 + lo) as char;
      assert buf[..i + 1] == buf[..i] + [buf[i]];
      i := i + 1;
    }
    return true;
  }

  method DecodeInto(hex: string, buf: array<char>) returns (n: int)
    requires buf.Length > 0
    modifies buf
    ensures match Decode(hex, buf.Length)
            case None => n == -1
            case Some(s) => n == |s| < buf.Length && buf[n] == NUL && buf[..n] == s
  {
    hide Bytes, TrimLen;
    if |hex| == 0 || |hex| % 2 != 0 {
      return -1;
    }
    var len := |hex| / 2;
    var truncated := false;
    if len >= buf.Length {
      len := buf.Length - 1;
      truncated := true;
    }
    var ok := DecodeBytes(hex, len, buf);
    if !ok {
      return -1;
    }
    buf[len] := NUL;
    n := len;
    if truncated {
      ghost var whole := buf[..len];
      n := TrimIncompleteTail(buf, len);
      assert whole[..n] == buf[..n];
    }
  }

  // ---------------------------------------------------------------- printing bytes

  function PrintHex(s: string): (hex: string)
    requires IsBytes(s)
    ensures |hex| == 2 * |s|
  {
    if s == "" then ""
    else
      var n := |s| - 1;
      PrintHex(s[..n]) + [HexDigit(s[n] as int / 16), HexDigit(s[n] as int % 16)]
  }

  // Same digits, in either case.
  predicate SameHex(a: string, b: string) {
    |a| == |b| && forall i :: 0 <= i < |a| ==> HexVal(a[i]) == HexVal(b[i]) >= 0
  }

  lemma {:induction false} PrintedBytes(s: string, i: nat)
    requires IsBytes(s) && i < |s|
    ensures ByteAt(PrintHex(s), i) == s[i] as int
  {
    var n := |s| - 1;
    if i < n {
      PrintedBytes(s[..n], i);
    }
  }

  lemma BytesOfPrint(s: string, n: nat)
    requires IsBytes(s) && n <= |s|
    ensures Bytes(PrintHex(s), n) == Some(s[..n])
  {
    hide ByteAt, Bytes, PrintHex;
    var hex := PrintHex(s);
    forall i: nat | i < n ensures ByteAt(hex, i) == s[i] as int {
      PrintedBytes(s, i);
    }
    BytesAre(hex, n);
    var r := Bytes(hex, n);
    assert forall i: nat :: i < n ==> r.value[i] == s[i];
    assert r.value == s[..n];
  }

  // Decoding inverts printing.
  lemma DecodePrint(s: string, size: nat)
    requires IsBytes(s) && s != "" && |s| < size
    ensures Decode(PrintHex(s), size) == Some(s)
  {
    hide Bytes, PrintHex;
    BytesOfPrint(s, |s|);
    assert s[..|s|] == s;
  }

  // What does not fit is cut at the end of a character: the result is the longest valid prefix
  // of at most size - 1 bytes.
  lemma DecodePrintCut(s: string, size: nat)
    requires IsBytes(s) && Valid(s) && |s| >= size > 0
    ensures match Decode(PrintHex(s), size)
            case None => false
            case Some(r) =>
              && r <= s && |r| < size && Valid(r)
              && forall j :: |r| < j < size ==> !Valid(s[..j])
  {
    hide Bytes, TrimLen, Valid, PrintHex;
    BytesOfPrint(s, size - 1);
    TrimmedCut(s, size - 1);
  }

  lemma TrimmedCut(s: string, n: nat)
    requires Valid(s) && n < |s|
    ensures var r := s[..n][..TrimLen(s[..n])];
            r <= s && |r| <= n && Valid(r) && forall j :: |r| < j <= n ==> !Valid(s[..j])
  {
    hide TrimLen, Boundary;
    TrimIsBoundary(s, n);
    BoundaryIsLongest(s, n);
    var r := Boundary(s, n);
    assert s[..n][..r] == s[..r];
  }

  // Printing inverts decoding, up to the case of the digits, for everything that was not cut.
  lemma PrintDecode(hex: string, size: nat)
    requires size > 0 && Decode(hex, size).Some? && |hex| / 2 < size
    ensures var s := Decode(hex, size).value; IsBytes(s) && SameHex(PrintHex(s), hex)
  {
    hide ByteAt, Bytes, PrintHex;
    BytesAre(hex, |hex| / 2);
    var s := Decode(hex, size).value;
    forall i: nat | i < |s| ensures s[i] as int == ByteAt(hex, i) < 256 {
    }
    var printed := PrintHex(s);
    forall i: nat | i < |hex| ensures HexVal(printed[i]) == HexVal(hex[i]) >= 0 {
      PrintedBytes(s, i / 2);
      SameDigit(printed, hex, i);
    }
  }

  lemma SameDigit(a: string, b: string, i: nat)
    requires |a| == |b| && |a| % 2 == 0 && i < |a| && ByteAt(a, i / 2) == ByteAt(b, i / 2) >= 0
    ensures HexVal(a[i]) == HexVal(b[i]) >= 0
  {
    hide HexVal;
    assert i == 2 * (i / 2) || i == 2 * (i / 2) + 1;
  }

  // Decoding fails exactly on empty or odd input and on a bad digit among those it reads.
  lemma DecodeFails(hex: string, size: nat)
    requires size > 0
    ensures Decode(hex, size) == None <==>
            || hex == "" || |hex| % 2 != 0
            || exists i: nat :: i < |hex| / 2 && i < size - 1 && ByteAt(hex, i) < 0
  {
    hide ByteAt, Bytes;
    if hex != "" && |hex| % 2 == 0 {
      BytesAre(hex, if |hex| / 2 < size then |hex| / 2 else size - 1);
    }
  }

  // ---------------------------------------------------------------- the line

  // parse_sms_line
  function Parse(line: string): Option<Message> {
    if !StartsWith(line, PREFIX) then None else
      var rest := line[|PREFIX|..];
      var comma := Find(rest, COMMA, 0);
      if comma <= 0 || comma >= SENDER_SIZE then None else
        match Decode(rest[comma + 1..], CONTENT_SIZE)
        case None => None
        case Some(content) => Some(Message(rest[..comma], content))
  }

  method ParseLine(line: string) returns (r: Option<Message>)
    ensures r == Parse(line)
  {
    hide Find, Decode;
    if !StartsWith(line, PREFIX) {
      return None;
    }
    var rest := line[|PREFIX|..];
    var comma := Find(rest, COMMA, 0);
    if comma < 0 || comma == 0 || comma >= SENDER_SIZE {
      return None;
    }
    var content := new char[CONTENT_SIZE];
    var n := DecodeInto(rest[comma + 1..], content);
    if n < 0 {
      return None;
    }
    r := Some(Message(rest[..comma], content[..n]));
  }

  function Line(sender: string, hex: string): string {
    PREFIX + sender + COMMA + hex
  }

  predicate IsSender(sender: string) {
    1 <= |sender| < SENDER_SIZE && ',' !in sender
  }

  lemma CommaAfter(sender: string, hex: string)
    requires ',' !in sender
    ensures Find(sender + COMMA + hex, COMMA, 0) == |sender|
  {
    var rest := sender + COMMA + hex;
    forall j: nat | j < |sender| ensures !At(rest, COMMA, j) {
      AtChar(rest, COMMA, j, 0);
    }
    assert rest[|sender|..|sender| + 1] == COMMA;
    FindIs(rest, COMMA, 0, |sender|);
  }

  // Parsing a printed line is decoding its digits.
  lemma ParseOfLine(sender: string, hex: string)
    requires IsSender(sender)
    ensures Parse(Line(sender, hex)) ==
            match Decode(hex, CONTENT_SIZE)
            case None => None
            case Some(content) => Some(Message(sender, content))
  {
    hide Find, Decode;
    var rest := sender + COMMA + hex;
    var line := Line(sender, hex);
    assert line == PREFIX + rest;
    assert line[..|PREFIX|] == PREFIX && line[|PREFIX|..] == rest;
    CommaAfter(sender, hex);
    assert rest[..|sender|] == sender && rest[|sender| + 1..] == hex;
  }

  // Parsing gives back every printed message that fits.
  lemma ParsePrint(sender: string, content: string)
    requires IsSender(sender) && IsBytes(content) && 1 <= |content| < CONTENT_SIZE
    ensures Parse(Line(sender, PrintHex(content))) == Some(Message(sender, content))
  {
    hide Decode, Parse, Line;
    ParseOfLine(sender, PrintHex(content));
    DecodePrint(content, CONTENT_SIZE);
  }

  // A longer text arrives as its longest prefix that is valid UTF-8 and fits.
  lemma ParsePrintCut(sender: string, content: string)
    requires IsSender(sender) && IsBytes(content) && |content| >= CONTENT_SIZE && Valid(content)
    ensures match Parse(Line(sender, PrintHex(content)))
            case None => false
            case Some(m) =>
              && m.sender == sender && m.content <= content && |m.content| < CONTENT_SIZE && Valid(m.content)
              && forall j :: |m.content| < j < CONTENT_SIZE ==> !Valid(content[..j])
  {
    hide Decode, Parse, Line, Valid;
    ParseOfLine(sender, PrintHex(content));
    DecodePrintCut(content, CONTENT_SIZE);
  }

  // Every parsed line is a printed message: exactly, up to the case of its digits, when nothing
  // was cut.
  lemma PrintParse(line: string) returns (hex: string)
    requires Parse(line).Some?
    ensures var m := Parse(line).value;
            && IsSender(m.sender) && line == Line(m.sender, hex) && |m.content| < CONTENT_SIZE
            && (|hex| / 2 < CONTENT_SIZE ==> IsBytes(m.content) && SameHex(PrintHex(m.content), hex))
  {
    hide Decode, Find;
    var rest := line[|PREFIX|..];
    var comma := Find(rest, COMMA, 0);
    FindFirst(rest, COMMA, 0);
    hex := rest[comma + 1..];
    var sender := rest[..comma];
    forall j | 0 <= j < |sender| ensures sender[j] != ',' {
      assert !At(rest, COMMA, j);
      assert rest[j..j + 1] == [rest[j]];
    }
    assert rest[comma..comma + 1] == COMMA;
    assert rest == sender + COMMA + hex;
    assert line == PREFIX + rest;
    DecodedFits(hex, CONTENT_SIZE);
    if |hex| / 2 < CONTENT_SIZE {
      PrintDecode(hex, CONTENT_SIZE);
    }
  }

  lemma DecodedFits(hex: string, size: nat)
    requires size > 0 && Decode(hex, size).Some?
    ensures |Decode(hex, size).value| < size
  {
  }
}
