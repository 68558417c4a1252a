// parse_cmt_text_mode_response: from a +CMT block to the sender and the content digits.
module CmtParser {
  import opened Text
  import opened CStrings
  import opened Hex
  import opened Utf8
  import opened SmsStream
  import opened Messages
  import opened Reassembly
  import opened Sequences
  import Ucs2

  datatype Parsed = Failed | Parsed(fragment: Fragment)

  const QUOTE := "\""
  const UNKNOWN := "UNKNOWN"

  // The sender between the first two quotes, decoded into a 32-byte buffer.
  function SenderOf(line: string): (r: string)
    ensures |r| + 2 <= SENDER_SIZE && NulFree(r)
  {
    var open := Find(line, QUOTE, 0);
    if open < 0 then "" else
      var close := Find(line, QUOTE, open + 1);
      if close < 0 then ""
      else if 0 < close - open - 1 < 2 * SENDER_SIZE + 1 then
        Ucs2.TakenIsMaximal(Ucs2.Units(line[open + 1..close]), 0, SENDER_SIZE);
        CStr(Ucs2.Decode(line[open + 1..close], SENDER_SIZE))
      else UNKNOWN
  }

  // Without trailing line-end characters.
  function Trimmed(s: string): (r: string)
    ensures r <= s
  {
    if s != "" && (s[|s| - 1] == '\r' || s[|s| - 1] == '\n') then Trimmed(s[..|s| - 1]) else s
  }

  // The line after the header, or what is there of it.
  function ContentOf(line: string, headerEnd: nat): string
    requires headerEnd + 2 <= |line|
  {
    var from := headerEnd + 2;
    var end := Find(line, CRLF, from);
    Trimmed(if end < 0 then line[from..] else line[from..end])
  }

  function Parse(response: string): Parsed {
    var start := Find(response, CMT, 0);
    if start < 0 then Failed else
      var line := response[start..];
      var headerEnd := Find(line, CRLF, 0);
      if headerEnd < 0 || ContentOf(line, headerEnd) == "" then Failed
      else Parsed(Fragment(SenderOf(line), ContentOf(line, headerEnd)))
  }

  method ParseInto(response: string) returns (r: Parsed)
    ensures r == Parse(response)
  {
    hide Find, SenderOf, Trimmed;
    var start := Find(response, CMT, 0);
    if start < 0 {
      return Failed;
    }
    var line := response[start..];
    var sender := SenderText(line);
    var headerEnd := Find(line, CRLF, 0);
    if headerEnd < 0 {
      return Failed;
    }
    var from := headerEnd + 2;
    var end := Find(line, CRLF, from);
    var content := Trim(if end < 0 then line[from..] else line[from..end]);
    r := if |content| > 0 then Parsed(Fragment(sender, content)) else Failed;
  }

  method Trim(raw: string) returns (r: string)
    ensures r == Trimmed(raw)
  {
    var len := |raw|;
    assert raw[..len] == raw;
    while len > 0 && (raw[len - 1] == '\r' || raw[len - 1] == '\n')
      invariant len <= |raw| && Trimmed(raw) == Trimmed(raw[..len])
    {
      assert raw[..len][..len - 1] == raw[..len - 1];
      len := len - 1;
    }
    r := raw[..len];
  }

  method SenderText(line: string) returns (sender: string)
    ensures sender == SenderOf(line)
  {
    hide Find, CStr, Ucs2.Decode, Ucs2.Units, Ucs2.Taken;
    var decoded := new char[SENDER_SIZE];
    sender := "";
    var open := Find(line, QUOTE, 0);
    if open >= 0 {
      var close := Find(line, QUOTE, open + 1);
      if close >= 0 {
        var len := close - open - 1;
        if 0 < len < 2 * SENDER_SIZE + 1 {
          var n := Ucs2.DecodeInto(line[open + 1..close], decoded);
          sender := CStr(decoded[..n]);
        } else {
          sender := UNKNOWN;
        }
      }
    }
  }

  // ---------------------------------------------------------------- printing a report

  // A report as the modem prints it: the sender as UCS2 digits between quotes, other fields, the
  // content digits on the next line.
  function ReportHeader(us: seq<CodeUnit>, fields: string): string {
    "+CMT: \"" + Ucs2.PrintUnits(us) + QUOTE + fields
  }

  lemma QuotedHex(hex: string, fields: string, x: string)
    requires IsHex(hex)
    ensures var line := "+CMT: \"" + hex + QUOTE + fields + x;
            Find(line, QUOTE, 0) == 6 && Find(line, QUOTE, 7) == 7 + |hex|
  {
    var line := "+CMT: \"" + hex + QUOTE + fields + x;
    forall j: nat | j < 6 || 7 <= j < 7 + |hex| ensures !At(line, QUOTE, j) {
      AtChar(line, QUOTE, j, 0);
      assert j >= 7 ==> line[j] == hex[j - 7];
    }
    assert line[6..7] == QUOTE && line[7 + |hex|..8 + |hex|] == QUOTE;
    FindIs(line, QUOTE, 0, 6);
    FindIs(line, QUOTE, 7, 7 + |hex|);
  }

  // The sender read off a printed report: what fits of it, up to a NUL, or UNKNOWN when it is
  // missing or longer than 16 units.
  function SenderShown(us: seq<CodeUnit>): string {
    if us == [] || |us| > 16 then UNKNOWN else CStr(EncodeAll(Ucs2.Taken(us, 0, SENDER_SIZE)))
  }

  // It is the whole sender exactly when that has 1 to 16 units, none of them NUL, and all but the
  // last take at most 27 bytes.
  // No sender, or one of more than 16 units, is shown as UNKNOWN; a header without a pair of quotes
  // has an empty one.
  lemma UnknownSender(us: seq<CodeUnit>, line: string)
    ensures us == [] || |us| > 16 ==> SenderShown(us) == "UNKNOWN"
    ensures '"' !in line ==> SenderOf(line) == ""
  {
    FindFirst(line, QUOTE, 0);
    if Find(line, QUOTE, 0) >= 0 {
      AtChar(line, QUOTE, Find(line, QUOTE, 0), 0);
    }
  }

  // Line breaks at the end of a content are cut off, and nothing else.
  lemma {:induction false} TrimsBreaks(s: string, breaks: string)
    requires forall i :: 0 <= i < |breaks| ==> breaks[i] == '\r' || breaks[i] == '\n'
    requires s == "" || s[|s| - 1] !in "\r\n"
    ensures Trimmed(s + breaks) == s
    decreases |breaks|
  {
    if breaks == "" {
      assert s + breaks == s;
    } else {
      var n := |breaks| - 1;
      assert (s + breaks)[..|s| + n] == s + breaks[..n];
      TrimsBreaks(s, breaks[..n]);
    }
  }

  lemma SenderWhole(us: seq<CodeUnit>)
    ensures SenderShown(us) == EncodeAll(us) <==>
            1 <= |us| <= 16 && |EncodeAll(us[..|us| - 1])| <= 27 && 0 !in us
  {
    hide EncodeAll, Ucs2.Taken;
    EncodedLength(us);
    if us != [] {
      if |us| <= 16 {
        var taken := Ucs2.Taken(us, 0, SENDER_SIZE);
        Ucs2.TakesAll(us, 0, SENDER_SIZE);
        var rest := us[|taken|..];
        assert us == taken + rest;
        EncodeConcat(taken, rest);
        EncodedLength(rest);
        EncodeNulFree(us);
        if SenderShown(us) == EncodeAll(us) {
          assert |rest| == 0 && taken == us;
        }
        if NulFree(EncodeAll(us)) {
          CStrNulFree(EncodeAll(us));
        }
      }
    }
  }

  // Parsing gives back the sender as it is shown and the content of every printed report.
  lemma ParsePrint(us: seq<CodeUnit>, fields: string, content: string)
    requires IsBody(ReportHeader(us, fields))
    requires IsBody(content) && content != "" && Trimmed(content) == content
    ensures Parse(ReportHeader(us, fields) + CRLF + content + CRLF) == Parsed(Fragment(SenderShown(us), content))
  {
    var header := ReportHeader(us, fields);
    var text := header + CRLF + content + CRLF;
    assert StartsWith(header, CMT);
    hide Find, SenderOf, SenderShown, Trimmed, StartsWith, IsBody, Parse;
    PrintedSender(us, fields, CRLF + content + CRLF);
    assert "+CMT: \"" + Ucs2.PrintUnits(us) + QUOTE + fields + (CRLF + content + CRLF) == text;
    HeaderContentParse(header, content);
  }

  // A content whose line is not ended is read to the end of the text.
  lemma UnendedContent(header: string, content: string)
    requires StartsWith(header, "+CMT:") && IsBody(header)
    requires IsBody(content) && content != "" && Trimmed(content) == content
    ensures var text := header + "\r\n" + content; Parse(text) == Parsed(Fragment(SenderOf(text), content))
  {
    hide Find, SenderOf, Trimmed, StartsWith, IsBody, ContentOf;
    UnendedPositions(header, content);
    UnendedBetween(header, content);
    ParseAt(header + CRLF + content, |header|, content);
  }

  lemma UnendedPositions(header: string, content: string)
    requires StartsWith(header, CMT) && IsBody(header) && IsBody(content)
    ensures var text := header + CRLF + content;
            && Find(text, CMT, 0) == 0
            && Find(text, CRLF, 0) == |header|
            && Find(text, CRLF, |header| + 2) < 0
  {
    hide Find, At, StartsWith, IsBody, IsLine, Removable;
    assert header + CRLF + content == header + (CRLF + content);
    MarkAtStart(header, CRLF + content);
    BodyLine(header, content);
    NoEnd(content);
    FindFrom(header + CRLF, content, CRLF, 0);
  }

  lemma UnendedBetween(header: string, content: string)
    requires Trimmed(content) == content
    ensures var text := header + CRLF + content;
            Find(text, CRLF, |header| + 2) < 0 ==> ContentOf(text, |header|) == content
  {
    hide Find, Trimmed;
    assert (header + CRLF + content)[|header| + 2..] == content;
  }

  lemma NoEnd(s: string)
    requires IsBody(s)
    ensures Find(s, CRLF, 0) < 0
  {
  }

  // What parsing reads off a block: the sender in it and the line after the header.
  lemma HeaderContentParse(header: string, content: string)
    requires StartsWith(header, CMT) && IsBody(header)
    requires IsBody(content) && content != "" && Trimmed(content) == content
    ensures var text := header + CRLF + content + CRLF;
            Parse(text) == Parsed(Fragment(SenderOf(text), content))
  {
    hide *;
    BlockPositions(header, content);
    ContentBetween(header, content);
    ParseAt(header + CRLF + content + CRLF, |header|, content);
  }

  // A block whose content line is empty is refused.
  lemma EmptyContentRefused(header: string)
    requires StartsWith(header, CMT) && IsBody(header)
    ensures Parse(header + CRLF + "" + CRLF) == Failed
  {
    hide Find, StartsWith, IsBody, SenderOf;
    EmptyIsBody();
    BlockPositions(header, "");
    ContentBetween(header, "");
    var text := header + CRLF + "" + CRLF;
    assert text[0..] == text;
  }

  lemma EmptyIsBody()
    ensures IsBody("")
  {
  }

  lemma ParseAt(text: string, headerEnd: nat, content: string)
    requires Find(text, CMT, 0) == 0 && Find(text, CRLF, 0) == headerEnd
    requires ContentOf(text, headerEnd) == content != ""
    ensures Parse(text) == Parsed(Fragment(SenderOf(text), content))
  {
    hide ContentOf, SenderOf, Find;
    assert text[0..] == text;
  }

  lemma ContentBetween(header: string, content: string)
    requires Trimmed(content) == content
    ensures var text := header + CRLF + content + CRLF;
            Find(text, CRLF, |header| + 2) == |header| + 2 + |content| ==> ContentOf(text, |header|) == content
  {
    hide Find, Trimmed;
    var text := header + CRLF + content + CRLF;
    assert text[|header| + 2..|header| + 2 + |content|] == content;
  }

  lemma BlockPositions(header: string, content: string)
    requires StartsWith(header, CMT) && IsBody(header) && IsBody(content)
    ensures var text := header + CRLF + content + CRLF;
            && Find(text, CMT, 0) == 0
            && Find(text, CRLF, 0) == |header|
            && Find(text, CRLF, |header| + 2) == |header| + 2 + |content|
  {
    hide Find, At, StartsWith, IsBody, IsLine, Removable;
    var line := content + CRLF;
    var text := header + CRLF + content + CRLF;
    assert text == (header + CRLF) + line && text == header + (CRLF + line) && text == header + CRLF + line;
    MarkAtStart(header, CRLF + line);
    BodyLine(header, line);
    BodyLine(content, "");
    assert line + "" == line;
    FindFrom(header + CRLF, line, CRLF, 0);
  }

  lemma PrintedSender(us: seq<CodeUnit>, fields: string, x: string)
    ensures SenderOf("+CMT: \"" + Ucs2.PrintUnits(us) + QUOTE + fields + x) == SenderShown(us)
  {
    Ucs2.UnitsOfPrint(us);
    var hex := Ucs2.PrintUnits(us);
    var line := "+CMT: \"" + hex + QUOTE + fields + x;
    QuotedHex(hex, fields, x);
    assert line[7..7 + |hex|] == hex;
    hide Find, Ucs2.PrintUnits, EncodeAll, Ucs2.Units, Ucs2.Taken, CStr;
  }

  lemma {:induction false} EncodeNulFree(us: seq<CodeUnit>)
    ensures NulFree(EncodeAll(us)) <==> 0 !in us
  {
    if us != [] {
      hide EncodeAll, Encode;
      EncodeNulFree(us[1..]);
      OneNulFree(us[0]);
    }
  }

  lemma OneNulFree(u: CodeUnit)
    ensures NulFree(Encode(u)) <==> u != 0
  {
    assert u == 0 ==> Encode(u)[0] == NUL;
  }

  // Hexadecimal content is a line of its own that no filter removes and no trimming shortens.
  lemma HexContent(content: string)
    requires IsHex(content) && content != ""
    ensures IsBody(content) && !Removable(content) && Trimmed(content) == content
    ensures Find(content, CMT, 0) < 0
  {
    forall j: nat ensures !At(content, CRLF, j) && !At(content, CMT, j) {
      AtChar(content, CRLF, j, 0);
      AtChar(content, CMT, j, 0);
    }
    FindNone(content, CRLF, 0);
    FindNone(content, CMT, 0);
    assert HexVal(content[0]) >= 0 && HexVal(content[|content| - 1]) >= 0;
  }

  // What the parser makes of a sequence of blocks.
  function ParseAll(blocks: seq<string>): seq<Fragment> {
    FlatMap(ParseBlock, blocks)
  }

  function ParseBlock(block: string): seq<Fragment> {
    Fragmented(Parse(block))
  }

  function Fragmented(p: Parsed): seq<Fragment> {
    if p.Parsed? then [p.fragment] else []
  }

  lemma ParseAllSnoc(blocks: seq<string>, block: string)
    ensures ParseAll(blocks + [block]) == ParseAll(blocks) + Fragmented(Parse(block))
  {
    FlatMapSnoc(ParseBlock, blocks, block);
  }

  lemma ParseAllConcat(a: seq<string>, b: seq<string>)
    ensures ParseAll(a + b) == ParseAll(a) + ParseAll(b)
  {
    FlatMapConcat(ParseBlock, a, b);
  }
}
