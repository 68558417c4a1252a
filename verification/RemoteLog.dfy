// The log forwarder: lines queued by the print hook, batched as JSON in a fixed buffer, published.
module RemoteLog {
  import opened CStrings
  import opened LogLines
  import opened LogText
  import opened Sequences
  import opened Words
  import Utf8

  const LINE_MAX: nat := 256
  const BATCH_MAX_LINES: nat := 40
  const BATCH_MAX_BYTES: nat := 3800
  const FLUSH_US := 2_000_000
  const BATCH_BUF_SIZE: nat := 4096
  // Room is kept for the closing "]}" and the terminator.
  const AVAIL: nat := BATCH_BUF_SIZE - 3

  // ---------------------------------------------------------------- published batches

  datatype Sent = Sent(head: Header, items: seq<string>)

  function Payload(b: Sent): string {
    Render(b.head, b.items) + BATCH_END
  }

  function OnePayload(b: Sent): seq<string> {
    [Payload(b)]
  }

  function Payloads(sent: seq<Sent>): seq<string> {
    FlatMap(OnePayload, sent)
  }

  function ItemsOf(b: Sent): seq<string> {
    b.items
  }

  function Items(sent: seq<Sent>): seq<string> {
    FlatMap(ItemsOf, sent)
  }

  ghost predicate BatchOk(b: Sent) {
    b.items != [] && AllBytes(b.items)
  }

  // The n-th batch carries the device's names, and n as its sequence number, in 32 bits.
  ghost predicate HistoryOk(sent: seq<Sent>, device: string, phone: string) {
    forall i :: 0 <= i < |sent| ==>
      && BatchOk(sent[i]) && sent[i].head.seqNo == i % WORD
      && sent[i].head.device == device && sent[i].head.phone == phone
  }

  // ---------------------------------------------------------------- what a receiver reads

  function Texts(lines: seq<LogLine>): seq<string> {
    seq(|lines|, i requires 0 <= i < |lines| => lines[i].msg)
  }

  // The texts of the lines of a payload; none if it is not JSON.
  function TextsOf(payload: string): seq<string> {
    var b := ReadBatch(payload);
    if b.Bad? then [] else Texts(b.value.lines)
  }

  // The items that reach a receiver: all of a batch or, with an unreadable one among them, none.
  function Carried(b: Sent): seq<string> {
    if AllReadable(b.items) then b.items else []
  }

  lemma PayloadRead(b: Sent)
    requires BatchOk(b)
    ensures ReadBatch(Payload(b)) == Good(BatchOf(b.head, b.items), "") <==>
            Clean(b.head.device) && Clean(b.head.phone) && AllReadable(b.items)
    ensures Clean(b.head.device) && Clean(b.head.phone) ==> TextsOf(Payload(b)) == Carried(b)
  {
    hide ReadBatch, LineOfs, AllReadable, Render, Clean;
    ReadBatchText(b.head, b.items);
    TextsAreItems(b.items);
    assert Texts(LineOfs(b.items)) == b.items;
  }

  // A payload of one line of ESP_LOG, in so many words.
  lemma PayloadText(h: Header, level: char, ts: string, tag: string, text: string)
    requires EspParts(level, ts, tag) && '"' !in tag && '\\' !in tag
    ensures var line := EspLine(level, ts, tag, text);
            Payload(Sent(h, [line])) ==
            "{\"device\":\"" + h.device + "\",\"phone\":\"" + h.phone + "\",\"seq\":" + Dec(h.seqNo)
            + ",\"dropped\":" + Dec(h.dropped) + ",\"lines\":["
            + ("{\"level\":\"" + [level] + "\",\"tag\":\"" + tag + "\",\"ts_ms\":" + Dec(ValueOf(ts) % 4294967296)
               + ",\"msg\":\"" + Escape(line) + "\"}")
            + "]}"
  {
    var line := EspLine(level, ts, tag, text);
    hide ParsePrefix, ValueOf, DigitsValue, Escape, EspLine, Dec;
    PrefixRead(level, ts, tag, text);
    DigitsWrap(ts);
    assert LinesText([line]) == LinesText([]) + "" + LineText(line);
  }

  ghost predicate AllOk(sent: seq<Sent>) {
    forall i :: 0 <= i < |sent| ==> BatchOk(sent[i]) && Clean(sent[i].head.device) && Clean(sent[i].head.phone)
  }

  // Reading every published batch gives its items, or nothing where one of them is not readable.
  lemma {:induction false} PayloadsRead(sent: seq<Sent>)
    requires AllOk(sent)
    ensures FlatMap(TextsOf, Payloads(sent)) == FlatMap(Carried, sent)
  {
    hide FlatMap, TextsOf, Payload, Carried, BatchOk, Clean;
    if sent == [] {
      FlatMapNil(OnePayload);
      FlatMapNil(Carried);
      FlatMapNil(TextsOf);
    } else {
      var b, more := sent[0], sent[1..];
      assert sent == [b] + more;
      PayloadRead(b);
      PayloadsRead(more);
      FlatMapCons(OnePayload, b, more);
      FlatMapCons(Carried, b, more);
      FlatMapCons(TextsOf, Payload(b), Payloads(more));
    }
  }

  // With every item readable that is every item.
  lemma {:induction false} AllCarried(sent: seq<Sent>)
    requires AllReadable(Items(sent))
    ensures FlatMap(Carried, sent) == Items(sent)
  {
    hide FlatMap, Readable;
    if sent == [] {
      FlatMapNil(Carried);
      FlatMapNil(ItemsOf);
    } else {
      var b, more := sent[0], sent[1..];
      assert sent == [b] + more;
      FlatMapCons(Carried, b, more);
      FlatMapCons(ItemsOf, b, more);
      ReadableParts(b.items, Items(more));
      AllCarried(more);
    }
  }

  lemma ReadableParts(a: seq<string>, b: seq<string>)
    ensures AllReadable(a + b) <==> AllReadable(a) && AllReadable(b)
  {
    hide Readable;
    assert forall i :: 0 <= i < |a| ==> (a + b)[i] == a[i];
    assert forall i :: 0 <= i < |b| ==> (a + b)[|a| + i] == b[i];
  }

  lemma {:induction false} PayloadAt(sent: seq<Sent>, n: nat)
    requires n < |sent|
    ensures |Payloads(sent)| == |sent| && Payloads(sent)[n] == Payload(sent[n])
  {
    hide FlatMap, Payload;
    assert sent == [sent[0]] + sent[1..];
    FlatMapCons(OnePayload, sent[0], sent[1..]);
    if |sent| == 1 {
      FlatMapNil(OnePayload);
    } else {
      PayloadAt(sent[1..], if n == 0 then 0 else n - 1);
    }
  }

  // ---------------------------------------------------------------- growing a batch

  function Separator(items: seq<string>): string {
    if items == [] then "" else ","
  }

  lemma RenderSnoc(h: Header, items: seq<string>, item: string)
    ensures Render(h, items + [item])
         == ((Render(h, items) + (Separator(items) + LineHead(item))) + Escape(item)) + LINE_END
  {
    hide HeaderText, LineHead, Escape;
    var all := items + [item];
    assert all[..|items|] == items && all[|items|] == item;
    GroupSnoc(HeaderText(h), LinesText(items), Separator(items), LineHead(item), Escape(item), LINE_END);
  }

  lemma GroupSnoc(h: string, ls: string, sep: string, a: string, b: string, c: string)
    ensures h + ((ls + sep) + ((a + b) + c)) == (((h + ls) + (sep + a)) + b) + c
  {
    Assoc(ls, sep, (a + b) + c);
    Assoc(sep, a + b, c);
    Assoc(sep, a, b);
    Assoc(h, ls, ((sep + a) + b) + c);
    Assoc(h + ls, (sep + a) + b, c);
    Assoc(h + ls, sep + a, b);
  }

  lemma RenderEmpty(h: Header)
    ensures Render(h, []) == HeaderText(h)
  {
  }

  // ---------------------------------------------------------------- the forwarder

  // What the print hook may queue.
  predicate IsItem(s: string) {
    NulFree(s) && IsBytes(s) && |s| < LINE_MAX
  }

  predicate AllItems(ring: seq<string>) {
    forall i :: 0 <= i < |ring| ==> IsItem(ring[i])
  }

  const BLOCKED_TAGS := [
    "mqtt_client", "outbox", "transport", "transport_base", "tcp_transport", "transport_ws", "esp-tls"
  ]

  function LevelNum(level: char): nat {
    match level
    case 'E' => 1
    case 'W' => 2
    case 'I' => 3
    case 'D' => 4
    case 'V' => 5
    case _ => 3
  }

  // A batch that is full enough or old enough.
  predicate Due(lines: nat, len: nat, age: int) {
    lines > 0 && (lines >= BATCH_MAX_LINES || len >= BATCH_MAX_BYTES || age >= FLUSH_US)
  }

  // 40 lines, 3800 bytes or two seconds; a batch of no lines is never due.
  lemma DueExactly(lines: nat, len: nat, age: int)
    ensures Due(lines, len, age) <==> lines > 0 && (lines >= 40 || len >= 3800 || age >= 2000000)
  {
  }

  class Forwarder {
    const device: string
    const phone: string
    const maxLevel: nat
    const batch: array<char>
    var len: nat
    var lines: nat
    var seqNo: nat
    var firstLine: int
    var ring: seq<string>
    var dropped: nat
    var published: seq<string>
    var serial: seq<string>      // what the serial port shows
    // The batch being filled, and those published.
    ghost var head: Header
    ghost var pending: seq<string>
    ghost var sent: seq<Sent>

    ghost predicate Valid()
      reads this, batch
    {
      && batch.Length == BATCH_BUF_SIZE
      && |device| <= 31 && |phone| <= 23
      && seqNo < WORD && dropped < WORD && lines == |pending|
      && (len == 0 || pending != [])
      && (pending == [] || Filling())
      && HistoryOk(sent, device, phone) && published == Payloads(sent) && seqNo == |sent| % WORD
      && AllBytes(pending) && AllItems(ring)
    }

    ghost predicate Filling()
      requires batch.Length == BATCH_BUF_SIZE
      reads this, batch
    {
      && len < AVAIL && batch[..len] == Render(head, pending) && batch[len] == NUL
      && head.device == device && head.phone == phone && head.seqNo == seqNo
    }

    // Every line taken from the ring, in order.
    ghost function Taken(): seq<string>
      reads this
    {
      Items(sent) + pending
    }

    // The header of the batch the next line goes to.
    ghost function NextHead(): Header
      reads this
    {
      if pending == [] then Header(device, phone, seqNo, dropped) else head
    }

    constructor (device: string, phone: string, maxLevel: nat)
      requires |device| <= 31 && |phone| <= 23
      ensures Valid() && fresh(batch) && Taken() == [] && ring == [] && published == [] && serial == []
    {
      this.device, this.phone, this.maxLevel := device, phone, maxLevel;
      batch := new char[BATCH_BUF_SIZE];
      len, lines, seqNo, firstLine, ring, dropped, published, serial := 0, 0, 0, 0, [], 0, [], [];
      head, pending, sent := Header(device, phone, 0, 0), [], [];
      new;
      FlatMapNil(OnePayload);
      FlatMapNil(ItemsOf);
    }

    // snprintf: prints what fits in size bytes with its terminator, and returns the full length.
    method Print(pos: nat, size: nat, text: string) returns (n: nat)
      requires 0 < size && pos + size <= batch.Length
      modifies batch
      ensures n == |text| && batch[..pos] == old(batch[..pos])
      ensures n < size ==> batch[..pos + n] == old(batch[..pos]) + text && batch[pos + n] == NUL
    {
      var k := if |text| < size then |text| else size - 1;
      CopyIn(batch, pos, text[..k]);
      ghost var front, put := batch[..pos], batch[pos..pos + k];
      batch[pos + k] := NUL;
      assert batch[..pos] == front && batch[pos..pos + k] == put;
      assert batch[..pos + k] == front + put;
      n := |text|;
    }

    // One character of rl_json_escape; 0 if it does not fit in size bytes with a terminator.
    method PutEscaped(pos: nat, size: nat, c: char) returns (n: nat)
      requires 0 < size && pos + size <= batch.Length
      modifies batch
      ensures batch[..pos] == old(batch[..pos])
      ensures n == if |EscapeChar(c)| < size then |EscapeChar(c)| else 0
      ensures n > 0 ==> batch[..pos + n] == old(batch[..pos]) + EscapeChar(c)
    {
      ghost var front := batch[..pos];
      if c == '"' || c == '\\' {
        if 2 >= size {
          return 0;
        }
        batch[pos] := '\\';
        batch[pos + 1] := c;
        n := 2;
      } else if c < ' ' {
        if 6 >= size {
          return 0;
        }
        n := Print(pos, size, EscapeChar(c));
      } else {
        if 1 >= size {
          return 0;
        }
        batch[pos] := c;
        n := 1;
      }
      assert batch[..pos] == front;
    }

    // rl_json_escape: fails exactly when the escaped text and its terminator do not fit.
    method EscapeInto(pos: nat, size: nat, src: string) returns (r: int)
      requires 0 < size && pos + size <= batch.Length
      modifies batch
      ensures batch[..pos] == old(batch[..pos])
      ensures r == if |Escape(src)| < size then |Escape(src)| else -1
      ensures r >= 0 ==> batch[..pos + r] == old(batch[..pos]) + Escape(src) && batch[pos + r] == NUL
    {
      hide *;
      ghost var front := batch[..pos];
      var w: nat, i: nat := 0, 0;
      EscapeNil(src);
      assert front + "" == front;
      while i < |src|
        invariant i <= |src| && w < size
        invariant w == |Escape(src[..i])| && batch[..pos + w] == front + Escape(src[..i])
      {
        EscapeStep(src, i);
        var n := PutEscaped(pos + w, size - w, src[i]);
        if n == 0 {
          EscapeGrows(src, i + 1);
          assert batch[..pos] == batch[..pos + w][..pos];
          return -1;
        }
        Assoc(front, Escape(src[..i]), EscapeChar(src[i]));
        w, i := w + n, i + 1;
      }
      assert src[..i] == src;
      ghost var done := batch[..pos + w];
      batch[pos + w] := NUL;
      assert batch[..pos + w] == done;
      assert batch[..pos] == done[..pos];
      r := w;
    }

    // rl_batch_append: the line is added exactly when the batch with it stays below 4093 bytes;
    // if it is not, the batch is as it was.
    method Append(item: string) returns (ok: bool)
      requires Valid() && NulFree(item) && IsBytes(item)
      modifies `len, `lines, `head, `pending, batch
      ensures Valid()
      ensures ok == (|Render(old(NextHead()), old(pending) + [item])| < 4093)
      ensures ok && |pending| == 1 ==> head == Header(device, phone, seqNo, dropped)
      ensures ok ==> head == old(NextHead()) && pending == old(pending) + [item]
      ensures !ok ==> head == old(head) && pending == old(pending) && len == old(len)
      ensures !ok ==> batch[..len] == old(batch[..len])
    {
      hide Render, HeaderText, Separator, LineHead, FieldsText, Escape, FieldsOf, Payloads, HistoryOk;
      hide IsBytes, NulFree, IsItem;
      ghost var h, was := NextHead(), pending;
      SnocLength(h, was, item);
      var pos := len;
      if lines == 0 {
        RenderEmpty(h);
        var n := Print(0, AVAIL, HeaderText(Header(device, phone, seqNo, dropped)));
        if n >= AVAIL {
          len := 0;
          return false;
        }
        pos := n;
      }
      ok := AppendLine(pos, item, h);
    }

    // The part of rl_batch_append after the header, which is printed up to pos.
    method AppendLine(pos: nat, item: string, ghost h: Header) returns (ok: bool)
      requires batch.Length == BATCH_BUF_SIZE && pos < AVAIL
      requires batch[..pos] == Render(h, pending)
      requires lines == |pending|
      modifies `len, `lines, `head, `pending, batch
      ensures ok == (|Render(h, old(pending) + [item])| < AVAIL)
      ensures ok ==> lines == old(lines) + 1 && head == h && pending == old(pending) + [item]
      ensures ok ==> len < AVAIL && batch[..len] == Render(h, pending) && batch[len] == NUL
      ensures !ok ==> head == old(head) && pending == old(pending) && lines == old(lines)
      ensures !ok ==> len == if lines == 0 then 0 else pos
      ensures !ok && lines > 0 ==> batch[..pos] == old(batch[..pos]) && batch[pos] == NUL
    {
      hide Render, Separator, LineHead, FieldsText, Escape, FieldsOf;
      var save := if lines == 0 then 0 else pos;
      SnocLength(h, pending, item);
      RenderSnoc(h, pending, item);
      SeparatorIs(pending);
      var f := ReadFields(item);
      HeadIs(item);
      ghost var printed := batch[..pos];
      var end := PrintLine(pos, (if lines > 0 then "," else "") + FieldsText(f), item);
      if end < 0 {
        assert batch[..save] == printed[..save];
        Rollback(save);
        return false;
      }
      len, lines := end, lines + 1;
      head, pending := h, pending + [item];
      ok := true;
    }

    // Prints the head of a line, its escaped text and its end; -1 as soon as they do not fit.
    method PrintLine(pos: nat, lineHead: string, item: string) returns (end: int)
      requires batch.Length == BATCH_BUF_SIZE && pos < AVAIL
      modifies batch
      ensures batch[..pos] == old(batch[..pos])
      ensures var total := pos + |lineHead| + |Escape(item)| + 2; end == if total < AVAIL then total else -1
      ensures end >= 0 ==>
                batch[..end] == ((old(batch[..pos]) + lineHead) + Escape(item)) + LINE_END && batch[end] == NUL
    {
      hide Escape;
      ghost var printed := batch[..pos];
      var n := Print(pos, AVAIL - pos, lineHead);
      if pos + n >= AVAIL {
        return -1;
      }
      var mid := pos + n;
      ghost var headed := batch[..mid];
      assert headed[..pos] == printed;
      var e := EscapeInto(mid, AVAIL - mid, item);
      assert batch[..pos] == batch[..mid][..pos] == headed[..pos];
      if e < 0 || mid + e + 2 >= AVAIL {
        return -1;
      }
      ghost var texted := batch[..mid + e];
      CloseLine(mid + e);
      end := mid + e + 2;
      assert batch[..pos] == batch[..end][..pos] == texted[..pos];
    }

    method CloseLine(end: nat)
      requires end + 2 < batch.Length
      modifies batch
      ensures batch[..end + 2] == old(batch[..end]) + LINE_END && batch[end + 2] == NUL
    {
      ghost var done := batch[..end];
      batch[end] := '"';
      batch[end + 1] := '}';
      batch[end + 2] := NUL;
      assert batch[..end + 2] == done + LINE_END;
    }

    method Rollback(save: nat)
      requires save < batch.Length
      modifies `len, batch
      ensures len == (if lines == 0 then 0 else save) && batch[..save] == old(batch[..save]) && batch[save] == NUL
    {
      batch[save] := NUL;
      len := if lines == 0 then 0 else save;
    }

    // rl_batch_flush: hands the batch, closed, to publish; the next one is numbered one higher.
    method Flush()
      requires Valid()
      modifies `len, `lines, `seqNo, `published, `pending, `sent, batch
      ensures Valid() && pending == [] && Taken() == old(Taken())
      ensures old(pending) == [] ==> published == old(published) && seqNo == old(seqNo)
      ensures old(pending) != [] ==>
                && published == old(published) + [Render(old(head), old(pending)) + BATCH_END]
                && seqNo == (old(seqNo) + 1) % WORD
    {
      hide Render, Payload, FlatMap, IsBytes, IsItem;
      if lines == 0 {
        return;
      }
      ghost var text, b := batch[..len], Sent(head, pending);
      batch[len] := ']';
      batch[len + 1] := '}';
      batch[len + 2] := NUL;
      assert batch[..len + 2] == text + BATCH_END;
      published := published + [batch[..len + 2]];
      SentSnoc(sent, b);
      NextNumber(|sent|);
      sent, pending := sent + [b], [];
      seqNo := (seqNo + 1) % WORD;
      len, lines := 0, 0;
    }

    // A line taken from the ring: appended, or appended to a new batch once this one is flushed.
    method Forward(item: string, now: int)
      requires Valid() && IsItem(item)
      modifies `len, `lines, `seqNo, `firstLine, `published, `head, `pending, `sent, batch
      ensures Valid() && Taken() == old(Taken()) + [item]
      ensures if |Render(old(NextHead()), old(pending) + [item])| < 4093 then
                published == old(published) && pending == old(pending) + [item]
              else
                published == old(published) + [Render(old(head), old(pending)) + BATCH_END] && pending == [item]
      ensures firstLine == if |pending| == 1 then now else old(firstLine)
      ensures |pending| == 1 ==> head == Header(device, phone, seqNo, dropped)
    {
      hide Render, Payloads, Items, HistoryOk, IsBytes;
      ghost var was := pending;
      if was == [] {
        OneLineFits(NextHead(), item);
        assert was + [item] == [item];
      }
      var ok := Append(item);
      if ok {
        Assoc(Items(sent), was, [item]);
      } else {
        StartBatch(item);
      }
      if lines == 1 {
        firstLine := now;
      }
    }

    // The batch is flushed, and a line that did not fit is put into the next one.
    method StartBatch(item: string)
      requires Valid() && IsItem(item) && pending != []
      modifies `len, `lines, `seqNo, `published, `head, `pending, `sent, batch
      ensures Valid() && Taken() == old(Taken()) + [item] && pending == [item]
      ensures published == old(published) + [Render(old(head), old(pending)) + BATCH_END]
      ensures head == Header(device, phone, seqNo, dropped)
    {
      hide Render, Payloads, Items, HistoryOk, IsBytes;
      Flush();
      OneLineFits(NextHead(), item);
      assert [] + [item] == [item];
      Assoc(Items(sent), [], [item]);
      var ok := Append(item);
      assert ok;
    }

    // One round of remote_log_task: now is read after a batch's first line, later at the end.
    method Round(connected: bool, now: int, later: int)
      requires Valid()
      modifies this, batch
      ensures Valid()
      ensures dropped == old(dropped)
      ensures connected && old(ring) == [] && !Due(old(lines), old(len), later - old(firstLine)) ==>
                published == old(published) && pending == old(pending)
      ensures ring == if connected && old(ring) != [] then old(ring)[1..] else old(ring)
      ensures Taken() + ring == old(Taken() + ring)
      ensures !connected ==> published == old(published) && pending == old(pending)
      ensures connected && pending != [] ==>
                lines < BATCH_MAX_LINES && len < BATCH_MAX_BYTES && later - firstLine < FLUSH_US
      ensures |pending| > 1 ==> firstLine == old(firstLine)
      ensures connected && old(ring) != [] && |pending| == 1 ==> firstLine == now
    {
      hide Render, Payloads, Items, HistoryOk, IsBytes, IsItem;
      if !connected {
        return;
      }
      if ring != [] {
        var item := ring[0];
        ghost var taken := Taken();
        Assoc(taken, [item], ring[1..]);
        ring := ring[1..];
        Forward(item, now);
      }
      FlushIfDue(later);
    }

    // The end of a round: a batch is flushed exactly when it is due.
    method FlushIfDue(later: int)
      requires Valid()
      modifies `len, `lines, `seqNo, `published, `pending, `sent, batch
      ensures Valid() && Taken() == old(Taken())
      ensures old(Due(lines, len, later - firstLine)) ==>
                pending == [] && published == old(published) + [Render(old(head), old(pending)) + BATCH_END]
      ensures !old(Due(lines, len, later - firstLine)) ==>
                pending == old(pending) && published == old(published) && lines == old(lines) && len == old(len)
    {
      hide Render, Payloads, Items, HistoryOk, IsBytes, IsItem;
      if lines > 0 && (lines >= BATCH_MAX_LINES || len >= BATCH_MAX_BYTES || later - firstLine >= FLUSH_US) {
        Flush();
      }
    }

    // remote_log_vprintf: text is what vsnprintf prints, own whether the forwarder itself or an
    // interrupt prints it, room whether the ring takes the line.
    method Offer(text: string, own: bool, room: bool)
      requires Valid() && NulFree(text) && IsBytes(text)
      modifies `ring, `dropped, `serial
      ensures Valid() && Taken() == old(Taken()) && serial == old(serial) + [text]
      ensures var line := Strip(Cut(text));
              if own || line == "" || !Wanted(line, maxLevel) then ring == old(ring) && dropped == old(dropped)
              else if room then ring == old(ring) + [line] && dropped == old(dropped)
              else ring == old(ring) && dropped == (old(dropped) + 1) % WORD
    {
      hide Render, Payloads, Items, HistoryOk, AllBytes, Strip, ParsePrefix, Before, Wanted, IsItem;
      serial := serial + [text];
      if own {
        return;
      }
      if text == "" {
        StripNil();
        return;
      }
      var buf := new char[LINE_MAX];
      var n := if |text| < LINE_MAX then |text| else LINE_MAX - 1;
      CopyIn(buf, 0, text[..n]);
      buf[n] := NUL;
      assert buf[..n] == Cut(text);
      ItemQueued(text);
      var w := StripLine(buf, n);
      var line := buf[..w];
      if w == 0 {
        return;
      }
      var wanted := IsWanted(line);
      if wanted {
        if room {
          ring := ring + [line];
        } else {
          dropped := (dropped + 1) % WORD;
        }
      }
    }

    // The level filter, and the filter on the tags of the MQTT stack.
    method IsWanted(line: string) returns (wanted: bool)
      ensures wanted == Wanted(line, maxLevel)
    {
      hide ParsePrefix;
      var p := ReadPrefix(line);
      var level := LevelNum(if p.Prefix? then p.level else 'I');
      if level > maxLevel {
        return false;
      }
      if p.Prefix? && level >= 4 && p.tag in BLOCKED_TAGS {
        return false;
      }
      return true;
    }
  }

  // The first 255 bytes.
  function Cut(text: string): string {
    CutTo(text, LINE_MAX)
  }

  // Cutting a UTF-8 text leaves UTF-8 exactly when it is short enough or the cut is at the end of a
  // character; and the line queued of such a text is UTF-8.
  lemma CutKeepsUtf8(text: string)
    requires Utf8.Valid(text)
    ensures Utf8.Valid(Cut(text)) <==> |text| <= 255 || Utf8.Boundary(text, 255) == 255
    ensures Utf8.Valid(Cut(text)) ==> Utf8.Valid(Strip(Cut(text)))
  {
    hide Utf8.Valid, Utf8.Boundary, Strip;
    if |text| >= LINE_MAX {
      Utf8.BoundaryIsLongest(text, LINE_MAX - 1);
    }
    if Utf8.Valid(Cut(text)) {
      StripKeepsUtf8(Cut(text));
    }
  }

  // A text whose cut splits a character: 254 letters and an e with an acute accent, two bytes.
  lemma CutSplits(pad: string)
    requires |pad| == 254 && forall i :: 0 <= i < 254 ==> pad[i] == 'a'
    ensures var text := pad + [0xC3 as char, 0xA9 as char];
            Utf8.Valid(text) && !Utf8.Valid(Cut(text))
  {
    var text := pad + [0xC3 as char, 0xA9 as char];
    var lead := [0xC3 as char];
    assert Cut(text) == pad + lead;
    Utf8.AsciiThen(pad, [0xC3 as char, 0xA9 as char]);
    Utf8.AsciiThen(pad, lead);
    assert [0xC3 as char, 0xA9 as char][2..] == "";
    assert Utf8.CharLen(lead) == 0;
  }

  lemma ItemQueued(text: string)
    requires NulFree(text) && IsBytes(text)
    ensures IsItem(Strip(Cut(text)))
  {
    hide Strip;
    StripSettles(Cut(text));
  }

  lemma StripNil()
    ensures Strip(Cut("")) == ""
  {
  }

  // Lines above the level are not sent, nor verbose ones that publishing a batch prints.
  predicate Wanted(line: string, maxLevel: nat) {
    match ParsePrefix(line)
    case NoPrefix => 3 <= maxLevel
    case Prefix(level, tag, _) => LevelNum(level) <= maxLevel && (level in "DV" ==> tag !in BLOCKED_TAGS)
  }

  // Raising the level never silences a line.
  lemma LevelMonotone(line: string, lower: nat, upper: nat)
    requires lower <= upper && Wanted(line, lower)
    ensures Wanted(line, upper)
  {
    hide ParsePrefix;
  }

  // Of the lines ESP_LOG prints: errors, warnings and information are judged by their level alone;
  // debug and verbose lines of the MQTT stack are sent at no level.
  lemma WantedLines(level: char, ts: string, tag: string, text: string, maxLevel: nat)
    requires level in "EWIDV" && ts != "" && AllDigits(ts) && tag != "" && ':' !in tag
    ensures Wanted(EspLine(level, ts, tag, text), maxLevel) <==>
            && (match level case 'E' => 1 case 'W' => 2 case 'I' => 3 case 'D' => 4 case _ => 5) <= maxLevel
            && (level in "EWI"
                || tag !in ["mqtt_client", "outbox", "transport", "transport_base", "tcp_transport",
                            "transport_ws", "esp-tls"])
    ensures level in "EWI" && 3 <= maxLevel ==> Wanted(EspLine(level, ts, tag, text), maxLevel)
  {
    PrefixRead(level, ts, tag, text);
    hide ParsePrefix;
  }

  // A line that ESP_LOG did not print counts as information.
  lemma RawWanted(line: string, maxLevel: nat)
    requires forall level, ts, tag, text :: EspParts(level, ts, tag) ==> line != EspLine(level, ts, tag, text)
    ensures Wanted(line, maxLevel) <==> 3 <= maxLevel
  {
    hide ParsePrefix, EspLine;
    if ParsePrefix(line).Prefix? {
      var ts, text := PrefixOnly(line);
    }
  }

  // ---------------------------------------------------------------- what receivers get

  // What is published of the batch being filled once it is closed.
  ghost function Closing(f: Forwarder): seq<string>
    requires f.Valid()
    reads f, f.batch
  {
    if f.pending == [] then [] else [f.batch[..f.len] + BATCH_END]
  }

  // Batch n is read back as the n-th batch, with number n, if and only if the device's names are
  // clean and its items readable.  With clean names the batches published and the one being filled
  // give, in order, the items of each that has no unreadable item; if all lines taken from the ring
  // are readable, that is every line, each once.
  lemma EveryLineForwarded(f: Forwarder)
    requires f.Valid()
    ensures |f.published| == |f.sent|
    ensures forall n :: 0 <= n < |f.sent| ==>
              && f.sent[n].head.seqNo == n % WORD
              && (ReadBatch(f.published[n]) == Good(BatchOf(f.sent[n].head, f.sent[n].items), "") <==>
                    Clean(f.device) && Clean(f.phone) && AllReadable(f.sent[n].items))
    ensures forall n :: 0 <= n < |f.sent| ==>
              Clean(f.device) && Clean(f.phone) && AllReadable(f.sent[n].items) ==>
                var b := ReadBatch(f.published[n]);
                && b.Good? && b.value.device == f.device && b.value.phone == f.phone
                && b.value.seqNo == n % 4294967296 && AllTell(b.value.lines, f.sent[n].items)
    ensures Clean(f.device) && Clean(f.phone) ==>
              FlatMap(TextsOf, f.published + Closing(f)) ==
              FlatMap(Carried, f.sent) + if AllReadable(f.pending) then f.pending else []
    ensures Clean(f.device) && Clean(f.phone) && AllReadable(f.Taken()) ==>
              FlatMap(TextsOf, f.published + Closing(f)) == f.Taken()
  {
    hide FlatMap, TextsOf, Render, ReadBatch, Clean, AllReadable, LineOfs, IsBytes, IsItem, AllTell;
    forall n | 0 <= n < |f.sent|
      ensures |f.published| == |f.sent|
      ensures ReadBatch(f.published[n]) == Good(BatchOf(f.sent[n].head, f.sent[n].items), "") <==>
                Clean(f.device) && Clean(f.phone) && AllReadable(f.sent[n].items)
      ensures AllTell(LineOfs(f.sent[n].items), f.sent[n].items)
    {
      PayloadAt(f.sent, n);
      PayloadRead(f.sent[n]);
      LinesTell(f.sent[n].items);
    }
    if f.sent == [] {
      FlatMapNil(OnePayload);
    } else {
      PayloadAt(f.sent, 0);
    }
    if Clean(f.device) && Clean(f.phone) {
      PayloadsRead(f.sent);
      ClosingRead(f);
      FlatMapConcat(TextsOf, f.published, Closing(f));
      ReadableParts(Items(f.sent), f.pending);
      if AllReadable(f.Taken()) {
        AllCarried(f.sent);
      }
    }
  }

  lemma ClosingRead(f: Forwarder)
    requires f.Valid()
    ensures Clean(f.device) && Clean(f.phone) ==>
              FlatMap(TextsOf, Closing(f)) == if AllReadable(f.pending) then f.pending else []
  {
    hide FlatMap, TextsOf, Render, ReadBatch, Clean, AllReadable, LineOfs, IsBytes, IsItem, HistoryOk;
    if f.pending == [] {
      FlatMapNil(TextsOf);
    } else {
      PayloadRead(Sent(f.head, f.pending));
      FlatMapOne(TextsOf, f.batch[..f.len] + BATCH_END);
    }
  }

  lemma NextNumber(n: nat)
    ensures (n % WORD + 1) % WORD == (n + 1) % WORD
  {
    assert n + 1 == n / WORD * WORD + (n % WORD + 1);
  }

  lemma SentSnoc(sent: seq<Sent>, b: Sent)
    ensures Payloads(sent + [b]) == Payloads(sent) + [Render(b.head, b.items) + BATCH_END]
    ensures Items(sent + [b]) + [] == Items(sent) + b.items
  {
    hide FlatMap, Render;
    FlatMapSnoc(OnePayload, sent, b);
    FlatMapSnoc(ItemsOf, sent, b);
  }

  lemma SeparatorIs(items: seq<string>)
    ensures Separator(items) == if |items| > 0 then "," else ""
  {
  }

  lemma HeadIs(item: string)
    ensures LineHead(item) == FieldsText(FieldsOf(item))
  {
  }

  lemma SnocLength(h: Header, items: seq<string>, item: string)
    ensures |Render(h, items + [item])|
         == |Render(h, items)| + |Separator(items) + LineHead(item)| + |Escape(item)| + 2
  {
    hide Render, LineHead, Escape;
    RenderSnoc(h, items, item);
  }

  lemma EscapeNil(s: string)
    ensures Escape(s[..0]) == ""
  {
    assert s[..0] == [];
    FlatMapNil(EscapeChar);
  }

  lemma EscapeStep(s: string, i: nat)
    requires i < |s|
    ensures Escape(s[..i + 1]) == Escape(s[..i]) + EscapeChar(s[i])
  {
    hide FlatMap, EscapeChar;
    assert s[..i + 1] == s[..i] + [s[i]];
    FlatMapSnoc(EscapeChar, s[..i], s[i]);
  }

  lemma EscapeGrows(s: string, i: nat)
    requires i <= |s|
    ensures |Escape(s[..i])| <= |Escape(s)|
  {
    hide FlatMap;
    assert s == s[..i] + s[i..];
    FlatMapConcat(EscapeChar, s[..i], s[i..]);
  }
}
