// decode_ucs2_hex_to_utf8: UCS2 code units in hexadecimal to UTF-8 in a fixed buffer.
module Ucs2 {
  import opened CStrings
  import opened Hex
  import opened Utf8
  import opened Sequences

  // Value of the four digits at the start of hex, or -1 when one is not a digit.
  function UnitAt(hex: string): (u: int)
    requires |hex| >= 4
    ensures -1 <= u < 0x10000
  {
    var a, b, c, d := HexVal(hex[0]), HexVal(hex[1]), HexVal(hex[2]), HexVal(hex[3]);
    if a < 0 || b < 0 || c < 0 || d < 0 then -1 else a * 4096 + b * 256 + c * 16 + d
  }

  // The code units of hex, up to the first group that is incomplete or not hexadecimal.
  function Units(hex: string): (us: seq<CodeUnit>)
    ensures 4 * |us| <= |hex|
  {
    if |hex| < 4 || UnitAt(hex) < 0 then [] else [UnitAt(hex)] + Units(hex[4..])
  }

  // The units decoded before the buffer is considered full: one is taken while fewer than
  // size - 4 bytes have been written.
  function Taken(us: seq<CodeUnit>, used: nat, size: nat): (r: seq<CodeUnit>)
    ensures r <= us
  {
    if us == [] || used + 4 >= size then []
    else [us[0]] + Taken(us[1..], used + |Encode(us[0])|, size)
  }

  function Decode(hex: string, size: nat): string {
    EncodeAll(Taken(Units(hex), 0, size))
  }

  // Where decoding stops: everything taken, or at most four bytes of room left.
  lemma {:induction false} TakenIsMaximal(us: seq<CodeUnit>, used: nat, size: nat)
    requires size >= 5 && used + 2 <= size
    ensures var r := Taken(us, used, size);
            && used + |EncodeAll(r)| + 2 <= size
            && (|r| == |us| || used + |EncodeAll(r)| + 4 >= size)
            && (forall j :: 0 <= j < |r| ==> used + |EncodeAll(us[..j])| + 4 < size)
    decreases |us|
  {
    var r := Taken(us, used, size);
    if r == [] {
      NothingEncoded();
    } else {
      hide EncodeAll, Encode;
      var next := used + |Encode(us[0])|;
      TakenIsMaximal(us[1..], next, size);
      EncodeCons(us[0], Taken(us[1..], next, size));
      forall j | 0 <= j < |r| ensures used + |EncodeAll(us[..j])| + 4 < size {
        if j > 0 {
          assert us[..j] == [us[0]] + us[1..][..j - 1];
          EncodeCons(us[0], us[1..][..j - 1]);
        } else {
          NothingEncoded();
        }
      }
    }
  }

  lemma NothingEncoded()
    ensures EncodeAll([]) == ""
  {
  }

  // For every text and buffer: the bytes are whole encodings of a longest prefix of the units,
  // reading them back gives that prefix, they leave room for the NUL and one byte more, and they
  // are valid UTF-8 exactly when the prefix has no surrogate.
  lemma RoundTrip(hex: string, size: nat)
    requires size >= 5
    ensures var us, d := Units(hex), Decode(hex, size);
            var n := |DecodeAll(d)|;
            && n <= |us| && DecodeAll(d) == us[..n] && d == EncodeAll(us[..n])
            && |d| + 2 <= size
            && (n == |us| || |d| + 4 >= size)
            && (forall j :: 0 <= j < n ==> |EncodeAll(us[..j])| + 4 < size)
            && (Valid(d) <==> forall i :: 0 <= i < n ==> !Surrogate(us[i]))
  {
    hide EncodeAll, DecodeAll, Taken, Units, Valid;
    var us := Units(hex);
    var taken := Taken(us, 0, size);
    TakenIsMaximal(us, 0, size);
    DecodeEncode(taken);
    EncodedValid(taken);
    assert taken == us[..|taken|];
  }

  // A text is decoded whole exactly when all of it but the last unit leaves more than four bytes.
  lemma {:induction false} TakesAll(us: seq<CodeUnit>, used: nat, size: nat)
    ensures Taken(us, used, size) == us <==>
            us == [] || used + |EncodeAll(us[..|us| - 1])| + 4 < size
    decreases |us|
  {
    if us == [] {
    } else {
      hide EncodeAll, Encode, Taken;
      var n := |us| - 1;
      var tail := us[1..];
      TakesAll(tail, used + |Encode(us[0])|, size);
      assert us == [us[0]] + tail;
      if n == 0 {
        NothingEncoded();
        assert us[..0] == [];
      } else {
        assert us[..n] == [us[0]] + tail[..n - 1];
        EncodeCons(us[0], tail[..n - 1]);
      }
    }
  }

  // Texts of whole, valid groups concatenate.
  lemma {:induction false} UnitsConcat(a: string, b: string)
    requires IsHex(a) && |a| % 4 == 0
    ensures Units(a + b) == Units(a) + Units(b) && |Units(a)| * 4 == |a|
    decreases |a|
  {
    if a == "" {
      assert a + b == b;
    } else {
      hide Units;
      UnitsConcat(a[4..], b);
      FirstUnit(a, b);
      assert [UnitAt(a)] + (Units(a[4..]) + Units(b)) == ([UnitAt(a)] + Units(a[4..])) + Units(b);
    }
  }

  lemma FirstUnit(a: string, b: string)
    requires IsHex(a) && |a| >= 4
    ensures Units(a) == [UnitAt(a)] + Units(a[4..])
    ensures Units(a + b) == [UnitAt(a)] + Units(a[4..] + b)
  {
    assert (a + b)[4..] == a[4..] + b;
  }

  // Reading stops at the first group with a character that is no digit, and at a group cut short.
  lemma {:induction false} UnitsStop(a: string, bad: string)
    requires IsHex(a) && |a| % 4 == 0
    requires |bad| < 4 || exists i :: 0 <= i < 4 && HexVal(bad[i]) < 0
    ensures Units(a + bad) == Units(a)
  {
    UnitsConcat(a, bad);
    assert Units(a) + [] == Units(a);
  }

  // Printing code units, four digits each.
  function UnitHex(u: CodeUnit): (s: string)
    ensures |s| == 4 && IsHex(s) && UnitAt(s) == u
  {
    var q1 := u / 16;
    var q2 := q1 / 16;
    var q3 := q2 / 16;
    [HexDigit(q3), HexDigit(q2 % 16), HexDigit(q1 % 16), HexDigit(u % 16)]
  }

  function PrintUnits(us: seq<CodeUnit>): string {
    FlatMap(UnitHex, us)
  }

  lemma {:induction false} UnitsOfPrint(us: seq<CodeUnit>)
    ensures var s := PrintUnits(us); Units(s) == us && |s| == 4 * |us| && IsHex(s)
  {
    hide UnitHex;
    if us != [] {
      hide FlatMap;
      assert us == [us[0]] + us[1..];
      FlatMapCons(UnitHex, us[0], us[1..]);
      UnitsOfPrint(us[1..]);
    }
  }

  // Two Chinese characters, digit for digit and byte for byte.
  lemma DecodeExample()
    ensures Units("4F60597d") == [0x4F60, 0x597D]
    ensures Encode(0x4F60) == [0xE4 as char, 0xBD as char, 0xA0 as char]
    ensures Encode(0x597D) == [0xE5 as char, 0xA5 as char, 0xBD as char]
    ensures Encode(0x41) == "A" && Encode(0xE9) == [0xC3 as char, 0xA9 as char]
  {
    assert "4F60597d"[4..] == "597d" && "597d"[4..] == "";
    assert UnitAt("4F60597d") == 0x4F60 && UnitAt("597d") == 0x597D;
    assert Units("597d") == [0x597D] + [];
    assert [0x4F60 as CodeUnit] + [0x597D] == [0x4F60, 0x597D];
  }

  lemma DecodeStep(hex: string, i: nat, n: nat, size: nat)
    requires i + 4 <= |hex| && n + 4 < size && UnitAt(hex[i..]) >= 0
    ensures var u := UnitAt(hex[i..]);
            Remaining(hex, i, n, size) == Encode(u) + Remaining(hex, i + 4, n + |Encode(u)|, size)
  {
    hide EncodeAll, Encode;
    assert hex[i..][4..] == hex[i + 4..];
    var u: CodeUnit, us := UnitAt(hex[i..]), Units(hex[i + 4..]);
    assert ([u] + us)[1..] == us;
    EncodeCons(u, Taken(us, n + |Encode(u)|, size));
  }

  lemma UnitAtDigits(hex: string, i: nat)
    requires i + 4 <= |hex|
    ensures var a, b, c, d := HexVal(hex[i]), HexVal(hex[i + 1]), HexVal(hex[i + 2]), HexVal(hex[i + 3]);
            UnitAt(hex[i..]) == if a < 0 || b < 0 || c < 0 || d < 0 then -1 else a * 4096 + b * 256 + c * 16 + d
  {
  }

  lemma DecodeAdvance(hex: string, i: nat, written: string, size: nat, u: CodeUnit)
    requires i + 4 <= |hex| && |written| + 4 < size
    requires var a, b, c, d := HexVal(hex[i]), HexVal(hex[i + 1]), HexVal(hex[i + 2]), HexVal(hex[i + 3]);
             a >= 0 && b >= 0 && c >= 0 && d >= 0 && u == a * 4096 + b * 256 + c * 16 + d
    requires Standing(hex, i, written, size)
    ensures Standing(hex, i + 4, written + Encode(u), size)
  {
    hide UnitAt, Encode, Remaining, Decode;
    UnitAtDigits(hex, i);
    DecodeStep(hex, i, |written|, size);
    var rest := Remaining(hex, i + 4, |written| + |Encode(u)|, size);
    assert written + (Encode(u) + rest) == (written + Encode(u)) + rest;
  }

  // Appends one encoded unit.  The "buffer too small" exits of the source are never taken: while
  // its loop runs there is room for three bytes and the NUL.
  method WriteUnit(buf: array<char>, n: nat, u: CodeUnit) returns (end: nat)
    requires n + 4 < buf.Length
    modifies buf
    ensures end == n + |Encode(u)| <= n + 3 && buf[..end] == old(buf[..n]) + Encode(u)
  {
    if u < 0x80 {
      buf[n] := u as char;
      end := n + 1;
    } else if u < 0x800 {
      assert n + 1 < buf.Length - 1;
      buf[n], buf[n + 1] := (0xC0 + u / 64) as char, (0x80 + u % 64) as char;
      end := n + 2;
    } else {
      assert n + 2 < buf.Length - 1;
      buf[n], buf[n + 1] := (0xE0 + u / 4096) as char, (0x80 + u / 64 % 64) as char;
      buf[n + 2] := (0x80 + u % 64) as char;
      end := n + 3;
    }
  }

  // What remains to be written when decoding stands at digit i with n bytes written.
  function Remaining(hex: string, i: nat, n: nat, size: nat): string
    requires i <= |hex|
  {
    EncodeAll(Taken(Units(hex[i..]), n, size))
  }

  // Written so far, with decoding at digit i.
  ghost predicate Standing(hex: string, i: nat, written: string, size: nat) {
    i <= |hex| && Decode(hex, size) == written + Remaining(hex, i, |written|, size)
  }

  lemma DecodeStarts(hex: string, size: nat)
    ensures Standing(hex, 0, "", size)
  {
    assert hex[0..] == hex;
    assert "" + Decode(hex, size) == Decode(hex, size);
  }

  lemma DecodeStops(hex: string, i: nat, written: string, size: nat)
    requires Standing(hex, i, written, size)
    requires |hex| < i + 4 || size <= |written| + 4 || UnitAt(hex[i..]) < 0
    ensures Decode(hex, size) == written
  {
    NothingEncoded();
  }

  method DecodeInto(hex: string, buf: array<char>) returns (n: nat)
    requires buf.Length >= 5
    modifies buf
    ensures n + 2 <= buf.Length && buf[n] == NUL
    ensures buf[..n] == Decode(hex, buf.Length)
  {
    hide Standing, Decode, Encode, UnitAt, HexVal;
    var i := 0;
    n := 0;
    DecodeStarts(hex, buf.Length);
    assert buf[..0] == "";
    while i + 4 <= |hex| && n < buf.Length - 4
      invariant i <= |hex| && n + 2 <= buf.Length
      invariant Standing(hex, i, buf[..n], buf.Length)
      decreases |hex| - i
    {
      var h1, h2, h3, h4 := HexVal(hex[i]), HexVal(hex[i + 1]), HexVal(hex[i + 2]), HexVal(hex[i + 3]);
      if h1 == -1 || h2 == -1 || h3 == -1 || h4 == -1 {
        UnitAtDigits(hex, i);
        break;
      }
      var u := h1 * 4096 + h2 * 256 + h3 * 16 + h4;
      ghost var written := buf[..n];
      DecodeAdvance(hex, i, written, buf.Length, u);
      n := WriteUnit(buf, n, u);
      assert buf[..n] == written + Encode(u);
      i := i + 4;
    }
    DecodeStops(hex, i, buf[..n], buf.Length);
    buf[n] := NUL;
  }
}
