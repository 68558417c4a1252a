// UTF-8 as in RFC 3629, over strings whose characters are bytes.
module Utf8 {
  import opened Sequences

  predicate IsCont(c: char) {
    0x80 <= c as int < 0xC0
  }

  predicate ContFrom(c: char, lo: int, hi: int) {
    lo <= c as int <= hi
  }

  // Length announced by a leading byte: 1 when it leads nothing longer.
  function LeadLen(c: char): (n: nat)
    ensures 1 <= n <= 4
  {
    if 0xC0 <= c as int < 0xE0 then 2
    else if 0xE0 <= c as int < 0xF0 then 3
    else if 0xF0 <= c as int < 0xF8 then 4
    else 1
  }

  // Length of the character at the start of s, 0 if there is none (the syntax of section 4).
  function CharLen(s: string): (n: nat)
    ensures n <= |s| && n <= 4
  {
    if s == "" then 0
    else
      var b := s[0] as int;
      if b < 0x80 then 1
      else if 0xC2 <= b <= 0xDF && |s| >= 2 && IsCont(s[1]) then 2
      else if 0xE0 <= b <= 0xEF && |s| >= 3 && IsCont(s[2]) && IsCont(s[1])
              && (b == 0xE0 ==> ContFrom(s[1], 0xA0, 0xBF))
              && (b == 0xED ==> ContFrom(s[1], 0x80, 0x9F)) then 3
      else if 0xF0 <= b <= 0xF4 && |s| >= 4 && IsCont(s[3]) && IsCont(s[2]) && IsCont(s[1])
              && (b == 0xF0 ==> ContFrom(s[1], 0x90, 0xBF))
              && (b == 0xF4 ==> ContFrom(s[1], 0x80, 0x8F)) then 4
      else 0
  }

  predicate Valid(s: string)
    decreases |s|
  {
    s == "" || (CharLen(s) > 0 && Valid(s[CharLen(s)..]))
  }

  lemma {:induction false} ValidConcat(p: string, x: string)
    requires Valid(p)
    ensures Valid(p + x) == Valid(x)
    decreases |p|
  {
    if p == "" {
      assert p + x == x;
    } else {
      var n := CharLen(p);
      assert (p + x)[n..] == p[n..] + x;
      ValidConcat(p[n..], x);
    }
  }

  predicate Ascii(s: string) {
    forall i :: 0 <= i < |s| ==> s[i] as int < 0x80
  }

  lemma {:induction false} AsciiValid(s: string)
    requires Ascii(s)
    ensures Valid(s)
  {
    if s != "" {
      AsciiValid(s[1..]);
    }
  }

  lemma AsciiThen(p: string, x: string)
    requires Ascii(p)
    ensures Valid(p + x) == Valid(x)
  {
    AsciiValid(p);
    ValidConcat(p, x);
  }

  // No character runs across the start of an ASCII character.
  lemma {:induction false} SplitAtAscii(t: string, q: string)
    requires q != "" && q[0] as int < 0x80
    ensures Valid(t + q) <==> Valid(t) && Valid(q)
    decreases |t|
  {
    if t == "" {
      assert t + q == q;
    } else {
      var n := CharLen(t);
      SameChar(t, q);
      if n > 0 {
        assert (t + q)[n..] == t[n..] + q;
        SplitAtAscii(t[n..], q);
      }
    }
  }

  lemma SameChar(t: string, q: string)
    requires t != "" && q != "" && q[0] as int < 0x80
    ensures CharLen(t + q) == CharLen(t)
  {
    if CharLen(t) > 0 {
    } else if 0 < CharLen(t + q) <= |t| {
    }
  }

  // ---------------------------------------------------------------- 16-bit code units

  type CodeUnit = u: int | 0 <= u < 0x10000

  predicate Surrogate(u: CodeUnit) {
    0xD800 <= u <= 0xDFFF
  }

  // One, two or three bytes (section 3).
  function Encode(u: CodeUnit): (r: string)
    ensures 1 <= |r| <= 3
  {
    if u < 0x80 then [u as char]
    else if u < 0x800 then [(0xC0 + u / 64) as char, (0x80 + u % 64) as char]
    else [(0xE0 + u / 4096) as char, (0x80 + u / 64 % 64) as char, (0x80 + u % 64) as char]
  }

  function EncodeAll(us: seq<CodeUnit>): string {
    FlatMap(Encode, us)
  }

  lemma EncodeCons(u: CodeUnit, us: seq<CodeUnit>)
    ensures EncodeAll([u] + us) == Encode(u) + EncodeAll(us)
  {
    FlatMapCons(Encode, u, us);
  }

  lemma {:induction false} EncodedLength(us: seq<CodeUnit>)
    ensures |us| <= |EncodeAll(us)| <= 3 * |us|
  {
    if us != [] {
      hide EncodeAll;
      EncodedLength(us[1..]);
    }
  }

  // Reads back what Encode wrote: the lead byte gives the length.
  function DecodeAll(s: string): seq<int>
    decreases |s|
  {
    if s == "" then []
    else
      var b := s[0] as int;
      if b < 0x80 then [b] + DecodeAll(s[1..])
      else if b < 0xE0 then
        if |s| < 2 then [] else [(b - 0xC0) * 64 + (s[1] as int - 0x80)] + DecodeAll(s[2..])
      else
        if |s| < 3 then []
        else [(b - 0xE0) * 4096 + (s[1] as int - 0x80) * 64 + (s[2] as int - 0x80)] + DecodeAll(s[3..])
  }

  lemma DecodeOne(u: CodeUnit, x: string)
    ensures DecodeAll(Encode(u) + x) == [u as int] + DecodeAll(x)
  {
    var s := Encode(u) + x;
    assert s[|Encode(u)|..] == x;
  }

  lemma {:induction false} DecodeEncode(us: seq<CodeUnit>)
    ensures DecodeAll(EncodeAll(us)) == us
  {
    if us != [] {
      hide EncodeAll, Encode, DecodeAll;
      DecodeEncode(us[1..]);
      DecodeOne(us[0], EncodeAll(us[1..]));
    }
  }

  lemma EncodeConcat(a: seq<CodeUnit>, b: seq<CodeUnit>)
    ensures EncodeAll(a + b) == EncodeAll(a) + EncodeAll(b)
  {
    FlatMapConcat(Encode, a, b);
  }

  lemma EncodedChar(u: CodeUnit, x: string)
    ensures CharLen(Encode(u) + x) == if Surrogate(u) then 0 else |Encode(u)|
  {
  }

  // The bytes are valid UTF-8 exactly when no unit is half of a surrogate pair.
  lemma {:induction false} EncodedValid(us: seq<CodeUnit>)
    ensures Valid(EncodeAll(us)) <==> forall u :: u in us ==> !Surrogate(u)
  {
    if us != [] {
      hide EncodeAll, Encode;
      var e, rest := Encode(us[0]), EncodeAll(us[1..]);
      EncodedChar(us[0], rest);
      EncodedValid(us[1..]);
      assert (e + rest)[|e|..] == rest;
    }
  }

  // ---------------------------------------------------------------- cutting a text

  // Start of the character that a cut at n falls into (n itself at a boundary).
  function Boundary(s: string, n: nat): (r: nat)
    requires Valid(s) && n <= |s|
    ensures r <= n
    decreases |s|
  {
    if n < CharLen(s) || s == "" then 0 else CharLen(s) + Boundary(s[CharLen(s)..], n - CharLen(s))
  }

  // The boundary is the longest valid prefix that fits.
  lemma {:induction false} BoundaryIsLongest(s: string, n: nat)
    requires Valid(s) && n <= |s|
    ensures var r := Boundary(s, n);
            && Valid(s[..r])
            && (forall j :: r < j <= n ==> !Valid(s[..j]))
            && (n < |s| ==> n < r + CharLen(s[r..]))
    decreases |s|
  {
    hide CharLen;
    var k := CharLen(s);
    if n < k || s == "" {
      assert s[0..] == s;
      forall j | 0 < j <= n ensures !Valid(s[..j]) {
        PartialChar(s, j);
      }
    } else {
      var r := Boundary(s[k..], n - k);
      BoundaryIsLongest(s[k..], n - k);
      forall j | k <= j <= n ensures Valid(s[..j]) == Valid(s[k..][..j - k]) {
        assert s[..j] == s[..k] + s[k..][..j - k];
        WholeChar(s);
        ValidConcat(s[..k], s[k..][..j - k]);
      }
      assert s[k..][r..] == s[k + r..];
      forall j | k + r < j <= n ensures !Valid(s[..j]) {
        assert !Valid(s[k..][..j - k]);
      }
    }
  }

  lemma WholeChar(s: string)
    requires CharLen(s) > 0
    ensures Valid(s[..CharLen(s)])
  {
    var c := s[..CharLen(s)];
    assert CharLen(c) == |c|;
    assert c[|c|..] == "";
  }

  lemma PartialChar(s: string, j: nat)
    requires 0 < j < CharLen(s)
    ensures CharLen(s[..j]) == 0
  {
  }
}
