// sms_fingerprint: the 32-bit FNV-1a hash of sender, a comma and content.
module Fingerprint {
  import opened CStrings
  import opened Messages
  import opened DtuParser
  import opened Words

  const OFFSET_BASIS := 2166136261
  const PRIME := 16777619
  const INVERSE := 899433627     // of PRIME modulo 2^32

  // Exclusive or of the low `bits` bits.
  function Xor(a: nat, b: nat, bits: nat): nat {
    if bits == 0 then 0 else (a + b) % 2 + 2 * Xor(a / 2, b / 2, bits - 1)
  }

  function Byte(c: char): (b: nat)
    ensures b < 256
  {
    c as int % 256
  }

  // h ^ b changes the low byte only.
  function Mix(h: Word, b: nat): (r: Word)
    requires b < 256
  {
    256 * (h / 256) + MixByte(h % 256, b)
  }

  function MixByte(a: nat, b: nat): (r: nat)
    requires a < 256 && b < 256
    ensures r < 256
  {
    XorRange(a, b, 8);
    Eight();
    Xor(a, b, 8)
  }

  // h ^= (uint8_t)c; h *= 16777619u
  function Absorb(h: Word, c: char): Word {
    Mix(h, Byte(c)) * PRIME % WORD
  }

  function Hash(h: Word, s: string): Word {
    if s == "" then h else Absorb(Hash(h, s[..|s| - 1]), s[|s| - 1])
  }

  // What is hashed: the two C strings with a comma between them.
  // Published test vectors of 32-bit FNV-1a: of nothing, and of one letter.
  lemma TestVectors()
    ensures Hash(OFFSET_BASIS, "") == 0x811c9dc5
    ensures Hash(OFFSET_BASIS, "a") == 0xe40c292c
  {
    XorExample();
    hide Xor;
    assert Mix(0x811c9dc5, 0x61) == 256 * 0x811c9d + 0xa4;
    assert "a"[..0] == "";
    assert Hash(OFFSET_BASIS, "") == OFFSET_BASIS;
    assert Absorb(OFFSET_BASIS, 'a') == 0x811c9da4 * 16777619 % 0x1_0000_0000;
  }

  lemma XorExample()
    ensures Xor(0xc5, 0x61, 8) == 0xa4
  {
    assert Xor(1, 0, 1) == 1;
    assert Xor(3, 1, 2) == 2;
    assert Xor(6, 3, 3) == 5;
    assert Xor(12, 6, 4) == 10;
    assert Xor(24, 12, 5) == 20;
    assert Xor(49, 24, 6) == 41;
    assert Xor(98, 48, 7) == 82;
  }

  // What is hashed of a message.
  lemma SerialText(m: Message)
    requires NulFree(m.sender) && NulFree(m.content)
    ensures Serial(m) == m.sender + "," + m.content && Of(m) == Hash(0x811c9dc5, m.sender + "," + m.content)
  {
    CStrNulFree(m.sender);
    CStrNulFree(m.content);
  }

  function Serial(m: Message): string {
    CStr(m.sender) + COMMA + CStr(m.content)
  }

  function Of(m: Message): Word {
    Hash(OFFSET_BASIS, Serial(m))
  }

  // The three loops of the source.
  method Compute(m: Message) returns (h: Word)
    ensures h == Of(m)
  {
    h := AbsorbAll(OFFSET_BASIS, m.sender);
    var sofar := h;
    h := Absorb(h, ',');
    HashConcat(OFFSET_BASIS, CStr(m.sender), ",");
    HashOne(sofar, ',');
    HashConcat(OFFSET_BASIS, CStr(m.sender) + ",", CStr(m.content));
    h := AbsorbAll(h, m.content);
  }

  method AbsorbAll(start: Word, s: string) returns (h: Word)
    ensures h == Hash(start, CStr(s))
  {
    h := start;
    var i := 0;
    ghost var text := CStr(s);
    while i < |s| && s[i] != NUL
      invariant i <= |text|
      invariant h == Hash(start, text[..i])
    {
      TextChar(s, i);
      assert text[..i + 1][..i] == text[..i];
      h := Absorb(h, s[i]);
      i := i + 1;
    }
    TextChar(s, i);
    assert text[..|text|] == text;
  }

  lemma TextChar(s: string, i: nat)
    ensures i < |CStr(s)| ==> i < |s| && s[i] == CStr(s)[i] && s[i] != NUL
  {
    if i < |CStr(s)| {
      assert s[..|CStr(s)|][i] == s[i];
    }
  }

  lemma HashOne(h: Word, c: char)
    ensures Hash(h, [c]) == Absorb(h, c)
  {
    assert [c][..0] == "";
  }

  lemma {:induction false} HashConcat(h: Word, a: string, b: string)
    ensures Hash(h, a + b) == Hash(Hash(h, a), b)
    decreases |b|
  {
    hide Absorb;
    if b == "" {
      assert a + b == a;
    } else {
      var n := |b| - 1;
      HashConcat(h, a, b[..n]);
      assert (a + b)[..|a + b| - 1] == a + b[..n];
    }
  }

  // ---------------------------------------------------------------- separation

  lemma {:induction false} XorRange(a: nat, b: nat, bits: nat)
    ensures Xor(a, b, bits) < Pow2(bits)
  {
    if bits > 0 {
      XorRange(a / 2, b / 2, bits - 1);
    }
  }

  function Pow2(n: nat): nat {
    if n == 0 then 1 else 2 * Pow2(n - 1)
  }

  lemma {:induction false} XorCommutes(a: nat, b: nat, bits: nat)
    ensures Xor(a, b, bits) == Xor(b, a, bits)
  {
    if bits > 0 {
      XorCommutes(a / 2, b / 2, bits - 1);
    }
  }

  // Exclusive or with a fixed value loses nothing.
  lemma {:induction false} XorInjective(a: nat, b: nat, c: nat, bits: nat)
    requires a < Pow2(bits) && b < Pow2(bits) && Xor(a, c, bits) == Xor(b, c, bits)
    ensures a == b
  {
    if bits > 0 {
      var x, y := Xor(a / 2, c / 2, bits - 1), Xor(b / 2, c / 2, bits - 1);
      SameParity(a, b, c, x, y);
      XorInjective(a / 2, b / 2, c / 2, bits - 1);
    }
  }

  lemma SameParity(a: nat, b: nat, c: nat, x: nat, y: nat)
    requires (a + c) % 2 + 2 * x == (b + c) % 2 + 2 * y
    ensures x == y && a % 2 == b % 2
  {
  }

  lemma Eight()
    ensures Pow2(8) == 256
  {
    assert Pow2(4) == 16;
  }

  // The odd multiplier loses nothing modulo 2^32: multiplying by its inverse recovers the factor.
  lemma TimesPrimeInjective(x: Word, y: Word)
    requires x * PRIME % WORD == y * PRIME % WORD
    ensures x == y
  {
    var q1, q2, r := x * PRIME / WORD, y * PRIME / WORD, x * PRIME % WORD;
    assert x * PRIME == q1 * WORD + r && y * PRIME == q2 * WORD + r;
    assert PRIME * INVERSE == 1 + 3513497 * WORD;
    var t := INVERSE * (q1 - q2) - 3513497 * (x - y);
    assert x - y == WORD * t;
  }

  lemma MixInjective(h1: Word, b1: nat, h2: Word, b2: nat)
    requires b1 < 256 && b2 < 256 && Mix(h1, b1) == Mix(h2, b2)
    ensures b1 == b2 ==> h1 == h2
    ensures h1 == h2 ==> b1 == b2
  {
    Eight();
    var l1, l2 := h1 % 256, h2 % 256;
    XorRange(l1, b1, 8);
    XorRange(l2, b2, 8);
    XorCommutes(l1, b1, 8);
    XorCommutes(l2, b2, 8);
    hide Xor, Pow2;
    SameWord(h1 / 256, Xor(l1, b1, 8), h2 / 256, Xor(l2, b2, 8));
    if b1 == b2 {
      XorInjective(l1, l2, b1, 8);
    }
    if h1 == h2 {
      XorInjective(b1, b2, l1, 8);
    }
  }

  // A step is injective in the hash for a fixed byte, and in the byte for a fixed hash.
  lemma AbsorbInjective(h1: Word, c1: char, h2: Word, c2: char)
    requires Absorb(h1, c1) == Absorb(h2, c2)
    ensures Byte(c1) == Byte(c2) ==> h1 == h2
    ensures h1 == h2 ==> Byte(c1) == Byte(c2)
  {
    hide Mix, Byte;
    TimesPrimeInjective(Mix(h1, Byte(c1)), Mix(h2, Byte(c2)));
    MixInjective(h1, Byte(c1), h2, Byte(c2));
  }

  lemma SameWord(a: nat, x: nat, b: nat, y: nat)
    requires x < 256 && y < 256 && 256 * a + x == 256 * b + y
    ensures a == b && x == y
  {
  }

  predicate DifferOnlyAt(s: string, t: string, i: nat) {
    && |s| == |t| && i < |s|
    && Byte(s[i]) != Byte(t[i])
    && forall j :: 0 <= j < |s| && j != i ==> s[j] == t[j]
  }

  // Texts of one length that differ in exactly one byte never share a hash.
  lemma {:induction false} HashSeparates(h: Word, s: string, t: string, i: nat)
    requires DifferOnlyAt(s, t, i)
    ensures Hash(h, s) != Hash(h, t)
    decreases |s|
  {
    var n := |s| - 1;
    var hs, ht := Hash(h, s[..n]), Hash(h, t[..n]);
    if i == n {
      assert s[..n] == t[..n];
    } else {
      HashSeparates(h, s[..n], t[..n], i);
    }
    hide Absorb;
    if Absorb(hs, s[n]) == Absorb(ht, t[n]) {
      AbsorbInjective(hs, s[n], ht, t[n]);
    }
  }

  // The serialisation determines a message whose sender has no comma.
  lemma SerialInjective(a: Message, b: Message)
    requires ',' !in CStr(a.sender) && ',' !in CStr(b.sender) && Serial(a) == Serial(b)
    ensures CStr(a.sender) == CStr(b.sender) && CStr(a.content) == CStr(b.content)
  {
    var s, t := CStr(a.sender), CStr(b.sender);
    CommaAfter(s, CStr(a.content));
    CommaAfter(t, CStr(b.content));
    assert Serial(a)[..|s|] == s && Serial(b)[..|t|] == t;
    assert Serial(a)[|s| + 1..] == CStr(a.content) && Serial(b)[|t| + 1..] == CStr(b.content);
  }

  // Hence two messages whose serialisations differ in one byte are told apart.
  lemma FingerprintSeparates(a: Message, b: Message, i: nat)
    requires DifferOnlyAt(Serial(a), Serial(b), i)
    ensures Of(a) != Of(b)
  {
    HashSeparates(OFFSET_BASIS, Serial(a), Serial(b), i);
  }
}
