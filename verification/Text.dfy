// C strings and line-oriented text.
//
// A C string is modelled as a Dafny string (the characters before the NUL); a byte is a
// character below 256.  `Find` is `strstr` counted in offsets.
module Text {

  const CRLF := "\r\n"

  // `pat` occurs in `s` at offset `i`.
  predicate At(s: string, pat: string, i: int) {
    0 <= i && i + |pat| <= |s| && s[i..i + |pat|] == pat
  }

  predicate StartsWith(s: string, pat: string) {
    |pat| <= |s| && s[..|pat|] == pat
  }

  // Offset of the first occurrence of `pat` at or after `from`, or -1.
  function Find(s: string, pat: string, from: nat): (r: int)
    requires from <= |s|
    ensures r == -1 || from <= r <= |s| - |pat|
    decreases |s| - from
  {
    if At(s, pat, from) then from
    else if from == |s| then -1
    else Find(s, pat, from + 1)
  }

  lemma {:induction false} FindFirst(s: string, pat: string, from: nat)
    requires from <= |s|
    ensures var r := Find(s, pat, from);
            && (r >= 0 ==> At(s, pat, r))
            && (forall j :: from <= j && (r < 0 || j < r) ==> !At(s, pat, j))
    decreases |s| - from
  {
    if !At(s, pat, from) && from < |s| {
      FindFirst(s, pat, from + 1);
    }
  }

  // k is the offset of the first occurrence at or after `from`, or -1 when there is none.
  ghost predicate FirstAt(s: string, pat: string, from: nat, k: int) {
    && (if k < 0 then k == -1 else from <= k && At(s, pat, k))
    && forall j :: from <= j && (k < 0 || j < k) ==> !At(s, pat, j)
  }

  // The first occurrence is the only offset with nothing before it.
  lemma {:induction false} FindIs(s: string, pat: string, from: nat, k: int)
    requires from <= k && At(s, pat, k)
    requires forall j :: from <= j < k ==> !At(s, pat, j)
    ensures from <= |s| && Find(s, pat, from) == k
    decreases k - from
  {
    if from < k {
      assert !At(s, pat, from);
      FindIs(s, pat, from + 1, k);
    }
  }

  lemma {:induction false} FindNone(s: string, pat: string, from: nat)
    requires from <= |s|
    requires forall j :: from <= j ==> !At(s, pat, j)
    ensures Find(s, pat, from) == -1
    decreases |s| - from
  {
    FindFirst(s, pat, from);
  }

  lemma AtChar(s: string, pat: string, i: nat, k: nat)
    requires k < |pat|
    ensures At(s, pat, i) ==> i + k < |s| && s[i + k] == pat[k]
  {
    if i + |pat| <= |s| {
      assert s[i + k] == s[i..i + |pat|][k];
    }
  }

  // Appending text does not move an occurrence already found.
  lemma FindExtend(s: string, x: string, pat: string, from: nat)
    requires from <= |s| && Find(s, pat, from) >= 0
    ensures Find(s + x, pat, from) == Find(s, pat, from)
  {
    var k := Find(s, pat, from);
    FindFirst(s, pat, from);
    forall j | from <= j <= k ensures At(s + x, pat, j) == At(s, pat, j) {
      AtExtend(s, x, pat, j);
    }
    FindIs(s + x, pat, from, k);
  }

  lemma AtExtend(s: string, x: string, pat: string, i: nat)
    requires i + |pat| <= |s|
    ensures At(s + x, pat, i) == At(s, pat, i)
  {
    assert (s + x)[i..i + |pat|] == s[i..i + |pat|];
  }

  lemma AtShift(p: string, s: string, pat: string, i: nat)
    ensures At(p + s, pat, |p| + i) == At(s, pat, i)
  {
    if i + |pat| <= |s| {
      assert (p + s)[|p| + i..|p| + i + |pat|] == s[i..i + |pat|];
    }
  }

  // Searching past a prefix in which no occurrence begins.
  lemma FindShift(p: string, s: string, pat: string)
    requires forall j :: 0 <= j < |p| ==> !At(p + s, pat, j)
    ensures Find(p + s, pat, 0) == Shifted(|p|, Find(s, pat, 0))
  {
    FindFrom(p, s, pat, 0);
    var k := Find(p + s, pat, |p|);
    FindFirst(p + s, pat, |p|);
    if k >= 0 {
      FindIs(p + s, pat, 0, k);
    } else {
      FindNone(p + s, pat, 0);
    }
  }

  // The same from an arbitrary offset inside the suffix.
  lemma FindFrom(p: string, s: string, pat: string, from: nat)
    requires from <= |s|
    ensures Find(p + s, pat, |p| + from) == Shifted(|p|, Find(s, pat, from))
  {
    var k := Find(s, pat, from);
    FindFirst(s, pat, from);
    forall j | |p| + from <= j && (k < 0 || j < |p| + k) ensures !At(p + s, pat, j) {
      AtShift(p, s, pat, j - |p|);
      assert !At(s, pat, j - |p|);
    }
    if k >= 0 {
      AtShift(p, s, pat, k);
      FindIs(p + s, pat, |p| + from, |p| + k);
    } else {
      FindNone(p + s, pat, |p| + from);
    }
  }

  function Shifted(offset: nat, k: int): int {
    if k < 0 then -1 else offset + k
  }
}
