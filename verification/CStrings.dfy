// NUL-terminated strings in fixed character arrays, and the C library calls made on them.
module CStrings {

  const NUL := '\0'

  predicate NulFree(s: string) {
    NUL !in s
  }

  predicate IsBytes(s: string) {
    forall i :: 0 <= i < |s| ==> s[i] as int < 256
  }

  // The string held by a buffer: everything before the first NUL.
  function CStr(s: string): (r: string)
    ensures |r| <= |s| && r == s[..|r|] && NulFree(r)
    ensures |r| < |s| ==> s[|r|] == NUL
  {
    if s == "" || s[0] == NUL then "" else [s[0]] + CStr(s[1..])
  }

  // What strncpy and a final NUL leave in a buffer of so many bytes.
  function CutTo(s: string, size: nat): (r: string)
    requires size > 0
    ensures r <= s && |r| < size && (r == s || |r| == size - 1)
  {
    if |s| >= size then s[..size - 1] else s
  }

  lemma CStrNulFree(s: string)
    requires NulFree(s)
    ensures CStr(s) == s
  {
  }

  method Strlen(a: array<char>) returns (n: nat)
    requires NUL in a[..]
    ensures n < a.Length && n == |CStr(a[..])| && a[n] == NUL
  {
    n := 0;
    while a[n] != NUL
      invariant n < a.Length && NulFree(a[..n]) && NUL in a[n..]
      decreases a.Length - n
    {
      n := n + 1;
    }
    assert a[..][..n] == a[..n];
  }

  // memcpy from the front of another array, and of a string to an offset.
  method Copy(src: array<char>, dst: array<char>, n: nat)
    requires n <= src.Length && n <= dst.Length && src != dst
    modifies dst
    ensures dst[..n] == src[..n]
  {
    var i := 0;
    while i < n
      invariant i <= n && dst[..i] == src[..i]
    {
      dst[i] := src[i];
      i := i + 1;
    }
  }

  method CopyIn(a: array<char>, offset: nat, s: string)
    requires offset + |s| <= a.Length
    modifies a
    ensures a[..offset] == old(a[..offset]) && a[offset..offset + |s|] == s
  {
    var i := 0;
    while i < |s|
      invariant i <= |s|
      invariant a[..offset] == old(a[..offset])
      invariant a[offset..offset + i] == s[..i]
    {
      a[offset + i] := s[i];
      i := i + 1;
    }
  }

  // Writes s and its terminator at an offset (strncpy and strncat when nothing is cut).
  method WriteAt(a: array<char>, offset: nat, s: string)
    requires offset + |s| < a.Length && NulFree(s)
    requires NulFree(a[..offset])
    modifies a
    ensures CStr(a[..]) == old(a[..offset]) + s
    ensures a[offset + |s|] == NUL
    ensures a[..offset] == old(a[..offset])
    ensures a[offset..offset + |s|] == s
  {
    CopyIn(a, offset, s);
    a[offset + |s|] := NUL;
    ghost var n := offset + |s|;
    assert a[..][..n] == a[..offset] + a[offset..n];
  }

  // memmove of a[from..to] down to dst.
  method MoveDown(a: array<char>, dst: nat, from: nat, to: nat)
    requires dst <= from <= to <= a.Length
    modifies a
    ensures a[dst..dst + (to - from)] == old(a[from..to])
    ensures a[..dst] == old(a[..dst])
    ensures a[dst + (to - from)..] == old(a[dst + (to - from)..])
  {
    ghost var was := a[..];
    var i := from;
    while i < to
      invariant from <= i <= to
      invariant forall k :: 0 <= k < dst ==> a[k] == was[k]
      invariant forall k :: dst <= k < dst + (i - from) ==> a[k] == was[k + (from - dst)]
      invariant forall k :: dst + (i - from) <= k < a.Length ==> a[k] == was[k]
    {
      a[dst + (i - from)] := a[i];
      i := i + 1;
    }
  }
}
