/** C strings and the three libc string routines the core calls (strlen,
    strcpy, strcat), modelled over character buffers.

    A C string is represented by the characters before its terminating NUL,
    so it never contains '\0'. A heap buffer returned by malloc is an
    `array<char>` of the requested size. The libc copies write past the end
    of a buffer that is too small (undefined behaviour in C); the model never
    performs such a write: the copy reports the overrun and leaves the
    buffer as it was. */
module CStr {

  /** The characters of a C string before its terminator. */
  type CString = s: seq<char> | '\0' !in s

  /** The character a C program reads at index `k` of the string `s`;
      index |s| holds the terminator. */
  function At(s: CString, k: nat): (c: char)
    requires k <= |s|
    ensures c == '\0' <==> k == |s|
    ensures k < |s| ==> c == s[k]
  {
    if k < |s| then s[k] else '\0'
  }

  /** The length of the C string stored at the front of a buffer: the index
      of the buffer's first NUL. */
  function CLen(b: seq<char>): (n: nat)
    requires '\0' in b
    ensures n < |b| && b[n] == '\0'
    ensures forall j :: 0 <= j < n ==> b[j] != '\0'
  {
    if b[0] == '\0' then 0 else 1 + CLen(b[1..])
  }

  /** The C string a buffer holds. */
  function Contents(b: seq<char>): (s: CString)
    requires '\0' in b
    ensures |s| == CLen(b) && s + ['\0'] == b[..|s| + 1]
  {
    b[..CLen(b)]
  }

  /** strlen: scans the buffer for its first NUL. */
  method StrLen(buf: array<char>) returns (n: nat)
    requires '\0' in buf[..]
    ensures n == CLen(buf[..])
  {
    n := 0;
    while buf[n] != '\0'
      invariant n <= CLen(buf[..])
      decreases CLen(buf[..]) - n
    {
      n := n + 1;
    }
  }

  /** Writes `src` and its terminator into `dst` from index `at`, when the
      `|src| + 1` characters fit; otherwise reports false and writes nothing. */
  method WriteAt(dst: array<char>, at: nat, src: CString) returns (ok: bool)
    modifies dst
    ensures ok <==> at + |src| < dst.Length
    ensures ok ==> dst[..] == old(dst[..at]) + src + ['\0'] + old(dst[at + |src| + 1..])
    ensures !ok ==> dst[..] == old(dst[..])
  {
    if at + |src| >= dst.Length {
      return false;
    }
    var i := 0;
    while i < |src|
      invariant 0 <= i <= |src|
      invariant forall j :: 0 <= j < i ==> dst[at + j] == src[j]
      invariant forall j :: 0 <= j < dst.Length && !(at <= j < at + i) ==> dst[j] == old(dst[j])
    {
      dst[at + i] := src[i];
      i := i + 1;
    }
    dst[at + |src|] := '\0';
    ok := true;
    ghost var written := old(dst[..at]) + src + ['\0'] + old(dst[at + |src| + 1..]);
    assert |written| == dst.Length;
    forall j | 0 <= j < dst.Length
      ensures dst[j] == written[j]
    {
      if j < at {
      } else if j < at + |src| {
        assert dst[at + (j - at)] == src[j - at];
      } else if j > at + |src| {
      }
    }
    assert dst[..] == written;
  }

  /** strcpy: copies `src` with its terminator to the front of `dst`. */
  method StrCpy(dst: array<char>, src: CString) returns (ok: bool)
    modifies dst
    ensures ok <==> |src| + 1 <= dst.Length
    ensures ok ==> '\0' in dst[..] && Contents(dst[..]) == src
    ensures ok ==> dst[|src| + 1..] == old(dst[|src| + 1..])
    ensures !ok ==> dst[..] == old(dst[..])
  {
    ok := WriteAt(dst, 0, src);
    if ok {
      assert dst[..][..|src| + 1] == src + ['\0'];
      ContentsOfPrefix(dst[..], src);
    }
  }

  /** strcat: appends `src` with its terminator after the C string that
      `dst` already holds. */
  method StrCat(dst: array<char>, src: CString) returns (ok: bool)
    requires '\0' in dst[..]
    modifies dst
    ensures ok <==> CLen(old(dst[..])) + |src| + 1 <= dst.Length
    ensures ok ==> '\0' in dst[..] && Contents(dst[..]) == old(Contents(dst[..])) + src
    ensures ok ==> dst[CLen(old(dst[..])) + |src| + 1..] == old(dst[..])[CLen(old(dst[..])) + |src| + 1..]
    ensures !ok ==> dst[..] == old(dst[..])
  {
    ghost var buffer := dst[..];
    ghost var before := Contents(buffer);
    var n := StrLen(dst);
    ok := WriteAt(dst, n, src);
    if ok {
      ghost var after := dst[..];
      assert after == buffer[..n] + src + ['\0'] + buffer[n + |src| + 1..];
      assert after[..n + |src| + 1] == before + src + ['\0'];
      assert after[n + |src| + 1..] == buffer[n + |src| + 1..];
      ContentsOfPrefix(after, before + src);
    }
  }

  /** A buffer that starts with `s` and a NUL holds the C string `s`. */
  lemma ContentsOfPrefix(b: seq<char>, s: CString)
    requires |s| < |b| && b[..|s| + 1] == s + ['\0']
    ensures '\0' in b && Contents(b) == s
  {
    assert b[|s|] == '\0';
    assert b[..|s|] == s;
  }
}
