/** The two string utilities of the renderer: rendering a 32-bit unsigned
    integer as a binary numeral (Uint32ToBinary) and the single-pass
    substring matcher (StringContains). */
module Utility {
  import opened CStr

  // ---------------------------------------------------------------------
  // Binary numerals
  // ---------------------------------------------------------------------

  /** An SDL `Uint32`: `num & 1` is `num % 2` and `num >>= 1` is `num / 2`. */
  type Uint32 = n: nat | n < 0x1_0000_0000

  function Pow2(k: nat): (p: nat)
    ensures p >= 1
  {
    if k == 0 then 1 else 2 * Pow2(k - 1)
  }

  /** `n >> k`: `n` shifted right by `k` single-bit steps, as the loop of
      Uint32ToBinary does with `num >>= 1`. */
  function Shr(n: nat, k: nat): (r: nat)
    ensures r <= n
  {
    if k == 0 then n else Shr(n / 2, k - 1)
  }

  /** Bit `k` of `n` (bit 0 is the least significant): `(n >> k) & 1`. */
  predicate BitSet(n: nat, k: nat) {
    Shr(n, k) % 2 == 1
  }

  /** The character the source writes for one bit. */
  function Digit(bit: bool): char {
    if bit then '1' else '0'
  }

  predicate IsBinary(s: seq<char>) {
    forall i :: 0 <= i < |s| ==> s[i] == '0' || s[i] == '1'
  }

  /** The lowest `width` bits of `n` as '0'/'1' characters, most significant
      bit first. */
  function ToBinary(n: nat, width: nat): (s: seq<char>)
    ensures |s| == width && IsBinary(s)
  {
    if width == 0 then [] else ToBinary(n / 2, width - 1) + [Digit(n % 2 == 1)]
  }

  /** The value of a base-2 numeral written most significant digit first;
      a character other than '1' counts as a zero digit. */
  function FromBinary(s: seq<char>): (n: nat)
    ensures n < Pow2(|s|)
  {
    if s == [] then 0
    else 2 * FromBinary(s[..|s| - 1]) + (if s[|s| - 1] == '1' then 1 else 0)
  }

  /** One more shift halves the shifted value. */
  lemma {:induction false} ShrSucc(n: nat, k: nat)
    ensures Shr(n, k + 1) == Shr(n, k) / 2
  {
    if k > 0 {
      ShrSucc(n / 2, k - 1);
    }
  }

  /** The character at index `i` of the numeral is '1' exactly when bit
      `width - 1 - i` of `n` is set: the most significant bit comes first. */
  lemma {:induction false} ToBinaryAt(n: nat, width: nat, i: nat)
    requires i < width
    ensures ToBinary(n, width)[i] == Digit(BitSet(n, width - 1 - i))
    ensures ToBinary(n, width)[i] == '1' <==> BitSet(n, width - 1 - i)
  {
    if i < width - 1 {
      ToBinaryAt(n / 2, width - 1, i);
      assert Shr(n, width - 1 - i) == Shr(n / 2, width - 2 - i);
    }
  }

  /** Appending a digit doubles the value and adds the digit. */
  lemma FromBinarySnoc(s: seq<char>, c: char)
    ensures FromBinary(s + [c]) == 2 * FromBinary(s) + (if c == '1' then 1 else 0)
  {
    assert (s + [c])[..|s|] == s;
  }

  /** Reading the numeral of a value that fits in `width` bits back gives
      the value. */
  lemma {:induction false} FromToBinary(n: nat, width: nat)
    requires n < Pow2(width)
    ensures FromBinary(ToBinary(n, width)) == n
  {
    if width > 0 {
      var half, bit := n / 2, n % 2;
      assert half < Pow2(width - 1);
      FromToBinary(half, width - 1);
      FromBinarySnoc(ToBinary(half, width - 1), Digit(bit == 1));
      assert n == 2 * half + bit;
    }
  }

  /** Every '0'/'1' string is the numeral of its own value. */
  lemma {:induction false} ToFromBinary(s: seq<char>)
    requires IsBinary(s)
    ensures ToBinary(FromBinary(s), |s|) == s
  {
    if s != [] {
      var init := s[..|s| - 1];
      var v := FromBinary(s);
      assert IsBinary(init);
      ToFromBinary(init);
      assert v / 2 == FromBinary(init);
      assert s == init + [s[|s| - 1]];
    }
  }

  lemma Pow2Plus4(k: nat)
    ensures Pow2(k + 4) == 16 * Pow2(k)
  {
    assert Pow2(k + 4) == 2 * Pow2(k + 3);
    assert Pow2(k + 3) == 2 * Pow2(k + 2);
    assert Pow2(k + 2) == 2 * Pow2(k + 1);
  }

  /** 2^32, the number of `Uint32` values. */
  lemma Pow2Of32()
    ensures Pow2(32) == 0x1_0000_0000
  {
    Pow2Plus4(0);
    Pow2Plus4(4);
    Pow2Plus4(8);
    Pow2Plus4(12);
    Pow2Plus4(16);
    Pow2Plus4(20);
    Pow2Plus4(24);
    Pow2Plus4(28);
  }

  /** The 32 digits written by Uint32ToBinary read back as `num`. */
  lemma Uint32RoundTrip(num: Uint32)
    ensures FromBinary(ToBinary(num, 32)) == num
  {
    Pow2Of32();
    FromToBinary(num, 32);
  }

  /** Uint32ToBinary: fills a 33-character buffer from index 31 down to 0
      with the bits of `num`, lowest bit last, and terminates it with NUL. */
  method Uint32ToBinary(num: Uint32) returns (result: array<char>)
    ensures fresh(result)
    ensures result.Length == 33 && result[32] == '\0'
    ensures result[..32] == ToBinary(num, 32)
  {
    result := new char[33];
    result[32] := '\0';
    var n: nat := num;
    var i := 31;
    while i >= 0
      invariant -1 <= i <= 31
      invariant n == Shr(num, 31 - i)
      invariant result[32] == '\0'
      invariant forall j :: i < j < 32 ==> result[j] == ToBinary(num, 32)[j]
    {
      ToBinaryAt(num, 32, i);
      if n % 2 == 1 {
        result[i] := '1';
      } else {
        result[i] := '0';
      }
      ShrSucc(num, 31 - i);
      n := n / 2;
      i := i - 1;
    }
  }

  // ---------------------------------------------------------------------
  // The single-pass substring matcher
  // ---------------------------------------------------------------------

  /** `t` occurs in `s` starting at index `j`. */
  predicate OccursAt(s: seq<char>, t: seq<char>, j: nat) {
    j + |t| <= |s| && s[j..j + |t|] == t
  }

  ghost predicate Occurs(s: seq<char>, t: seq<char>) {
    exists j: nat :: OccursAt(s, t, j)
  }

  /** The running match length `targetIndex` stays below the target's
      length, except that it is 0 for an empty target. */
  predicate ValidIndex(t: CString, k: nat) {
    k < |t| || k == 0
  }

  /** Reading `c` with `k` characters matched finishes the match. */
  predicate Completes(c: char, t: CString, k: nat)
    requires k <= |t|
  {
    c == At(t, k) && k + 1 == |t|
  }

  /** The new match length after reading `c` without finishing: one more on
      a match; on a mismatch 1 if `c` equals the target's first character,
      else 0. */
  function NextIndex(c: char, t: CString, k: nat): nat
    requires k <= |t|
  {
    if c == At(t, k) then k + 1 else if c == At(t, 0) then 1 else 0
  }

  /** The matcher's answer when it is at index `i` of `s` with `k`
      characters matched. */
  function MatchFrom(s: CString, t: CString, i: nat, k: nat): bool
    requires i <= |s| && ValidIndex(t, k)
    decreases |s| - i
  {
    if i == |s| then false
    else if Completes(s[i], t, k) then true
    else
      assert s[i] in s;
      MatchFrom(s, t, i + 1, NextIndex(s[i], t, k))
  }

  /** What StringContains(s, t) returns. */
  function Matches(s: CString, t: CString): bool {
    MatchFrom(s, t, 0, 0)
  }

  /** The loop invariant of the scan: the `k` characters just before index
      `i` are the first `k` characters of the target. */
  predicate ScanInvariant(s: CString, t: CString, i: nat, k: nat) {
    i <= |s| && k <= i && ValidIndex(t, k) && k <= |t| && s[i - k..i] == t[..k]
  }

  /** One step of the scan that does not return keeps the invariant. */
  lemma ScanStep(s: CString, t: CString, i: nat, k: nat)
    requires ScanInvariant(s, t, i, k) && i < |s| && !Completes(s[i], t, k)
    ensures ScanInvariant(s, t, i + 1, NextIndex(s[i], t, k))
  {
    assert s[i] in s;
    if s[i] == At(t, k) {
      assert s[i - k..i + 1] == s[i - k..i] + [s[i]];
      assert t[..k + 1] == t[..k] + [t[k]];
    } else if NextIndex(s[i], t, k) == 1 {
      assert s[i..i + 1] == [s[i]];
    }
  }

  /** When the scan returns true at index `i`, the target ends at `i`. */
  lemma CompletesOccurs(s: CString, t: CString, i: nat, k: nat)
    requires ScanInvariant(s, t, i, k) && i < |s| && Completes(s[i], t, k)
    ensures OccursAt(s, t, i + 1 - |t|)
  {
    assert s[i - k..i + 1] == s[i - k..i] + [s[i]];
    assert t == t[..k] + [t[k]];
  }

  lemma {:induction false} MatchFromSound(s: CString, t: CString, i: nat, k: nat)
    requires ScanInvariant(s, t, i, k) && MatchFrom(s, t, i, k)
    ensures Occurs(s, t)
    decreases |s| - i
  {
    if Completes(s[i], t, k) {
      CompletesOccurs(s, t, i, k);
    } else {
      ScanStep(s, t, i, k);
      MatchFromSound(s, t, i + 1, NextIndex(s[i], t, k));
    }
  }

  /** Soundness: a true answer means the target occurs contiguously. */
  lemma MatchesSound(s: CString, t: CString)
    ensures Matches(s, t) ==> Occurs(s, t)
  {
    if Matches(s, t) {
      MatchFromSound(s, t, 0, 0);
    }
  }

  lemma {:induction false} EmptyTargetScan(s: CString, i: nat)
    requires i <= |s|
    ensures !MatchFrom(s, [], i, 0)
    decreases |s| - i
  {
    if i < |s| {
      assert s[i] in s;
      EmptyTargetScan(s, i + 1);
    }
  }

  /** An empty target is never found: its first character is the
      terminator, which no scanned character equals. */
  lemma EmptyTargetNeverMatches(s: CString)
    ensures !Matches(s, [])
  {
    EmptyTargetScan(s, 0);
  }

  /** Once the first `j` characters of an occurrence at `p` are matched,
      the scan reaches the end of the occurrence and returns true. */
  lemma {:induction false} MatchFromOccurrenceTail(s: CString, t: CString, p: nat, j: nat)
    requires OccursAt(s, t, p) && 1 <= j < |t|
    ensures MatchFrom(s, t, p + j, j)
    decreases |t| - j
  {
    assert s[p + j] == s[p..p + |t|][j];
    if !Completes(s[p + j], t, j) {
      MatchFromOccurrenceTail(s, t, p, j + 1);
    }
  }

  /** When `t[0]` does not recur in `t`, any scan state before an occurrence
      leads to a true answer. */
  lemma {:induction false} MatchFromBeforeOccurrence(s: CString, t: CString, p: nat, i: nat, k: nat)
    requires OccursAt(s, t, p) && |t| > 0 && t[0] !in t[1..]
    requires i <= p && ValidIndex(t, k)
    ensures MatchFrom(s, t, i, k)
    decreases p - i
  {
    assert s[i] in s;
    if i < p {
      if !Completes(s[i], t, k) {
        MatchFromBeforeOccurrence(s, t, p, i + 1, NextIndex(s[i], t, k));
      }
    } else {
      assert s[p] == s[p..p + |t|][0] == t[0];
      if 0 < k {
        assert t[k] == t[1..][k - 1];
      }
      if !Completes(s[i], t, k) {
        MatchFromOccurrenceTail(s, t, p, 1);
      }
    }
  }

  /** Exactness: when the target's first character does not recur in it,
      the matcher answers true exactly when the target occurs. */
  lemma MatchesExact(s: CString, t: CString)
    requires |t| > 0 && t[0] !in t[1..]
    ensures Matches(s, t) <==> Occurs(s, t)
  {
    MatchesSound(s, t);
    if Occurs(s, t) {
      var p: nat :| OccursAt(s, t, p);
      MatchFromBeforeOccurrence(s, t, p, 0, 0);
    }
  }

  /** The probe in LoadShaders: "vert" is found in "vejvtyveverto". */
  lemma VertProbe()
    ensures Matches("vejvtyveverto", "vert")
  {
  }

  /** Incompleteness: after the partial match "aa" fails at the third 'a',
      the scan restarts with one character matched and misses "aab". */
  lemma IncompleteAfterPartialMismatch()
    ensures OccursAt("aaab", "aab", 1) && !Matches("aaab", "aab")
  {
  }

  /** StringContains: scans `searchString` once, keeping the running match
      length `targetIndex`, and returns as soon as the target is complete. */
  method StringContains(searchString: CString, target: CString) returns (found: bool)
    ensures found == Matches(searchString, target)
    ensures found ==> exists j: nat :: OccursAt(searchString, target, j)
  {
    var targetIndex: nat := 0;
    var targetLength := |target|;
    var i := 0;
    while i < |searchString|
      invariant ScanInvariant(searchString, target, i, targetIndex)
      invariant MatchFrom(searchString, target, i, targetIndex) == Matches(searchString, target)
    {
      var c := searchString[i];
      if c == At(target, targetIndex) {
        if targetIndex + 1 == targetLength {
          CompletesOccurs(searchString, target, i, targetIndex);
          return true;
        }
        ScanStep(searchString, target, i, targetIndex);
        targetIndex := targetIndex + 1;
      } else {
        ScanStep(searchString, target, i, targetIndex);
        targetIndex := if c == At(target, 0) then 1 else 0;
      }
      i := i + 1;
    }
    return false;
  }
}
