/** Bytes, NUL-terminated strings and the libc routines the repository uses on them. */
module CStrings {

  type Byte = b: int | 0 <= b < 256

  /** The characters of a C string, without its terminator. */
  type CString = s: seq<Byte> | 0 !in s

  const NUL: Byte := 0

  // ---------- strcmp ----------

  /** The first character of a string; the terminator when it is empty. */
  function First(s: CString): Byte {
    if s == [] then NUL else s[0]
  }

  /** The sign convention of strcmp: the difference of the first characters that differ. */
  function Strcmp(a: CString, b: CString): int {
    if First(a) != First(b) then First(a) - First(b)
    else if a == [] || b == [] then 0
    else Strcmp(a[1..], b[1..])
  }

  lemma {:induction false} StrcmpZeroIsEquality(a: CString, b: CString)
    ensures Strcmp(a, b) == 0 <==> a == b
  {
    if a != [] && b != [] && a[0] == b[0] {
      StrcmpZeroIsEquality(a[1..], b[1..]);
      assert a == [a[0]] + a[1..] && b == [b[0]] + b[1..];
    }
  }

  lemma {:induction false} StrcmpAntisymmetric(a: CString, b: CString)
    ensures Strcmp(b, a) == -Strcmp(a, b)
  {
    if a != [] && b != [] && a[0] == b[0] {
      StrcmpAntisymmetric(a[1..], b[1..]);
    }
  }

  lemma {:induction false} StrcmpTransitive(a: CString, b: CString, c: CString)
    requires Strcmp(a, b) <= 0 && Strcmp(b, c) <= 0
    ensures Strcmp(a, c) <= 0
    ensures Strcmp(a, b) < 0 || Strcmp(b, c) < 0 ==> Strcmp(a, c) < 0
  {
    if a != [] && b != [] && c != [] && a[0] == b[0] == c[0] {
      StrcmpTransitive(a[1..], b[1..], c[1..]);
    }
  }

  /** Dictionary order: a is a proper prefix of b, or smaller in the first character in which they differ. */
  ghost predicate Precedes(a: CString, b: CString) {
    || (|a| < |b| && b[..|a|] == a)
    || (exists i :: SmallerAt(a, b, i))
  }

  predicate SmallerAt(a: CString, b: CString, i: nat) {
    i < |a| && i < |b| && a[..i] == b[..i] && a[i] < b[i]
  }

  lemma {:induction false} StrcmpDiffersAt(a: CString, b: CString, i: nat)
    requires i < |a| && i < |b| && a[..i] == b[..i] && a[i] != b[i]
    ensures Strcmp(a, b) > 0 <==> a[i] > b[i]
    ensures Strcmp(a, b) != 0
  {
    if i > 0 {
      assert a[0] == a[..i][0] == b[..i][0] == b[0];
      assert a[1..][..i - 1] == a[..i][1..] == b[..i][1..] == b[1..][..i - 1];
      StrcmpDiffersAt(a[1..], b[1..], i - 1);
    }
  }

  lemma {:induction false} StrcmpOfPrefix(a: CString, b: CString)
    requires |a| < |b| && b[..|a|] == a
    ensures Strcmp(a, b) < 0
  {
    if a != [] {
      assert a[0] == b[..|a|][0] && a[1..] == b[1..][..|a| - 1];
      StrcmpOfPrefix(a[1..], b[1..]);
    } else {
      assert b[0] in b;
    }
  }

  /** Where two strings part: one is a prefix of the other, or there is a first difference. */
  lemma {:induction false} FirstDifference(a: CString, b: CString) returns (i: nat)
    ensures i <= |a| && i <= |b| && a[..i] == b[..i]
    ensures i < |a| && i < |b| ==> a[i] != b[i]
  {
    if a == [] || b == [] || a[0] != b[0] {
      i := 0;
    } else {
      var j := FirstDifference(a[1..], b[1..]);
      i := j + 1;
      assert a[..i] == [a[0]] + a[1..][..j] && b[..i] == [b[0]] + b[1..][..j];
    }
  }

  /** strcmp is below zero exactly when the first string comes first in the dictionary. */
  lemma StrcmpIsDictionaryOrder(a: CString, b: CString)
    ensures Strcmp(a, b) < 0 <==> Precedes(a, b)
    ensures Strcmp(a, b) > 0 <==> Precedes(b, a)
  {
    StrcmpAntisymmetric(a, b);
    StrcmpBelowZero(a, b);
    StrcmpBelowZero(b, a);
  }

  lemma StrcmpBelowZero(a: CString, b: CString)
    ensures Strcmp(a, b) < 0 <==> Precedes(a, b)
  {
    StrcmpAntisymmetric(a, b);
    if Precedes(a, b) {
      if |a| < |b| && b[..|a|] == a {
        StrcmpOfPrefix(a, b);
      } else {
        var i :| SmallerAt(a, b, i);
        StrcmpDiffersAt(a, b, i);
      }
    } else {
      var i := FirstDifference(a, b);
      if i < |a| && i < |b| {
        StrcmpDiffersAt(a, b, i);
        assert !SmallerAt(a, b, i);
      } else if i == |b| < |a| {
        StrcmpOfPrefix(b, a);
      } else {
        StrcmpZeroIsEquality(a, b);
      }
    }
  }

  // ---------- strings stored in buffers ----------

  function Zeros(n: nat): (z: seq<Byte>)
    ensures |z| == n && forall i :: 0 <= i < n ==> z[i] == NUL
  {
    seq(n, i => NUL)
  }

  /** A terminator occurs in the buffer, so strlen stays inside it. */
  predicate Terminated(buffer: seq<Byte>) {
    NUL in buffer
  }

  /** The string that starts at the beginning of a buffer: everything before the first NUL. */
  function StringAt(buffer: seq<Byte>): (s: CString)
    requires Terminated(buffer)
    ensures |s| < |buffer| && buffer[|s|] == NUL && s == buffer[..|s|]
  {
    if buffer[0] == NUL then [] else [buffer[0]] + StringAt(buffer[1..])
  }

  /** The string in a buffer is determined by where its first NUL is. */
  lemma {:induction false} StringAtIs(buffer: seq<Byte>, s: CString)
    requires |s| < |buffer| && buffer[..|s|] == s && buffer[|s|] == NUL
    ensures Terminated(buffer) && StringAt(buffer) == s
  {
    if s != [] {
      assert s[0] == buffer[..|s|][0] && s[1..] == buffer[1..][..|s| - 1];
      StringAtIs(buffer[1..], s[1..]);
      assert s == [s[0]] + s[1..];
    }
  }

  /** strncmp(buffer, s, n) == 0, where reading s stops at its terminator. */
  predicate StrncmpEqual(buffer: seq<Byte>, s: CString, n: nat)
    requires n <= |buffer|
  {
    n == 0
    || (buffer[0] == First(s)
        && (s == [] || StrncmpEqual(buffer[1..], s[1..], n - 1)))
  }

  /** The bounded comparison agrees with equality of whole strings, whatever the length of s. */
  lemma {:induction false} StrncmpEqualIsEquality(buffer: seq<Byte>, s: CString)
    requires Terminated(buffer)
    ensures StrncmpEqual(buffer, s, |buffer|) <==> StringAt(buffer) == s
  {
    if buffer[0] == NUL {
    } else if s == [] || buffer[0] != s[0] {
      assert StringAt(buffer)[0] == buffer[0];
    } else {
      StrncmpEqualIsEquality(buffer[1..], s[1..]);
      assert StringAt(buffer) == [buffer[0]] + StringAt(buffer[1..]);
      assert s == [s[0]] + s[1..];
      assert StringAt(buffer)[1..] == StringAt(buffer[1..]);
    }
  }

  /** memcpy: the bytes of source written over target from the given offset on. */
  function Patch(target: seq<Byte>, offset: nat, source: seq<Byte>): (r: seq<Byte>)
    requires offset + |source| <= |target|
    ensures |r| == |target|
    ensures forall k :: 0 <= k < |target| ==>
      r[k] == if offset <= k < offset + |source| then source[k - offset] else target[k]
  {
    target[..offset] + source + target[offset + |source|..]
  }

  // ---------- a 32-bit int stored in four bytes ----------

  const INT_LIMIT: int := 0x8000_0000

  predicate IsInt32(v: int) {
    -INT_LIMIT <= v < INT_LIMIT
  }

  /** Two's complement, least significant byte first. */
  function EncodeInt(v: int): (b: seq<Byte>)
    requires IsInt32(v)
    ensures |b| == 4
  {
    var u := if v < 0 then v + 2 * INT_LIMIT else v;
    [u % 0x100, (u / 0x100) % 0x100, (u / 0x1_0000) % 0x100, u / 0x100_0000]
  }

  function DecodeInt(b: seq<Byte>): (v: int)
    requires |b| == 4
    ensures IsInt32(v)
  {
    var u: int := b[0] as int + 0x100 * b[1] as int + 0x1_0000 * b[2] as int + 0x100_0000 * b[3] as int;
    if u >= INT_LIMIT then u - 2 * INT_LIMIT else u
  }

  lemma DecodeEncode(v: int)
    requires IsInt32(v)
    ensures DecodeInt(EncodeInt(v)) == v
  {
    var u := if v < 0 then v + 2 * INT_LIMIT else v;
    assert u == u % 0x100 + 0x100 * (u / 0x100);
    assert u / 0x100 == (u / 0x100) % 0x100 + 0x100 * (u / 0x1_0000);
    assert u / 0x1_0000 == (u / 0x1_0000) % 0x100 + 0x100 * (u / 0x100_0000);
  }
}
