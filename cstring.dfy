/**
 * C strings as the engine sees them: keys and values are NUL-terminated byte
 * strings, compared with `strcmp` (which reads bytes as `unsigned char`).
 */
module CString {

  /** One byte of a C string's content. The terminating NUL is not content, so no byte is zero. */
  type Byte = b: int | 0 < b < 256 witness 1

  /** The content of a C string, without its terminator. */
  type Str = seq<Byte>

  /** The byte `strcmp` reads at the front of `s`: the first byte, or the terminator 0. */
  function Head(s: Str): int
  {
    if s == [] then 0 else s[0]
  }

  /**
   * `strcmp`: walks both strings until the bytes differ or both end, and
   * returns the difference of the bytes where it stopped. The C standard fixes
   * only the sign of the result; the difference is what glibc returns.
   */
  function StrCmp(a: Str, b: Str): int
    decreases |a|
  {
    if Head(a) != Head(b) then Head(a) - Head(b)
    else if a == [] then 0
    else StrCmp(a[1..], b[1..])
  }

  /**
   * Byte-wise lexicographic order, defined independently of `StrCmp`: `a` is a
   * proper prefix of `b`, or `a` has the smaller byte at the first position
   * where the two differ.
   */
  ghost predicate LexLess(a: Str, b: Str)
  {
    exists k :: 0 <= k <= |a| && k <= |b| && a[..k] == b[..k] &&
      ((k == |a| && k < |b|) || (k < |a| && k < |b| && a[k] < b[k]))
  }

  /** Swapping the arguments negates the result. */
  lemma {:induction false} StrCmpSwap(a: Str, b: Str)
    ensures StrCmp(b, a) == -StrCmp(a, b)
    decreases |a|
  {
    if Head(a) == Head(b) && a != [] {
      StrCmpSwap(a[1..], b[1..]);
    }
  }

  /** `strcmp` returns 0 exactly for equal strings. */
  lemma {:induction false} StrCmpZero(a: Str, b: Str)
    ensures StrCmp(a, b) == 0 <==> a == b
    decreases |a|
  {
    if Head(a) == Head(b) && a != [] {
      StrCmpZero(a[1..], b[1..]);
      assert a == [a[0]] + a[1..];
      assert b == [b[0]] + b[1..];
    }
  }

  /** The order `strcmp` induces is transitive. */
  lemma {:induction false} StrCmpTrans(a: Str, b: Str, c: Str)
    requires StrCmp(a, b) <= 0 && StrCmp(b, c) <= 0
    ensures StrCmp(a, c) <= 0
    decreases |a|
  {
    if Head(a) == Head(b) == Head(c) && a != [] {
      StrCmpTrans(a[1..], b[1..], c[1..]);
    }
  }

  /** A strict step followed by a weak one is strict. */
  lemma StrCmpTransStrict(a: Str, b: Str, c: Str)
    requires StrCmp(a, b) < 0 && StrCmp(b, c) <= 0
    ensures StrCmp(a, c) < 0
  {
    StrCmpTrans(a, b, c);
    StrCmpZero(a, c);
    StrCmpSwap(a, b);
  }

  /** A negative `strcmp` result means exactly "lexicographically smaller". */
  lemma {:induction false} StrCmpIsLexicographic(a: Str, b: Str)
    ensures StrCmp(a, b) < 0 <==> LexLess(a, b)
    decreases |a|
  {
    if Head(a) < Head(b) {
      assert a[..0] == b[..0];
      assert (0 == |a| && 0 < |b|) || (0 < |a| && 0 < |b| && a[0] < b[0]);
    } else if Head(a) > Head(b) {
      // No witness exists: at k == 0 the bytes compare the wrong way, and any
      // k > 0 would force equal first bytes.
    } else if a == [] {
      assert b == [];
    } else {
      var a', b' := a[1..], b[1..];
      StrCmpIsLexicographic(a', b');
      if LexLess(a, b) {
        var k :| 0 <= k <= |a| && k <= |b| && a[..k] == b[..k] &&
          ((k == |a| && k < |b|) || (k < |a| && k < |b| && a[k] < b[k]));
        assert k > 0;
        assert a'[..k - 1] == a[..k][1..] == b[..k][1..] == b'[..k - 1];
        assert (k - 1 == |a'| && k - 1 < |b'|) || (k - 1 < |a'| && k - 1 < |b'| && a'[k - 1] < b'[k - 1]);
      }
      if LexLess(a', b') {
        var k :| 0 <= k <= |a'| && k <= |b'| && a'[..k] == b'[..k] &&
          ((k == |a'| && k < |b'|) || (k < |a'| && k < |b'| && a'[k] < b'[k]));
        assert a[..k + 1] == [a[0]] + a'[..k];
        assert b[..k + 1] == [b[0]] + b'[..k];
        assert (k + 1 == |a| && k + 1 < |b|) || (k + 1 < |a| && k + 1 < |b| && a[k + 1] < b[k + 1]);
      }
    }
  }
}
