/**
 * UTF-8 well-formedness as defined by the byte-sequence syntax of section 4
 * of RFC 3629, and a model of the standard library's `str::from_utf8`, which
 * either accepts a byte slice or reports how far it was valid.
 */
module Utf8 {
  import opened Results

  newtype byte = x: int | 0 <= x < 0x100

  /** The error `from_utf8` returns: the length of the longest valid prefix. */
  datatype Utf8Error = Utf8Error(validUpTo: nat)

  /** UTF8-tail = %x80-BF */
  predicate IsTail(b: byte) {
    0x80 <= b <= 0xBF
  }

  /** `c` is exactly one UTF8-char of the RFC 3629 grammar. */
  predicate IsChar(c: seq<byte>) {
    if |c| == 1 then
      c[0] <= 0x7F
    else if |c| == 2 then
      0xC2 <= c[0] <= 0xDF && IsTail(c[1])
    else if |c| == 3 then
      || (c[0] == 0xE0 && 0xA0 <= c[1] <= 0xBF && IsTail(c[2]))
      || ((0xE1 <= c[0] <= 0xEC || 0xEE <= c[0] <= 0xEF) && IsTail(c[1]) && IsTail(c[2]))
      || (c[0] == 0xED && 0x80 <= c[1] <= 0x9F && IsTail(c[2]))
    else if |c| == 4 then
      || (c[0] == 0xF0 && 0x90 <= c[1] <= 0xBF && IsTail(c[2]) && IsTail(c[3]))
      || (0xF1 <= c[0] <= 0xF3 && IsTail(c[1]) && IsTail(c[2]) && IsTail(c[3]))
      || (c[0] == 0xF4 && 0x80 <= c[1] <= 0x8F && IsTail(c[2]) && IsTail(c[3]))
    else
      false
  }

  /** The width of the UTF8-char that `s` starts with, or 0 when it starts with none. */
  function CharWidth(s: seq<byte>): (w: nat)
    ensures w <= 4 && w <= |s|
    ensures w > 0 ==> IsChar(s[..w])
  {
    if |s| >= 1 && IsChar(s[..1]) then 1
    else if |s| >= 2 && IsChar(s[..2]) then 2
    else if |s| >= 3 && IsChar(s[..3]) then 3
    else if |s| >= 4 && IsChar(s[..4]) then 4
    else 0
  }

  /** UTF8-octets = *( UTF8-char ): `s` splits into a run of whole characters. */
  predicate ValidUtf8(s: seq<byte>)
    decreases |s|
  {
    s == [] || (CharWidth(s) > 0 && ValidUtf8(s[CharWidth(s)..]))
  }

  /** The length of the run of whole characters `s` starts with. */
  function ValidUpTo(s: seq<byte>): (n: nat)
    ensures n <= |s|
    decreases |s|
  {
    if s == [] || CharWidth(s) == 0 then 0
    else CharWidth(s) + ValidUpTo(s[CharWidth(s)..])
  }

  /** `str::from_utf8`: the input itself when it is valid, its valid length otherwise. */
  function FromUtf8(s: seq<byte>): (r: Result<seq<byte>, Utf8Error>)
    ensures r.Ok? <==> ValidUtf8(s)
    ensures r.Ok? ==> r.value == s
    ensures r.Err? ==> r.error.validUpTo < |s| && ValidUtf8(s[..r.error.validUpTo])
    ensures r.Err? ==> r.error.validUpTo == ValidUpTo(s)
  {
    ValidUpToSpec(s);
    var n := ValidUpTo(s);
    if n == |s| then Ok(s) else Err(Utf8Error(n))
  }

  /** The error of `from_utf8` reports the longest valid prefix: no longer prefix is valid. */
  lemma FromUtf8ErrorMaximal(s: seq<byte>, k: nat)
    requires FromUtf8(s).Err? && k <= |s| && ValidUtf8(s[..k])
    ensures k <= FromUtf8(s).error.validUpTo
  {
    ValidUpToMaximal(s, k);
  }

  /** The grammar is prefix-free: a character at the head of `s` is the one `CharWidth` finds. */
  lemma CharWidthUnique(s: seq<byte>, k: nat)
    requires 1 <= k <= |s| && IsChar(s[..k])
    ensures CharWidth(s) == k
  {
    assert s[..k][0] == s[0];
    assert k >= 2 ==> s[..k][1] == s[1];
    assert k >= 3 ==> s[..k][2] == s[2];
    if k > 1 {
      assert s[..1][0] == s[0];
    }
    if k > 2 {
      assert s[..2][0] == s[0] && s[..2][1] == s[1];
    }
    if k > 3 {
      assert s[..3][0] == s[0] && s[..3][1] == s[1] && s[..3][2] == s[2];
    }
  }

  /** `ValidUpTo` measures a valid prefix, and covers all of `s` exactly when `s` is valid. */
  lemma {:induction false} ValidUpToSpec(s: seq<byte>)
    ensures ValidUpTo(s) <= |s|
    ensures ValidUtf8(s[..ValidUpTo(s)])
    ensures ValidUpTo(s) == |s| <==> ValidUtf8(s)
    decreases |s|
  {
    if s == [] || CharWidth(s) == 0 {
      assert s[..0] == [];
    } else {
      var w := CharWidth(s);
      var rest := s[w..];
      ValidUpToSpec(rest);
      var v := ValidUpTo(rest);
      var n := w + v;
      assert ValidUpTo(s) == n;
      var p := s[..n];
      assert p[..w] == s[..w];
      CharWidthUnique(p, w);
      assert p[w..] == rest[..v];
      assert ValidUtf8(p);
      if ValidUtf8(s) {
        assert ValidUtf8(rest);
      }
    }
  }

  /** `ValidUpTo` is the longest valid prefix: no longer prefix is valid. */
  lemma {:induction false} ValidUpToMaximal(s: seq<byte>, k: nat)
    requires k <= |s| && ValidUtf8(s[..k])
    ensures k <= ValidUpTo(s)
    decreases |s|
  {
    if k > 0 {
      var p := s[..k];
      var w := CharWidth(p);
      assert p[..w] == s[..w];
      CharWidthUnique(s, w);
      assert p[w..] == s[w..][..k - w];
      ValidUpToMaximal(s[w..], k - w);
    }
  }

  /** Two valid texts concatenate to a valid text. */
  lemma {:induction false} ValidConcat(a: seq<byte>, b: seq<byte>)
    requires ValidUtf8(a) && ValidUtf8(b)
    ensures ValidUtf8(a + b)
    decreases |a|
  {
    if a == [] {
      assert a + b == b;
    } else {
      var w := CharWidth(a);
      assert (a + b)[..w] == a[..w];
      CharWidthUnique(a + b, w);
      assert (a + b)[w..] == a[w..] + b;
      ValidConcat(a[w..], b);
    }
  }

  /** Text made of ASCII bytes only (%x00-7F, zero included) is valid. */
  lemma {:induction false} AsciiValid(s: seq<byte>)
    requires forall i :: 0 <= i < |s| ==> s[i] <= 0x7F
    ensures ValidUtf8(s)
    decreases |s|
  {
    if s != [] {
      assert IsChar(s[..1]);
      AsciiValid(s[1..]);
    }
  }

  /** The bytes after the first byte of a character are tails, never zero. */
  lemma CharInteriorNonZero(s: seq<byte>)
    ensures forall j :: 0 < j < CharWidth(s) ==> s[j] != 0
  {
    var w := CharWidth(s);
    assert forall j :: 0 <= j < w ==> s[..w][j] == s[j];
  }

  /** A zero byte is always a character boundary of a valid text. */
  lemma {:induction false} ValidSplitAtZero(s: seq<byte>, i: nat)
    requires ValidUtf8(s) && i < |s| && s[i] == 0
    ensures ValidUtf8(s[..i]) && ValidUtf8(s[i..])
    decreases |s|
  {
    if i > 0 {
      var w := CharWidth(s);
      CharInteriorNonZero(s);
      assert w <= i;
      var rest := s[w..];
      ValidSplitAtZero(rest, i - w);
      var p := s[..i];
      assert p[..w] == s[..w];
      CharWidthUnique(p, w);
      assert p[w..] == rest[..i - w];
      assert rest[i - w..] == s[i..];
    }
  }

  /** A valid, non-empty text never ends in the lead byte of a multi-byte character. */
  lemma {:induction false} ValidEndsOnBoundary(s: seq<byte>)
    requires ValidUtf8(s) && s != []
    ensures s[|s| - 1] <= 0x7F || IsTail(s[|s| - 1])
    decreases |s|
  {
    var w := CharWidth(s);
    if w < |s| {
      ValidEndsOnBoundary(s[w..]);
    } else {
      assert s[..w] == s;
    }
  }
}
