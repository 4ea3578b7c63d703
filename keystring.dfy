/**
 * `KeyString`: a 64-byte buffer holding UTF-8 text padded with zero bytes,
 * with its constructors, accessors, in-place append and ordering, and the
 * free function `bytes_to_str` that strips zero padding from a byte slice.
 *
 * The pure meaning of every operation is given by functions on `seq<byte>`;
 * the class methods that copy, scan and write the buffer are proved against
 * them.
 */
module KeyStrings {
  import opened Results
  import opened Utf8
  import opened Ordering

  /** The fixed size of the buffer of a `KeyString`. */
  const CAPACITY: nat := 64

  function Min(a: nat, b: nat): nat {
    if a < b then a else b
  }

  function Zeros(n: nat): (z: seq<byte>)
    ensures |z| == n && forall i :: 0 <= i < n ==> z[i] == 0
  {
    seq(n, _ => 0)
  }

  /** The index of the first zero byte of `s`, or `|s|` when there is none. */
  function FirstZero(s: seq<byte>): (n: nat)
    ensures n <= |s|
    ensures forall i :: 0 <= i < n ==> s[i] != 0
    ensures n < |s| ==> s[n] == 0
  {
    if s == [] || s[0] == 0 then 0 else 1 + FirstZero(s[1..])
  }

  /** The logical content of a buffer: the bytes before its first zero byte. */
  function Logical(buf: seq<byte>): seq<byte> {
    buf[..FirstZero(buf)]
  }

  /** No non-zero byte follows a zero byte: the buffer is text followed by padding only. */
  ghost predicate Padded(buf: seq<byte>) {
    forall i :: FirstZero(buf) <= i < |buf| ==> buf[i] == 0
  }

  /** One past the index of the last zero byte of `s`, or 0 when there is none. */
  function LastZeroEnd(s: seq<byte>): (e: nat)
    ensures e <= |s|
    ensures e > 0 ==> s[e - 1] == 0
    ensures forall i :: e <= i < |s| ==> s[i] != 0
  {
    if s == [] then 0
    else if s[|s| - 1] == 0 then |s|
    else LastZeroEnd(s[..|s| - 1])
  }

  /** The number of zero bytes `s` starts with. */
  function LeadingZeros(s: seq<byte>): (n: nat)
    ensures n <= |s|
    ensures forall i :: 0 <= i < n ==> s[i] == 0
    ensures n < |s| ==> s[n] != 0
  {
    if s == [] || s[0] != 0 then 0 else 1 + LeadingZeros(s[1..])
  }

  /** The first `min(|s|, 64)` bytes of `s` copied into a zeroed 64-byte buffer. */
  function PadTo64(s: seq<byte>): (buf: seq<byte>)
    ensures |buf| == CAPACITY
    ensures forall i :: 0 <= i < CAPACITY ==> buf[i] == if i < |s| then s[i] else 0
  {
    var m := Min(|s|, CAPACITY);
    s[..m] + Zeros(CAPACITY - m)
  }

  /** The buffer `from` was meant to build: the longest valid prefix of the first 64 bytes, then zeros. */
  function TrimmedPad(s: seq<byte>): (buf: seq<byte>)
    ensures |buf| == CAPACITY
  {
    var n := ValidUpTo(s[..Min(|s|, CAPACITY)]);
    s[..n] + Zeros(CAPACITY - n)
  }

  /** `buf` with the bytes from index `at` on replaced by `t`. */
  function Overwrite(buf: seq<byte>, at: nat, t: seq<byte>): (r: seq<byte>)
    requires at + |t| <= |buf|
    ensures |r| == |buf|
    ensures forall k :: 0 <= k < |buf| ==> r[k] == if at <= k < at + |t| then t[k - at] else buf[k]
  {
    buf[..at] + t + buf[at + |t|..]
  }

  /** The new buffer after `push`, and whether it stopped at an index past the buffer. */
  datatype PushOutcome = PushOutcome(buffer: seq<byte>, outOfBounds: bool)

  /**
   * `push` as written: rejected when the logical length plus `|s|` exceeds 64;
   * otherwise `s` is written from one past the last zero byte, and a write
   * that reaches index 64 stops the call with the earlier writes done.
   */
  function PushEffect(buf: seq<byte>, s: seq<byte>): (o: PushOutcome)
    requires |buf| == CAPACITY
    ensures |o.buffer| == CAPACITY
    ensures forall i :: 0 <= i < LastZeroEnd(buf) ==> o.buffer[i] == buf[i]
    ensures o.outOfBounds <==> FirstZero(buf) + |s| <= CAPACITY < LastZeroEnd(buf) + |s|
  {
    if FirstZero(buf) + |s| > CAPACITY then PushOutcome(buf, false)
    else
      var start := LastZeroEnd(buf);
      var written := Min(|s|, CAPACITY - start);
      PushOutcome(Overwrite(buf, start, s[..written]), start + |s| > CAPACITY)
  }

  /** The append `push` was meant to be: `s` written from the first zero byte, when it fits. */
  function PushAtLenEffect(buf: seq<byte>, s: seq<byte>): seq<byte>
    requires |buf| == CAPACITY
  {
    if FirstZero(buf) + |s| > CAPACITY then buf
    else Overwrite(buf, FirstZero(buf), s)
  }

  /**
   * `bytes_to_str`: skip the leading zero bytes; when at most one byte is
   * left, or the input is empty, the text is empty; otherwise decode the run
   * of non-zero bytes that follows.
   */
  function StripZeros(bytes: seq<byte>): (r: Result<seq<byte>, Utf8Error>)
    ensures |bytes| <= 1 ==> r == Ok([])
    ensures r.Ok? ==> 0 !in r.value && ValidUtf8(r.value)
  {
    if |bytes| == 0 then Ok([])
    else
      var start := LeadingZeros(bytes);
      if start >= |bytes| - 1 then Ok([])
      else
        var rest := bytes[start..];
        FromUtf8(rest[..FirstZero(rest)])
  }

  /** The trimming loop of `from`: shrink `m` until `buf[..m]` is valid UTF-8. */
  method TrimToCharBoundary(buf: array<byte>, m: nat) returns (n: nat)
    requires m <= buf.Length
    ensures n <= m && ValidUtf8(buf[..n])
    ensures forall k :: n < k <= m ==> !ValidUtf8(buf[..k])
    ensures n == ValidUpTo(buf[..m])
  {
    n := m;
    while true
      invariant n <= m
      invariant forall k :: n < k <= m ==> !ValidUtf8(buf[..k])
      decreases n
    {
      if n == 0 {
        break;
      }
      match FromUtf8(buf[..n]) {
        case Ok(_) => break;
        case Err(_) => n := n - 1;
      }
    }
    assert buf[..0] == [];
    var prefix := buf[..m];
    assert prefix[..n] == buf[..n];
    ValidUpToMaximal(prefix, n);
    ValidUpToSpec(prefix);
    assert prefix[..ValidUpTo(prefix)] == buf[..ValidUpTo(prefix)];
  }

  /** Copies the first `min(|s|, 64)` bytes of `s` into a fresh zeroed 64-byte buffer. */
  method CopyPadded(s: seq<byte>) returns (buf: array<byte>, min: nat)
    ensures fresh(buf) && buf.Length == CAPACITY
    ensures min == Min(|s|, CAPACITY)
    ensures buf[..] == PadTo64(s)
  {
    buf := new byte[CAPACITY](_ => 0);
    min := Min(|s|, CAPACITY);
    forall i | 0 <= i < min {
      buf[i] := s[i];
    }
  }

  /** `bytes_to_str` on a byte slice. */
  method BytesToStr(bytes: seq<byte>) returns (r: Result<seq<byte>, Utf8Error>)
    ensures r == StripZeros(bytes)
  {
    var index: nat := 0;
    var len := |bytes|;
    var start: nat := 0;
    while index < len
      invariant start == index <= len
      invariant forall i :: 0 <= i < index ==> bytes[i] == 0
    {
      if bytes[index] != 0 {
        break;
      }
      index := index + 1;
      start := start + 1;
    }
    LeadingZerosUnique(bytes, start);
    if |bytes| == 0 {
      return Ok([]);
    }
    if start >= |bytes| - 1 {
      return Ok([]);
    }
    var stop: nat := start;
    while index < len
      invariant start <= stop == index <= len
      invariant forall i :: start <= i < index ==> bytes[i] != 0
    {
      if bytes[index] == 0 {
        break;
      }
      index := index + 1;
      stop := stop + 1;
    }
    StripZerosSpan(bytes, start, stop);
    r := FromUtf8(bytes[start..stop]);
  }

  class KeyString {
    /** The fixed-size buffer: text, then zero padding. */
    const inner: array<byte>

    ghost predicate Valid() {
      inner.Length == CAPACITY
    }

    /** The logical content is valid UTF-8, as `as_str` assumes. */
    ghost predicate WellFormed()
      reads inner
      requires Valid()
    {
      ValidUtf8(Logical(inner[..]))
    }

    /** `KeyString::new()`: all 64 bytes zero. */
    constructor New()
      ensures Valid() && fresh(inner)
      ensures inner[..] == Zeros(CAPACITY)
    {
      inner := new byte[CAPACITY](_ => 0);
    }

    /** The struct literal `KeyString { inner }`. */
    constructor Of(buf: array<byte>)
      requires buf.Length == CAPACITY
      ensures Valid() && inner == buf
    {
      inner := buf;
    }

    /** `Default::default()`: the same empty key as `new()`. */
    static method Default() returns (k: KeyString)
      ensures k.Valid() && fresh(k.inner)
      ensures k.inner[..] == Zeros(CAPACITY)
      ensures k.AsBytes() == [] && k.WellFormed()
    {
      k := new KeyString.New();
      assert FirstZero(k.inner[..]) == 0;
    }

    /** `From<&str>`: copy at most 64 bytes; the trimming loop leaves the buffer as it is. */
    static method From(s: seq<byte>) returns (k: KeyString)
      requires ValidUtf8(s)
      ensures k.Valid() && fresh(k.inner)
      ensures k.inner[..] == PadTo64(s)
    {
      var buf, min := CopyPadded(s);
      var trimmed := TrimToCharBoundary(buf, min);
      k := new KeyString.Of(buf);
    }

    /** `From<&str>` as intended: the bytes the trimming loop cuts off are cleared. */
    static method FromTrimmed(s: seq<byte>) returns (k: KeyString)
      requires ValidUtf8(s)
      ensures k.Valid() && fresh(k.inner)
      ensures k.inner[..] == TrimmedPad(s)
      ensures k.WellFormed()
    {
      var buf, min := CopyPadded(s);
      assert buf[..min] == s[..min];
      var trimmed := TrimToCharBoundary(buf, min);
      forall i | trimmed <= i < min {
        buf[i] := 0;
      }
      TrimmedPadShape(s);
      assert buf[..] == TrimmedPad(s);
      k := new KeyString.Of(buf);
      TrimmedPadWellFormed(s);
    }

    /** `TryFrom<&[u8]>`: copy at most 64 bytes and accept the buffer only if all of it is valid UTF-8. */
    static method TryFrom(b: seq<byte>) returns (r: Result<KeyString, Utf8Error>)
      ensures r.Ok? <==> ValidUtf8(PadTo64(b))
      ensures r.Ok? ==> r.value.Valid() && fresh(r.value.inner)
      ensures r.Ok? ==> r.value.inner[..] == PadTo64(b) && r.value.WellFormed()
      ensures r.Err? ==> r.error == FromUtf8(PadTo64(b)).error
    {
      var buf, min := CopyPadded(b);
      var checked := FromUtf8(buf[..]);
      if checked.Ok? {
        var k := new KeyString.Of(buf);
        LogicalOfValid(buf[..]);
        r := Ok(k);
      } else {
        r := Err(checked.error);
      }
    }

    /** `KeyString::try_from(k.raw())`: accepted exactly when the whole buffer is valid, and then raw-equal to `k`. */
    method RawRoundTrip() returns (r: Result<KeyString, Utf8Error>)
      requires Valid()
      ensures r.Ok? <==> ValidUtf8(Raw())
      ensures r.Ok? ==> r.value.Valid() && r.value.RawEq(this) && r.value.Cmp(this) == Equal
    {
      var raw := Raw();
      TryFromRawRoundTrip(raw);
      r := TryFrom(raw);
    }

    /** `len()`: the number of bytes before the first zero byte. */
    method Len() returns (n: nat)
      requires Valid()
      ensures n <= CAPACITY
      ensures forall i :: 0 <= i < n ==> inner[i] != 0
      ensures n < CAPACITY ==> inner[n] == 0
      ensures n == FirstZero(inner[..])
    {
      n := 0;
      while n < inner.Length
        invariant n <= inner.Length
        invariant forall i :: 0 <= i < n ==> inner[i] != 0
      {
        if inner[n] == 0 {
          break;
        }
        n := n + 1;
      }
      FirstZeroUnique(inner[..], n);
    }

    /** `as_bytes()` (and `as_str()`): the bytes before the first zero byte. */
    function AsBytes(): (r: seq<byte>)
      reads inner
      requires Valid()
      ensures |r| <= CAPACITY && r == inner[..|r|]
      ensures 0 !in r
      ensures |r| < CAPACITY ==> inner[|r|] == 0
    {
      Logical(inner[..])
    }

    /** `raw()`: the whole buffer, padding included. */
    function Raw(): (r: seq<byte>)
      reads inner
      requires Valid()
      ensures |r| == CAPACITY
      ensures forall i :: 0 <= i < CAPACITY ==> r[i] == inner[i]
      ensures r[..|AsBytes()|] == AsBytes()
    {
      inner[..]
    }

    /** The derived `==`: all 64 raw bytes agree. */
    function RawEq(other: KeyString): (b: bool)
      reads inner, other.inner
      requires Valid() && other.Valid()
      ensures b <==> forall i :: 0 <= i < CAPACITY ==> inner[i] == other.inner[i]
    {
      inner[..] == other.inner[..]
    }

    /** `cmp`: lexicographic order of the logical contents. */
    function Cmp(other: KeyString): (o: Order)
      reads inner, other.inner
      requires Valid() && other.Valid()
      ensures o == Equal <==> AsBytes() == other.AsBytes()
      ensures o == Less <==> LexLess(AsBytes(), other.AsBytes())
    {
      LexCompareLess(AsBytes(), other.AsBytes());
      LexCompare(AsBytes(), other.AsBytes())
    }

    /** `partial_cmp`: always defined, and the same answer as `cmp`. */
    function PartialCmp(other: KeyString): (o: Option<Order>)
      reads inner, other.inner
      requires Valid() && other.Valid()
      ensures o.Some? && o.value == Cmp(other)
    {
      Some(Cmp(other))
    }

    /** Equality on logical contents, the equality `cmp` is consistent with. */
    function LogicalEq(other: KeyString): (b: bool)
      reads inner, other.inner
      requires Valid() && other.Valid()
      ensures b <==> Cmp(other) == Equal
      ensures RawEq(other) ==> b
    {
      AsBytes() == other.AsBytes()
    }

    /** The scan of `push`: one past the index of the last zero byte, 0 when there is none. */
    method EndIndex() returns (endIndex: nat)
      requires Valid()
      ensures endIndex == LastZeroEnd(inner[..])
      ensures endIndex > 0 ==> inner[endIndex - 1] == 0
      ensures forall i :: endIndex <= i < CAPACITY ==> inner[i] != 0
    {
      endIndex := 0;
      var index := 0;
      while index < CAPACITY
        invariant index <= CAPACITY
        invariant endIndex == LastZeroEnd(inner[..index])
      {
        assert inner[..index + 1][..index] == inner[..index];
        if inner[index] == 0 {
          endIndex := index + 1;
        }
        index := index + 1;
      }
      assert inner[..CAPACITY] == inner[..];
    }

    /** The write loop of `push`: `s` from index `at` on, stopping where an index would pass the buffer. */
    method WriteFrom(at: nat, s: seq<byte>) returns (outOfBounds: bool)
      requires Valid() && at <= CAPACITY
      modifies inner
      ensures outOfBounds <==> at + |s| > CAPACITY
      ensures inner[..] == Overwrite(old(inner[..]), at, s[..Min(|s|, CAPACITY - at)])
    {
      ghost var before := inner[..];
      var index := 0;
      assert s[..0] == [];
      while index < |s|
        invariant index <= |s| && at + index <= CAPACITY
        invariant inner[..] == Overwrite(before, at, s[..index])
      {
        if index + at >= CAPACITY {
          return true;
        }
        OverwriteStep(before, at, s, index);
        inner[index + at] := s[index];
        index := index + 1;
      }
      assert s[..index] == s;
      return false;
    }

    /**
     * `push` as written: the start index is one past the LAST zero byte, so on
     * a padded buffer any non-empty append that fits runs past index 63.
     */
    method Push(s: seq<byte>) returns (outOfBounds: bool)
      requires Valid() && ValidUtf8(s)
      modifies inner
      ensures PushOutcome(inner[..], outOfBounds) == PushEffect(old(inner[..]), s)
      ensures AsBytes() == old(AsBytes())
    {
      PushKeepsLogical(inner[..], s);
      var len := Len();
      if len + |s| > CAPACITY {
        return false;
      }
      var endIndex := EndIndex();
      outOfBounds := WriteFrom(endIndex, s);
    }

    /** `push` as intended: `s` is written from the first zero byte, when it fits. */
    method PushAtLen(s: seq<byte>)
      requires Valid() && ValidUtf8(s)
      modifies inner
      ensures inner[..] == PushAtLenEffect(old(inner[..]), s)
      ensures old(Padded(inner[..])) && FirstZero(old(inner[..])) + |s| <= CAPACITY ==>
                AsBytes() == old(AsBytes()) + Logical(s)
      ensures old(Padded(inner[..]) && WellFormed()) ==> WellFormed()
    {
      PushAtLenAppends(inner[..], s);
      var len := Len();
      if len + |s| > CAPACITY {
        return;
      }
      var outOfBounds := WriteFrom(len, s);
      assert s[..Min(|s|, CAPACITY - len)] == s;
    }
  }

  // ----- Lemmas about the buffer functions -----

  /** Writing byte `i` of `t` extends the overwrite by `t[..i]` to the one by `t[..i + 1]`. */
  lemma OverwriteStep(buf: seq<byte>, at: nat, t: seq<byte>, i: nat)
    requires i < |t| && at + i < |buf|
    ensures Overwrite(buf, at, t[..i])[at + i := t[i]] == Overwrite(buf, at, t[..i + 1])
  {
  }

  /** `FirstZero` is the only index with its two defining properties. */
  lemma FirstZeroUnique(s: seq<byte>, n: nat)
    requires n <= |s|
    requires forall i :: 0 <= i < n ==> s[i] != 0
    requires n < |s| ==> s[n] == 0
    ensures FirstZero(s) == n
  {
  }

  /** `LeadingZeros` is the only index with its two defining properties. */
  lemma LeadingZerosUnique(s: seq<byte>, n: nat)
    requires n <= |s|
    requires forall i :: 0 <= i < n ==> s[i] == 0
    requires n < |s| ==> s[n] != 0
    ensures LeadingZeros(s) == n
  {
  }

  /** Past the guards, `bytes_to_str` decodes the run of non-zero bytes after the leading zeros. */
  lemma StripZerosSpan(bytes: seq<byte>, start: nat, stop: nat)
    requires start == LeadingZeros(bytes) && start < |bytes| - 1
    requires start <= stop <= |bytes|
    requires forall i :: start <= i < stop ==> bytes[i] != 0
    requires stop < |bytes| ==> bytes[stop] == 0
    ensures StripZeros(bytes) == FromUtf8(bytes[start..stop])
  {
    var rest := bytes[start..];
    FirstZeroOfSuffix(bytes, start, stop);
    var span := rest[..FirstZero(rest)];
    assert span == bytes[start..stop];
    assert StripZeros(bytes) == FromUtf8(span);
  }

  /** The first zero byte of `bytes[start..]` sits where the scan from `start` stops. */
  lemma FirstZeroOfSuffix(bytes: seq<byte>, start: nat, stop: nat)
    requires start <= stop <= |bytes|
    requires forall i :: start <= i < stop ==> bytes[i] != 0
    requires stop < |bytes| ==> bytes[stop] == 0
    ensures FirstZero(bytes[start..]) == stop - start
  {
    FirstZeroUnique(bytes[start..], stop - start);
  }

  /** The logical length is 64 exactly when the buffer holds no zero byte. */
  lemma LenIsCapacityIffNoZero(buf: seq<byte>)
    requires |buf| == CAPACITY
    ensures FirstZero(buf) <= CAPACITY
    ensures FirstZero(buf) == CAPACITY <==> 0 !in buf
  {
    if 0 in buf {
      var i :| 0 <= i < |buf| && buf[i] == 0;
      assert FirstZero(buf) <= i;
    }
  }

  /** The logical content of a valid buffer is valid. */
  lemma LogicalOfValid(buf: seq<byte>)
    requires ValidUtf8(buf)
    ensures ValidUtf8(Logical(buf))
  {
    var f := FirstZero(buf);
    if f < |buf| {
      ValidSplitAtZero(buf, f);
    } else {
      assert buf[..f] == buf;
    }
  }

  /** `from(s)` keeps `s` up to its first zero byte, cut at 64 bytes. */
  lemma FromLogicalContent(s: seq<byte>)
    ensures Logical(PadTo64(s)) == Logical(s[..Min(|s|, CAPACITY)])
  {
    var m := Min(|s|, CAPACITY);
    var p := s[..m];
    var f := FirstZero(p);
    FirstZeroUnique(PadTo64(s), f);
  }

  /** Text of at most 64 bytes without a zero byte survives `from` unchanged. */
  lemma FromKeepsShortText(s: seq<byte>)
    requires |s| <= CAPACITY && 0 !in s
    ensures Logical(PadTo64(s)) == s
  {
    FromLogicalContent(s);
    assert s[..|s|] == s;
    FirstZeroUnique(s, |s|);
  }

  /** What `from` was meant to build is valid UTF-8 as a whole, padding included. */
  lemma TrimmedPadValid(s: seq<byte>)
    ensures ValidUtf8(TrimmedPad(s))
  {
    var p := s[..Min(|s|, CAPACITY)];
    ValidUpToSpec(p);
    var n := ValidUpTo(p);
    assert p[..n] == s[..n];
    AsciiValid(Zeros(CAPACITY - n));
    ValidConcat(s[..n], Zeros(CAPACITY - n));
  }

  /** What `from` was meant to build: the kept prefix of `s`, then zeros. */
  lemma TrimmedPadShape(s: seq<byte>)
    ensures forall i :: 0 <= i < CAPACITY ==>
              TrimmedPad(s)[i] == if i < ValidUpTo(s[..Min(|s|, CAPACITY)]) then s[i] else 0
  {
  }

  /**
   * What `from` was meant to build is well-formed, its logical content is a
   * prefix of `s`, and text of at most 64 bytes is kept whole.
   */
  lemma TrimmedPadWellFormed(s: seq<byte>)
    requires ValidUtf8(s)
    ensures ValidUtf8(Logical(TrimmedPad(s)))
    ensures |Logical(TrimmedPad(s))| <= |s| && Logical(TrimmedPad(s)) == s[..|Logical(TrimmedPad(s))|]
    ensures |s| <= CAPACITY ==> TrimmedPad(s) == PadTo64(s)
  {
    var buf := TrimmedPad(s);
    TrimmedPadValid(s);
    LogicalOfValid(buf);
    TrimmedPadShape(s);
    var n := ValidUpTo(s[..Min(|s|, CAPACITY)]);
    var f := FirstZero(buf);
    assert f <= n by {
      if n < CAPACITY {
        assert buf[n] == 0;
      }
    }
    assert buf[..f] == s[..f];
    if |s| <= CAPACITY {
      assert s[..Min(|s|, CAPACITY)] == s;
      ValidUpToSpec(s);
      assert n == |s|;
      assert buf == PadTo64(s);
    }
  }

  /** No prefix of the first 64 bytes of `s` longer than the one `from` was meant to keep is valid. */
  lemma TrimmedPadMaximal(s: seq<byte>)
    ensures forall k :: ValidUpTo(s[..Min(|s|, CAPACITY)]) < k <= Min(|s|, CAPACITY) ==> !ValidUtf8(s[..k])
  {
    var m := Min(|s|, CAPACITY);
    var p := s[..m];
    forall k | ValidUpTo(p) < k <= m
      ensures !ValidUtf8(s[..k])
    {
      assert p[..k] == s[..k];
      if ValidUtf8(s[..k]) {
        ValidUpToMaximal(p, k);
      }
    }
  }

  /** `try_from` on at most 64 bytes succeeds exactly when those bytes are valid UTF-8. */
  lemma TryFromAcceptsValidText(b: seq<byte>)
    requires |b| <= CAPACITY
    ensures ValidUtf8(PadTo64(b)) <==> ValidUtf8(b)
  {
    FromAgreesWithTryFrom(b);
    if ValidUtf8(b) {
      PaddingKeepsValid(b);
    }
    if ValidUtf8(PadTo64(b)) {
      PaddedValidMeansTextValid(b);
    }
  }

  /** Zero padding after valid text keeps it valid. */
  lemma PaddingKeepsValid(b: seq<byte>)
    requires |b| <= CAPACITY && ValidUtf8(b)
    ensures ValidUtf8(b + Zeros(CAPACITY - |b|))
  {
    AsciiValid(Zeros(CAPACITY - |b|));
    ValidConcat(b, Zeros(CAPACITY - |b|));
  }

  /** Text that is valid once padded was valid before the padding. */
  lemma PaddedValidMeansTextValid(b: seq<byte>)
    requires |b| <= CAPACITY && ValidUtf8(b + Zeros(CAPACITY - |b|))
    ensures ValidUtf8(b)
  {
    var buf := b + Zeros(CAPACITY - |b|);
    if |b| < CAPACITY {
      assert buf[|b|] == 0;
      ValidSplitAtZero(buf, |b|);
      assert buf[..|b|] == b;
    } else {
      assert buf == b;
    }
  }

  /** A text and its zero-padded 64-byte raw form build the same buffer. */
  lemma FromAgreesWithTryFrom(s: seq<byte>)
    requires |s| <= CAPACITY
    ensures PadTo64(s + Zeros(CAPACITY - |s|)) == PadTo64(s)
    ensures PadTo64(s) == s + Zeros(CAPACITY - |s|)
  {
    assert s[..|s|] == s;
  }

  /** Keys built from "abc" and "abd" compare `Less`. */
  lemma FromAbcBeforeAbd()
    ensures LexCompare(Logical(PadTo64([0x61, 0x62, 0x63])), Logical(PadTo64([0x61, 0x62, 0x64]))) == Less
  {
    FromKeepsShortText([0x61, 0x62, 0x63]);
    FromKeepsShortText([0x61, 0x62, 0x64]);
  }

  /** `try_from` ignores every byte past the 64th. */
  lemma TryFromIgnoresTail(b: seq<byte>)
    requires |b| > CAPACITY
    ensures PadTo64(b) == PadTo64(b[..CAPACITY])
    ensures PadTo64(b) == b[..CAPACITY]
  {
  }

  /** `try_from(k.raw())` rebuilds the same 64 bytes. */
  lemma TryFromRawRoundTrip(buf: seq<byte>)
    requires |buf| == CAPACITY
    ensures PadTo64(buf) == buf
    ensures ValidUtf8(buf) ==> FromUtf8(PadTo64(buf)) == Ok(buf)
  {
    assert PadTo64(buf) == buf;
  }

  /** `push("")` never changes the buffer, and neither does a `push` past the capacity. */
  lemma PushNoChange(buf: seq<byte>, s: seq<byte>)
    requires |buf| == CAPACITY
    requires s == [] || FirstZero(buf) + |s| > CAPACITY
    ensures PushEffect(buf, s) == PushOutcome(buf, false)
  {
    if s == [] && FirstZero(buf) + |s| <= CAPACITY {
      assert Overwrite(buf, LastZeroEnd(buf), s[..0]) == buf;
    }
  }

  /** When `push` is not rejected and stays in bounds, `s` lands from one past the last zero byte, and nothing else changes. */
  lemma PushWritesAfterLastZero(buf: seq<byte>, s: seq<byte>)
    requires |buf| == CAPACITY && FirstZero(buf) + |s| <= CAPACITY
    requires LastZeroEnd(buf) + |s| <= CAPACITY
    ensures PushEffect(buf, s) == PushOutcome(Overwrite(buf, LastZeroEnd(buf), s), false)
  {
    var e := LastZeroEnd(buf);
    assert Min(|s|, CAPACITY - e) == |s|;
    assert s[..|s|] == s;
  }

  /** As written, `push` never changes the logical content. */
  lemma PushKeepsLogical(buf: seq<byte>, s: seq<byte>)
    requires |buf| == CAPACITY
    ensures Logical(PushEffect(buf, s).buffer) == Logical(buf)
  {
    var f := FirstZero(buf);
    if f + |s| <= CAPACITY {
      var e := LastZeroEnd(buf);
      var r := PushEffect(buf, s).buffer;
      if e == 0 {
        assert f == CAPACITY;
        assert s[..Min(|s|, CAPACITY - e)] == [];
        assert r == buf;
      } else {
        assert f <= e - 1;
        FirstZeroUnique(r, f);
        assert r[..f] == buf[..f];
      }
    }
  }

  /** The append as intended adds the logical content of `s`, and keeps padding and well-formedness. */
  lemma PushAtLenAppends(buf: seq<byte>, s: seq<byte>)
    requires |buf| == CAPACITY
    ensures |PushAtLenEffect(buf, s)| == CAPACITY
    ensures FirstZero(buf) + |s| > CAPACITY ==> PushAtLenEffect(buf, s) == buf
    ensures Padded(buf) && FirstZero(buf) + |s| <= CAPACITY ==>
              Logical(PushAtLenEffect(buf, s)) == Logical(buf) + Logical(s)
    ensures Padded(buf) && 0 !in s ==> Padded(PushAtLenEffect(buf, s))
    ensures Padded(buf) && ValidUtf8(Logical(buf)) && ValidUtf8(s) ==>
              ValidUtf8(Logical(PushAtLenEffect(buf, s)))
    ensures Padded(buf) && 0 !in s && FirstZero(buf) + |s| == CAPACITY ==>
              FirstZero(PushAtLenEffect(buf, s)) == CAPACITY
  {
    var f := FirstZero(buf);
    var r := PushAtLenEffect(buf, s);
    if Padded(buf) && f + |s| <= CAPACITY {
      var z := FirstZero(s);
      FirstZeroUnique(r, f + z);
      assert r[..f + z] == buf[..f] + s[..z];
      if 0 !in s {
        FirstZeroUnique(s, |s|);
        assert Padded(r);
      }
      if ValidUtf8(Logical(buf)) && ValidUtf8(s) {
        LogicalOfValid(s);
        ValidConcat(Logical(buf), Logical(s));
      }
    }
  }

  /** The derived `==` implies `cmp` answers `Equal`; on padded buffers the converse holds too. */
  lemma RawEqAndCmp(x: seq<byte>, y: seq<byte>)
    requires |x| == CAPACITY && |y| == CAPACITY
    ensures x == y ==> LexCompare(Logical(x), Logical(y)) == Equal
    ensures Padded(x) && Padded(y) && LexCompare(Logical(x), Logical(y)) == Equal ==> x == y
  {
    if Padded(x) && Padded(y) && Logical(x) == Logical(y) {
      var f := FirstZero(x);
      assert |Logical(y)| == f;
      assert forall i :: 0 <= i < CAPACITY ==> x[i] == y[i] by {
        forall i | 0 <= i < CAPACITY
          ensures x[i] == y[i]
        {
          if i < f {
            assert x[i] == Logical(x)[i] && y[i] == Logical(y)[i];
          }
        }
      }
    }
  }

  /** On a padded buffer, `Display` (`bytes_to_str` over the whole buffer) decodes exactly `as_bytes()`. */
  lemma DisplayRendersLogical(buf: seq<byte>)
    requires |buf| == CAPACITY && Padded(buf)
    ensures StripZeros(buf) == FromUtf8(Logical(buf))
    ensures ValidUtf8(Logical(buf)) ==> StripZeros(buf) == Ok(Logical(buf))
  {
    var f := FirstZero(buf);
    if buf[0] == 0 {
      assert f == 0;
      assert LeadingZeros(buf) == CAPACITY;
      assert Logical(buf) == [];
    } else {
      assert LeadingZeros(buf) == 0;
      assert buf[0..] == buf;
    }
  }

  /** `bytes_to_str` on all-zero input, and on input whose only non-zero byte is the last, is empty text. */
  lemma StripZerosOfPaddingOnly(bytes: seq<byte>)
    requires |bytes| > 0 && forall i :: 0 <= i < |bytes| - 1 ==> bytes[i] == 0
    ensures StripZeros(bytes) == Ok([])
  {
  }

  /** `bytes_to_str(b"\0\0key\0\0\0")` is "key". */
  lemma StripZerosKey()
    ensures StripZeros([0, 0, 0x6B, 0x65, 0x79, 0, 0, 0]) == Ok([0x6B, 0x65, 0x79])
  {
    var b: seq<byte> := [0, 0, 0x6B, 0x65, 0x79, 0, 0, 0];
    var key: seq<byte> := [0x6B, 0x65, 0x79];
    assert LeadingZeros(b) == 2;
    assert b[2..] == key + [0, 0, 0];
    FirstZeroUnique(b[2..], 3);
    assert b[2..5] == key;
    AsciiValid(key);
  }

  // ----- Findings -----

  /** 63 ASCII bytes followed by the two-byte "é": 65 bytes of valid text. */
  function CutExample(): (s: seq<byte>)
    ensures |s| == 65
  {
    seq(63, _ => 0x61) + [0xC3, 0xA9]
  }

  /** The example is valid UTF-8. */
  lemma CutExampleValid()
    ensures ValidUtf8(CutExample())
  {
    var a: seq<byte> := seq(63, _ => 0x61);
    AsciiValid(a);
    var e: seq<byte> := [0xC3, 0xA9];
    assert e[..2] == e && IsChar(e);
    CharWidthUnique(e, 2);
    assert e[2..] == [];
    ValidConcat(a, e);
  }

  /**
   * `from` as written keeps the lead byte of the cut "é": the logical
   * content is not valid UTF-8, and `Display` fails on it; the intended
   * buffer keeps the 63 ASCII bytes only.
   */
  lemma FromCutsCharacter()
    ensures ValidUtf8(CutExample())
    ensures Logical(PadTo64(CutExample())) == seq(63, _ => 0x61) + [0xC3]
    ensures !ValidUtf8(Logical(PadTo64(CutExample())))
    ensures StripZeros(PadTo64(CutExample())).Err?
    ensures Logical(TrimmedPad(CutExample())) == seq(63, _ => 0x61)
  {
    CutExampleValid();
    var s := CutExample();
    var a: seq<byte> := seq(63, _ => 0x61);
    var buf := PadTo64(s);
    assert buf == a + [0xC3];
    FirstZeroUnique(buf, CAPACITY);
    assert Logical(buf) == buf;
    if ValidUtf8(buf) {
      ValidEndsOnBoundary(buf);
    }
    assert Padded(buf);
    DisplayRendersLogical(buf);
    FromTrimmedKeepsAscii(s, a);
  }

  /** The intended `from` cuts the example right before the "é". */
  lemma FromTrimmedKeepsAscii(s: seq<byte>, a: seq<byte>)
    requires s == CutExample() && a == seq(63, _ => 0x61)
    ensures Logical(TrimmedPad(s)) == a
  {
    var p := s[..CAPACITY];
    assert p == a + [0xC3];
    assert p[..63] == a;
    AsciiValid(a);
    ValidUpToMaximal(p, 63);
    ValidUpToSpec(p);
    if ValidUpTo(p) == CAPACITY {
      assert p[..CAPACITY] == p;
      ValidEndsOnBoundary(p);
    }
    assert ValidUpTo(p) == 63;
    TrimmedPadShape(s);
    assert TrimmedPad(s) == a + Zeros(1);
    FirstZeroUnique(TrimmedPad(s), 63);
  }

  /** On a buffer whose last byte is zero, every non-empty `push` that passes the capacity check runs past the buffer. */
  lemma PushOverrunsPaddedBuffer(buf: seq<byte>, s: seq<byte>)
    requires |buf| == CAPACITY && buf[CAPACITY - 1] == 0
    requires 0 < |s| && FirstZero(buf) + |s| <= CAPACITY
    ensures LastZeroEnd(buf) == CAPACITY
    ensures PushEffect(buf, s) == PushOutcome(buf, true)
  {
    assert s[..0] == [];
    assert Overwrite(buf, CAPACITY, []) == buf;
  }

  /** Two buffers `try_from` accepts that the derived `==` tells apart while `cmp` calls them `Equal`. */
  lemma EqDisagreesWithCmp()
    ensures ValidUtf8(PadTo64([0x61, 0, 0x62])) && ValidUtf8(PadTo64([0x61, 0, 0x63]))
    ensures PadTo64([0x61, 0, 0x62]) != PadTo64([0x61, 0, 0x63])
    ensures LexCompare(Logical(PadTo64([0x61, 0, 0x62])), Logical(PadTo64([0x61, 0, 0x63]))) == Equal
  {
    LogicalOfTwoByteText([0x61, 0, 0x62]);
    LogicalOfTwoByteText([0x61, 0, 0x63]);
    assert PadTo64([0x61, 0, 0x62])[2] != PadTo64([0x61, 0, 0x63])[2];
  }

  /** `try_from` accepts `t` when it is ASCII, and its logical content ends at the zero byte `t[1]`. */
  lemma LogicalOfTwoByteText(t: seq<byte>)
    requires |t| == 3 && t[0] == 0x61 && t[1] == 0 && t[2] <= 0x7F
    ensures ValidUtf8(PadTo64(t))
    ensures Logical(PadTo64(t)) == [0x61]
  {
    AsciiValid(t);
    TryFromAcceptsValidText(t);
    var x := PadTo64(t);
    FirstZeroUnique(x, 1);
  }
}
