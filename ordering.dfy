/**
 * The ordering of `str` values: bytewise lexicographic comparison, where a
 * proper prefix sorts first.
 */
module Ordering {
  import opened Utf8

  datatype Order = Less | Equal | Greater {
    /** The same comparison seen from the other side. */
    function Reverse(): Order {
      match this
      case Less => Greater
      case Equal => Equal
      case Greater => Less
    }
  }

  /** `a.cmp(b)` on byte slices. */
  function LexCompare(a: seq<byte>, b: seq<byte>): (o: Order)
    ensures o == Equal <==> a == b
    decreases |a|
  {
    if a == [] then (if b == [] then Equal else Less)
    else if b == [] then Greater
    else if a[0] < b[0] then Less
    else if a[0] > b[0] then Greater
    else
      assert a == [a[0]] + a[1..] && b == [b[0]] + b[1..];
      LexCompare(a[1..], b[1..])
  }

  /** `a` sorts before `b`: a proper prefix, or smaller at the first byte where they differ. */
  ghost predicate LexLess(a: seq<byte>, b: seq<byte>) {
    || (|a| < |b| && a == b[..|a|])
    || exists k :: 0 <= k < |a| && k < |b| && a[..k] == b[..k] && a[k] < b[k]
  }

  /** `LexCompare` answers `Less` exactly in the cases the textbook definition names. */
  lemma {:induction false} LexCompareLess(a: seq<byte>, b: seq<byte>)
    ensures LexCompare(a, b) == Less <==> LexLess(a, b)
    decreases |a|
  {
    if a == [] {
      assert b != [] ==> a == b[..0];
    } else if b == [] {
    } else if a[0] < b[0] {
      assert a[..0] == b[..0];
    } else if a[0] > b[0] {
      assert forall k :: 0 < k <= |a| && k <= |b| ==> a[..k][0] != b[..k][0];
    } else {
      LexCompareLess(a[1..], b[1..]);
      if LexLess(a[1..], b[1..]) {
        if |a[1..]| < |b[1..]| && a[1..] == b[1..][..|a[1..]|] {
          assert a == b[..|a|];
        } else {
          var k :| 0 <= k < |a[1..]| && k < |b[1..]| && a[1..][..k] == b[1..][..k] && a[1..][k] < b[1..][k];
          assert a[..k + 1] == [a[0]] + a[1..][..k];
          assert b[..k + 1] == [b[0]] + b[1..][..k];
        }
      }
      if LexLess(a, b) {
        if |a| < |b| && a == b[..|a|] {
          assert a[1..] == b[1..][..|a[1..]|];
        } else {
          var k :| 0 <= k < |a| && k < |b| && a[..k] == b[..k] && a[k] < b[k];
          assert k > 0;
          assert a[1..][..k - 1] == a[..k][1..];
          assert b[1..][..k - 1] == b[..k][1..];
          assert a[1..][k - 1] < b[1..][k - 1];
        }
      }
    }
  }

  /** Comparing the other way round gives the reverse answer. */
  lemma {:induction false} LexCompareAntisymmetric(a: seq<byte>, b: seq<byte>)
    ensures LexCompare(b, a) == LexCompare(a, b).Reverse()
    decreases |a|
  {
    if a != [] && b != [] && a[0] == b[0] {
      LexCompareAntisymmetric(a[1..], b[1..]);
    }
  }

  /** `Less` is transitive. */
  lemma {:induction false} LexCompareTransitive(a: seq<byte>, b: seq<byte>, c: seq<byte>)
    requires LexCompare(a, b) == Less && LexCompare(b, c) == Less
    ensures LexCompare(a, c) == Less
    decreases |a|
  {
    if a != [] && b != [] && c != [] && a[0] == b[0] == c[0] {
      LexCompareTransitive(a[1..], b[1..], c[1..]);
    }
  }

  /** Every text sorts before any of its proper extensions. */
  lemma {:induction false} LexCompareProperPrefix(a: seq<byte>, b: seq<byte>)
    requires |a| < |b| && a == b[..|a|]
    ensures LexCompare(a, b) == Less
    decreases |a|
  {
    if a != [] {
      assert a[1..] == b[1..][..|a| - 1];
      LexCompareProperPrefix(a[1..], b[1..]);
    }
  }
}
