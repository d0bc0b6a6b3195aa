// Bytes, and fixed-width integers laid out in them.
module Bytes {
  type Byte = b: int | 0 <= b < 256

  const U16_LIMIT: nat := 0x1_0000
  const U32_LIMIT: nat := 0x1_0000_0000
  const U64_LIMIT: nat := 0x1_0000_0000_0000_0000
  const INT64_MIN: int := -0x8000_0000_0000_0000
  const INT64_MAX: int := 0x7fff_ffff_ffff_ffff

  predicate IsInt64(v: int) { INT64_MIN <= v <= INT64_MAX }

  // uint64(v) and int64(u).
  function ToU64(v: int): (u: nat)
    requires IsInt64(v)
    ensures u < U64_LIMIT
  {
    if v < 0 then v + U64_LIMIT else v
  }

  function ToI64(u: nat): (v: int)
    requires u < U64_LIMIT
    ensures IsInt64(v)
  {
    if u > INT64_MAX then u - U64_LIMIT else u
  }

  // Any integer reduced to the int64 it wraps around to.
  function Wrap64(v: int): (r: int)
    ensures IsInt64(r)
    ensures IsInt64(v) ==> r == v
  {
    ToI64(v % U64_LIMIT)
  }

  function Pow256(n: nat): (p: nat)
    ensures p > 0
  {
    if n == 0 then 1 else 256 * Pow256(n - 1)
  }

  lemma SliceOfSlice(s: seq<Byte>, a: nat, b: nat, i: nat, j: nat)
    requires i <= j && a + j <= b <= |s|
    ensures s[a..b][i..j] == s[a + i..a + j]
  {
    var x, y := s[a..b][i..j], s[a + i..a + j];
    assert |x| == |y|;
    forall k | 0 <= k < |x| ensures x[k] == y[k] { assert x[k] == s[a..b][i + k] == s[a + i + k]; }
  }

  // ----- little endian -----

  function LE(v: nat, n: nat): (s: seq<Byte>)
    ensures |s| == n
  {
    if n == 0 then [] else [v % 256] + LE(v / 256, n - 1)
  }

  function FromLE(s: seq<Byte>): (v: nat)
    ensures v < Pow256(|s|)
  {
    if s == [] then 0 else s[0] + 256 * FromLE(s[1..])
  }

  lemma {:induction false} FromLEOfLE(v: nat, n: nat)
    requires v < Pow256(n)
    ensures FromLE(LE(v, n)) == v
  {
    if n > 0 {
      assert v / 256 < Pow256(n - 1);
      FromLEOfLE(v / 256, n - 1);
      assert LE(v, n)[1..] == LE(v / 256, n - 1);
    }
  }

  lemma {:induction false} LEOfFromLE(s: seq<Byte>)
    ensures LE(FromLE(s), |s|) == s
  {
    if s != [] {
      LEOfFromLE(s[1..]);
      var rest := FromLE(s[1..]);
      assert (s[0] + 256 * rest) % 256 == s[0] && (s[0] + 256 * rest) / 256 == rest;
      assert s == [s[0]] + s[1..];
    }
  }

  // ----- big endian -----

  function BE(v: nat, n: nat): (s: seq<Byte>)
    ensures |s| == n
  {
    if n == 0 then [] else BE(v / 256, n - 1) + [v % 256]
  }

  lemma {:induction false} BEInjective(u: nat, v: nat, n: nat)
    requires u < Pow256(n) && v < Pow256(n)
    requires BE(u, n) == BE(v, n)
    ensures u == v
  {
    if n > 0 {
      var a, b := BE(u, n), BE(v, n);
      assert a[..n - 1] == BE(u / 256, n - 1) && b[..n - 1] == BE(v / 256, n - 1);
      assert a[n - 1] == u % 256 && b[n - 1] == v % 256;
      BEInjective(u / 256, v / 256, n - 1);
    }
  }

  lemma Widths()
    ensures Pow256(1) == 256 && Pow256(2) == U16_LIMIT && Pow256(4) == U32_LIMIT && Pow256(8) == U64_LIMIT
  {
    assert Pow256(3) == 0x100_0000;
    assert Pow256(5) == 0x100_0000_0000;
    assert Pow256(6) == 0x1_0000_0000_0000;
    assert Pow256(7) == 0x100_0000_0000_0000;
  }

  // ----- byte-wise string order -----

  predicate LexLess(a: seq<Byte>, b: seq<Byte>) {
    if b == [] then false
    else if a == [] then true
    else if a[0] != b[0] then a[0] < b[0]
    else LexLess(a[1..], b[1..])
  }

  // a is a proper prefix of b, or smaller at the first byte in which they differ.
  ghost predicate IsBelow(a: seq<Byte>, b: seq<Byte>) {
    a < b || exists k: nat :: SmallerAt(a, b, k)
  }

  predicate SmallerAt(a: seq<Byte>, b: seq<Byte>, k: nat) {
    k < |a| && k < |b| && a[..k] == b[..k] && a[k] < b[k]
  }

  lemma {:induction false} LexLessIs(a: seq<Byte>, b: seq<Byte>)
    ensures LexLess(a, b) <==> IsBelow(a, b)
  {
    if a != [] && b != [] {
      if a[0] == b[0] {
        LexLessIs(a[1..], b[1..]);
        TailsBelow(a, b);
      } else {
        assert a[0] < b[0] ==> SmallerAt(a, b, 0);
        forall k: nat | 0 < k < |a| && k < |b| ensures !SmallerAt(a, b, k) { assert a[..k][0] != b[..k][0]; }
      }
    }
  }

  lemma TailsBelow(a: seq<Byte>, b: seq<Byte>)
    requires a != [] && b != [] && a[0] == b[0]
    ensures IsBelow(a, b) <==> IsBelow(a[1..], b[1..])
  {
    assert a == [a[0]] + a[1..] && b == [b[0]] + b[1..];
    assert a < b <==> a[1..] < b[1..];
    forall k: nat ensures SmallerAt(a[1..], b[1..], k) <==> SmallerAt(a, b, k + 1) {
      if k < |a[1..]| && k < |b[1..]| {
        assert a[..k + 1] == [a[0]] + a[1..][..k] && b[..k + 1] == [b[0]] + b[1..][..k];
        assert a[..k + 1][1..] == a[1..][..k] && b[..k + 1][1..] == b[1..][..k];
      }
    }
    if IsBelow(a, b) && !(a < b) {
      var k: nat :| SmallerAt(a, b, k);
      if k > 0 { assert SmallerAt(a[1..], b[1..], k - 1); }
    }
    if IsBelow(a[1..], b[1..]) && !(a[1..] < b[1..]) {
      var k: nat :| SmallerAt(a[1..], b[1..], k);
      assert SmallerAt(a, b, k + 1);
    }
  }

  lemma {:induction false} LexTotal(a: seq<Byte>, b: seq<Byte>)
    ensures LexLess(a, b) ==> !LexLess(b, a)
    ensures a != b ==> LexLess(a, b) || LexLess(b, a)
  {
    if a != [] && b != [] && a[0] == b[0] {
      LexTotal(a[1..], b[1..]);
      assert a == [a[0]] + a[1..] && b == [b[0]] + b[1..];
    }
  }

  lemma {:induction false} LexTransitive(a: seq<Byte>, b: seq<Byte>, c: seq<Byte>)
    requires !LexLess(a, b) && !LexLess(b, c)
    ensures !LexLess(a, c)
  {
    if a != [] && b != [] && c != [] && a[0] == b[0] && b[0] == c[0] {
      LexTransitive(a[1..], b[1..], c[1..]);
    }
  }
}
