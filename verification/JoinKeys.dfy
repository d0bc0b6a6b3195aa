// The byte form of a join key: a tag for each column, then a fixed-width or
// length-prefixed body.
module JoinKeys {
  import opened Bytes
  import opened Options

  // One key column of a row.  Every integer-like kind widens to int64; text,
  // bytes, and the text forms of uuid and enum values are byte strings.
  datatype KeyVal = KNull | KInt(v: int) | KBool(b: bool) | KBytes(s: seq<Byte>)

  predicate ValidVal(v: KeyVal) {
    match v
    case KInt(i) => IsInt64(i)
    case KBytes(s) => |s| < U32_LIMIT
    case _ => true
  }

  predicate ValidKey(k: seq<KeyVal>) {
    forall i :: 0 <= i < |k| ==> ValidVal(k[i])
  }

  predicate NonNull(k: seq<KeyVal>) {
    forall i :: 0 <= i < |k| ==> !k[i].KNull?
  }

  // SQL equality of key tuples: null never equals anything.
  predicate KeysMatch(a: seq<KeyVal>, b: seq<KeyVal>) {
    NonNull(a) && a == b
  }

  const TAG_INT: Byte := 105
  const TAG_BOOL: Byte := 98
  const TAG_BYTES: Byte := 115

  function EncodeVal(v: KeyVal): (s: seq<Byte>)
    requires !v.KNull? && ValidVal(v)
    ensures |s| > 0
  {
    match v
    case KInt(i) => [TAG_INT] + BE(ToU64(i), 8)
    case KBool(b) => [TAG_BOOL, if b then 1 else 0]
    case KBytes(bs) => [TAG_BYTES] + BE(|bs|, 4) + bs
  }

  function EncodeAll(k: seq<KeyVal>): (s: seq<Byte>)
    requires ValidKey(k) && NonNull(k)
    ensures k != [] ==> |s| > 0
  {
    if k == [] then [] else EncodeVal(k[0]) + EncodeAll(k[1..])
  }

  // None for a key with a null column.
  function Encode(k: seq<KeyVal>): (s: Option<seq<Byte>>)
    requires ValidKey(k)
  {
    if NonNull(k) then Some(EncodeAll(k)) else None
  }

  // The column loop, appending to one buffer.
  method EncodeRow(k: seq<KeyVal>) returns (s: Option<seq<Byte>>)
    requires ValidKey(k)
    ensures s == Encode(k)
  {
    var buf: seq<Byte> := [];
    for i := 0 to |k|
      invariant forall j :: 0 <= j < i ==> !k[j].KNull?
      invariant NonNull(k) ==> EncodeAll(k) == buf + EncodeAll(k[i..])
    {
      if k[i].KNull? {
        return None;
      }
      if NonNull(k) { EncodeStep(k, i, buf); }
      buf := buf + EncodeVal(k[i]);
    }
    assert buf + [] == buf;
    return Some(buf);
  }

  lemma EncodeStep(k: seq<KeyVal>, i: nat, buf: seq<Byte>)
    requires ValidKey(k) && NonNull(k) && i < |k|
    ensures buf + EncodeAll(k[i..]) == buf + EncodeVal(k[i]) + EncodeAll(k[i + 1..])
  {
    var head, rest := EncodeVal(k[i]), EncodeAll(k[i + 1..]);
    assert k[i..][1..] == k[i + 1..];
    assert EncodeAll(k[i..]) == head + rest;
  }

  // A value can be read back off the front, so no encoding is a prefix of another's continuation.
  lemma EncodeValPrefix(a: KeyVal, b: KeyVal, x: seq<Byte>, y: seq<Byte>)
    requires !a.KNull? && !b.KNull? && ValidVal(a) && ValidVal(b)
    requires EncodeVal(a) + x == EncodeVal(b) + y
    ensures a == b && x == y
  {
    var s := EncodeVal(a) + x;
    assert s[0] == EncodeVal(a)[0] && s[0] == EncodeVal(b)[0];
    match a {
      case KInt(i) =>
        assert s[1..9] == BE(ToU64(a.v), 8) && s[1..9] == BE(ToU64(b.v), 8);
        Widths();
        BEInjective(ToU64(a.v), ToU64(b.v), 8);
        assert x == s[9..] && y == s[9..];
      case KBool(_) =>
        assert s[1] == (if a.b then 1 else 0) && s[1] == (if b.b then 1 else 0);
        assert x == s[2..] && y == s[2..];
      case KBytes(_) =>
        assert s[1..5] == BE(|a.s|, 4) && s[1..5] == BE(|b.s|, 4);
        Widths();
        BEInjective(|a.s|, |b.s|, 4);
        var n := 5 + |a.s|;
        assert s[5..n] == a.s && s[5..n] == b.s;
        assert x == s[n..] && y == s[n..];
    }
  }

  lemma {:induction false} EncodeAllInjective(a: seq<KeyVal>, b: seq<KeyVal>)
    requires ValidKey(a) && NonNull(a) && ValidKey(b) && NonNull(b)
    requires EncodeAll(a) == EncodeAll(b)
    ensures a == b
  {
    if a != [] && b != [] {
      EncodeValPrefix(a[0], b[0], EncodeAll(a[1..]), EncodeAll(b[1..]));
      EncodeAllInjective(a[1..], b[1..]);
      assert a == [a[0]] + a[1..] && b == [b[0]] + b[1..];
    }
  }

  // Two keys have the same byte form exactly when SQL calls them equal.
  lemma EncodeExact(a: seq<KeyVal>, b: seq<KeyVal>)
    requires ValidKey(a) && ValidKey(b)
    ensures Encode(a).Some? && Encode(a) == Encode(b) <==> KeysMatch(a, b)
  {
    if Encode(a).Some? && Encode(a) == Encode(b) {
      EncodeAllInjective(a, b);
    }
  }
}
