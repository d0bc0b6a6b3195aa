// The file names of segments, and the numbers read back from them.
module SegmentNames {
  import opened Options

  const UINT64: nat := 0x1_0000_0000_0000_0000

  function Digit(d: nat): (c: char)
    requires d < 10
    ensures '0' <= c <= '9' && c as int - '0' as int == d
  {
    ('0' as int + d) as char
  }

  function Decimal(n: nat): (s: string)
    ensures s != ""
  {
    if n < 10 then [Digit(n)] else Decimal(n / 10) + [Digit(n % 10)]
  }

  function Padded(s: string, width: nat): (r: string)
    ensures s != "" ==> r != ""
    decreases width - |s|
  {
    if |s| >= width then s else Padded("0" + s, width)
  }

  function SegmentName(id: nat): (s: string) {
    Padded(Decimal(id), 6) + ".dsv4"
  }

  function SegmentPath(dir: string, id: nat): (s: string) {
    dir + "/" + SegmentName(id)
  }

  predicate Digits(s: string) {
    forall i :: 0 <= i < |s| ==> '0' <= s[i] <= '9'
  }

  function Value(s: string): nat
    requires Digits(s)
  {
    if s == "" then 0
    else
      var n := |s| - 1;
      10 * Value(s[..n]) + (s[n] as int - '0' as int)
  }

  // A decimal number of 64 bits without sign.
  function ParseUint(s: string): (v: Option<nat>)
    ensures v.Some? ==> v.value < UINT64 && s != "" && Digits(s) && v.value == Value(s)
    ensures v.None? ==> s == "" || !Digits(s) || Value(s) >= UINT64
  {
    if s == "" || !Digits(s) || Value(s) >= UINT64 then None else Some(Value(s))
  }

  // The part of a path after its last separator; separators at the end do not count.
  function Base(path: string): string {
    if path == "" then "."
    else
      var n := |path| - 1;
      if path[n] == '/' then Base(path[..n]) else LastPart(path)
  }

  function LastPart(path: string): string {
    if path == "" || path[|path| - 1] == '/' then "" else LastPart(path[..|path| - 1]) + [path[|path| - 1]]
  }

  // The number in the name of a segment file; other names have none.
  function SegmentId(path: string): Option<nat> {
    var base := Base(path);
    if |base| >= 5 && base[|base| - 5..] == ".dsv4" then ParseUint(base[..|base| - 5]) else None
  }

  lemma {:induction false} DecimalValue(n: nat)
    ensures Digits(Decimal(n)) && Value(Decimal(n)) == n
  {
    if n >= 10 {
      DecimalValue(n / 10);
      assert (Decimal(n / 10) + [Digit(n % 10)])[..|Decimal(n / 10)|] == Decimal(n / 10);
    }
  }

  lemma {:induction false} LeadingZero(s: string)
    requires Digits(s)
    ensures Digits("0" + s) && Value("0" + s) == Value(s)
  {
    if s != "" {
      var n := |s| - 1;
      LeadingZero(s[..n]);
      assert ("0" + s)[..n + 1] == "0" + s[..n];
    }
  }

  lemma {:induction false} PaddedValue(s: string, width: nat)
    requires Digits(s)
    ensures Digits(Padded(s, width)) && Value(Padded(s, width)) == Value(s)
    decreases width - |s|
  {
    if |s| < width {
      LeadingZero(s);
      PaddedValue("0" + s, width);
    }
  }

  function Tens(n: nat): nat {
    if n == 0 then 1 else 10 * Tens(n - 1)
  }

  lemma {:induction false} DecimalSize(n: nat, w: nat)
    requires w > 0
    ensures |Decimal(n)| <= w <==> n < Tens(w)
    ensures n > 0 ==> Decimal(n)[0] != '0'
  {
    if n >= 10 {
      DecimalSize(n / 10, if w > 1 then w - 1 else 1);
      assert w > 1 ==> (n / 10 < Tens(w - 1) <==> n < 10 * Tens(w - 1));
      assert Tens(1) == 10;
    } else if w > 1 {
      DecimalSize(n, w - 1);
    }
  }

  lemma {:induction false} PaddedSize(s: string, width: nat)
    ensures |Padded(s, width)| == if |s| >= width then |s| else width
    ensures |s| < width ==> Padded(s, width)[0] == '0'
    ensures |s| >= width ==> Padded(s, width) == s
    decreases width - |s|
  {
    if |s| < width {
      PaddedSize("0" + s, width);
    }
  }

  // Six digits, padded with zeros; more, and no leading zero, from a million on.
  lemma NameHasSixDigits(id: nat)
    ensures var digits := SegmentName(id)[..|SegmentName(id)| - 5];
      && |digits| >= 6 && (|digits| == 6 <==> id < 1_000_000) && (digits[0] == '0' <==> id < 100_000)
      && Digits(digits) && Value(digits) == id
  {
    hide Decimal, Padded, Value, Tens;
    assert Tens(6) == 1_000_000 && Tens(5) == 100_000 by { TensAre(); }
    var name := SegmentName(id);
    assert name[..|name| - 5] == Padded(Decimal(id), 6);
    DecimalSize(id, 6);
    DecimalSize(id, 5);
    DecimalValue(id);
    PaddedValue(Decimal(id), 6);
    PaddedSize(Decimal(id), 6);
  }

  lemma TensAre()
    ensures Tens(5) == 100_000 && Tens(6) == 1_000_000
  {
    assert Tens(3) == 1000;
  }

  lemma {:induction false} LastPartOf(dir: string, name: string)
    requires forall i :: 0 <= i < |name| ==> name[i] != '/'
    ensures LastPart(dir + "/" + name) == name
  {
    var p := dir + "/" + name;
    if name != "" {
      var n := |name| - 1;
      LastPartOf(dir, name[..n]);
      assert p[..|p| - 1] == dir + "/" + name[..n];
      assert name == name[..n] + [name[n]];
    }
  }

  // The number a segment is named with is the number read back from its path.
  lemma PathGivesId(dir: string, id: nat)
    requires id < UINT64
    ensures SegmentId(SegmentPath(dir, id)) == Some(id)
  {
    hide Decimal, Padded, Value;
    DecimalValue(id);
    PaddedValue(Decimal(id), 6);
    var name := SegmentName(id);
    LastPartOf(dir, name);
    var p := SegmentPath(dir, id);
    assert p[|p| - 1] == '4';
    assert name[|name| - 5..] == ".dsv4" && name[..|name| - 5] == Padded(Decimal(id), 6);
  }
}
