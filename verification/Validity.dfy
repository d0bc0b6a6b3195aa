// Null bitmaps: counting, and their bytes in front of a page with some nulls.
module Validity {
  import opened Options
  import opened Bytes
  import opened BitWords
  import opened Selection

  // The rows of a bitmap that may be missing: no bitmap means no nulls.
  function ValidRows(valid: Option<seq<Word>>, rows: nat): (bits: seq<bool>)
    ensures |bits| == rows
  {
    match valid
    case None => seq(rows, _ => true)
    case Some(words) => Rows(words, rows)
  }

  function NullsIn(bits: seq<bool>): (n: nat)
    ensures n <= |bits|
  {
    |bits| - TrueCount(bits)
  }

  lemma {:induction false} AllTrue(rows: nat)
    ensures NullsIn(seq(rows, _ => true)) == 0
  {
    AllCounted(seq(rows, _ => true));
  }

  // ----- counting nulls -----

  lemma {:induction false} CountAgrees(a: Word, b: Word, n: nat)
    requires forall i :: 0 <= i < n ==> (Bit(a, i) <==> Bit(b, i))
    ensures Count(a, n) == Count(b, n)
  {
    hide Bit, Count;
    if n > 0 {
      CountAgrees(a, b, n - 1);
      CountStep(a, n - 1);
      CountStep(b, n - 1);
    } else {
      CountNothing(a);
      CountNothing(b);
    }
  }

  lemma {:induction false} CountStops(w: Word, m: nat, n: nat)
    requires m <= n && forall i :: m <= i < n ==> !Bit(w, i)
    ensures Count(w, n) == Count(w, m)
  {
    hide Bit, Count;
    if m < n {
      CountStops(w, m, n - 1);
      CountStep(w, n - 1);
    }
  }

  // Masking a word to its lowest bits leaves only those to count.
  lemma MaskedCount(w: Word, rem: nat)
    requires rem < 64
    ensures Count(And(w, Less1(Shl(1, rem))), 64) == Count(w, rem)
  {
    hide Bit, Count, And, Less1, Shl;
    var m := And(w, Less1(Shl(1, rem)));
    forall i | 0 <= i < 64 ensures Bit(m, i) <==> Bit(w, i) && i < rem {
      BitAnd(w, Less1(Shl(1, rem)), i);
      BitBelow(rem, i);
    }
    CountStops(m, rem, 64);
    CountAgrees(m, w, rem);
  }

  method NullCount(valid: Option<seq<Word>>, rows: nat) returns (n: nat)
    requires valid.Some? ==> WordsFor(rows) <= |valid.value|
    ensures n == NullsIn(ValidRows(valid, rows))
  {
    hide Bit, Count, And, Less1, Shl, BitAt, TrueCount;
    AllTrue(rows);
    if valid.None? {
      return 0;
    }
    if rows == 0 {
      assert ValidRows(valid, 0) == seq(0, _ => true);
      return 0;
    }
    var words := valid.value;
    var last := WordsFor(rows) - 1;
    var present := 0;
    NoneTrue(Rows(words, 0));
    for i := 0 to last
      invariant present == TrueCount(Rows(words, 64 * i))
    {
      CountInWord(words, i, 64);
      present := present + Count(words[i], 64);
    }
    var tail := words[last];
    var rem := rows % 64;
    if rem != 0 {
      MaskedCount(tail, rem);
      CountInWord(words, last, rem);
      assert rows == 64 * last + rem;
      tail := And(tail, Less1(Shl(1, rem)));
    } else {
      CountInWord(words, last, 64);
      assert rows == 64 * last + 64;
    }
    present := present + Count(tail, 64);
    n := rows - present;
  }

  // ----- bytes -----

  function WordBytes(w: Word): (b: seq<Byte>)
    ensures |b| == 8
  {
    LE(w as nat, 8)
  }

  function ToWord(b: seq<Byte>): (w: Word)
    requires |b| == 8
  {
    Widths();
    FromLE(b) as Word
  }

  lemma WordRoundTrip(w: Word)
    ensures ToWord(WordBytes(w)) == w
  {
    Widths();
    FromLEOfLE(w as nat, 8);
  }

  function Marshalled(words: seq<Word>): (b: seq<Byte>)
    ensures |b| == 8 * |words|
  {
    if words == [] then [] else Marshalled(words[..|words| - 1]) + WordBytes(words[|words| - 1])
  }

  function Unpacked(b: seq<Byte>, n: nat): (words: seq<Word>)
    requires |b| == 8 * n
    ensures |words| == n
    decreases n
  {
    if n == 0 then [] else Unpacked(b[..8 * (n - 1)], n - 1) + [ToWord(b[8 * (n - 1)..])]
  }

  lemma {:induction false} UnpackedOfMarshalled(words: seq<Word>)
    ensures Unpacked(Marshalled(words), |words|) == words
  {
    hide WordBytes, ToWord;
    if words != [] {
      var k := |words| - 1;
      var b := Marshalled(words);
      UnpackedOfMarshalled(words[..k]);
      WordRoundTrip(words[k]);
      assert b[..8 * k] == Marshalled(words[..k]) && b[8 * k..] == WordBytes(words[k]);
      assert words == words[..k] + [words[k]];
    }
  }

  // Writes the words over the front of a buffer.
  method MarshalLE(words: seq<Word>, dst: array<Byte>) returns (pos: nat)
    requires 8 * |words| <= dst.Length
    modifies dst
    ensures pos == 8 * |words|
    ensures dst[..pos] == Marshalled(words) && dst[pos..] == old(dst[pos..])
  {
    hide WordBytes;
    pos := 0;
    for i := 0 to |words|
      invariant pos == 8 * i <= dst.Length
      invariant dst[..pos] == Marshalled(words[..i])
      invariant dst[pos..] == old(dst[..])[pos..]
    {
      ghost var before := dst[..];
      var b := WordBytes(words[i]);
      forall k | 0 <= k < 8 { dst[pos + k] := b[k]; }
      assert dst[..pos] == before[..pos];
      assert dst[pos..pos + 8] == b;
      assert dst[..pos + 8] == dst[..pos] + dst[pos..pos + 8];
      assert dst[pos + 8..] == before[pos..][8..];
      assert words[..i + 1][..i] == words[..i];
      pos := pos + 8;
    }
    assert words[..|words|] == words;
  }

  // ----- reading back -----

  function TailMasked(words: seq<Word>, rows: nat): (out: seq<Word>)
    ensures |out| == |words|
  {
    if words == [] || rows % 64 == 0 then words
    else words[|words| - 1 := And(words[|words| - 1], Less1(Shl(1, rows % 64)))]
  }

  lemma TailMaskedKeepsRows(words: seq<Word>, rows: nat)
    requires |words| == WordsFor(rows)
    ensures Rows(TailMasked(words, rows), rows) == Rows(words, rows)
  {
    hide Bit, And, Less1, Shl;
    forall i | 0 <= i < rows ensures BitAt(TailMasked(words, rows), i) <==> BitAt(words, i) {
      if i / 64 == |words| - 1 && rows % 64 != 0 {
        BitAnd(words[i / 64], Less1(Shl(1, rows % 64)), i % 64);
        BitBelow(rows % 64, i % 64);
      }
    }
  }

  // What a bitmap of the given null count reads as, and how many bytes it takes.
  function Unmarshalled(src: seq<Byte>, rows: nat, nullCount: nat): (r: Option<(Option<seq<Word>>, nat)>) {
    var want := 8 * WordsFor(rows);
    if nullCount > rows then None
    else if nullCount == 0 then Some((None, 0))
    else if |src| < want then None
    else
      var words := TailMasked(Unpacked(src[..want], WordsFor(rows)), rows);
      if NullsIn(Rows(words, rows)) != nullCount then None else Some((Some(words), want))
  }

  method UnmarshalValidity(src: seq<Byte>, rows: nat, nullCount: nat) returns (r: Option<(Option<seq<Word>>, nat)>)
    ensures r == Unmarshalled(src, rows, nullCount)
  {
    hide ToWord, Bit, Less1, Shl, And, TrueCount;
    if nullCount > rows {
      return None;
    }
    if nullCount == 0 {
      return Some((None, 0));
    }
    var n := WordsFor(rows);
    var want := 8 * n;
    if |src| < want {
      return None;
    }
    var out: seq<Word> := [];
    for i := 0 to n
      invariant out == Unpacked(src[..8 * i], i)
    {
      assert src[..8 * (i + 1)][..8 * i] == src[..8 * i];
      assert src[..8 * (i + 1)][8 * i..] == src[8 * i..8 * i + 8];
      out := out + [ToWord(src[8 * i..8 * i + 8])];
    }
    out := TailMasked(out, rows);
    var got := NullCount(Some(out), rows);
    if got != nullCount {
      return None;
    }
    r := Some((Some(out), want));
  }

  // A bitmap written in front of a payload reads back with the same rows valid.
  lemma BitmapReadsBack(words: seq<Word>, rows: nat, rest: seq<Byte>)
    requires |words| == WordsFor(rows) && NullsIn(Rows(words, rows)) > 0
    ensures var r := Unmarshalled(Marshalled(words) + rest, rows, NullsIn(Rows(words, rows)));
      r.Some? && r.value.0.Some? && r.value.1 == |Marshalled(words)| && Rows(r.value.0.value, rows) == Rows(words, rows)
  {
    hide Bit, Less1, Shl, And, TrueCount, TailMasked, Rows, Marshalled, Unpacked;
    var b := Marshalled(words);
    assert (b + rest)[..8 * WordsFor(rows)] == b;
    UnpackedOfMarshalled(words);
    TailMaskedKeepsRows(words, rows);
  }
}
