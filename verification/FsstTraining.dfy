// Choosing the symbol table of an FSST page from a sample of its bytes.
module FsstTraining {
  import opened Bytes
  import opened Sorting
  import Fsst

  const MAX_SYM_LEN: nat := 8
  const SAMPLE_CAP: nat := 0x1_0000

  // ----- what is counted -----

  function OccursAt(sample: seq<Byte>, t: seq<Byte>, i: nat): bool {
    i + |t| <= |sample| && sample[i..i + |t|] == t
  }

  function Occurrences(sample: seq<Byte>, t: seq<Byte>, n: nat): (c: nat)
  {
    if n == 0 then 0 else Occurrences(sample, t, n - 1) + if OccursAt(sample, t, n - 1) then 1 else 0
  }

  // How often a string of admissible length occurs in the sample.
  function Seen(sample: seq<Byte>, t: seq<Byte>): nat {
    if 2 <= |t| <= MAX_SYM_LEN && |t| <= |sample| then Occurrences(sample, t, |sample| - |t| + 1) else 0
  }

  function Gain(sample: seq<Byte>, t: seq<Byte>): int {
    Seen(sample, t) * (|t| - 1)
  }

  predicate Ranks(sample: seq<Byte>, a: seq<Byte>, b: seq<Byte>) {
    if Gain(sample, a) != Gain(sample, b) then Gain(sample, a) > Gain(sample, b) else LexLess(a, b)
  }

  lemma RanksIsTotalOrder(sample: seq<Byte>, s: seq<seq<Byte>>)
    ensures WeakOrder((a, b) => Ranks(sample, a, b))
    ensures Tieless(s, (a, b) => Ranks(sample, a, b))
  {
    hide Gain, LexLess;
    forall a, b ensures Ranks(sample, a, b) ==> !Ranks(sample, b, a) { LexTotal(a, b); }
    forall a, b, c | !Ranks(sample, a, b) && !Ranks(sample, b, c) ensures !Ranks(sample, a, c) {
      if Gain(sample, a) == Gain(sample, b) == Gain(sample, c) { LexTransitive(a, b, c); }
    }
    forall x, y | x in s && y in s && x != y ensures Ranks(sample, x, y) || Ranks(sample, y, x) { LexTotal(x, y); }
  }

  // s is worth more than t: each occurrence of s becomes one byte instead of |s|.
  // Of two equally worth it the smaller byte string.
  ghost predicate Saves(sample: seq<Byte>, s: seq<Byte>, t: seq<Byte>) {
    var (saved, other) := (Seen(sample, s) * (|s| - 1), Seen(sample, t) * (|t| - 1));
    saved > other || (saved == other && IsBelow(s, t))
  }

  lemma RanksIsSaves(sample: seq<Byte>, s: seq<Byte>, t: seq<Byte>)
    ensures Ranks(sample, s, t) <==> Saves(sample, s, t)
  {
    hide Seen, LexLess, IsBelow;
    LexLessIs(s, t);
  }

  // ----- training -----

  function CountOf(counts: map<seq<Byte>, nat>, t: seq<Byte>): nat {
    if t in counts then counts[t] else 0
  }

  // What the counts must be once all lengths below len and the first n starts of length len are done.
  function SeenSoFar(sample: seq<Byte>, t: seq<Byte>, len: nat, n: nat): nat {
    if |t| < len then Seen(sample, t) else if |t| == len then Occurrences(sample, t, n) else 0
  }

  method CountSubstrings(sample: seq<Byte>) returns (counts: map<seq<Byte>, nat>)
    ensures forall t :: CountOf(counts, t) == Seen(sample, t)
  {
    hide Seen, SeenSoFar;
    counts := map[];
    ShortUnseen(sample);
    var len := 2;
    while len <= MAX_SYM_LEN
      invariant 2 <= len <= MAX_SYM_LEN + 1
      invariant forall t :: CountOf(counts, t) == SeenSoFar(sample, t, len, 0)
    {
      if len > |sample| {
        LongUnseen(sample, len);
        return;
      }
      var end := |sample| - len + 1;
      for i := 0 to end
        invariant forall t :: CountOf(counts, t) == SeenSoFar(sample, t, len, i)
      {
        var t := sample[i..i + len];
        StartCounted(sample, len, i, i + 1);
        counts := counts[t := CountOf(counts, t) + 1];
      }
      LengthDone(sample, len, end, len + 1);
      len := len + 1;
    }
    LongUnseen(sample, len);
  }

  lemma StartCounted(sample: seq<Byte>, len: nat, i: nat, next: nat)
    requires i + len <= |sample| && next == i + 1
    ensures forall t :: SeenSoFar(sample, t, len, next) == (SeenSoFar(sample, t, len, i) + if t == sample[i..i + len] then 1 else 0)
  {
  }

  lemma ShortUnseen(sample: seq<Byte>)
    ensures forall t :: SeenSoFar(sample, t, 2, 0) == 0
  {
  }

  lemma LongUnseen(sample: seq<Byte>, len: nat)
    requires len > |sample| || len > MAX_SYM_LEN
    ensures forall t :: SeenSoFar(sample, t, len, 0) == Seen(sample, t)
  {
  }

  lemma LengthDone(sample: seq<Byte>, len: nat, n: nat, next: nat)
    requires 2 <= len <= MAX_SYM_LEN && len <= |sample| && n == |sample| - len + 1 && next == len + 1
    ensures forall t :: SeenSoFar(sample, t, len, n) == SeenSoFar(sample, t, next, 0)
  {
  }

  // The strings counted at least twice, in whatever order the map yields them.
  method Candidates(counts: map<seq<Byte>, nat>) returns (cands: seq<seq<Byte>>)
    ensures forall t :: t in cands <==> CountOf(counts, t) >= 2
    ensures forall i, j :: 0 <= i < j < |cands| ==> cands[i] != cands[j]
  {
    cands := [];
    var left := counts.Keys;
    while left != {}
      invariant left <= counts.Keys
      invariant forall t :: t in cands <==> t in counts && t !in left && counts[t] >= 2
      invariant forall i, j :: 0 <= i < j < |cands| ==> cands[i] != cands[j]
      decreases |left|
    {
      var t :| t in left;
      left := left - {t};
      if counts[t] >= 2 {
        cands := cands + [t];
      }
    }
  }

  ghost predicate NothingRepeats(raw: seq<Byte>) {
    forall t :: Seen(Take(raw, SAMPLE_CAP), t) < 2
  }

  lemma NothingToRepeat()
    ensures NothingRepeats([])
  {
  }

  // The first candidates in order: what is left out ranks after what is taken.
  lemma FirstOnes(sample: seq<Byte>, sorted: seq<seq<Byte>>, symbols: seq<seq<Byte>>)
    requires symbols == Take(sorted, Fsst.MAX_SYMBOLS)
    requires forall i, j :: 0 <= i < j < |sorted| ==> Ranks(sample, sorted[i], sorted[j])
    ensures forall i, j :: 0 <= i < j < |symbols| ==> Ranks(sample, symbols[i], symbols[j])
    ensures forall t :: t in symbols ==> t in sorted
    ensures forall t, s :: t in sorted && t !in symbols && s in symbols ==> Ranks(sample, s, t)
    ensures forall t :: t in sorted && t !in symbols ==> |symbols| == Fsst.MAX_SYMBOLS
  {
    hide Ranks;
    forall t, s | t in sorted && t !in symbols && s in symbols ensures Ranks(sample, s, t) {
      var i :| 0 <= i < |symbols| && symbols[i] == s;
      var j :| 0 <= j < |sorted| && sorted[j] == t;
      assert forall k :: 0 <= k < |symbols| ==> symbols[k] in symbols && symbols[k] == sorted[k];
      assert sorted[i] == s;
    }
  }

  // The table holds the 255 best candidates, or all of them: distinct strings of
  // 2 to 8 bytes that occur at least twice, best first, and no candidate left
  // out ranks before one that was taken.
  method Train(raw: seq<Byte>) returns (symbols: seq<seq<Byte>>)
    ensures var sample := Take(raw, SAMPLE_CAP);
      && (forall t :: t in symbols ==> 2 <= |t| <= MAX_SYM_LEN && Seen(sample, t) >= 2)
      && (forall t, s :: Seen(sample, t) >= 2 && t !in symbols && s in symbols ==> Saves(sample, s, t))
      && (forall t :: Seen(sample, t) >= 2 && t !in symbols ==> |symbols| == Fsst.MAX_SYMBOLS)
      && (forall i, j :: 0 <= i < j < |symbols| ==> Saves(sample, symbols[i], symbols[j]))
    ensures Fsst.Table(symbols) && (symbols == [] <==> NothingRepeats(raw))
  {
    hide Ranks, Saves, WeakOrder, Tieless, Seen;
    var sample := Take(raw, SAMPLE_CAP);
    var counts := CountSubstrings(sample);
    var cands := Candidates(counts);
    var lt := (a, b) => Ranks(sample, a, b);
    var sorted := Sort(cands, lt);
    symbols := Take(sorted, Fsst.MAX_SYMBOLS);
    SortedCandidates(sample, cands, sorted);
    AdmissibleLengths(sample);
    FirstOnes(sample, sorted, symbols);
    assert forall t :: Seen(sample, t) >= 2 <==> t in sorted;
    RankedAreDistinct(sample, symbols);
    forall i | 0 <= i < |symbols| ensures symbols[i] != [] { assert symbols[i] in symbols; }
    AnySymbol(raw, sorted, symbols);
    BestFirst(sample, symbols);
  }

  lemma BestFirst(sample: seq<Byte>, symbols: seq<seq<Byte>>)
    requires forall t, s :: Seen(sample, t) >= 2 && t !in symbols && s in symbols ==> Ranks(sample, s, t)
    requires forall i, j :: 0 <= i < j < |symbols| ==> Ranks(sample, symbols[i], symbols[j])
    ensures forall t, s :: Seen(sample, t) >= 2 && t !in symbols && s in symbols ==> Saves(sample, s, t)
    ensures forall i, j :: 0 <= i < j < |symbols| ==> Saves(sample, symbols[i], symbols[j])
  {
    hide Seen, Ranks, Saves;
    forall t, s | Seen(sample, t) >= 2 && t !in symbols && s in symbols ensures Saves(sample, s, t) { RanksIsSaves(sample, s, t); }
    forall i, j | 0 <= i < j < |symbols| ensures Saves(sample, symbols[i], symbols[j]) { RanksIsSaves(sample, symbols[i], symbols[j]); }
  }

  lemma AnySymbol(raw: seq<Byte>, sorted: seq<seq<Byte>>, symbols: seq<seq<Byte>>)
    requires symbols == Take(sorted, Fsst.MAX_SYMBOLS)
    requires forall t :: Seen(Take(raw, SAMPLE_CAP), t) >= 2 <==> t in sorted
    ensures symbols == [] <==> NothingRepeats(raw)
  {
    hide Seen;
    if sorted != [] { assert sorted[0] in sorted; }
  }

  lemma AdmissibleLengths(sample: seq<Byte>)
    ensures forall t: seq<Byte> :: Seen(sample, t) >= 2 ==> 2 <= |t| <= MAX_SYM_LEN
  {
  }

  lemma RankedAreDistinct(sample: seq<Byte>, s: seq<seq<Byte>>)
    requires forall i, j :: 0 <= i < j < |s| ==> Ranks(sample, s[i], s[j])
    ensures forall i, j :: 0 <= i < j < |s| ==> s[i] != s[j]
  {
    forall i, j | 0 <= i < j < |s| ensures s[i] != s[j] { LexTotal(s[i], s[j]); }
  }

  lemma SortedCandidates(sample: seq<Byte>, cands: seq<seq<Byte>>, sorted: seq<seq<Byte>>)
    requires forall i, j :: 0 <= i < j < |cands| ==> cands[i] != cands[j]
    requires sorted == Sort(cands, (a, b) => Ranks(sample, a, b))
    ensures forall t :: t in sorted <==> t in cands
    ensures forall i, j :: 0 <= i < j < |sorted| ==> Ranks(sample, sorted[i], sorted[j])
  {
    hide Ranks;
    var lt := (a, b) => Ranks(sample, a, b);
    RanksIsTotalOrder(sample, sorted);
    SortSorts(cands, lt);
    SortMultiset(cands, lt);
    MultisetMembers(sorted, cands);
    DistinctCount(cands);
    forall i, j | 0 <= i < j < |sorted| ensures Ranks(sample, sorted[i], sorted[j]) {
      assert !lt(sorted[j], sorted[i]);
      assert multiset(cands)[sorted[i]] <= 1;
      if sorted[i] == sorted[j] { TwiceCounts(sorted, i, j); }
      assert sorted[i] in sorted && sorted[j] in sorted;
    }
  }

  lemma {:induction false} DistinctCount(s: seq<seq<Byte>>)
    requires forall i, j :: 0 <= i < j < |s| ==> s[i] != s[j]
    ensures forall x :: multiset(s)[x] <= 1
  {
    if s != [] {
      var n := |s| - 1;
      DistinctCount(s[..n]);
      FrontLast(s);
      assert s[n] !in s[..n];
    }
  }

  lemma TwiceCounts(s: seq<seq<Byte>>, i: nat, j: nat)
    requires i < j < |s| && s[i] == s[j]
    ensures multiset(s)[s[i]] >= 2
  {
    assert s == s[..j] + s[j..];
    assert s[..j][i] == s[i] && s[j..][0] == s[j];
    assert s[i] in s[..j] && s[i] in s[j..];
  }
}
