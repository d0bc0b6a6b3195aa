// The packed row selection: its words, the tail bits that stay zero, and what
// each operation means for the set of selected rows.
module Selection {
  import opened BitWords

  function WordsFor(rows: nat): (n: nat)
    ensures rows <= 64 * n < rows + 64
  {
    (rows + 63) / 64
  }

  predicate BitAt(words: seq<Word>, i: nat) {
    i / 64 < |words| && Bit(words[i / 64], i % 64)
  }

  function Rows(words: seq<Word>, n: nat): (bits: seq<bool>)
    ensures |bits| == n && forall i :: 0 <= i < n ==> bits[i] == BitAt(words, i)
  {
    seq(n, i requires 0 <= i < n => BitAt(words, i))
  }

  // No bit at or beyond position n.
  ghost predicate Within(words: seq<Word>, n: nat) {
    forall i :: n <= i < 64 * |words| ==> !BitAt(words, i)
  }

  // ----- counting -----

  function TrueCount(bits: seq<bool>): (c: nat)
    ensures c <= |bits|
  {
    if bits == [] then 0 else TrueCount(bits[..|bits| - 1]) + if bits[|bits| - 1] then 1 else 0
  }

  function Population(words: seq<Word>): (c: nat) {
    if words == [] then 0 else Population(words[..|words| - 1]) + Count(words[|words| - 1], 64)
  }

  lemma TrueCountStep(bits: seq<bool>, b: bool)
    ensures TrueCount(bits + [b]) == TrueCount(bits) + if b then 1 else 0
  {
    assert (bits + [b])[..|bits|] == bits;
  }

  lemma {:induction false} AllCounted(bits: seq<bool>)
    ensures TrueCount(bits) == |bits| <==> Full(bits)
  {
    if bits != [] {
      var n := |bits| - 1;
      AllCounted(bits[..n]);
      assert forall i :: 0 <= i < n ==> bits[..n][i] == bits[i];
    }
  }

  lemma RowsStep(words: seq<Word>, n: nat)
    ensures Rows(words, n + 1) == Rows(words, n) + [BitAt(words, n)]
  {
  }

  lemma WordBits(words: seq<Word>, k: nat, j: nat)
    requires k < |words| && j < 64
    ensures BitAt(words, 64 * k + j) == Bit(words[k], j)
  {
    hide Bit;
    assert (64 * k + j) / 64 == k && (64 * k + j) % 64 == j;
  }

  lemma {:induction false} CountInWord(words: seq<Word>, k: nat, j: nat)
    requires k < |words| && j <= 64
    ensures TrueCount(Rows(words, 64 * k + j)) == TrueCount(Rows(words, 64 * k)) + Count(words[k], j)
  {
    hide *;
    if j > 0 {
      CountInWord(words, k, j - 1);
      var i := 64 * k + j - 1;
      WordBits(words, k, j - 1);
      RowsStep(words, i);
      TrueCountStep(Rows(words, i), BitAt(words, i));
      CountStep(words[k], j - 1);
    } else {
      CountNothing(words[k]);
    }
  }

  lemma CountNothing(w: Word)
    ensures Count(w, 0) == 0
  {
  }

  lemma RowsOfPrefix(words: seq<Word>, k: nat)
    requires k <= |words|
    ensures Rows(words[..k], 64 * k) == Rows(words, 64 * k)
  {
    hide Bit;
  }

  lemma {:induction false} PopulationIsCount(words: seq<Word>)
    ensures Population(words) == TrueCount(Rows(words, 64 * |words|))
  {
    hide Count, Bit, Rows;
    if words != [] {
      hide TrueCount;
      var k := |words| - 1;
      PopulationIsCount(words[..k]);
      RowsOfPrefix(words, k);
      CountInWord(words, k, 64);
    }
  }

  lemma {:induction false} TailCountsNothing(words: seq<Word>, n: nat, m: nat)
    requires n <= m <= 64 * |words| && Within(words, n)
    ensures TrueCount(Rows(words, m)) == TrueCount(Rows(words, n))
  {
    hide BitAt, TrueCount, Rows;
    if n < m {
      TailCountsNothing(words, n, m - 1);
      assert !BitAt(words, m - 1);
      RowsStep(words, m - 1);
      TrueCountStep(Rows(words, m - 1), BitAt(words, m - 1));
    }
  }

  lemma PopulationOfRows(words: seq<Word>, n: nat)
    requires n <= 64 * |words| && Within(words, n)
    ensures Population(words) == TrueCount(Rows(words, n))
  {
    PopulationIsCount(words);
    TailCountsNothing(words, n, 64 * |words|);
  }

  lemma PopulationNothing()
    ensures Population([]) == 0
  {
  }

  lemma PopulationStep(words: seq<Word>, w: Word)
    ensures Population(words + [w]) == Population(words) + Count(w, 64)
  {
    assert (words + [w])[..|words|] == words;
  }

  // ----- the selected rows in order -----

  function SetRows(bits: seq<bool>): (rows: seq<nat>) {
    if bits == [] then []
    else SetRows(bits[..|bits| - 1]) + if bits[|bits| - 1] then [|bits| - 1] else []
  }

  lemma SetRowsStep(bits: seq<bool>, b: bool)
    ensures SetRows(bits + [b]) == SetRows(bits) + if b then [|bits|] else []
  {
    assert (bits + [b])[..|bits|] == bits;
  }

  lemma {:induction false} SetRowsMember(bits: seq<bool>, r: nat)
    ensures r in SetRows(bits) <==> r < |bits| && bits[r]
  {
    if bits != [] { SetRowsMember(bits[..|bits| - 1], r); }
  }

  lemma {:induction false} SetRowsAscend(bits: seq<bool>, i: nat, j: nat)
    requires i < j < |SetRows(bits)|
    ensures SetRows(bits)[i] < SetRows(bits)[j]
  {
    var n := |bits| - 1;
    var front := SetRows(bits[..n]);
    if j < |front| {
      SetRowsAscend(bits[..n], i, j);
    } else {
      SetRowsMember(bits[..n], front[i]);
    }
  }

  lemma {:induction false} SetRowsCount(bits: seq<bool>)
    ensures |SetRows(bits)| == TrueCount(bits)
  {
    if bits != [] { SetRowsCount(bits[..|bits| - 1]); }
  }

  lemma SetRowsAre(bits: seq<bool>)
    ensures forall r: nat :: r in SetRows(bits) <==> r < |bits| && bits[r]
    ensures forall i, j :: 0 <= i < j < |SetRows(bits)| ==> SetRows(bits)[i] < SetRows(bits)[j]
    ensures |SetRows(bits)| == TrueCount(bits)
  {
    hide SetRows, TrueCount;
    forall r: nat ensures r in SetRows(bits) <==> r < |bits| && bits[r] { SetRowsMember(bits, r); }
    forall i, j | 0 <= i < j < |SetRows(bits)| ensures SetRows(bits)[i] < SetRows(bits)[j] { SetRowsAscend(bits, i, j); }
    SetRowsCount(bits);
  }

  // ----- set algebra on masks -----

  function Both(a: seq<bool>, b: seq<bool>): (c: seq<bool>)
    requires |a| == |b|
    ensures |c| == |a| && forall i :: 0 <= i < |c| ==> c[i] == (a[i] && b[i])
  {
    seq(|a|, i requires 0 <= i < |a| => a[i] && b[i])
  }

  function Either(a: seq<bool>, b: seq<bool>): (c: seq<bool>)
    requires |a| == |b|
    ensures |c| == |a| && forall i :: 0 <= i < |c| ==> c[i] == (a[i] || b[i])
  {
    seq(|a|, i requires 0 <= i < |a| => a[i] || b[i])
  }

  function Flipped(a: seq<bool>): (c: seq<bool>)
    ensures |c| == |a| && forall i :: 0 <= i < |c| ==> c[i] == !a[i]
  {
    seq(|a|, i requires 0 <= i < |a| => !a[i])
  }

  predicate Full(a: seq<bool>) {
    forall i :: 0 <= i < |a| ==> a[i]
  }

  class SelectionMask {
    var words: seq<Word>
    var rows: nat
    var allSet: bool

    // The words fit the rows, the tail is zero, and allSet is never claimed of a mask that is not full.
    ghost predicate Valid()
      reads this
    {
      && |words| == WordsFor(rows)
      && Within(words, rows)
      && (allSet ==> Full(Rows(words, rows)))
    }

    // The selection as one flag a row.
    ghost function Mask(): (bits: seq<bool>)
      reads this
      ensures |bits| == rows
    {
      Rows(words, rows)
    }

    constructor (rows: nat)
      ensures Valid() && this.rows == rows && Mask() == seq(rows, _ => false)
    {
      words := seq(WordsFor(rows), _ => 0);
      this.rows := rows;
      allSet := rows == 0;
      new;
      EmptyWords(words);
    }

    method Resize(rows: nat)
      modifies this
      ensures Valid() && this.rows == rows && Mask() == seq(rows, _ => false)
    {
      words := seq(WordsFor(rows), _ => 0);
      this.rows := rows;
      allSet := rows == 0;
      EmptyWords(words);
    }

    method Clear()
      requires Valid()
      modifies this
      ensures Valid() && rows == old(rows) && Mask() == seq(rows, _ => false)
    {
      words := seq(|words|, _ => 0);
      allSet := rows == 0;
      EmptyWords(words);
    }

    method FillAll() returns (n: nat)
      requires Valid()
      modifies this
      ensures Valid() && rows == old(rows) && allSet && n == rows && Mask() == seq(rows, _ => true)
    {
      if rows == 0 {
        allSet := true;
        return 0;
      }
      words := seq(|words|, _ => ONES);
      var rem := rows % 64;
      if rem != 0 {
        words := words[|words| - 1 := Less1(Shl(1, rem))];
      }
      FullWords(words, rows);
      allSet := true;
      n := rows;
    }

    method Set(row: nat)
      requires Valid() && row < rows
      modifies this
      ensures Valid() && rows == old(rows) && Mask() == old(Mask())[row := true]
    {
      ghost var before := words;
      var k := row / 64;
      words := words[k := Or(words[k], Shl(1, row % 64))];
      allSet := false;
      SetBit(before, words, row);
    }

    method Unset(row: nat)
      requires Valid() && row < rows
      modifies this
      ensures Valid() && rows == old(rows) && Mask() == old(Mask())[row := false]
    {
      ghost var before := words;
      var k := row / 64;
      words := words[k := And(words[k], Not(Shl(1, row % 64)))];
      allSet := false;
      UnsetBit(before, words, row);
    }

    method PopCount() returns (count: nat)
      requires Valid()
      ensures count == TrueCount(Mask())
    {
      count := 0;
      for i := 0 to |words|
        invariant count == Population(words[..i])
      {
        assert words[..i + 1] == words[..i] + [words[i]];
        PopulationStep(words[..i], words[i]);
        count := count + Count(words[i], 64);
      }
      assert words[..|words|] == words;
      PopulationOfRows(words, rows);
    }

    method AndCount(other: SelectionMask) returns (count: nat)
      requires Valid() && other.Valid() && other != this && other.rows == rows
      modifies this
      ensures Valid() && rows == old(rows) && count == TrueCount(Mask())
      ensures Mask() == Both(old(Mask()), other.Mask())
      ensures allSet <==> Full(Mask())
    {
      hide Bit, BitAt, And, Or, Not, Less1, Shl, Count, Population, TrueCount, Full;
      PopulationNothing();
      ghost var before := words;
      count := 0;
      for i := 0 to |words|
        invariant |words| == |before| == |other.words| && rows == old(rows)
        invariant forall k :: 0 <= k < i ==> words[k] == And(before[k], other.words[k])
        invariant forall k :: i <= k < |words| ==> words[k] == before[k]
        invariant count == Population(words[..i])
      {
        var w := And(words[i], other.words[i]);
        assert words[i := w][..i + 1] == words[..i] + [w];
        PopulationStep(words[..i], w);
        words := words[i := w];
        count := count + Count(w, 64);
      }
      AndWords(before, other.words, words);
      assert words[..|words|] == words;
      PopulationOfRows(words, rows);
      allSet := count == rows;
      AllCounted(Mask());
    }

    method OrCount(other: SelectionMask) returns (count: nat)
      requires Valid() && other.Valid() && other != this && other.rows == rows
      modifies this
      ensures Valid() && rows == old(rows) && count == TrueCount(Mask())
      ensures Mask() == Either(old(Mask()), other.Mask())
      ensures allSet <==> Full(Mask())
    {
      hide Bit, BitAt, And, Or, Not, Less1, Shl, Count, Population, TrueCount, Full;
      PopulationNothing();
      ghost var before := words;
      count := 0;
      for i := 0 to |words|
        invariant |words| == |before| == |other.words| && rows == old(rows)
        invariant forall k :: 0 <= k < i ==> words[k] == Or(before[k], other.words[k])
        invariant forall k :: i <= k < |words| ==> words[k] == before[k]
        invariant count == Population(words[..i])
      {
        var w := Or(words[i], other.words[i]);
        assert words[i := w][..i + 1] == words[..i] + [w];
        PopulationStep(words[..i], w);
        words := words[i := w];
        count := count + Count(w, 64);
      }
      OrWords(before, other.words, words);
      assert words[..|words|] == words;
      PopulationOfRows(words, rows);
      allSet := count == rows;
      AllCounted(Mask());
    }

    // Complement, with the tail masked off again.
    method NotCount() returns (count: nat)
      requires Valid()
      modifies this
      ensures Valid() && rows == old(rows) && count == TrueCount(Mask())
      ensures Mask() == Flipped(old(Mask()))
      ensures allSet <==> Full(Mask())
    {
      hide Bit, BitAt, And, Or, Not, Less1, Shl, Count, Population, TrueCount, Full;
      PopulationNothing();
      ghost var before := words;
      count := 0;
      var rem := rows % 64;
      for i := 0 to |words|
        invariant |words| == |before| && rows == old(rows)
        invariant forall k :: 0 <= k < i ==> words[k] == Complement(before[k], k == |before| - 1, rem)
        invariant forall k :: i <= k < |words| ==> words[k] == before[k]
        invariant count == Population(words[..i])
      {
        var w := Not(words[i]);
        if i == |words| - 1 {
          if rem != 0 {
            w := And(w, Less1(Shl(1, rem)));
          }
        }
        assert words[i := w][..i + 1] == words[..i] + [w];
        PopulationStep(words[..i], w);
        words := words[i := w];
        count := count + Count(w, 64);
      }
      NotWords(before, words, rows);
      assert words[..|words|] == words;
      PopulationOfRows(words, rows);
      allSet := count == rows;
      AllCounted(Mask());
    }

    // Selects rows [start, end), clipped to the mask. Negative starts are clipped to 0.
    method SetRange(start: int, end: int)
      requires Valid()
      modifies this
      ensures Valid() && rows == old(rows)
      ensures Mask() == WithRange(old(Mask()), start, end)
    {
      hide Bit, BitAt, Or, And, Shl, Shr, Full, Within, WithRange, Rows, WordsFor;
      ghost var before := words;
      var lo := if start < 0 then 0 else start;
      var hi := if end > rows then rows else end;
      if lo >= hi {
        EmptyRange(Mask(), start, end);
        return;
      }
      var firstWord, lastWord := lo / 64, (hi - 1) / 64;
      var firstBit, lastBit := lo % 64, (hi - 1) % 64;
      if firstWord == lastWord {
        words := words[firstWord := Or(words[firstWord], And(Shl(ONES, firstBit), Shr(ONES, 63 - lastBit)))];
        RangeInWord(before, words, lo, hi);
      } else {
        words := words[firstWord := Or(words[firstWord], Shl(ONES, firstBit))];
        var wi := firstWord + 1;
        while wi < lastWord
          invariant firstWord < wi <= lastWord && |words| == |before| && rows == old(rows) && allSet == old(allSet)
          invariant words[firstWord] == Or(before[firstWord], Shl(ONES, firstBit))
          invariant forall k :: 0 <= k < |words| && k != firstWord ==> words[k] == if firstWord < k < wi then ONES else before[k]
        {
          words := words[wi := ONES];
          wi := wi + 1;
        }
        words := words[lastWord := Or(words[lastWord], Shr(ONES, 63 - lastBit))];
        RangeOverWords(before, words, lo, hi);
      }
      RangeRows(before, words, rows, start, end);
      if !(lo == 0 && hi == rows) {
        allSet := false;
      }
    }

    constructor Range(rows: nat, start: int, end: int)
      ensures Valid() && this.rows == rows && Mask() == WithRange(seq(rows, _ => false), start, end)
    {
      words := seq(WordsFor(rows), _ => 0);
      this.rows := rows;
      allSet := rows == 0;
      new;
      EmptyWords(words);
      assert Mask() == seq(rows, _ => false);
      SetRange(start, end);
    }

    // The selected rows, in the order the words yield them.
    method IterSet() returns (out: seq<nat>)
      requires Valid()
      ensures out == SetRows(Mask())
    {
      hide Bit, BitAt, And, Less1, Trailing, SetRows, SetFrom, Remaining;
      out := [];
      NoRows(words);
      for w := 0 to |words|
        invariant out == SetRows(Rows(words, 64 * w))
      {
        var word := words[w];
        ghost var done := 0;
        WordStart(words, w);
        while word != 0
          invariant w < |words| && done <= 64 && Remaining(words[w], word, done)
          invariant out == SetRows(Rows(words, 64 * w)) + SetFrom(words, w, done)
          decreases 64 - done
        {
          var bit := Trailing(word, 64);
          NextBit(words, w, word, done);
          var row := 64 * w + bit;
          BitInRows(words, rows, w, bit);
          if row >= rows {
            assert false;
          }
          out := out + [row];
          done := bit + 1;
          word := And(word, Less1(word));
        }
        WordDone(words, w, done);
      }
      SetRowsTail(words, rows, 64 * |words|);
    }

    // A fresh mask with the selected rows after the first skip, at most take of
    // them; a negative take means no limit.
    method Limit(skip: int, take: int) returns (m: SelectionMask, seen: nat, sent: nat)
      requires Valid()
      ensures fresh(m) && m.Valid() && m.rows == rows
      ensures m.Mask() == Kept(Mask(), skip, take)
      ensures sent == TrueCount(m.Mask())
      ensures seen == sent + Least(TrueCount(Mask()), if skip > 0 then skip else 0)
    {
      hide Kept, TrueCount, SetRows, SelectionMask.Valid, Rows;
      m := new SelectionMask(rows);
      seen, sent := 0, 0;
      var left := skip;
      var set_ := IterSet();
      SetRowsAre(Mask());
      ghost var lo := if skip > 0 then skip else 0;
      NoneTrue(m.Mask());
      for k := 0 to |set_|
        invariant fresh(m) && m.Valid() && m.rows == rows && unchanged(this)
        invariant if k < lo then left == lo - k else left <= 0
        invariant seen == Least(k, lo) + sent
        invariant sent == if k <= lo then 0 else if take < 0 || k - lo <= take then k - lo else take
        invariant sent == TrueCount(m.Mask())
        invariant forall i :: 0 <= i < rows ==> (m.Mask()[i] <==> InWindow(set_, k, lo, take, i))
        modifies m
      {
        assert set_[k] in set_;
        if left > 0 {
          left := left - 1;
          seen := seen + 1;
          continue;
        }
        if take >= 0 && sent >= take {
          continue;
        }
        OneMore(m.Mask(), set_[k]);
        m.Set(set_[k]);
        seen := seen + 1;
        sent := sent + 1;
      }
      WindowIsKept(Mask(), m.Mask(), skip, take);
    }
  }

  function Least(a: nat, b: nat): nat {
    if a < b then a else b
  }

  // ----- ranges -----

  function WithRange(bits: seq<bool>, start: int, end: int): (c: seq<bool>)
    ensures |c| == |bits| && forall i :: 0 <= i < |c| ==> c[i] == (bits[i] || start <= i < end)
  {
    seq(|bits|, i requires 0 <= i < |bits| => bits[i] || start <= i < end)
  }

  lemma EmptyRange(bits: seq<bool>, start: int, end: int)
    requires (if start < 0 then 0 else start) >= (if end > |bits| then |bits| else end)
    ensures WithRange(bits, start, end) == bits
  {
  }

  lemma RangeInWord(before: seq<Word>, words: seq<Word>, lo: nat, hi: nat)
    requires lo < hi && lo / 64 == (hi - 1) / 64 < |before|
    requires words == before[lo / 64 := Or(before[lo / 64], And(Shl(ONES, lo % 64), Shr(ONES, 63 - (hi - 1) % 64)))]
    ensures forall i: nat :: BitAt(words, i) <==> BitAt(before, i) || (lo <= i < hi)
  {
    hide Bit, Or, And, Shl, Shr;
    var k, f, l := lo / 64, lo % 64, (hi - 1) % 64;
    forall i: nat ensures BitAt(words, i) <==> BitAt(before, i) || (lo <= i < hi) {
      var j := i % 64;
      if i / 64 == k {
        BitOr(before[k], And(Shl(ONES, f), Shr(ONES, 63 - l)), j);
        BitAnd(Shl(ONES, f), Shr(ONES, 63 - l), j);
        BitHigh(f, j);
        BitShr(ONES, 63 - l, j);
        BitOnes(63 - l + j);
      }
    }
  }

  lemma RangeOverWords(before: seq<Word>, words: seq<Word>, lo: nat, hi: nat)
    requires lo < hi && lo / 64 < (hi - 1) / 64 < |before| && |words| == |before|
    requires forall k :: 0 <= k < |words| ==>
      words[k] == if k == lo / 64 then Or(before[k], Shl(ONES, lo % 64))
                  else if k == (hi - 1) / 64 then Or(before[k], Shr(ONES, 63 - (hi - 1) % 64))
                  else if lo / 64 < k < (hi - 1) / 64 then ONES else before[k]
    ensures forall i: nat :: BitAt(words, i) <==> BitAt(before, i) || (lo <= i < hi)
  {
    hide Bit, Or, Shl, Shr;
    var f, l := lo % 64, (hi - 1) % 64;
    forall i: nat ensures BitAt(words, i) <==> BitAt(before, i) || (lo <= i < hi) {
      var k, j := i / 64, i % 64;
      if k == lo / 64 {
        BitOr(before[k], Shl(ONES, f), j);
        BitHigh(f, j);
      } else if k == (hi - 1) / 64 {
        BitOr(before[k], Shr(ONES, 63 - l), j);
        BitShr(ONES, 63 - l, j);
        BitOnes(63 - l + j);
      } else {
        BitOnes(j);
      }
    }
  }

  lemma RangeRows(before: seq<Word>, words: seq<Word>, rows: nat, start: int, end: int)
    requires |words| == |before| && Within(before, rows)
    requires forall i: nat :: BitAt(words, i) <==> BitAt(before, i) || ((if start < 0 then 0 else start) <= i < (if end > rows then rows else end))
    ensures Within(words, rows) && Rows(words, rows) == WithRange(Rows(before, rows), start, end)
    ensures Full(Rows(before, rows)) ==> Full(Rows(words, rows))
  {
    hide BitAt;
  }

  // ----- iteration -----

  // What is left of a word once its bits below done have been cleared.
  ghost predicate Remaining(orig: Word, word: Word, done: nat) {
    done <= 64 && forall i: nat :: Bit(word, i) <==> Bit(orig, i) && i >= done
  }

  // The rows of word w among its lowest n bits.
  function SetFrom(words: seq<Word>, w: nat, n: nat): (rows: seq<nat>)
    requires w < |words|
  {
    if n == 0 then [] else SetFrom(words, w, n - 1) + if Bit(words[w], n - 1) then [64 * w + n - 1] else []
  }

  lemma NoRows(words: seq<Word>)
    ensures SetRows(Rows(words, 0)) == []
  {
  }

  lemma {:induction false} SetRowsOfWord(words: seq<Word>, w: nat, n: nat)
    requires w < |words| && n <= 64
    ensures SetRows(Rows(words, 64 * w + n)) == SetRows(Rows(words, 64 * w)) + SetFrom(words, w, n)
  {
    hide Bit, BitAt, SetRows;
    if n > 0 {
      SetRowsOfWord(words, w, n - 1);
      var i := 64 * w + n - 1;
      WordBits(words, w, n - 1);
      RowsStep(words, i);
      SetRowsStep(Rows(words, i), BitAt(words, i));
    }
  }

  lemma WordStart(words: seq<Word>, w: nat)
    requires w < |words|
    ensures Remaining(words[w], words[w], 0) && SetFrom(words, w, 0) == []
  {
  }

  lemma {:induction false} SetFromSkips(words: seq<Word>, w: nat, m: nat, n: nat)
    requires w < |words| && m <= n && forall i :: m <= i < n ==> !Bit(words[w], i)
    ensures SetFrom(words, w, n) == SetFrom(words, w, m)
  {
    hide Bit;
    if m < n { SetFromSkips(words, w, m, n - 1); }
  }

  lemma NextBit(words: seq<Word>, w: nat, word: Word, done: nat)
    requires w < |words| && word != 0 && Remaining(words[w], word, done)
    ensures var bit := Trailing(word, 64);
      && done <= bit < 64 && Bit(words[w], bit)
      && SetFrom(words, w, bit + 1) == SetFrom(words, w, done) + [64 * w + bit]
      && Remaining(words[w], And(word, Less1(word)), bit + 1)
  {
    hide Bit, And, Less1, Trailing;
    var bit := Trailing(word, 64);
    NonzeroHasBit(word);
    TrailingIsFirst(word, 64, 0);
    forall i | done <= i < bit ensures !Bit(words[w], i) { TrailingIsFirst(word, 64, i); }
    SetFromSkips(words, w, done, bit);
    forall i: nat ensures Bit(And(word, Less1(word)), i) <==> Bit(words[w], i) && i >= bit + 1 {
      BitCleared(word, 64, i);
      TrailingIsFirst(word, 64, i);
    }
  }

  lemma WordDone(words: seq<Word>, w: nat, done: nat)
    requires w < |words| && Remaining(words[w], 0, done)
    ensures SetRows(Rows(words, 64 * w)) + SetFrom(words, w, done) == SetRows(Rows(words, 64 * (w + 1)))
  {
    hide Bit, SetRows;
    forall i | done <= i < 64 ensures !Bit(words[w], i) { BitZero(i); }
    SetFromSkips(words, w, done, 64);
    SetRowsOfWord(words, w, 64);
  }

  lemma BitInRows(words: seq<Word>, rows: nat, w: nat, bit: nat)
    requires w < |words| && bit < 64 && Bit(words[w], bit) && Within(words, rows)
    ensures 64 * w + bit < rows
  {
    WordBits(words, w, bit);
  }

  lemma {:induction false} SetRowsTail(words: seq<Word>, n: nat, m: nat)
    requires n <= m <= 64 * |words| && Within(words, n)
    ensures SetRows(Rows(words, m)) == SetRows(Rows(words, n))
  {
    hide BitAt, SetRows;
    if n < m {
      SetRowsTail(words, n, m - 1);
      RowsStep(words, m - 1);
      SetRowsStep(Rows(words, m - 1), BitAt(words, m - 1));
    }
  }

  // ----- skipping and taking -----

  // Selected rows whose rank among the selected rows is in [skip, skip + take).
  function Kept(bits: seq<bool>, skip: int, take: int): (c: seq<bool>)
    ensures |c| == |bits|
  {
    var lo := if skip > 0 then skip else 0;
    seq(|bits|, i requires 0 <= i < |bits| =>
      bits[i] && lo <= TrueCount(bits[..i]) && (take < 0 || TrueCount(bits[..i]) < lo + take))
  }

  predicate InWindow(rows: seq<nat>, k: nat, lo: nat, take: int, i: nat)
    requires k <= |rows|
  {
    exists j :: lo <= j < k && (take < 0 || j < lo + take) && rows[j] == i
  }

  lemma {:induction false} NoneTrue(bits: seq<bool>)
    requires forall i :: 0 <= i < |bits| ==> !bits[i]
    ensures TrueCount(bits) == 0
  {
    if bits != [] { NoneTrue(bits[..|bits| - 1]); }
  }

  lemma {:induction false} OneMore(bits: seq<bool>, i: nat)
    requires i < |bits| && !bits[i]
    ensures TrueCount(bits[i := true]) == TrueCount(bits) + 1
  {
    var n := |bits| - 1;
    var c := bits[i := true];
    if i == n {
      assert c[..n] == bits[..n];
    } else {
      assert c[..n] == bits[..n][i := true];
      OneMore(bits[..n], i);
    }
  }

  // The row listed k-th has k selected rows before it.
  lemma {:induction false} RankOf(bits: seq<bool>, k: nat)
    requires k < |SetRows(bits)|
    ensures SetRows(bits)[k] < |bits| && bits[SetRows(bits)[k]] && TrueCount(bits[..SetRows(bits)[k]]) == k
  {
    var n := |bits| - 1;
    SetRowsAre(bits[..n]);
    if k < |SetRows(bits[..n])| {
      RankOf(bits[..n], k);
      assert bits[..n][..SetRows(bits)[k]] == bits[..SetRows(bits)[k]];
    }
  }

  lemma WindowIsKept(bits: seq<bool>, out: seq<bool>, skip: int, take: int)
    requires |out| == |bits|
    requires forall i :: 0 <= i < |bits| ==>
      (out[i] <==> InWindow(SetRows(bits), |SetRows(bits)|, if skip > 0 then skip else 0, take, i))
    ensures out == Kept(bits, skip, take)
  {
    hide TrueCount, SetRows;
    var rows := SetRows(bits);
    var lo := if skip > 0 then skip else 0;
    SetRowsAre(bits);
    forall i | 0 <= i < |bits| ensures out[i] == Kept(bits, skip, take)[i] {
      if bits[i] {
        var j :| 0 <= j < |rows| && rows[j] == i;
        RankOf(bits, j);
        if k :| lo <= k < |rows| && (take < 0 || k < lo + take) && rows[k] == i { RankOf(bits, k); }
      } else if k :| lo <= k < |rows| && (take < 0 || k < lo + take) && rows[k] == i {
        RankOf(bits, k);
      }
    }
  }

  function Complement(w: Word, last: bool, rem: nat): Word {
    if last && rem != 0 then And(Not(w), Less1(Shl(1, rem))) else Not(w)
  }

  lemma EmptyWords(words: seq<Word>)
    requires forall k :: 0 <= k < |words| ==> words[k] == 0
    ensures forall i: nat :: !BitAt(words, i)
  {
    hide Bit;
    forall i: nat ensures !BitAt(words, i) { BitZero(i % 64); }
  }

  lemma FullWords(words: seq<Word>, rows: nat)
    requires rows > 0 && |words| == WordsFor(rows)
    requires forall k :: 0 <= k < |words| ==>
      words[k] == if k == |words| - 1 && rows % 64 != 0 then Less1(Shl(1, rows % 64)) else ONES
    ensures forall i: nat :: i < 64 * |words| ==> (BitAt(words, i) <==> i < rows)
  {
    hide Bit, Less1, Shl;
    forall i: nat | i < 64 * |words| ensures BitAt(words, i) <==> i < rows {
      if i / 64 == |words| - 1 && rows % 64 != 0 { BitBelow(rows % 64, i % 64); } else { BitOnes(i % 64); }
    }
  }

  lemma SetBit(before: seq<Word>, words: seq<Word>, row: nat)
    requires row / 64 < |before| && words == before[row / 64 := Or(before[row / 64], Shl(1, row % 64))]
    ensures forall i: nat :: BitAt(words, i) <==> BitAt(before, i) || i == row
  {
    hide Bit, Or, Shl;
    forall i: nat ensures BitAt(words, i) <==> BitAt(before, i) || i == row {
      if i / 64 == row / 64 {
        BitOr(before[row / 64], Shl(1, row % 64), i % 64);
        BitOne(row % 64, i % 64);
      }
    }
  }

  lemma UnsetBit(before: seq<Word>, words: seq<Word>, row: nat)
    requires row / 64 < |before| && words == before[row / 64 := And(before[row / 64], Not(Shl(1, row % 64)))]
    ensures forall i: nat :: BitAt(words, i) <==> BitAt(before, i) && i != row
  {
    hide Bit, And, Not, Shl;
    forall i: nat ensures BitAt(words, i) <==> BitAt(before, i) && i != row {
      if i / 64 == row / 64 {
        BitAnd(before[row / 64], Not(Shl(1, row % 64)), i % 64);
        BitNot(Shl(1, row % 64), i % 64);
        BitOne(row % 64, i % 64);
      }
    }
  }

  lemma AndWords(a: seq<Word>, b: seq<Word>, words: seq<Word>)
    requires |words| == |a| == |b| && forall k :: 0 <= k < |words| ==> words[k] == And(a[k], b[k])
    ensures forall i: nat :: BitAt(words, i) <==> BitAt(a, i) && BitAt(b, i)
  {
    hide Bit, And;
    forall i: nat ensures BitAt(words, i) <==> BitAt(a, i) && BitAt(b, i) {
      if i / 64 < |words| { BitAnd(a[i / 64], b[i / 64], i % 64); }
    }
  }

  lemma OrWords(a: seq<Word>, b: seq<Word>, words: seq<Word>)
    requires |words| == |a| == |b| && forall k :: 0 <= k < |words| ==> words[k] == Or(a[k], b[k])
    ensures forall i: nat :: BitAt(words, i) <==> BitAt(a, i) || BitAt(b, i)
  {
    hide Bit, Or;
    forall i: nat ensures BitAt(words, i) <==> BitAt(a, i) || BitAt(b, i) {
      if i / 64 < |words| { BitOr(a[i / 64], b[i / 64], i % 64); }
    }
  }

  lemma NotWords(a: seq<Word>, words: seq<Word>, rows: nat)
    requires |words| == |a| == WordsFor(rows)
    requires forall k :: 0 <= k < |words| ==> words[k] == Complement(a[k], k == |a| - 1, rows % 64)
    ensures forall i: nat :: i < 64 * |words| ==> (BitAt(words, i) <==> !BitAt(a, i) && i < rows)
  {
    hide Bit, Not, And, Less1, Shl;
    forall i: nat | i < 64 * |words| ensures BitAt(words, i) <==> !BitAt(a, i) && i < rows {
      var k := i / 64;
      BitNot(a[k], i % 64);
      if k == |a| - 1 && rows % 64 != 0 {
        BitAnd(Not(a[k]), Less1(Shl(1, rows % 64)), i % 64);
        BitBelow(rows % 64, i % 64);
      }
    }
  }
}
