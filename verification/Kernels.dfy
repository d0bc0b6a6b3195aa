// The comparison kernels over a vector: 64 rows at a time, one word of the
// selection, of the null bitmap and of the comparison results each.
module Kernels {
  import opened Options
  import opened Bytes
  import opened BitWords
  import opened Selection
  import opened Validity
  import P = Predicates

  datatype FilterOp = FilterEqual | FilterNotEqual | FilterLess | FilterLessEqual | FilterGreater | FilterGreaterEqual

  predicate OrderedPasses(x: int, lit: int, op: FilterOp) {
    match op
    case FilterEqual => x == lit
    case FilterNotEqual => x != lit
    case FilterLess => x < lit
    case FilterLessEqual => x <= lit
    case FilterGreater => x > lit
    case FilterGreaterEqual => x >= lit
  }

  // Byte strings, in the order of their first differing byte, prefixes first.
  ghost predicate BytesPass(x: seq<Byte>, lit: seq<Byte>, op: FilterOp) {
    match op
    case FilterEqual => x == lit
    case FilterNotEqual => x != lit
    case FilterLess => IsBelow(x, lit)
    case FilterLessEqual => IsBelow(x, lit) || x == lit
    case FilterGreater => IsBelow(lit, x)
    case FilterGreaterEqual => IsBelow(lit, x) || x == lit
  }

  method FilterBytesRow(row: seq<Byte>, lit: seq<Byte>, op: FilterOp) returns (pass: bool)
    ensures pass <==> BytesPass(row, lit, op)
  {
    hide IsBelow, LexLess;
    LexLessIs(row, lit);
    LexLessIs(lit, row);
    LexTotal(row, lit);
    LexTotal(lit, row);
    pass := match op
      case FilterEqual => row == lit
      case FilterNotEqual => row != lit
      case FilterLess => LexLess(row, lit)
      case FilterLessEqual => !LexLess(lit, row)
      case FilterGreater => LexLess(lit, row)
      case FilterGreaterEqual => !LexLess(row, lit);
  }

  function Passes<T>(col: seq<T>, pass: T -> bool): (bits: seq<bool>)
    ensures |bits| == |col| && forall i :: 0 <= i < |col| ==> bits[i] == pass(col[i])
  {
    seq(|col|, i requires 0 <= i < |col| => pass(col[i]))
  }

  // The first end bits of w tell which rows from base on pass; the other bits are clear.
  ghost predicate IsPassWord(w: Word, bits: seq<bool>, base: nat, end: nat) {
    && end <= 64 && base + end <= |bits|
    && forall i :: 0 <= i < 64 ==> (Bit(w, i) <==> i < end && bits[base + i])
  }

  lemma PassWordStep(w: Word, bits: seq<bool>, base: nat, i: nat)
    requires IsPassWord(w, bits, base, i) && i < 64 && base + i < |bits|
    ensures IsPassWord(if bits[base + i] then Or(w, Shl(1, i)) else w, bits, base, i + 1)
  {
    hide Bit, Or, Shl;
    forall j | 0 <= j < 64 ensures Bit(Or(w, Shl(1, i)), j) <==> Bit(w, j) || j == i {
      BitOr(w, Shl(1, i), j);
      BitOne(i, j);
    }
  }

  lemma NoPasses(bits: seq<bool>, base: nat)
    requires base <= |bits|
    ensures IsPassWord(0, bits, base, 0)
  {
    forall i: nat ensures !Bit(0, i) { BitZero(i); }
  }

  method BuildPassWord(col: seq<int>, lit: int, op: FilterOp, base: nat, end: nat) returns (passWord: Word)
    requires end <= 64 && base + end <= |col|
    ensures IsPassWord(passWord, Passes(col, x => OrderedPasses(x, lit, op)), base, end)
  {
    hide IsPassWord, Or, Shl;
    ghost var bits := Passes(col, x => OrderedPasses(x, lit, op));
    passWord := 0;
    NoPasses(bits, base);
    for i := 0 to end
      invariant IsPassWord(passWord, bits, base, i)
    {
      PassWordStep(passWord, bits, base, i);
      var v := col[base + i];
      var pass := match op
        case FilterEqual => v == lit
        case FilterNotEqual => v != lit
        case FilterLess => v < lit
        case FilterLessEqual => v <= lit
        case FilterGreater => v > lit
        case FilterGreaterEqual => v >= lit;
      if pass {
        passWord := Or(passWord, Shl(1, i));
      }
    }
  }

  method BytesPassWord(col: seq<seq<Byte>>, lit: seq<Byte>, op: FilterOp, base: nat, end: nat) returns (passWord: Word)
    requires end <= 64 && base + end <= |col|
    ensures IsPassWord(passWord, Passes(col, x => BytesPass(x, lit, op)), base, end)
  {
    hide IsPassWord, Or, Shl, BytesPass;
    ghost var bits := Passes(col, x => BytesPass(x, lit, op));
    passWord := 0;
    NoPasses(bits, base);
    for i := 0 to end
      invariant IsPassWord(passWord, bits, base, i)
    {
      PassWordStep(passWord, bits, base, i);
      var pass := FilterBytesRow(col[base + i], lit, op);
      if pass {
        passWord := Or(passWord, Shl(1, i));
      }
    }
  }

  // ----- narrowing a selection -----

  function ValidWord(valid: Option<seq<Word>>, wi: nat): Word {
    match valid
    case None => ONES
    case Some(words) => if wi < |words| then words[wi] else 0
  }

  // What the narrowed word must be.
  ghost predicate Narrowed(w: Word, inWord: Word, valid: Option<seq<Word>>, wi: nat, bits: seq<bool>) {
    forall i :: 0 <= i < 64 ==>
      (Bit(w, i) <==> Bit(inWord, i) && Bit(ValidWord(valid, wi), i) && 64 * wi + i < |bits| && bits[64 * wi + i])
  }

  lemma ZeroNarrowed(valid: Option<seq<Word>>, wi: nat, bits: seq<bool>)
    ensures Narrowed(0, 0, valid, wi, bits)
  {
    hide Bit;
    forall i: nat ensures !Bit(0, i) { BitZero(i); }
  }

  lemma AndNarrowed(inWord: Word, valid: Option<seq<Word>>, wi: nat, pass: Word, bits: seq<bool>, end: nat)
    requires IsPassWord(pass, bits, 64 * wi, end) && end == Least(64, |bits| - 64 * wi)
    ensures Narrowed(And(And(inWord, ValidWord(valid, wi)), pass), inWord, valid, wi, bits)
  {
    hide Bit, And, ValidWord;
    var a := And(inWord, ValidWord(valid, wi));
    forall i | 0 <= i < 64
      ensures Bit(And(a, pass), i) <==> Bit(inWord, i) && Bit(ValidWord(valid, wi), i) && 64 * wi + i < |bits| && bits[64 * wi + i]
    {
      BitAnd(a, pass, i);
      BitAnd(inWord, ValidWord(valid, wi), i);
    }
  }

  lemma NarrowedRows(before: seq<Word>, words: seq<Word>, valid: Option<seq<Word>>, bits: seq<bool>)
    requires |words| == |before| == WordsFor(|bits|) && Within(before, |bits|)
    requires valid.Some? ==> |words| <= |valid.value|
    requires forall wi :: 0 <= wi < |words| ==> Narrowed(words[wi], before[wi], valid, wi, bits)
    ensures Within(words, |bits|)
    ensures Rows(words, |bits|) == Both(Both(Rows(before, |bits|), ValidRows(valid, |bits|)), bits)
  {
    hide Bit, Within;
    forall i | 0 <= i < 64 * |words|
      ensures BitAt(words, i) <==> BitAt(before, i) && Bit(ValidWord(valid, i / 64), i % 64) && i < |bits| && bits[i]
    {
      assert Narrowed(words[i / 64], before[i / 64], valid, i / 64, bits);
      assert 64 * (i / 64) + i % 64 == i;
    }
    NarrowedWithin(words, |bits|);
    forall i | 0 <= i < |bits| ensures Bit(ValidWord(valid, i / 64), i % 64) <==> ValidRows(valid, |bits|)[i] {
      BitOnes(i % 64);
    }
    assert Rows(words, |bits|) == Both(Both(Rows(before, |bits|), ValidRows(valid, |bits|)), bits);
  }

  lemma NarrowedWithin(words: seq<Word>, n: nat)
    requires forall i :: n <= i < 64 * |words| ==> !BitAt(words, i)
    ensures Within(words, n)
  {
  }

  method OrderedWord(col: seq<int>, valid: Option<seq<Word>>, lit: int, op: FilterOp, inWord: Word, wi: nat) returns (outWord: Word)
    requires 64 * wi < |col| && (valid.Some? ==> WordsFor(|col|) <= |valid.value|)
    ensures Narrowed(outWord, inWord, valid, wi, Passes(col, x => OrderedPasses(x, lit, op)))
  {
    hide Bit, And, IsPassWord, Narrowed, OrderedPasses;
    if inWord == 0 {
      ZeroNarrowed(valid, wi, Passes(col, x => OrderedPasses(x, lit, op)));
      return 0;
    }
    var base := 64 * wi;
    var end := if base + 64 > |col| then |col| - base else 64;
    var validWord := if valid.Some? then valid.value[wi] else ONES;
    var passWord := BuildPassWord(col, lit, op, base, end);
    outWord := And(And(inWord, validWord), passWord);
    AndNarrowed(inWord, valid, wi, passWord, Passes(col, x => OrderedPasses(x, lit, op)), end);
  }

  method BytesWord(col: seq<seq<Byte>>, valid: Option<seq<Word>>, lit: seq<Byte>, op: FilterOp, inWord: Word, wi: nat) returns (outWord: Word)
    requires 64 * wi < |col| && (valid.Some? ==> WordsFor(|col|) <= |valid.value|)
    ensures Narrowed(outWord, inWord, valid, wi, Passes(col, x => BytesPass(x, lit, op)))
  {
    hide Bit, And, IsPassWord, Narrowed, BytesPass;
    if inWord == 0 {
      ZeroNarrowed(valid, wi, Passes(col, x => BytesPass(x, lit, op)));
      return 0;
    }
    var base := 64 * wi;
    var end := if base + 64 > |col| then |col| - base else 64;
    var validWord := if valid.Some? then valid.value[wi] else ONES;
    var passWord := BytesPassWord(col, lit, op, base, end);
    outWord := And(And(inWord, validWord), passWord);
    AndNarrowed(inWord, valid, wi, passWord, Passes(col, x => BytesPass(x, lit, op)), end);
  }

  // Keeps the selected, valid rows whose value compares as asked, and counts them.
  method FilterOrdered(col: seq<int>, valid: Option<seq<Word>>, lit: int, op: FilterOp, sel: SelectionMask) returns (total: nat)
    requires sel.Valid() && sel.rows == |col| && (valid.Some? ==> WordsFor(|col|) <= |valid.value|)
    modifies sel
    ensures sel.Valid() && sel.rows == |col| && total == TrueCount(sel.Mask()) && (sel.allSet <==> Full(sel.Mask()))
    ensures sel.Mask() == Both(Both(old(sel.Mask()), ValidRows(valid, |col|)), Passes(col, x => OrderedPasses(x, lit, op)))
  {
    hide Bit, BitAt, And, Population, TrueCount, Full, IsPassWord, Narrowed, Within, OrderedPasses, Rows, Count, Both, Passes, ValidRows;
    ghost var before, bits := sel.words, Passes(col, x => OrderedPasses(x, lit, op));
    PopulationNothing();
    total := 0;
    for wi := 0 to |sel.words|
      invariant |sel.words| == |before| && sel.rows == |col| && total == Population(sel.words[..wi])
      invariant forall k :: 0 <= k < wi ==> Narrowed(sel.words[k], before[k], valid, k, bits)
      invariant forall k :: wi <= k < |before| ==> sel.words[k] == before[k]
    {
      var outWord := OrderedWord(col, valid, lit, op, sel.words[wi], wi);
      total := total + Count(outWord, 64);
      assert sel.words[wi := outWord][..wi + 1] == sel.words[..wi] + [outWord];
      PopulationStep(sel.words[..wi], outWord);
      sel.words := sel.words[wi := outWord];
    }
    NarrowedRows(before, sel.words, valid, bits);
    assert sel.words[..|sel.words|] == sel.words;
    PopulationOfRows(sel.words, sel.rows);
    sel.allSet := total == sel.rows;
    AllCounted(sel.Mask());
  }

  // The same over byte strings.
  method FilterBytes(col: seq<seq<Byte>>, valid: Option<seq<Word>>, lit: seq<Byte>, op: FilterOp, sel: SelectionMask) returns (total: nat)
    requires sel.Valid() && sel.rows == |col| && (valid.Some? ==> WordsFor(|col|) <= |valid.value|)
    modifies sel
    ensures sel.Valid() && sel.rows == |col| && total == TrueCount(sel.Mask()) && (sel.allSet <==> Full(sel.Mask()))
    ensures sel.Mask() == Both(Both(old(sel.Mask()), ValidRows(valid, |col|)), Passes(col, x => BytesPass(x, lit, op)))
  {
    hide Bit, BitAt, And, Population, TrueCount, Full, IsPassWord, Narrowed, Within, BytesPass, Rows, Count, Both, Passes, ValidRows;
    ghost var before, bits := sel.words, Passes(col, x => BytesPass(x, lit, op));
    PopulationNothing();
    total := 0;
    for wi := 0 to |sel.words|
      invariant |sel.words| == |before| && sel.rows == |col| && total == Population(sel.words[..wi])
      invariant forall k :: 0 <= k < wi ==> Narrowed(sel.words[k], before[k], valid, k, bits)
      invariant forall k :: wi <= k < |before| ==> sel.words[k] == before[k]
    {
      var outWord := BytesWord(col, valid, lit, op, sel.words[wi], wi);
      total := total + Count(outWord, 64);
      assert sel.words[wi := outWord][..wi + 1] == sel.words[..wi] + [outWord];
      PopulationStep(sel.words[..wi], outWord);
      sel.words := sel.words[wi := outWord];
    }
    NarrowedRows(before, sel.words, valid, bits);
    assert sel.words[..|sel.words|] == sel.words;
    PopulationOfRows(sel.words, sel.rows);
    sel.allSet := total == sel.rows;
    AllCounted(sel.Mask());
  }

  // ----- leaves of a predicate over vectors -----

  // A column as its values and its null bitmap; what is stored at null rows does not matter.
  datatype Vec = IntVec(ints: seq<int>, valid: Option<seq<Word>>) | TextVec(texts: seq<seq<Byte>>, valid: Option<seq<Word>>)

  ghost predicate Represents(v: Vec, c: P.Column, rows: nat) {
    && (v.valid.Some? ==> WordsFor(rows) <= |v.valid.value|)
    && match v
       case IntVec(ints, valid) =>
         && c.Ints? && |ints| == |c.ints| == rows
         && forall r :: 0 <= r < rows ==> c.ints[r] == if ValidRows(valid, rows)[r] then Some(ints[r]) else None
       case TextVec(texts, valid) =>
         && c.Texts? && |texts| == |c.texts| == rows
         && forall r :: 0 <= r < rows ==> c.texts[r] == if ValidRows(valid, rows)[r] then Some(texts[r]) else None
  }

  function OpOf(p: P.Pred): FilterOp
    requires P.IsLeaf(p)
  {
    match p
    case LtInt(_, _) => FilterLess
    case GtInt(_, _) => FilterGreater
    case LtText(_, _, inclusive) => if inclusive then FilterLessEqual else FilterLess
    case GtText(_, _, inclusive) => if inclusive then FilterGreaterEqual else FilterGreater
    case _ => FilterEqual
  }

  lemma OpMatches(p: P.Pred, x: seq<Byte>)
    requires p.EqText? || p.LtText? || p.GtText?
    ensures BytesPass(x, p.t, OpOf(p)) <==> P.TextMatches(p, x)
  {
    hide IsBelow, LexLess;
    LexLessIs(x, p.t);
    LexLessIs(p.t, x);
  }

  ghost predicate KindAgrees(p: P.Pred, v: Vec) {
    p.IsNull? || (if v.IntVec? then p.EqInt? || p.LtInt? || p.GtInt? else p.EqText? || p.LtText? || p.GtText?)
  }

  // A leaf, evaluated by the kernels, selects the rows it means.
  method EvalVector(p: P.Pred, v: Vec, ghost b: P.Batch, rows: nat, sel: SelectionMask)
    requires P.IsLeaf(p) && P.ValidBatch(b) && b.rows == rows && sel.Valid()
    requires p.col in b.cols && Represents(v, b.cols[p.col], rows) && KindAgrees(p, v)
    modifies sel
    ensures sel.Valid() && sel.rows == rows && sel.Mask() == P.MaskOf(p, b)
  {
    hide ValidRows, Full, TrueCount, LexLess, IsBelow, WordsFor;
    P.EnsureMaskSize(sel, rows);
    if p.IsNull? {
      SelectNulls(v, rows, sel);
      return;
    }
    var n := sel.FillAll();
    if v.IntVec? {
      n := FilterOrdered(v.ints, v.valid, p.v, OpOf(p), sel);
    } else {
      n := FilterBytes(v.texts, v.valid, p.t, OpOf(p), sel);
      forall r | 0 <= r < rows ensures BytesPass(v.texts[r], p.t, OpOf(p)) <==> P.TextMatches(p, v.texts[r]) {
        OpMatches(p, v.texts[r]);
      }
    }
  }

  method SelectNulls(v: Vec, rows: nat, sel: SelectionMask)
    requires sel.Valid() && sel.rows == rows && sel.Mask() == seq(rows, _ => false)
    requires v.valid.Some? ==> WordsFor(rows) <= |v.valid.value|
    modifies sel
    ensures sel.Valid() && sel.rows == rows && forall r :: 0 <= r < rows ==> sel.Mask()[r] == !ValidRows(v.valid, rows)[r]
  {
    if v.valid.None? {
      return;
    }
    for r := 0 to rows
      invariant sel.Valid() && sel.rows == rows
      invariant forall k :: 0 <= k < rows ==> sel.Mask()[k] == (k < r && !ValidRows(v.valid, rows)[k])
    {
      if !BitAt(v.valid.value, r) {
        sel.Set(r);
      }
    }
  }
}
