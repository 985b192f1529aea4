/** The word buffer behind `Bitmap`: 64-bit words, bit `i` at offset
    `i % 64` of word `i / 64`, and a size that may end inside the last word.
    A word is its 64 bits, least significant first, and the shifts and
    bitwise operators the buffer uses are defined bit by bit as the C++
    unsigned operators act.  `Abs` maps a buffer to the bit sequence of
    module `Bitmaps`; each buffer operation is related to the bit-sequence
    operation it implements. */
module Words {
  import Bitmaps

  const WordBits: nat := 64

  /** An unsigned 64-bit word; `w[k]` is the bit of weight 2^k. */
  type Word = w: seq<bool> | |w| == 64 witness seq(64, _ => false)

  function Fill(b: bool): (w: seq<bool>)
    ensures |w| == WordBits && forall k :: 0 <= k < WordBits ==> w[k] == b
  {
    seq(WordBits, _ => b)
  }

  /** `FILL_TRUE` and `FILL_FALSE`. */
  const AllOnes: Word := Fill(true)
  const Zero: Word := Fill(false)

  /** `Elem(1)`. */
  function One(): (w: Word)
    ensures forall k :: 0 <= k < WordBits ==> w[k] == (k == 0)
  {
    seq(WordBits, k => k == 0)
  }

  function Or(x: Word, y: Word): (r: Word)
    ensures forall k :: 0 <= k < WordBits ==> r[k] == (x[k] || y[k])
  {
    seq(WordBits, k requires 0 <= k < WordBits => x[k] || y[k])
  }

  function And(x: Word, y: Word): (r: Word)
    ensures forall k :: 0 <= k < WordBits ==> r[k] == (x[k] && y[k])
  {
    seq(WordBits, k requires 0 <= k < WordBits => x[k] && y[k])
  }

  function Complement(x: Word): (r: Word)
    ensures forall k :: 0 <= k < WordBits ==> r[k] == !x[k]
  {
    seq(WordBits, k requires 0 <= k < WordBits => !x[k])
  }

  /** `x << t` on the unsigned word: bits move up, zeros come in, bits
      shifted past the top are lost. */
  function Shl(x: Word, t: nat): (r: Word)
    requires t < WordBits
    ensures forall k :: 0 <= k < WordBits ==> r[k] == (k >= t && x[k - t])
  {
    seq(WordBits, k requires 0 <= k < WordBits => k >= t && x[k - t])
  }

  /** `x >> t` on the unsigned word: bits move down, zeros come in. */
  function Shr(x: Word, t: nat): (r: Word)
    requires t <= WordBits
    ensures forall k :: 0 <= k < WordBits ==> r[k] == (k + t < WordBits && x[k + t])
  {
    seq(WordBits, k requires 0 <= k < WordBits => k + t < WordBits && x[k + t])
  }

  datatype Buffer = Buffer(words: seq<Word>, size: nat)

  /** Number of words needed for `count` bits. */
  function WordsFor(count: nat): nat
  {
    count / WordBits + (if count % WordBits != 0 then 1 else 0)
  }

  ghost predicate Valid(b: Buffer)
  {
    |b.words| == WordsFor(b.size)
  }

  lemma WordIndex(b: Buffer, i: nat)
    requires Valid(b) && i < b.size
    ensures i / WordBits < |b.words|
  {
  }

  /** `test(i)`: the low bit of word `i / 64` shifted right by `i % 64`. */
  function Test(b: Buffer, i: nat): bool
    requires Valid(b) && i < b.size
  {
    WordIndex(b, i);
    Shr(b.words[i / WordBits], i % WordBits)[0]
  }

  /** `test(i)` reads bit `i % 64` of word `i / 64`. */
  lemma TestReadsBit(b: Buffer, i: nat)
    requires Valid(b) && i < b.size
    ensures i / WordBits < |b.words|
    ensures Test(b, i) == b.words[i / WordBits][i % WordBits]
  {
  }

  /** The bits below the size. */
  function Abs(b: Buffer): (r: Bitmaps.Bitmap)
    requires Valid(b)
    ensures |r| == b.size
    ensures forall i :: 0 <= i < b.size ==> r[i] == Test(b, i)
  {
    seq(b.size, i requires 0 <= i < b.size => Test(b, i))
  }

  /** Two positions in the same word are equal exactly when their offsets are. */
  lemma SameWord(i: nat, j: nat)
    requires i / WordBits == j / WordBits
    ensures (i % WordBits == j % WordBits) == (i == j)
  {
  }

  // ---------------------------------------------------------------------
  // Construction.

  /** `Bitmap(count, fill)`: whole words of ones or zeros. */
  function New(count: nat, fill: bool): (b: Buffer)
    ensures Valid(b) && b.size == count
  {
    Buffer(seq(WordsFor(count), _ => if fill then AllOnes else Zero), count)
  }

  lemma NewRefines(count: nat, fill: bool)
    ensures Abs(New(count, fill)) == Bitmaps.New(count, fill)
  {
    var b := New(count, fill);
    forall i | 0 <= i < count
      ensures Test(b, i) == fill
    {
      TestReadsBit(b, i);
    }
  }

  // ---------------------------------------------------------------------
  // set / reset.

  /** Bit `k` of the 64-bit word converted from the 32-bit `int` value
      `1 << s`: its own bit below 32, the sign bit 31 above. */
  function SignExtended(s: nat, k: nat): bool
  {
    if k < 32 then k == s else s == 31
  }

  /** The word `Elem(1 << offset)` that `set` and `reset` use: the shift is
      done on a 32-bit signed `int` and the result converted to the 64-bit
      word.  The conversion sign-extends bit 31 into bits 32..63, and a
      shift count of 32 or more, undefined in C++, is taken modulo 32 as
      x86 does. */
  function IntShiftOne(offset: nat): (r: Word)
    requires offset < WordBits
    ensures offset < 31 ==> forall k :: 0 <= k < WordBits ==> r[k] == (k == offset)
    ensures offset % 32 == 31 ==> forall k :: 31 <= k < WordBits ==> r[k]
  {
    seq(WordBits, k requires 0 <= k < WordBits => SignExtended(offset % 32, k))
  }

  /** `set(i)` as written. */
  function SetAsWritten(b: Buffer, i: nat): (r: Buffer)
    requires Valid(b) && i < b.size
    ensures Valid(r) && r.size == b.size
  {
    WordIndex(b, i);
    var e := i / WordBits;
    b.(words := b.words[e := Or(b.words[e], IntShiftOne(i % WordBits))])
  }

  /** `reset(i)` as written. */
  function ResetAsWritten(b: Buffer, i: nat): (r: Buffer)
    requires Valid(b) && i < b.size
    ensures Valid(r) && r.size == b.size
  {
    WordIndex(b, i);
    var e := i / WordBits;
    b.(words := b.words[e := And(b.words[e], Complement(IntShiftOne(i % WordBits)))])
  }

  /** `set(i)` with the shift done on the 64-bit word type. */
  function Set(b: Buffer, i: nat): (r: Buffer)
    requires Valid(b) && i < b.size
    ensures Valid(r) && r.size == b.size
  {
    WordIndex(b, i);
    var e := i / WordBits;
    b.(words := b.words[e := Or(b.words[e], Shl(One(), i % WordBits))])
  }

  /** `reset(i)` with the shift done on the 64-bit word type. */
  function Reset(b: Buffer, i: nat): (r: Buffer)
    requires Valid(b) && i < b.size
    ensures Valid(r) && r.size == b.size
  {
    WordIndex(b, i);
    var e := i / WordBits;
    b.(words := b.words[e := And(b.words[e], Complement(Shl(One(), i % WordBits)))])
  }

  lemma SetBit(b: Buffer, i: nat, j: nat)
    requires Valid(b) && i < b.size && j < b.size
    ensures Test(Set(b, i), j) == (j == i || Test(b, j))
  {
    TestReadsBit(b, i);
    TestReadsBit(b, j);
    TestReadsBit(Set(b, i), j);
    if i / WordBits == j / WordBits {
      SameWord(i, j);
    }
  }

  lemma ResetBit(b: Buffer, i: nat, j: nat)
    requires Valid(b) && i < b.size && j < b.size
    ensures Test(Reset(b, i), j) == (j != i && Test(b, j))
  {
    TestReadsBit(b, i);
    TestReadsBit(b, j);
    TestReadsBit(Reset(b, i), j);
    if i / WordBits == j / WordBits {
      SameWord(i, j);
    }
  }

  /** With the 64-bit shift, `set(i)` makes bit `i` true and changes no other bit. */
  lemma SetRefines(b: Buffer, i: nat)
    requires Valid(b) && i < b.size
    ensures Abs(Set(b, i)) == Bitmaps.Set(Abs(b), i)
  {
    forall j | 0 <= j < b.size
      ensures Test(Set(b, i), j) == (j == i || Test(b, j))
    {
      SetBit(b, i, j);
    }
  }

  /** With the 64-bit shift, `reset(i)` makes bit `i` false and changes no other bit. */
  lemma ResetRefines(b: Buffer, i: nat)
    requires Valid(b) && i < b.size
    ensures Abs(Reset(b, i)) == Bitmaps.Reset(Abs(b), i)
  {
    forall j | 0 <= j < b.size
      ensures Test(Reset(b, i), j) == (j != i && Test(b, j))
    {
      ResetBit(b, i, j);
    }
  }

  /** Below offset 31 in its word the `int` shift is harmless: `set` and
      `reset` as written are the corrected ones. */
  lemma AsWrittenAgreesBelow31(b: Buffer, i: nat)
    requires Valid(b) && i < b.size && i % WordBits < 31
    ensures SetAsWritten(b, i) == Set(b, i)
    ensures ResetAsWritten(b, i) == Reset(b, i)
  {
    assert IntShiftOne(i % WordBits) == Shl(One(), i % WordBits);
  }

  /** Setting bit 31 of an all-clear 64-bit map as written also sets bit 32
      (and every bit up to 63), and resetting bit 31 of an all-set map also
      clears bit 32; at offset 40 the shift lands on bit 8 instead. */
  lemma AsWrittenTouchesOtherBits()
    ensures Test(SetAsWritten(New(64, false), 31), 32)
    ensures !Test(ResetAsWritten(New(64, true), 31), 32)
    ensures Test(SetAsWritten(New(64, false), 40), 8)
    ensures !Test(SetAsWritten(New(64, false), 40), 40)
  {
    var z := New(64, false);
    var o := New(64, true);
    TestReadsBit(SetAsWritten(z, 31), 32);
    TestReadsBit(ResetAsWritten(o, 31), 32);
    TestReadsBit(SetAsWritten(z, 40), 8);
    TestReadsBit(SetAsWritten(z, 40), 40);
  }

  // ---------------------------------------------------------------------
  // set as written, seen from the bits.

  /** The buffer holding `bits`, with the bits past the size clear. */
  function FromBits(bits: seq<bool>): (b: Buffer)
    ensures Valid(b) && b.size == |bits|
  {
    var n := |bits|;
    Buffer(seq(WordsFor(n), e requires 0 <= e < WordsFor(n) =>
      seq(WordBits, k requires 0 <= k < WordBits => e * WordBits + k < n && bits[e * WordBits + k])), n)
  }

  lemma FromBitsReads(bits: seq<bool>)
    ensures Abs(FromBits(bits)) == bits
  {
    var b := FromBits(bits);
    forall i | 0 <= i < |bits|
      ensures Test(b, i) == bits[i]
    {
      TestReadsBit(b, i);
      assert (i / WordBits) * WordBits + i % WordBits == i;
    }
  }

  /** `set(i)` as written, applied to the bits of a bitmap. */
  function SetBitsAsWritten(bits: seq<bool>, i: nat): (r: seq<bool>)
    requires i < |bits|
    ensures |r| == |bits|
  {
    Abs(SetAsWritten(FromBits(bits), i))
  }

  /** On a bitmap of at most 31 bits every offset is below 31, so `set` as
      written is the abstract `set`. */
  lemma SetBitsAsWrittenAgreesBelow31(bits: seq<bool>, i: nat)
    requires i < |bits| <= 31
    ensures SetBitsAsWritten(bits, i) == Bitmaps.Set(bits, i)
  {
    var b := FromBits(bits);
    FromBitsReads(bits);
    AsWrittenAgreesBelow31(b, i);
    SetRefines(b, i);
  }

  /** At offset 31 of a word, `set` as written also sets every later bit of
      that word. */
  lemma SetBitsAsWrittenSignExtends(bits: seq<bool>, i: nat, j: nat)
    requires i < j < |bits| && i % WordBits == 31 && j / WordBits == i / WordBits
    ensures SetBitsAsWritten(bits, i)[j]
  {
    var b := FromBits(bits);
    WordIndex(b, i);
    TestReadsBit(SetAsWritten(b, i), j);
    assert 31 < j % WordBits;
  }

  // ---------------------------------------------------------------------
  // Complement.

  /** The mask `~` applies to the last word when the size ends `trailing`
      bits into it: `(FILL_TRUE << trailing) >> trailing`. */
  function TrailingMaskAsWritten(trailing: nat): (m: Word)
    requires 0 < trailing < WordBits
    ensures forall k :: 0 <= k < WordBits ==> m[k] == (k < WordBits - trailing)
  {
    Shr(Shl(AllOnes, trailing), trailing)
  }

  /** The mask keeping exactly the `trailing` low bits. */
  function TrailingMask(trailing: nat): (m: Word)
    requires 0 < trailing < WordBits
    ensures forall k :: 0 <= k < WordBits ==> m[k] == (k < trailing)
  {
    Shr(AllOnes, WordBits - trailing)
  }

  /** Every word complemented, and the last one masked by `mask(size % 64)`
      when the size ends inside it. */
  function NotWith(b: Buffer, mask: nat -> Word): (r: Buffer)
    requires Valid(b)
    ensures Valid(r) && r.size == b.size
    ensures forall e :: 0 <= e < |b.words| && (b.size % WordBits == 0 || e + 1 < |b.words|) ==>
      r.words[e] == Complement(b.words[e])
    ensures b.size % WordBits != 0 ==>
      r.words[|b.words| - 1] == And(Complement(b.words[|b.words| - 1]), mask(b.size % WordBits))
  {
    var inverted := seq(|b.words|, e requires 0 <= e < |b.words| => Complement(b.words[e]));
    var trailing := b.size % WordBits;
    if trailing != 0 then
      Buffer(inverted[|inverted| - 1 := And(inverted[|inverted| - 1], mask(trailing))], b.size)
    else Buffer(inverted, b.size)
  }

  /** `~b` as written. */
  function NotAsWritten(b: Buffer): (r: Buffer)
    requires Valid(b)
    ensures Valid(r) && r.size == b.size
  {
    NotWith(b, t => if 0 < t < WordBits then TrailingMaskAsWritten(t) else AllOnes)
  }

  /** `~b` with the trailing mask keeping the bits below the size. */
  function Not(b: Buffer): (r: Buffer)
    requires Valid(b)
    ensures Valid(r) && r.size == b.size
  {
    NotWith(b, t => if 0 < t < WordBits then TrailingMask(t) else AllOnes)
  }

  /** A position in the last word of a size that ends inside that word lies
      below the size's offset. */
  lemma InLastWord(b: Buffer, j: nat)
    requires Valid(b) && j < b.size && b.size % WordBits != 0 && j / WordBits == |b.words| - 1
    ensures j % WordBits < b.size % WordBits
  {
  }

  lemma NotBit(b: Buffer, j: nat)
    requires Valid(b) && j < b.size
    ensures Test(Not(b), j) == !Test(b, j)
  {
    TestReadsBit(b, j);
    TestReadsBit(Not(b), j);
    if b.size % WordBits != 0 && j / WordBits == |b.words| - 1 {
      InLastWord(b, j);
    }
  }

  /** The corrected `~` flips every bit below the size. */
  lemma NotRefines(b: Buffer)
    requires Valid(b)
    ensures Abs(Not(b)) == Bitmaps.Not(Abs(b))
  {
    forall j | 0 <= j < b.size
      ensures Test(Not(b), j) == !Test(b, j)
    {
      NotBit(b, j);
    }
  }

  lemma NotAsWrittenBit(b: Buffer, j: nat)
    requires Valid(b) && j < b.size && b.size % WordBits <= 32
    ensures Test(NotAsWritten(b), j) == !Test(b, j)
  {
    TestReadsBit(b, j);
    TestReadsBit(NotAsWritten(b), j);
    if b.size % WordBits != 0 && j / WordBits == |b.words| - 1 {
      InLastWord(b, j);
    }
  }

  /** As written, `~` agrees with the corrected one whenever the size ends
      at most half-way into its last word. */
  lemma NotAsWrittenAgreesUpToHalfWord(b: Buffer)
    requires Valid(b) && b.size % WordBits <= 32
    ensures Abs(NotAsWritten(b)) == Bitmaps.Not(Abs(b))
  {
    forall j | 0 <= j < b.size
      ensures Test(NotAsWritten(b), j) == !Test(b, j)
    {
      NotAsWrittenBit(b, j);
    }
  }

  /** For a 40-bit map the mask as written keeps only the 24 low bits, so
      `~Bitmap(40, false)` reports bit 30 as false instead of true. */
  lemma NotAsWrittenClearsBitsBelowSize()
    ensures !Test(NotAsWritten(New(40, false)), 30)
    ensures Test(Not(New(40, false)), 30)
  {
    var z := New(40, false);
    TestReadsBit(z, 30);
    TestReadsBit(NotAsWritten(z), 30);
    NotBit(z, 30);
  }

  // ---------------------------------------------------------------------
  // &= and |=.

  function CombineAt(b: Buffer, o: Buffer, op: (Word, Word) -> Word, e: nat): Word
    requires e < |b.words|
  {
    if e < |o.words| then op(b.words[e], o.words[e]) else b.words[e]
  }

  function CombineWith(b: Buffer, o: Buffer, op: (Word, Word) -> Word): (r: Buffer)
    ensures |r.words| == |b.words| && r.size == b.size
    ensures forall e :: 0 <= e < |b.words| && e < |o.words| ==> r.words[e] == op(b.words[e], o.words[e])
    ensures forall e :: |o.words| <= e < |b.words| ==> r.words[e] == b.words[e]
  {
    Buffer(seq(|b.words|, e requires 0 <= e < |b.words| => CombineAt(b, o, op, e)), b.size)
  }

  /** `b &= o`: word by word over the words both buffers have. */
  function AndAssign(b: Buffer, o: Buffer): (r: Buffer)
    requires Valid(b)
    ensures Valid(r) && r.size == b.size
  {
    CombineWith(b, o, And)
  }

  /** `b |= o`: word by word over the words both buffers have. */
  function OrAssign(b: Buffer, o: Buffer): (r: Buffer)
    requires Valid(b)
    ensures Valid(r) && r.size == b.size
  {
    CombineWith(b, o, Or)
  }

  /** The bit of `o`'s words at position `i`, padding included. */
  function RawBit(o: Buffer, i: nat): bool
    requires i / WordBits < |o.words|
  {
    o.words[i / WordBits][i % WordBits]
  }

  /** `&=` combines each bit of `b` with the bit at the same position of
      `o`'s words, padding included, and keeps the bits past `o`'s words;
      for maps of equal size it is the bitwise And. */
  lemma AndAssignRefines(b: Buffer, o: Buffer)
    requires Valid(b) && Valid(o)
    ensures forall i :: 0 <= i < b.size && i / WordBits < |o.words| ==>
      Test(AndAssign(b, o), i) == (Test(b, i) && RawBit(o, i))
    ensures forall i :: 0 <= i < b.size && i / WordBits >= |o.words| ==>
      Test(AndAssign(b, o), i) == Test(b, i)
    ensures b.size == o.size ==> Abs(AndAssign(b, o)) == Bitmaps.And(Abs(b), Abs(o))
  {
    forall i | 0 <= i < b.size
      ensures i / WordBits < |o.words| ==> Test(AndAssign(b, o), i) == (Test(b, i) && RawBit(o, i))
      ensures i / WordBits >= |o.words| ==> Test(AndAssign(b, o), i) == Test(b, i)
    {
      TestReadsBit(b, i);
      TestReadsBit(AndAssign(b, o), i);
    }
    if b.size == o.size {
      forall i | 0 <= i < b.size
        ensures Test(o, i) == RawBit(o, i)
      {
        TestReadsBit(o, i);
      }
    }
  }

  /** `|=` combines each bit of `b` with the bit at the same position of
      `o`'s words, padding included, and keeps the bits past `o`'s words;
      for maps of equal size it is the bitwise Or. */
  lemma OrAssignRefines(b: Buffer, o: Buffer)
    requires Valid(b) && Valid(o)
    ensures forall i :: 0 <= i < b.size && i / WordBits < |o.words| ==>
      Test(OrAssign(b, o), i) == (Test(b, i) || RawBit(o, i))
    ensures forall i :: 0 <= i < b.size && i / WordBits >= |o.words| ==>
      Test(OrAssign(b, o), i) == Test(b, i)
    ensures b.size == o.size ==> Abs(OrAssign(b, o)) == Bitmaps.Or(Abs(b), Abs(o))
  {
    forall i | 0 <= i < b.size
      ensures i / WordBits < |o.words| ==> Test(OrAssign(b, o), i) == (Test(b, i) || RawBit(o, i))
      ensures i / WordBits >= |o.words| ==> Test(OrAssign(b, o), i) == Test(b, i)
    {
      TestReadsBit(b, i);
      TestReadsBit(OrAssign(b, o), i);
    }
    if b.size == o.size {
      forall i | 0 <= i < b.size
        ensures Test(o, i) == RawBit(o, i)
      {
        TestReadsBit(o, i);
      }
    }
  }

  /** On a shorter other map the padding of its last word takes part:
      `Bitmap(40, false) |= Bitmap(10, true)` sets bit 20, which the
      abstract Or keeps clear, and `Bitmap(40, true) &= Bitmap(10, false)`
      clears bit 20, which the abstract And keeps set. */
  lemma CombineShorterUsesPadding()
    ensures Abs(OrAssign(New(40, false), New(10, true)))[20]
    ensures !Bitmaps.Or(Bitmaps.New(40, false), Bitmaps.New(10, true))[20]
    ensures !Abs(AndAssign(New(40, true), New(10, false)))[20]
    ensures Bitmaps.And(Bitmaps.New(40, true), Bitmaps.New(10, false))[20]
  {
    OrAssignRefines(New(40, false), New(10, true));
    AndAssignRefines(New(40, true), New(10, false));
    assert RawBit(New(10, true), 20);
    assert !RawBit(New(10, false), 20);
  }
}
