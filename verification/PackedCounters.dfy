/** `PackedCounterArray`: counters of 2^n bits packed into 64-bit words. */
module PackedCounters {
  import opened Powers

  const WORD_BITS: nat := 64

  function MostSignificantSetBitIndex(x: nat): nat { if x < 2 then 0 else 1 + MostSignificantSetBitIndex(x / 2) }

  function RoundUpToPowerOfTwo(x: nat, p: nat): (r: nat)
    requires p > 0
    ensures r >= x
    decreases x - p
  {
    if p >= x then p else RoundUpToPowerOfTwo(x, 2 * p)
  }

  /** `counter_size_bits` */
  function CounterBits(maxValue: nat): nat { RoundUpToPowerOfTwo(MostSignificantSetBitIndex(maxValue) + 1, 1) }

  lemma {:induction false} MsbBound(x: nat)
    ensures x < Pow(2, MostSignificantSetBitIndex(x) + 1)
  {
    if x >= 2 {
      MsbBound(x / 2);
    } else {
      assert Pow(2, 1) == 2 * Pow(2, 0);
    }
  }

  lemma {:induction false} MsbSmall(x: nat, n: nat)
    requires n > 0 && x < Pow(2, n)
    ensures MostSignificantSetBitIndex(x) < n
  {
    if x >= 2 {
      assert n > 1 by {
        assert Pow(2, 1) == 2 * Pow(2, 0);
      }
      MsbSmall(x / 2, n - 1);
    }
  }

  lemma {:induction false} PowMono(m: nat, n: nat)
    requires m <= n
    ensures Pow(2, m) <= Pow(2, n)
    decreases n
  {
    if m < n {
      PowMono(m, n - 1);
    }
  }

  lemma RoundUpIs(n: nat)
    requires n <= WORD_BITS
    ensures RoundUpToPowerOfTwo(n, 1) in {1, 2, 4, 8, 16, 32, 64}
  {
    assert RoundUpToPowerOfTwo(n, 64) == 64;
    assert RoundUpToPowerOfTwo(n, 32) in {32, 64};
    assert RoundUpToPowerOfTwo(n, 16) in {16, 32, 64};
    assert RoundUpToPowerOfTwo(n, 8) in {8, 16, 32, 64};
    assert RoundUpToPowerOfTwo(n, 4) in {4, 8, 16, 32, 64};
    assert RoundUpToPowerOfTwo(n, 2) in {2, 4, 8, 16, 32, 64};
  }

  lemma WordDivides(bits: nat)
    requires bits in {1, 2, 4, 8, 16, 32, 64}
    ensures 0 < bits <= WORD_BITS && WORD_BITS / bits > 0 && (WORD_BITS / bits) * bits == WORD_BITS
  {
    if bits == 1 {
    } else if bits == 2 {
    } else if bits == 4 {
    } else if bits == 8 {
    } else if bits == 16 {
    } else if bits == 32 {
    }
  }

  /** A counter has enough bits for the largest value, and a word holds a whole number of counters. */
  lemma CounterBitsFit(maxValue: nat)
    requires maxValue < Pow(2, WORD_BITS)
    ensures var bits := CounterBits(maxValue);
            0 < bits <= WORD_BITS && (WORD_BITS / bits) * bits == WORD_BITS && WORD_BITS / bits > 0 && maxValue < Pow(2, bits)
  {
    var n := MostSignificantSetBitIndex(maxValue) + 1;
    MsbSmall(maxValue, WORD_BITS);
    RoundUpIs(n);
    WordDivides(CounterBits(maxValue));
    MsbBound(maxValue);
    PowMono(n, CounterBits(maxValue));
  }

  function RoundUp(n: nat, d: nat): nat
    requires d > 0
  {
    (n + d - 1) / d
  }

  lemma InBuffer(n: nat, ratio: nat, i: nat)
    requires i < n && ratio > 0
    ensures i / ratio < RoundUp(n, ratio)
  {
    var q := (n - 1) / ratio;
    AddMultiple(n - 1, ratio, 1);
    assert n - 1 == ratio * q + (n - 1) % ratio;
    assert ratio * (q + 1) == ratio * q + ratio;
    DivSmaller(i, ratio, q + 1);
  }

  lemma {:induction false} DigitZero(b: nat, j: nat)
    requires b > 0
    ensures Digit(0, b, j) == 0
  {
    if j > 0 {
      DigitZero(b, j - 1);
    }
  }

  /** What shifting and adding do to the counters of a word. */
  lemma WordOps(w: nat, bits: nat, ratio: nat, j: nat)
    requires bits > 0 && ratio * bits == WORD_BITS && j < ratio && w < Pow(2, WORD_BITS)
    ensures Pow(2, bits) > 1 && (w / Pow(2, j * bits)) % Pow(2, bits) == Digit(w, Pow(2, bits), j)
    ensures Digit(w, Pow(2, bits), j) < Pow(2, bits) - 1 ==>
              w + Pow(2, j * bits) < Pow(2, WORD_BITS) && forall k | 0 <= k < ratio ::
                Digit(w + Pow(2, j * bits), Pow(2, bits), k) == Digit(w, Pow(2, bits), k) + if k == j then 1 else 0
  {
    PowMono(1, bits);
    assert Pow(2, 1) == 2 * Pow(2, 0);
    assert bits * j == j * bits && bits * ratio == ratio * bits;
    PowMul(2, bits, j);
    PowMul(2, bits, ratio);
    DigitIs(w, Pow(2, bits), j);
    if Digit(w, Pow(2, bits), j) < Pow(2, bits) - 1 {
      forall k | 0 <= k < ratio
        ensures Digit(w + Pow(2, j * bits), Pow(2, bits), k) == Digit(w, Pow(2, bits), k) + if k == j then 1 else 0
      {
        DigitInc(w, Pow(2, bits), ratio, j, k);
      }
      DigitInc(w, Pow(2, bits), ratio, j, j);
    }
  }

  /** A word and a place in it name one counter. */
  lemma SameCell(ratio: nat, i: nat, j: nat)
    requires ratio > 0
    ensures i / ratio == j / ratio && i % ratio == j % ratio ==> i == j
  {
    assert i == ratio * (i / ratio) + i % ratio && j == ratio * (j / ratio) + j % ratio;
  }

  /** Digit `j` of word `index`. */
  function CellDigit(words: seq<nat>, bits: nat, index: nat, j: nat): nat {
    if index < |words| then Digit(words[index], Pow(2, bits), j) else 0
  }

  lemma CellInc(words: seq<nat>, ratio: nat, bits: nat, index: nat, j: nat, index': nat, j': nat)
    requires bits > 0 && ratio * bits == WORD_BITS && j < ratio && j' < ratio
    requires index < |words| && words[index] < Pow(2, WORD_BITS) && CellDigit(words, bits, index, j) < Pow(2, bits) - 1
    ensures var w := words[index] + Pow(2, j * bits);
            && w < Pow(2, WORD_BITS)
            && CellDigit(words[index := w], bits, index', j')
               == CellDigit(words, bits, index', j') + if index' == index && j' == j then 1 else 0
  {
    WordOps(words[index], bits, ratio, j);
  }

  /** Counter `i` is a digit of its word. */
  function DigitAt(words: seq<nat>, ratio: nat, bits: nat, i: nat): nat {
    if ratio > 0 then CellDigit(words, bits, i / ratio, i % ratio) else 0
  }

  lemma ZeroDigitAt(words: seq<nat>, ratio: nat, bits: nat, i: nat)
    requires forall w | w in words :: w == 0
    ensures DigitAt(words, ratio, bits, i) == 0
  {
    if ratio > 0 && i / ratio < |words| {
      assert words[i / ratio] in words;
      DigitZero(Pow(2, bits), i % ratio);
    }
  }

  /** Counter `i` is digit `j` of word `index`. */
  predicate IsAt(ratio: nat, i: nat, index: nat, j: nat) { ratio > 0 && index == i / ratio && j == i % ratio }

  lemma DigitAtIs(words: seq<nat>, ratio: nat, bits: nat, i: nat, index: nat, j: nat)
    requires IsAt(ratio, i, index, j)
    ensures DigitAt(words, ratio, bits, i) == CellDigit(words, bits, index, j) && j < ratio
  {
  }

  /** Digit `j` of word `index` is one more, the other digits are the same. */
  ghost predicate OneMore(words: seq<nat>, words': seq<nat>, bits: nat, ratio: nat, index: nat, j: nat) {
    forall a: nat, b: nat | b < ratio ::
      CellDigit(words', bits, a, b) == CellDigit(words, bits, a, b) + if a == index && b == j then 1 else 0
  }

  lemma CellsInc(words: seq<nat>, words': seq<nat>, ratio: nat, bits: nat, index: nat, j: nat)
    requires bits > 0 && ratio * bits == WORD_BITS && j < ratio
    requires index < |words| && words[index] < Pow(2, WORD_BITS) && CellDigit(words, bits, index, j) < Pow(2, bits) - 1
    requires words' == words[index := words[index] + Pow(2, j * bits)]
    ensures words'[index] < Pow(2, WORD_BITS) && OneMore(words, words', bits, ratio, index, j)
  {
    CellInc(words, ratio, bits, index, j, index, j);
    forall a: nat, b: nat | b < ratio
      ensures CellDigit(words', bits, a, b) == CellDigit(words, bits, a, b) + if a == index && b == j then 1 else 0
    {
      CellInc(words, ratio, bits, index, j, a, b);
    }
  }

  lemma CounterInc(words: seq<nat>, words': seq<nat>, ratio: nat, bits: nat, i: nat, index: nat, j: nat, k: nat)
    requires IsAt(ratio, i, index, j) && OneMore(words, words', bits, ratio, index, j)
    ensures DigitAt(words', ratio, bits, k) == DigitAt(words, ratio, bits, k) + if k == i then 1 else 0
  {
    DigitAtIs(words, ratio, bits, k, k / ratio, k % ratio);
    DigitAtIs(words', ratio, bits, k, k / ratio, k % ratio);
    SameCell(ratio, i, k);
  }

  /** Adding one to a counter that is not at its largest value. */
  lemma DigitAtInc(words: seq<nat>, words': seq<nat>, ratio: nat, bits: nat, i: nat, index: nat, j: nat)
    requires bits > 0 && ratio * bits == WORD_BITS && IsAt(ratio, i, index, j)
    requires index < |words| && words[index] < Pow(2, WORD_BITS) && DigitAt(words, ratio, bits, i) < Pow(2, bits) - 1
    requires words' == words[index := words[index] + Pow(2, j * bits)]
    ensures words'[index] < Pow(2, WORD_BITS)
    ensures forall k: nat :: DigitAt(words', ratio, bits, k) == DigitAt(words, ratio, bits, k) + if k == i then 1 else 0
  {
    DigitAtIs(words, ratio, bits, i, index, j);
    CellsInc(words, words', ratio, bits, index, j);
    forall k: nat ensures DigitAt(words', ratio, bits, k) == DigitAt(words, ratio, bits, k) + if k == i then 1 else 0 {
      CounterInc(words, words', ratio, bits, i, index, j, k);
    }
  }

  class PackedCounterArray {
    const n: nat
    const bits: nat
    const ratio: nat
    const buffer: array<nat>

    ghost predicate Valid()
      reads this, buffer
    {
      && n > 0 && bits > 0 && ratio > 0 && ratio * bits == WORD_BITS && buffer.Length == RoundUp(n, ratio)
      && forall i | 0 <= i < buffer.Length :: buffer[i] < Pow(2, WORD_BITS)
    }

    /** The value of counter `i`. */
    ghost function Count(i: nat): nat
      reads this, buffer
    {
      DigitAt(buffer[..], ratio, bits, i)
    }

    constructor (n: nat, maxValue: nat)
      requires n > 0 && 0 < maxValue < Pow(2, WORD_BITS)
      ensures Valid() && fresh(buffer) && this.n == n && bits == CounterBits(maxValue)
      ensures forall i: nat :: Count(i) == 0
    {
      CounterBitsFit(maxValue);
      var size := CounterBits(maxValue);
      var packing := WORD_BITS / size;
      this.n, bits, ratio := n, size, packing;
      buffer := new nat[RoundUp(n, packing)](_ => 0);
      new;
      forall i: nat ensures Count(i) == 0 {
        ZeroDigitAt(buffer[..], ratio, bits, i);
      }
    }

    method Get(i: nat) returns (v: nat)
      requires Valid() && i < n
      ensures v == Count(i)
    {
      InBuffer(n, ratio, i);
      var index, bitOffset := i / ratio, (i % ratio) * bits;
      v := (buffer[index] / Pow(2, bitOffset)) % Pow(2, bits);
      WordOps(buffer[index], bits, ratio, i % ratio);
    }

    /** The source requires that the counter is not at its largest value. */
    method Inc(i: nat)
      requires Valid() && i < n && Count(i) < Pow(2, bits) - 1
      modifies buffer
      ensures Valid()
      ensures forall j: nat :: Count(j) == old(Count(j)) + if j == i then 1 else 0
    {
      InBuffer(n, ratio, i);
      ghost var words := buffer[..];
      var index, j := i / ratio, i % ratio;
      var bitOffset := j * bits;
      ghost var after := words[index := words[index] + Pow(2, bitOffset)];
      DigitAtInc(words, after, ratio, bits, i, index, j);
      buffer[index] := buffer[index] + Pow(2, bitOffset);
      assert buffer[..] == after;
    }

    method IncRange(from: nat, to: nat)
      requires Valid() && from <= to < n && forall j | from <= j <= to :: Count(j) < Pow(2, bits) - 1
      modifies buffer
      ensures Valid()
      ensures forall j: nat :: Count(j) == old(Count(j)) + if from <= j <= to then 1 else 0
    {
      var i := from;
      while i <= to
        invariant from <= i <= to + 1 && Valid()
        invariant forall j: nat :: Count(j) == old(Count(j)) + if from <= j < i then 1 else 0
      {
        Inc(i);
        i := i + 1;
      }
    }
  }
}
