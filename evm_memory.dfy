/**
 * The EVM's memory (EvmPooledMemory): a byte buffer rented from a pool,
 * grown word by word as the code touches higher addresses, with the
 * memory-expansion gas of the Yellow Paper (Appendix H.1).
 *
 * Exceptions are outcomes: `OutOfGas` for the OutOfGasException the class
 * throws itself, `Fault` for the argument exceptions the .NET array
 * operations throw when a range does not fit the buffer.
 */
module EvmMemory {

  type Byte = b: int | 0 <= b < 256

  const WordSize: nat := 32
  const MinRentSize: nat := 256
  const IntMax: nat := 0x7FFF_FFFF
  const LongMax: nat := 0x7FFF_FFFF_FFFF_FFFF
  const TwoTo32: nat := 0x1_0000_0000
  const TwoTo256: nat := 0x1_0000_0000_0000_0000_0000_0000_0000_0000_0000_0000_0000_0000_0000_0000_0000_0000
  /** G_memory of the Yellow Paper's fee schedule (Appendix G): 3 gas per word. */
  const GasCostOfMemory: nat := 3

  datatype Outcome = Success | OutOfGas | Fault

  datatype Option<T> = None | Some(value: T)

  function Zeros(n: nat): (r: seq<Byte>)
    ensures |r| == n && forall k :: 0 <= k < n ==> r[k] == 0
  {
    seq(n, _ => 0)
  }

  // ---------------------------------------------------------------------
  // Word counts and access checks
  // ---------------------------------------------------------------------

  /** Div32Ceiling: the number of 32-byte words that cover `length` bytes, out of gas beyond int.MaxValue words. */
  function Div32Ceiling(length: nat): (r: Option<nat>)
    requires length < TwoTo256
    ensures r.Some? <==> length <= WordSize * IntMax
    ensures r.Some? ==> r.value == WordsFor(length)
    ensures r.Some? ==> WordSize * r.value >= length && (r.value == 0 || WordSize * (r.value - 1) < length)
  {
    var rem := length % 32;
    var result := length / 32;
    var withCeiling := result + (if rem == 0 then 0 else 1);
    if withCeiling > IntMax then None else Some(withCeiling)
  }

  /** CheckMemoryAccessViolation's test: the 256-bit end of the access wraps, or lies beyond long.MaxValue. */
  predicate AccessViolation(location: nat, length: nat)
  {
    var totalSize := (location + length) % TwoTo256;
    totalSize < location || totalSize > LongMax
  }

  /** The check fails exactly when the true end of the access exceeds long.MaxValue. */
  lemma AccessViolationExact(location: nat, length: nat)
    requires location < TwoTo256 && length < TwoTo256
    ensures AccessViolation(location, length) <==> location + length > LongMax
  {
    if location + length >= TwoTo256 {
      assert (location + length) % TwoTo256 == location + length - TwoTo256;
    } else {
      assert (location + length) % TwoTo256 == location + length;
    }
  }

  // ---------------------------------------------------------------------
  // Size bookkeeping
  // ---------------------------------------------------------------------

  /**
   * The Size UpdateSize leaves: the end of the access, truncated to 32 bits,
   * rounded up to a whole word when it lies beyond the current Size (the
   * rounding is itself truncated to 32 bits).
   */
  function NewSize(size: nat, position: nat, length: nat): nat
  {
    var end := (position + length) % TwoTo32;
    if end > size then
      (if end % WordSize != 0 then (end + WordSize - end % WordSize) % TwoTo32 else end)
    else size
  }

  /** Below 2^32 - 32 the new Size is a whole number of words, covers the access, never shrinks, and grows by less than a word past the end. */
  lemma SizeCoversAccess(size: nat, position: nat, length: nat)
    requires size % WordSize == 0
    requires position + length <= TwoTo32 - WordSize
    ensures var s := NewSize(size, position, length);
            s % WordSize == 0 && s >= position + length && s >= size
            && (s == size || s < position + length + WordSize)
  {
    var end := position + length;
    assert end % TwoTo32 == end;
    if end > size && end % WordSize != 0 {
      assert (end + WordSize - end % WordSize) % TwoTo32 == end + WordSize - end % WordSize;
    }
  }

  /** As written, an access ending within a word below 2^32 wraps Size to zero, below the access. */
  lemma SizeWrapsBelowFourGiB()
    ensures NewSize(0, 0, TwoTo32 - 1) == 0
  {
    assert (TwoTo32 - 1) % TwoTo32 == TwoTo32 - 1;
    assert (TwoTo32 - 1) % WordSize == 31;
  }

  /**
   * Whether renting covers a new Size: with no buffer yet the pool hands out
   * 256 bytes; a buffer too small is replaced by one twice as long, whose
   * length must still be a positive int.
   */
  predicate RentFits(capacity: nat, size: nat)
  {
    if capacity == 0 then size <= MinRentSize
    else size <= capacity || (2 * capacity <= IntMax && size <= 2 * capacity)
  }

  /**
   * The outcome of an access that checks `checkedLength` bytes at `location`,
   * grows the memory to cover `length` of them and then touches the buffer
   * from index `from` up to `to`: out of gas on a violation, a fault when the
   * rented buffer or the new Size does not cover that range (or it starts at
   * a negative index), success otherwise.
   */
  function AccessOutcome(capacity: nat, size: nat, location: nat, checkedLength: nat, length: nat, from: int, to: int): Outcome
  {
    if AccessViolation(location, checkedLength) then OutOfGas
    else if RentFits(capacity, NewSize(size, location, length)) && 0 <= from <= to <= NewSize(size, location, length)
    then Success
    else Fault
  }

  /**
   * After a successful rent, a range that ends at an index congruent to the
   * end of the access modulo 2^32 fits the buffer exactly when it fits the
   * new Size.
   */
  lemma InBufferIffCovered(size: nat, position: nat, length: nat, from: int, to: int, bufferLength: nat)
    requires size % WordSize == 0 && size < TwoTo32
    requires to % TwoTo32 == (position + length) % TwoTo32
    requires NewSize(size, position, length) <= bufferLength <= IntMax
    ensures 0 <= from <= to <= bufferLength <==> 0 <= from <= to <= NewSize(size, position, length)
  {
    if 0 <= from <= to <= bufferLength {
      var end := (position + length) % TwoTo32;
      assert to % TwoTo32 == to;
      assert end == to;
      if end > size && end % WordSize != 0 {
        assert (end + WordSize - end % WordSize) % TwoTo32 == end + WordSize - end % WordSize;
      }
    }
  }

  // ---------------------------------------------------------------------
  // The C# integer casts
  // ---------------------------------------------------------------------

  /** The unchecked (int) conversion of a 32-bit unsigned value. */
  function Int32(u: nat): int
    requires u < TwoTo32
  {
    if u <= IntMax then u else u - TwoTo32
  }

  /** The unchecked (int) cast of a 256-bit value: its low 32 bits read as a signed int. */
  function Int32Of(x: nat): (r: int)
    ensures -0x8000_0000 <= r <= IntMax
    ensures r % TwoTo32 == x % TwoTo32
    ensures x <= IntMax ==> r == x
  {
    Int32(x % TwoTo32)
  }

  /** The unchecked (long) cast of a 256-bit value: its low 64 bits read as a signed long. */
  function Int64Of(x: nat): (r: int)
    ensures -0x8000_0000_0000_0000 <= r <= LongMax
    ensures r % (2 * (LongMax + 1)) == x % (2 * (LongMax + 1))
    ensures x <= LongMax ==> r == x
  {
    var low := x % (2 * (LongMax + 1));
    if low <= LongMax then low else low - 2 * (LongMax + 1)
  }

  /** The cast index of a location beyond 2^32 wraps: location 2^32 is index 0, location 2^32 + 2^31 is negative. */
  lemma CastIndexWraps()
    ensures Int32Of(TwoTo32) == 0 && Int32Of(TwoTo32 + 8) == 8
    ensures Int32Of(TwoTo32 + IntMax + 1) < 0
  {
  }

  /**
   * A word saved at 2^32 into fresh memory: Size becomes one word, and the
   * cast index 0 lies inside it, so the save succeeds and writes at index 0.
   */
  lemma SaveWordAtFourGiB(word: seq<Byte>)
    requires |word| == WordSize
    ensures NewSize(0, TwoTo32, WordSize) == WordSize
    ensures WordStart(Int32Of(TwoTo32), |word|) == 0
    ensures AccessOutcome(0, 0, TwoTo32, WordSize, WordSize, WordStart(Int32Of(TwoTo32), |word|), Int32Of(TwoTo32) + WordSize)
            == Success
  {
    assert (TwoTo32 + WordSize) % TwoTo32 == WordSize;
    assert (TwoTo32 + WordSize) % 0x1_0000_0000_0000_0000_0000_0000_0000_0000_0000_0000_0000_0000_0000_0000_0000_0000 == TwoTo32 + WordSize;
  }

  /** Loading 2^32 + 8 bytes from fresh memory grows it by one word and copies out the (int) length, 8 bytes. */
  lemma LoadPastFourGiB()
    ensures Int32Of(TwoTo32 + 8) == 8
    ensures NewSize(0, 0, TwoTo32 + 8) == WordSize
    ensures RentFits(0, NewSize(0, 0, TwoTo32 + 8))
  {
    assert (TwoTo32 + 8) % TwoTo32 == 8;
  }

  /** Sums agree modulo 2^32 when their terms do. */
  lemma AddCongruent(a: int, b: int, c: int, d: int)
    requires a % TwoTo32 == c % TwoTo32 && b % TwoTo32 == d % TwoTo32
    ensures (a + b) % TwoTo32 == (c + d) % TwoTo32
  {
    var qa, qb, qc, qd := a / TwoTo32, b / TwoTo32, c / TwoTo32, d / TwoTo32;
    assert a + b == (qa + qb) * TwoTo32 + (a % TwoTo32 + b % TwoTo32);
    assert c + d == (qc + qd) * TwoTo32 + (c % TwoTo32 + d % TwoTo32);
    ModOfMultiplePlus(qa + qb, a % TwoTo32 + b % TwoTo32);
    ModOfMultiplePlus(qc + qd, c % TwoTo32 + d % TwoTo32);
  }

  lemma ModOfMultiplePlus(q: int, r: int)
    ensures (q * TwoTo32 + r) % TwoTo32 == r % TwoTo32
  {
  }

  // ---------------------------------------------------------------------
  // The memory as a sequence of bytes
  // ---------------------------------------------------------------------

  /** The memory seen at `size` bytes: cut to `size`, or padded with zero bytes up to it. */
  function Extend(view: seq<Byte>, size: nat): (r: seq<Byte>)
    ensures |r| == size
    ensures forall k :: 0 <= k < size ==> r[k] == if k < |view| then view[k] else 0
  {
    if size <= |view| then view[..size] else view + Zeros(size - |view|)
  }

  /** The memory after `value` is written at `at`. */
  function Write(view: seq<Byte>, at: nat, value: seq<Byte>): (r: seq<Byte>)
    requires at + |value| <= |view|
  {
    view[..at] + value + view[at + |value|..]
  }

  /** Reading back what was written gives the value; every other byte is as before. */
  lemma WriteThenRead(view: seq<Byte>, at: nat, value: seq<Byte>)
    requires at + |value| <= |view|
    ensures |Write(view, at, value)| == |view|
    ensures Write(view, at, value)[at..at + |value|] == value
    ensures forall k :: 0 <= k < |view| && !(at <= k < at + |value|) ==> Write(view, at, value)[k] == view[k]
  {
    var w := Write(view, at, value);
    assert w[at..at + |value|] == value;
  }

  /** Where SaveWord's copy starts: at the index for a word of at most 32 bytes, earlier for a longer one. */
  function WordStart(index: int, n: nat): (r: int)
    ensures r + (if n < WordSize then WordSize else n) == index + WordSize
  {
    if n < WordSize then index else index + WordSize - n
  }

  /** The bytes SaveWord writes from its start: a short word behind the zeros in front of it, a longer one as it is. */
  function WordImage(word: seq<Byte>): (r: seq<Byte>)
    ensures |r| == if |word| < WordSize then WordSize else |word|
    ensures r[|r| - |word|..] == word
    ensures forall k :: 0 <= k < |r| - |word| ==> r[k] == 0
  {
    if |word| < WordSize then Zeros(WordSize - |word|) + word else word
  }

  /** Growing the memory keeps every byte already there and exposes only zero bytes. */
  lemma ExtendKeepsAndZeroes(view: seq<Byte>, size: nat)
    requires |view| <= size
    ensures Extend(view, size)[..|view|] == view
    ensures forall k :: |view| <= k < size ==> Extend(view, size)[k] == 0
  {
  }

  /** Two writes side by side are one write of the two values joined. */
  lemma WriteAdjacent(view: seq<Byte>, at: nat, x: seq<Byte>, y: seq<Byte>)
    requires at + |x| + |y| <= |view|
    ensures Write(Write(view, at, x), at + |x|, y) == Write(view, at, x + y)
  {
    var w := Write(view, at, x);
    assert w[..at + |x|] == view[..at] + x;
    assert w[at + |x| + |y|..] == view[at + |x| + |y|..];
  }

  // ---------------------------------------------------------------------
  // Memory-expansion gas
  // ---------------------------------------------------------------------

  /** C_mem(a) = G_memory · a + ⌊a² / 512⌋ for a memory of `a` words. */
  function MemoryCost(words: nat): nat
  {
    GasCostOfMemory * words + words * words / 512
  }

  /** The number of 32-byte words that cover `n` bytes. */
  function WordsFor(n: nat): nat
  {
    (n + WordSize - 1) / WordSize
  }

  /**
   * The difference CalculateMemoryCost computes in 64-bit arithmetic, for a
   * growth from a word-aligned Size: it is C_mem(new) - C_mem(old), positive,
   * and far below long.MaxValue, so neither the cast nor the cap applies.
   */
  lemma ExpansionCost(size: nat, newSize: nat, nw: nat, aw: nat)
    requires size % WordSize == 0 && size < newSize
    requires nw == WordsFor(newSize) <= IntMax && aw == WordsFor(size)
    ensures aw < nw
    ensures (nw - aw) * GasCostOfMemory + nw * nw / 512 - aw * aw / 512 == MemoryCost(nw) - MemoryCost(aw)
    ensures 0 < MemoryCost(nw) - MemoryCost(aw) <= LongMax
  {
    AlignedWords(size, newSize);
    MemoryCostIncreasing(aw, nw);
    MemoryCostBound(nw);
  }

  /** A word-aligned size is covered by fewer words than any larger size. */
  lemma AlignedWords(size: nat, newSize: nat)
    requires size % WordSize == 0 && size < newSize
    ensures WordsFor(size) < WordsFor(newSize)
  {
    assert WordsFor(size) == size / WordSize;
    assert size + WordSize <= newSize + WordSize - 1;
  }

  /** At most int.MaxValue words cost less than long.MaxValue gas. */
  lemma MemoryCostBound(words: nat)
    requires words <= IntMax
    ensures MemoryCost(words) <= LongMax
  {
    var square := words * words;
    MulMonotone(words, IntMax, words, IntMax);
    assert IntMax * IntMax == 0x3FFF_FFFF_0000_0001;
    DivMonotone(square, 0x3FFF_FFFF_0000_0001);
  }

  lemma MulMonotone(a: nat, b: nat, c: nat, d: nat)
    requires a <= b && c <= d
    ensures a * c <= b * d
  {
    assert a * c <= b * c;
    assert b * c <= b * d;
  }

  lemma DivMonotone(x: nat, y: nat)
    requires x <= y
    ensures x / 512 <= y / 512
  {
  }

  /** C_mem grows strictly with the number of words. */
  lemma MemoryCostIncreasing(a: nat, b: nat)
    requires a < b
    ensures MemoryCost(a) < MemoryCost(b)
  {
    assert a * a <= b * b by {
      assert a * a <= a * b <= b * b;
    }
    assert a * a / 512 <= b * b / 512;
  }

  // ---------------------------------------------------------------------
  // The .NET array operations
  // ---------------------------------------------------------------------

  /** Array.Clear: zeroes `count` bytes from `index`, or throws when the range is not inside the array. */
  method Clear(a: array<Byte>, index: int, count: int) returns (ok: bool)
    modifies a
    ensures ok <==> 0 <= index && 0 <= count && index + count <= a.Length
    ensures ok ==> forall k :: 0 <= k < a.Length ==> a[k] == if index <= k < index + count then 0 else old(a[k])
    ensures !ok ==> unchanged(a)
  {
    if index < 0 || count < 0 || index + count > a.Length {
      return false;
    }
    var i := index;
    while i < index + count
      invariant index <= i <= index + count
      invariant forall k :: 0 <= k < a.Length ==> a[k] == if index <= k < i then 0 else old(a[k])
    {
      a[i] := 0;
      i := i + 1;
    }
    return true;
  }

  /** Array.Copy / Span.CopyTo into the buffer: `value` lands at `at`, nothing else changes. */
  method CopyInto(dst: array<Byte>, at: nat, value: seq<Byte>)
    requires at + |value| <= dst.Length
    modifies dst
    ensures forall k :: 0 <= k < dst.Length ==> dst[k] == if at <= k < at + |value| then value[k - at] else old(dst[k])
  {
    var i := 0;
    while i < |value|
      invariant 0 <= i <= |value|
      invariant forall k :: 0 <= k < dst.Length ==> dst[k] == if at <= k < at + i then value[k - at] else old(dst[k])
    {
      dst[at + i] := value[i];
      i := i + 1;
    }
  }

  // ---------------------------------------------------------------------
  // The memory object
  // ---------------------------------------------------------------------

  class EvmPooledMemory {
    var memory: array?<Byte>
    var Length: nat
    var Size: nat
    var lastZeroedSize: int

    ghost predicate Valid()
      reads this
    {
      Length < TwoTo32 && Size < TwoTo32 && Size % WordSize == 0
      && (memory == null ==> lastZeroedSize == 0)
      && (memory != null ==> MinRentSize <= memory.Length <= IntMax && 0 <= lastZeroedSize <= memory.Length)
    }

    /** The bytes written or zeroed so far: the buffer up to the last zeroed size. */
    ghost function View(): seq<Byte>
      reads this, memory
      requires Valid()
    {
      if memory == null then [] else memory[..lastZeroedSize]
    }

    /** The length of the rented buffer, 0 before the first rent. */
    ghost function Capacity(): nat
      reads this, memory
    {
      if memory == null then 0 else memory.Length
    }

    constructor ()
      ensures Valid() && Size == 0 && Length == 0 && memory == null && View() == []
    {
      memory := null;
      Length := 0;
      Size := 0;
      lastZeroedSize := 0;
    }

    /**
     * UpdateSize: records the end of the access, grows Size to cover it and,
     * when renting, makes sure the buffer holds Size bytes with every byte
     * past the last zeroed size cleared.
     */
    method UpdateSize(position: nat, length: nat, rentIfNeeded: bool) returns (r: Outcome)
      requires Valid()
      modifies this, memory
      ensures Valid()
      ensures memory == old(memory) || fresh(memory)
      ensures Length == (position + length) % TwoTo32
      ensures Size == NewSize(old(Size), position, length)
      ensures r == (if !rentIfNeeded || RentFits(old(Capacity()), Size) then Success else Fault)
      ensures !rentIfNeeded ==> memory == old(memory) && lastZeroedSize == old(lastZeroedSize)
      ensures !rentIfNeeded && memory != null ==> unchanged(memory)
      ensures r == Fault ==> View() == old(View())
      ensures rentIfNeeded && r == Success
              ==> memory != null && lastZeroedSize == Size && View() == Extend(old(View()), Size)
    {
      Length := (position + length) % TwoTo32;
      if Length > Size {
        var remainder := Length % WordSize;
        if remainder != 0 {
          Size := (Length + WordSize - remainder) % TwoTo32;
        } else {
          Size := Length;
        }
      }
      r := Success;
      if rentIfNeeded {
        r := RentForSize();
      }
    }

    /**
     * Save of a byte array: an empty value changes nothing; otherwise the
     * access is checked, the memory grown, and the value copied in at the
     * `(long)` location.
     */
    method Save(location: nat, value: seq<Byte>) returns (r: Outcome)
      requires Valid() && location < TwoTo256 && |value| <= IntMax
      modifies this, memory
      ensures Valid()
      ensures memory == old(memory) || fresh(memory)
      ensures |value| == 0 ==> r == Success && unchanged(this) && (memory != null ==> unchanged(memory))
      ensures |value| > 0
              ==> r == AccessOutcome(old(Capacity()), old(Size), location, |value|, |value|, location, location + |value|)
      ensures |value| > 0 && !r.OutOfGas? ==> Size == NewSize(old(Size), location, |value|)
      ensures |value| > 0 && r == Success ==> View() == Write(Extend(old(View()), Size), location, value)
    {
      if |value| == 0 {
        return Success;
      }
      if AccessViolation(location, |value|) {
        return OutOfGas;
      }
      r := UpdateSize(location, |value|, true);
      if r != Success {
        return;
      }
      InBufferIffCovered(old(Size), location, |value|, location, location + |value|, memory.Length);
      r := Store(location, value);
    }

    /**
     * Save of a span: as the byte-array save, but the value is copied in at
     * the `(int)` location, which wraps modulo 2^32.
     */
    method SaveSpan(location: nat, value: seq<Byte>) returns (r: Outcome)
      requires Valid() && location < TwoTo256 && |value| <= IntMax
      modifies this, memory
      ensures Valid()
      ensures memory == old(memory) || fresh(memory)
      ensures |value| == 0 ==> r == Success && unchanged(this) && (memory != null ==> unchanged(memory))
      ensures |value| > 0
              ==> r == AccessOutcome(old(Capacity()), old(Size), location, |value|, |value|,
                                     Int32Of(location), Int32Of(location) + |value|)
      ensures |value| > 0 && !r.OutOfGas? ==> Size == NewSize(old(Size), location, |value|)
      ensures |value| > 0 && r == Success ==> View() == Write(Extend(old(View()), Size), Int32Of(location), value)
    {
      if |value| == 0 {
        return Success;
      }
      if AccessViolation(location, |value|) {
        return OutOfGas;
      }
      r := UpdateSize(location, |value|, true);
      if r != Success {
        return;
      }
      var index := Int32Of(location);
      AddCongruent(index, |value|, location, |value|);
      InBufferIffCovered(old(Size), location, |value|, index, index + |value|, memory.Length);
      if index < 0 {
        return Fault;
      }
      r := Store(index, value);
    }

    /** SaveByte: checks a whole word at `location` but grows the memory by one byte, then sets the byte at the `(long)` location. */
    method SaveByte(location: nat, value: Byte) returns (r: Outcome)
      requires Valid() && location < TwoTo256
      modifies this, memory
      ensures Valid()
      ensures memory == old(memory) || fresh(memory)
      ensures r == AccessOutcome(old(Capacity()), old(Size), location, WordSize, 1, location, location + 1)
      ensures !r.OutOfGas? ==> Size == NewSize(old(Size), location, 1)
      ensures r == Success ==> View() == Write(Extend(old(View()), Size), location, [value])
    {
      if AccessViolation(location, WordSize) {
        return OutOfGas;
      }
      r := UpdateSize(location, 1, true);
      if r != Success {
        return;
      }
      InBufferIffCovered(old(Size), location, 1, location, location + 1, memory.Length);
      r := Store(location, [value]);
    }

    /**
     * SaveWord: the word is copied in so that it ends 32 bytes after the
     * `(int)` location; the bytes in front of a shorter word are cleared, and
     * a longer word reaches back below the location.
     */
    method SaveWord(location: nat, word: seq<Byte>) returns (r: Outcome)
      requires Valid() && location < TwoTo256 && |word| <= IntMax
      modifies this, memory
      ensures Valid()
      ensures memory == old(memory) || fresh(memory)
      ensures r == AccessOutcome(old(Capacity()), old(Size), location, WordSize, WordSize,
                                 WordStart(Int32Of(location), |word|), Int32Of(location) + WordSize)
      ensures !r.OutOfGas? ==> Size == NewSize(old(Size), location, WordSize)
      ensures r == Success
              ==> View() == Write(Extend(old(View()), Size), WordStart(Int32Of(location), |word|), WordImage(word))
    {
      if AccessViolation(location, WordSize) {
        return OutOfGas;
      }
      r := UpdateSize(location, WordSize, true);
      if r != Success {
        return;
      }
      var index := Int32Of(location);
      AddCongruent(index, WordSize, location, WordSize);
      InBufferIffCovered(old(Size), location, WordSize, WordStart(index, |word|), index + WordSize, memory.Length);
      r := StoreWord(index, word);
    }

    /**
     * The writes of SaveWord at buffer index `index`: clear the bytes in
     * front of a short word, then copy the word in so that it ends at
     * `index + 32`.
     */
    method StoreWord(index: int, word: seq<Byte>) returns (r: Outcome)
      requires Valid() && memory != null
      modifies memory
      ensures Valid()
      ensures r == (if 0 <= WordStart(index, |word|) && index + WordSize <= memory.Length then Success else Fault)
      ensures r == Success && index + WordSize <= lastZeroedSize
              ==> View() == Write(old(View()), WordStart(index, |word|), WordImage(word))
    {
      if |word| < WordSize {
        if index < 0 {
          // Array.Clear rejects a negative index
          return Fault;
        }
        r := StoreShortWord(index, word);
        return;
      }
      var start := index + WordSize - |word|;
      if start < 0 {
        // the span starts at a negative index
        return Fault;
      }
      r := Store(start, word);
    }

    /** A word shorter than 32 bytes: clear the bytes in front of it, then copy it in behind them. */
    method StoreShortWord(index: nat, word: seq<Byte>) returns (r: Outcome)
      requires Valid() && memory != null && |word| < WordSize
      modifies memory
      ensures Valid()
      ensures r == (if index + WordSize <= memory.Length then Success else Fault)
      ensures r == Success && index + WordSize <= lastZeroedSize
              ==> View() == Write(old(View()), index, Zeros(WordSize - |word|) + word)
    {
      ghost var before := View();
      var padding := WordSize - |word|;
      r := Store(index, Zeros(padding));
      if r != Success {
        return;
      }
      ghost var cleared := View();
      r := Store(index + padding, word);
      if r == Success && index + WordSize <= lastZeroedSize {
        assert cleared == Write(before, index, Zeros(padding));
        WriteAdjacent(before, index, Zeros(padding), word);
      }
    }

    /**
     * Save of a zero-padded span: the span's bytes at the `(int)` location,
     * then its padding cleared right after them; an empty value changes nothing.
     */
    method SavePadded(location: nat, data: seq<Byte>, padding: nat) returns (r: Outcome)
      requires Valid() && location < TwoTo256 && |data| + padding <= IntMax
      modifies this, memory
      ensures Valid()
      ensures memory == old(memory) || fresh(memory)
      ensures |data| + padding == 0 ==> r == Success && unchanged(this) && (memory != null ==> unchanged(memory))
      ensures |data| + padding > 0
              ==> r == AccessOutcome(old(Capacity()), old(Size), location, |data| + padding, |data| + padding,
                                     Int32Of(location), Int32Of(location) + |data| + padding)
      ensures |data| + padding > 0 && !r.OutOfGas? ==> Size == NewSize(old(Size), location, |data| + padding)
      ensures |data| + padding > 0 && r == Success
              ==> View() == Write(Extend(old(View()), Size), Int32Of(location), data + Zeros(padding))
    {
      var length := |data| + padding;
      if length == 0 {
        return Success;
      }
      if AccessViolation(location, length) {
        return OutOfGas;
      }
      r := UpdateSize(location, length, true);
      if r != Success {
        return;
      }
      var index := Int32Of(location);
      AddCongruent(index, length, location, length);
      InBufferIffCovered(old(Size), location, length, index, index + length, memory.Length);
      if index < 0 {
        return Fault;
      }
      r := StorePadded(index, data, padding);
    }

    /** The writes of a padded save: the span's bytes, then the padding cleared behind them. */
    method StorePadded(location: nat, data: seq<Byte>, padding: nat) returns (r: Outcome)
      requires Valid() && memory != null
      modifies memory
      ensures Valid()
      ensures r == (if location + |data| + padding <= memory.Length then Success else Fault)
      ensures r == Success && location + |data| + padding <= lastZeroedSize
              ==> View() == Write(old(View()), location, data + Zeros(padding))
    {
      ghost var before := View();
      r := Store(location, data);
      if r != Success {
        return;
      }
      ghost var copied := View();
      r := Store(location + |data|, Zeros(padding));
      if r == Success && location + |data| + padding <= lastZeroedSize {
        assert copied == Write(before, location, data);
        WriteAdjacent(before, location, data, Zeros(padding));
      }
    }

    /** LoadSpan of a word: grows the memory to cover the 32 bytes at `location` and returns those at the `(int)` location. */
    method LoadWord(location: nat) returns (r: Outcome, bytes: seq<Byte>)
      requires Valid() && location < TwoTo256
      modifies this, memory
      ensures Valid()
      ensures memory == old(memory) || fresh(memory)
      ensures r == AccessOutcome(old(Capacity()), old(Size), location, WordSize, WordSize,
                                 Int32Of(location), Int32Of(location) + WordSize)
      ensures !r.OutOfGas? ==> Size == NewSize(old(Size), location, WordSize)
      ensures r == Success
              ==> View() == Extend(old(View()), Size) && bytes == View()[Int32Of(location)..Int32Of(location) + WordSize]
    {
      bytes := [];
      if AccessViolation(location, WordSize) {
        return OutOfGas, bytes;
      }
      r := UpdateSize(location, WordSize, true);
      if r != Success {
        return;
      }
      var index := Int32Of(location);
      AddCongruent(index, WordSize, location, WordSize);
      InBufferIffCovered(old(Size), location, WordSize, index, index + WordSize, memory.Length);
      if index < 0 {
        return Fault, bytes;
      }
      r, bytes := Fetch(index, WordSize);
    }

    /**
     * LoadSpan of a range: nothing for a zero length, otherwise checked and
     * grown, and the span at the `(int)` location of the `(int)` length
     * returned.
     */
    method LoadSpan(location: nat, length: nat) returns (r: Outcome, bytes: seq<Byte>)
      requires Valid() && location < TwoTo256 && length < TwoTo256
      modifies this, memory
      ensures Valid()
      ensures memory == old(memory) || fresh(memory)
      ensures length == 0 ==> r == Success && bytes == [] && unchanged(this) && (memory != null ==> unchanged(memory))
      ensures length > 0 ==> r == AccessOutcome(old(Capacity()), old(Size), location, length, length,
                                                Int32Of(location), Int32Of(location) + Int32Of(length))
      ensures length > 0 && !r.OutOfGas? ==> Size == NewSize(old(Size), location, length)
      ensures length > 0 && r == Success
              ==> View() == Extend(old(View()), Size)
                  && bytes == View()[Int32Of(location)..Int32Of(location) + Int32Of(length)]
    {
      bytes := [];
      if length == 0 {
        return Success, bytes;
      }
      if AccessViolation(location, length) {
        return OutOfGas, bytes;
      }
      r := UpdateSize(location, length, true);
      if r != Success {
        return;
      }
      var index, count := Int32Of(location), Int32Of(length);
      AddCongruent(index, count, location, length);
      InBufferIffCovered(old(Size), location, length, index, index + count, memory.Length);
      if index < 0 || count < 0 {
        return Fault, bytes;
      }
      r, bytes := Fetch(index, count);
    }

    /**
     * Load: nothing for a zero length; for a location beyond long.MaxValue,
     * an array of the `(long)` length, zeroed, with the memory untouched;
     * otherwise (with no access check) the memory is grown and the `(int)`
     * length copied out from the `(long)` location.
     */
    method Load(location: nat, length: nat) returns (r: Outcome, bytes: seq<Byte>)
      requires Valid() && location < TwoTo256 && length < TwoTo256
      modifies this, memory
      ensures Valid()
      ensures memory == old(memory) || fresh(memory)
      ensures length == 0 || location > LongMax ==> unchanged(this) && (memory != null ==> unchanged(memory))
      ensures length == 0 ==> r == Success && bytes == []
      ensures length > 0 && location > LongMax ==> r == (if 0 <= Int64Of(length) <= IntMax then Success else Fault)
      ensures length > 0 && location > LongMax && r == Success ==> bytes == Zeros(Int64Of(length))
      ensures length > 0 && location <= LongMax ==> Size == NewSize(old(Size), location, length)
      ensures length > 0 && location <= LongMax
              ==> r == (if RentFits(old(Capacity()), Size) && 0 <= Int32Of(length) && location + Int32Of(length) <= Size
                        then Success else Fault)
      ensures length > 0 && location <= LongMax && r == Success
              ==> View() == Extend(old(View()), Size) && bytes == View()[location..location + Int32Of(length)]
    {
      bytes := [];
      if length == 0 {
        return Success, bytes;
      }
      if location > LongMax {
        var count := Int64Of(length);
        if count < 0 || count > IntMax {
          // a negative length overflows; a longer one exceeds the largest array
          return Fault, bytes;
        }
        return Success, Zeros(count);
      }
      r := UpdateSize(location, length, true);
      if r != Success {
        return;
      }
      var count := Int32Of(length);
      AddCongruent(location, count, location, length);
      InBufferIffCovered(old(Size), location, length, location, location + count, memory.Length);
      if count < 0 {
        // new byte[] of a negative length overflows
        return Fault, bytes;
      }
      r, bytes := Fetch(location, count);
    }

    /**
     * CalculateMemoryCost: the gas to grow the memory to cover the access,
     * C_mem(new words) - C_mem(current words), and Size grown to match
     * without renting; nothing when the length is zero or Size already covers it.
     */
    method CalculateMemoryCost(location: nat, length: nat) returns (r: Outcome, cost: nat)
      requires Valid() && location < TwoTo256 && length < TwoTo256
      modifies this, memory
      ensures Valid()
      ensures memory == old(memory) && lastZeroedSize == old(lastZeroedSize) && (memory != null ==> unchanged(memory))
      ensures r == OutOfGas <==> length > 0 && (AccessViolation(location, length)
                                                || (location + length > old(Size) && location + length > WordSize * IntMax))
      ensures r == Success && length > 0 && location + length > old(Size)
              ==> cost == MemoryCost(WordsFor(location + length)) - MemoryCost(WordsFor(old(Size))) && cost > 0
                  && Size == NewSize(old(Size), location + length, 0) && Length == (location + length) % TwoTo32
      ensures r == Success && (length == 0 || location + length <= old(Size)) ==> cost == 0 && unchanged(this)
    {
      if length == 0 {
        return Success, 0;
      }
      if AccessViolation(location, length) {
        return OutOfGas, 0;
      }
      AccessViolationExact(location, length);
      var newSize := location + length;
      if newSize > Size {
        var newActiveWords := Div32Ceiling(newSize);
        if newActiveWords.None? {
          return OutOfGas, 0;
        }
        var activeWords := Div32Ceiling(Size);
        assert activeWords.Some?;
        var nw, aw := newActiveWords.value, activeWords.value;
        var c := (nw - aw) * GasCostOfMemory + nw * nw / 512 - aw * aw / 512;
        ExpansionCost(Size, newSize, nw, aw);
        if c > LongMax {
          // unreachable: at most int.MaxValue words cost less than 2^54 gas
          assert false;
        }
        var _ := UpdateSize(newSize, 0, false);
        return Success, c;
      }
      return Success, 0;
    }

    /** The copy that ends every save: `value` into the buffer at `location`, or a fault when it does not fit. */
    method Store(location: nat, value: seq<Byte>) returns (r: Outcome)
      requires Valid() && memory != null
      modifies memory
      ensures Valid()
      ensures r == (if location + |value| <= memory.Length then Success else Fault)
      ensures r == Fault ==> unchanged(memory)
      ensures r == Success && location + |value| <= lastZeroedSize ==> View() == Write(old(View()), location, value)
    {
      if location + |value| > memory.Length {
        return Fault;
      }
      ghost var oldView := View();
      CopyInto(memory, location, value);
      if location + |value| <= lastZeroedSize {
        assert View() == Write(oldView, location, value);
      }
      return Success;
    }

    /** The copy that ends every load: the bytes of the buffer at `location`, or a fault when they are not inside it. */
    method Fetch(location: nat, length: nat) returns (r: Outcome, bytes: seq<Byte>)
      requires Valid() && memory != null
      ensures r == (if location + length <= memory.Length then Success else Fault)
      ensures r == Success && location + length <= lastZeroedSize ==> bytes == View()[location..location + length]
    {
      if location + length > memory.Length {
        return Fault, [];
      }
      bytes := memory[location..location + length];
      return Success, bytes;
    }

    /**
     * The renting half of UpdateSize: the first rent (256 bytes, cleared up to
     * Size), a regrow to twice the buffer (the zeroed prefix copied over, the
     * rest cleared up to Size), or a clear of the bytes between the last
     * zeroed size and Size; then the last zeroed size becomes Size.
     */
    method RentForSize() returns (r: Outcome)
      requires Valid()
      modifies this, memory
      ensures Valid()
      ensures memory == old(memory) || fresh(memory)
      ensures Length == old(Length) && Size == old(Size)
      ensures r == (if RentFits(old(Capacity()), Size) then Success else Fault)
      ensures r == Fault ==> View() == old(View())
      ensures r == Success ==> memory != null && lastZeroedSize == Size && View() == Extend(old(View()), Size)
    {
      if memory == null {
        r := FirstRent();
      } else if Size > memory.Length {
        r := Regrow();
      } else {
        r := ClearUpToSize();
      }
    }

    /** No buffer yet: rent 256 bytes and clear the first Size of them. */
    method FirstRent() returns (r: Outcome)
      requires Valid() && memory == null
      modifies this
      ensures Valid() && fresh(memory)
      ensures Length == old(Length) && Size == old(Size)
      ensures r == (if Size <= MinRentSize then Success else Fault)
      ensures View() == if r == Success then Zeros(Size) else []
      ensures r == Success ==> lastZeroedSize == Size
    {
      memory := new Byte[MinRentSize];
      var ok := Clear(memory, 0, Int32(Size));
      if !ok {
        return Fault;
      }
      lastZeroedSize := Int32(Size);
      assert View() == Zeros(Size);
      return Success;
    }

    /** Size beyond the buffer: rent one twice as long, copy the zeroed prefix, clear the rest up to Size. */
    method Regrow() returns (r: Outcome)
      requires Valid() && memory != null && Size > memory.Length
      modifies this
      ensures Valid()
      ensures memory == old(memory) || fresh(memory)
      ensures Length == old(Length) && Size == old(Size)
      ensures r == (if 2 * old(memory.Length) <= IntMax && Size <= 2 * old(memory.Length) then Success else Fault)
      ensures r == Fault ==> View() == old(View())
      ensures r == Success ==> lastZeroedSize == Size && View() == old(View()) + Zeros(Size - old(lastZeroedSize))
    {
      var beforeResize := memory;
      if 2 * beforeResize.Length > IntMax {
        // the int product wraps to a negative length and Rent throws
        return Fault;
      }
      memory := new Byte[2 * beforeResize.Length];
      CopyInto(memory, 0, beforeResize[..lastZeroedSize]);
      assert memory[..lastZeroedSize] == beforeResize[..lastZeroedSize];
      var ok := Clear(memory, lastZeroedSize, Int32(Size) - lastZeroedSize);
      if !ok {
        return Fault;
      }
      ghost var zeroed := memory[..lastZeroedSize];
      lastZeroedSize := Int32(Size);
      assert View() == zeroed + Zeros(Size - old(lastZeroedSize));
      return Success;
    }

    /** Size within the buffer: clear from the last zeroed size up to Size. */
    method ClearUpToSize() returns (r: Outcome)
      requires Valid() && memory != null && Size <= memory.Length
      modifies memory, `lastZeroedSize
      ensures Valid() && r == Success
      ensures lastZeroedSize == Size && View() == Extend(old(View()), Size)
    {
      ghost var oldView := View();
      if Size > lastZeroedSize {
        var ok := Clear(memory, lastZeroedSize, Int32(Size) - lastZeroedSize);
        assert ok;
      }
      lastZeroedSize := Int32(Size);
      assert View() == Extend(oldView, Size);
      return Success;
    }
  }
}
