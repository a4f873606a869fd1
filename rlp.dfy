/**
 * Recursive Length Prefix (RLP) serialisation, Appendix B of the Ethereum
 * Yellow Paper, as implemented by `RecursiveLengthPrefix`.
 *
 * The encoder is a family of pure functions (`Encode`, `EncodeBytes`,
 * `EncodeList`, `EncodeInteger`); the decoder is a cursor over the input
 * (`DeserializationContext`) driven by the recursive method `Deserialize`,
 * which is proved against the pure specification `DecodeAt`.
 *
 * The decoder's two prefix boundaries are a parameter (`Limits`): `AsWritten`
 * are the boundaries of the code (183 and 247), `YellowPaper` the ones the
 * encoder and the Yellow Paper use (184 and 248).
 */
module Rlp {

  type Byte = b: int | 0 <= b < 256

  const TwoTo31: int := 0x8000_0000
  const TwoTo32: int := 0x1_0000_0000
  const TwoTo63: int := 0x8000_0000_0000_0000
  const TwoTo64: int := 0x1_0000_0000_0000_0000

  /** The exceptions the .NET code raises, as values. */
  datatype Error =
    | IndexOutOfRange   // Data[CurrentIndex++] or Array.Copy past the end of the input
    | NegativeLength    // new byte[n] with n < 0
    | LengthTooLong     // DeserializeLength given more than four bytes
    | Overflow          // Convert.ToByte of a negative value
    | Unmodelled        // an integer path that is not part of this model (values above 255)

  datatype Result<T> = Ok(value: T) | Err(error: Error)

  /** What `Serialize(object)` accepts. */
  datatype Item =
    | Bytes(bytes: seq<Byte>)       // byte[]
    | Sequence(items: seq<Item>)    // object[]
    | Integer(value: int)           // byte, short, int, ushort, uint and long, widened to long

  /** What `Deserialize` returns: a boxed byte, a byte[] or an object[]. */
  datatype Decoded =
    | DByte(b: Byte)
    | DBytes(bytes: seq<Byte>)
    | DArray(elements: seq<Decoded>)

  /** Prefix boundaries of the decoder: below `shortString` a string is short,
      below `shortList` a list is short. */
  datatype Limits = Limits(shortString: nat, shortList: nat)

  const AsWritten: Limits := Limits(183, 247)
  const YellowPaper: Limits := Limits(184, 248)

  /** Boundaries under which the decoder reads every short form the encoder writes as short. */
  predicate ValidLimits(lim: Limits)
  {
    129 < lim.shortString <= 184 && 192 < lim.shortList <= 248
  }

  // ---------------------------------------------------------------------------
  // Big-endian numbers
  // ---------------------------------------------------------------------------

  function Pow256(k: nat): (r: nat)
    ensures r > 0
  {
    if k == 0 then 1 else 256 * Pow256(k - 1)
  }

  function Zeros(n: nat): (r: seq<Byte>)
    ensures |r| == n && forall i :: 0 <= i < n ==> r[i] == 0
  {
    seq(n, _ => 0)
  }

  /** The unsigned number a big-endian byte string denotes. */
  function BigEndianValue(s: seq<Byte>): nat
  {
    if s == [] then 0 else BigEndianValue(s[..|s| - 1]) * 256 + s[|s| - 1]
  }

  /** The shortest big-endian byte string of `u`: no leading zero byte, empty for 0. */
  function MinimalBigEndian(u: nat): (r: seq<Byte>)
    ensures u == 0 <==> r == []
    ensures r != [] ==> r[0] != 0
    ensures BigEndianValue(r) == u
  {
    if u == 0 then []
    else
      var r := MinimalBigEndian(u / 256) + [u % 256];
      assert r[..|r| - 1] == MinimalBigEndian(u / 256);
      r
  }

  /** The fixed-width big-endian form of `u` in `n` bytes, byte k being `u >> 8(n-1-k)`. */
  function FixedBigEndian(u: nat, n: nat): (r: seq<Byte>)
    ensures |r| == n
  {
    seq(n, k requires 0 <= k < n => (u / Pow256(n - 1 - k)) % 256)
  }

  lemma DivUnique(u: int, d: int, q: int, r: int)
    requires d > 0 && 0 <= r < d && u == d * q + r
    ensures u / d == q && u % d == r
  {
    var q', r' := u / d, u % d;
    assert u == d * q' + r';
    assert d * (q - q') == r' - r;
    MulSign(d, q - q');
  }

  /** A positive multiple of `d` is at least `d`, a negative one at most `-d`. */
  lemma MulSign(d: int, x: int)
    requires d > 0
    ensures x >= 1 ==> d * x >= d
    ensures x <= -1 ==> d * x <= -d
  {
    if x >= 1 {
      MulMonotone(d, 1, x);
    }
    if x <= -1 {
      MulMonotone(d, x, -1);
    }
  }

  lemma MulMonotone(d: int, a: int, b: int)
    requires d >= 0 && a <= b
    ensures d * a <= d * b
  {
    assert d * b - d * a == d * (b - a);
  }

  lemma DivDiv(u: nat, b: nat, c: nat)
    requires b > 0 && c > 0
    ensures u / (b * c) == (u / b) / c
  {
    var q1, r1 := u / b, u % b;
    var q2, r2 := q1 / c, q1 % c;
    assert u == b * q1 + r1;
    assert q1 == c * q2 + r2;
    assert u == (b * c) * q2 + (b * r2 + r1) by {
      assert b * q1 == b * (c * q2) + b * r2;
    }
    assert b * r2 <= b * (c - 1) by { MulMonotone(b, r2, c - 1); }
    assert b * (c - 1) == b * c - b;
    DivUnique(u, b * c, q2, b * r2 + r1);
  }

  lemma FixedStep(u: nat, n: nat)
    requires n >= 1
    ensures FixedBigEndian(u, n) == FixedBigEndian(u / 256, n - 1) + [u % 256]
  {
    var lhs, rhs := FixedBigEndian(u, n), FixedBigEndian(u / 256, n - 1) + [u % 256];
    forall k | 0 <= k < n
      ensures lhs[k] == rhs[k]
    {
      if k < n - 1 {
        assert Pow256(n - 1 - k) == 256 * Pow256(n - 2 - k);
        DivDiv(u, 256, Pow256(n - 2 - k));
      }
    }
  }

  /** The fixed-width form is the minimal form padded with leading zero bytes. */
  lemma {:induction false} FixedIsPaddedMinimal(u: nat, n: nat)
    requires u < Pow256(n)
    ensures |MinimalBigEndian(u)| <= n
    ensures FixedBigEndian(u, n) == Zeros(n - |MinimalBigEndian(u)|) + MinimalBigEndian(u)
  {
    if u == 0 {
      forall k | 0 <= k < n
        ensures FixedBigEndian(0, n)[k] == 0
      {
        assert 0 / Pow256(n - 1 - k) == 0;
      }
      assert FixedBigEndian(0, n) == Zeros(n);
    } else {
      assert n >= 1;
      assert u / 256 < Pow256(n - 1);
      FixedIsPaddedMinimal(u / 256, n - 1);
      FixedStep(u, n);
      var m := MinimalBigEndian(u / 256);
      assert MinimalBigEndian(u) == m + [u % 256];
      assert Zeros(n - 1 - |m|) + m + [u % 256] == Zeros(n - |MinimalBigEndian(u)|) + MinimalBigEndian(u);
    }
  }

  /** The minimal form of a number below 256^k has at most k bytes. */
  lemma {:induction false} MinimalLength(u: nat, k: nat)
    requires u < Pow256(k)
    ensures |MinimalBigEndian(u)| <= k
  {
    if u != 0 {
      assert u / 256 < Pow256(k - 1);
      MinimalLength(u / 256, k - 1);
    }
  }

  /** A byte string of length k denotes a number below 256^k. */
  lemma {:induction false} BigEndianBound(s: seq<Byte>)
    ensures BigEndianValue(s) < Pow256(|s|)
  {
    if s != [] {
      BigEndianBound(s[..|s| - 1]);
      var p := Pow256(|s| - 1);
      assert BigEndianValue(s[..|s| - 1]) <= p - 1;
      MulMonotone(256, BigEndianValue(s[..|s| - 1]), p - 1);
    }
  }

  /** Leading zero bytes do not change the number. */
  lemma {:induction false} LeadingZeros(n: nat, s: seq<Byte>)
    ensures BigEndianValue(Zeros(n) + s) == BigEndianValue(s)
  {
    if s == [] {
      assert Zeros(n) + s == Zeros(n);
      ZerosValue(n);
    } else {
      assert (Zeros(n) + s)[..|Zeros(n) + s| - 1] == Zeros(n) + s[..|s| - 1];
      LeadingZeros(n, s[..|s| - 1]);
    }
  }

  lemma {:induction false} ZerosValue(n: nat)
    ensures BigEndianValue(Zeros(n)) == 0
  {
    if n > 0 {
      assert Zeros(n)[..n - 1] == Zeros(n - 1);
      ZerosValue(n - 1);
    }
  }

  // ---------------------------------------------------------------------------
  // SerializeLength / DeserializeLength
  // ---------------------------------------------------------------------------

  /** The eight shifted-and-truncated bytes of `u` are its 8-byte big-endian form. */
  lemma EightBytes(u: nat)
    ensures FixedBigEndian(u, 8)
            == [(u / 0x100_0000_0000_0000) % 256, (u / 0x1_0000_0000_0000) % 256, (u / 0x100_0000_0000) % 256,
                (u / 0x1_0000_0000) % 256, (u / 0x100_0000) % 256, (u / 0x1_0000) % 256, (u / 0x100) % 256, u % 256]
  {
    assert Pow256(1) == 0x100 && Pow256(2) == 0x1_0000 && Pow256(3) == 0x100_0000;
    assert Pow256(4) == 0x1_0000_0000 && Pow256(5) == 0x100_0000_0000;
    assert Pow256(6) == 0x1_0000_0000_0000 && Pow256(7) == 0x100_0000_0000_0000;
  }

  /**
   * SerializeLength(long): the eight bytes `value >> 56`, ..., `value` (two's
   * complement), with the leading zero bytes stripped by a counting loop.
   */
  method SerializeLength(value: int) returns (result: seq<Byte>)
    requires -TwoTo63 <= value < TwoTo63
    ensures result == MinimalBigEndian(if value < 0 then value + TwoTo64 else value)
    ensures |result| <= 8
    ensures value > 0 ==> BigEndianValue(result) == value && result[0] != 0
  {
    var u: nat := if value < 0 then value + TwoTo64 else value;
    var bytes := ShiftedBytes(u);
    assert Pow256(8) == TwoTo64;
    FixedIsPaddedMinimal(u, 8);
    result := StripLeadingZeros(bytes[..]);
    StripPadded(8 - |MinimalBigEndian(u)|, MinimalBigEndian(u));
  }

  /** The eight `(byte)(value >> 8k)` assignments of SerializeLength: the 8-byte big-endian form. */
  method ShiftedBytes(u: nat) returns (bytes: array<Byte>)
    ensures fresh(bytes) && bytes[..] == FixedBigEndian(u, 8)
  {
    bytes := new Byte[8];
    bytes[0] := (u / 0x100_0000_0000_0000) % 256;
    bytes[1] := (u / 0x1_0000_0000_0000) % 256;
    bytes[2] := (u / 0x100_0000_0000) % 256;
    bytes[3] := (u / 0x1_0000_0000) % 256;
    bytes[4] := (u / 0x100_0000) % 256;
    bytes[5] := (u / 0x1_0000) % 256;
    bytes[6] := (u / 0x100) % 256;
    bytes[7] := u % 256;
    EightBytes(u);
  }

  /** The bytes after the leading zero bytes. */
  function StripZeros(s: seq<Byte>): (r: seq<Byte>)
    ensures |r| <= |s|
    ensures r != [] ==> r[0] != 0
  {
    if s != [] && s[0] == 0 then StripZeros(s[1..]) else s
  }

  /** Stripping undoes left-padding with zeros of a string that does not start with zero. */
  lemma {:induction false} StripPadded(n: nat, m: seq<Byte>)
    requires m != [] ==> m[0] != 0
    ensures StripZeros(Zeros(n) + m) == m
  {
    if n == 0 {
      assert Zeros(0) + m == m;
    } else {
      assert (Zeros(n) + m)[1..] == Zeros(n - 1) + m;
      StripPadded(n - 1, m);
    }
  }

  /** The counting loop of SerializeLength: the result length drops by one per leading zero byte. */
  method StripLeadingZeros(bytes: seq<Byte>) returns (result: seq<Byte>)
    ensures result == StripZeros(bytes)
  {
    var resultLength := |bytes|;
    var i := 0;
    while i < |bytes| && bytes[i] == 0
      invariant 0 <= i <= |bytes| && resultLength == |bytes| - i
      invariant StripZeros(bytes) == StripZeros(bytes[i..])
    {
      assert bytes[i..][1..] == bytes[i + 1..];
      resultLength := resultLength - 1;
      i := i + 1;
    }
    result := bytes[|bytes| - resultLength..];
  }

  /** The `(int)` view of an unsigned 32-bit pattern (BitConverter.ToInt32). */
  function ToInt32(x: nat): (r: int)
    requires x < TwoTo32
    ensures -TwoTo31 <= r < TwoTo31
    ensures r % TwoTo32 == x
  {
    if x < TwoTo31 then x else x - TwoTo32
  }

  /**
   * DeserializeLength: left-pads to four bytes and reads a big-endian signed
   * 32-bit integer; more than four bytes make Array.Copy throw.
   */
  function DeserializeLength(bytes: seq<Byte>): (r: Result<int>)
    ensures r.Ok? <==> |bytes| <= 4
    ensures r.Err? ==> r.error == LengthTooLong
    ensures r.Ok? ==> -TwoTo31 <= r.value < TwoTo31
    ensures r.Ok? && BigEndianValue(bytes) < TwoTo31 ==> r.value == BigEndianValue(bytes)
    ensures r.Ok? && BigEndianValue(bytes) >= TwoTo31 ==> r.value < 0
  {
    if |bytes| > 4 then Err(LengthTooLong)
    else
      var padded := Zeros(4 - |bytes|) + bytes;
      LeadingZeros(4 - |bytes|, bytes);
      BigEndianBound(padded);
      assert Pow256(4) == TwoTo32;
      Ok(ToInt32(BigEndianValue(padded)))
  }

  /** DeserializeLength undoes SerializeLength for every non-negative int. */
  lemma LengthRoundTrip(v: nat)
    requires v < TwoTo31
    ensures |MinimalBigEndian(v)| <= 4
    ensures DeserializeLength(MinimalBigEndian(v)) == Ok(v)
  {
    assert Pow256(4) == TwoTo32;
    MinimalLength(v, 4);
  }

  // ---------------------------------------------------------------------------
  // Encoder
  // ---------------------------------------------------------------------------

  /** A length below 2^64 is written in one to eight bytes. */
  lemma LengthOfLength(n: nat)
    requires n >= 1
    ensures 1 <= |MinimalBigEndian(n)|
    ensures n < TwoTo64 ==> |MinimalBigEndian(n)| <= 8
  {
    assert Pow256(8) == TwoTo64;
    if n < TwoTo64 {
      MinimalLength(n, 8);
    }
  }

  /** The `(byte)` cast. */
  function ToByte(x: nat): Byte
  {
    x % 256
  }

  /** Serialize(byte[]). */
  function EncodeBytes(input: seq<Byte>): (r: seq<Byte>)
    ensures |r| >= 1
    ensures |input| == 1 && input[0] < 128 ==> r == input
    ensures !(|input| == 1 && input[0] < 128) && |input| < 56 ==> r == [128 + |input|] + input
  {
    if |input| == 1 && input[0] < 128 then input
    else if |input| < 56 then [ToByte(|input| + 128)] + input
    else
      var serializedLength := MinimalBigEndian(|input|);
      [ToByte(183 + |serializedLength|)] + serializedLength + input
  }

  /**
   * A long string (56 bytes or more) starts with a prefix in 184..191 giving
   * the number of length bytes, then the length, then the string itself.
   */
  lemma EncodeBytesLong(input: seq<Byte>)
    requires 56 <= |input| < TwoTo64
    ensures 1 <= |MinimalBigEndian(|input|)| <= 8
    ensures EncodeBytes(input) == [183 + |MinimalBigEndian(|input|)|] + MinimalBigEndian(|input|) + input
  {
    LengthOfLength(|input|);
  }

  /** The prefixing step of Serialize(params object[]) (lines 143-150), applied to the concatenation. */
  function EncodeList(concatenation: seq<Byte>): (r: seq<Byte>)
    ensures |r| >= 1 + |concatenation|
    ensures |concatenation| < 56 ==> r == [192 + |concatenation|] + concatenation
  {
    if |concatenation| < 56 then [ToByte(192 + |concatenation|)] + concatenation
    else
      var serializedLength := MinimalBigEndian(|concatenation|);
      [ToByte(247 + |serializedLength|)] + serializedLength + concatenation
  }

  /**
   * A long list (payload of 56 bytes or more) starts with a prefix in 248..255
   * giving the number of length bytes, then the payload length, then the payload.
   */
  lemma EncodeListLong(concatenation: seq<Byte>)
    requires 56 <= |concatenation| < TwoTo64
    ensures 1 <= |MinimalBigEndian(|concatenation|)| <= 8
    ensures EncodeList(concatenation)
            == [247 + |MinimalBigEndian(|concatenation|)|] + MinimalBigEndian(|concatenation|) + concatenation
  {
    LengthOfLength(|concatenation|);
  }

  /** OfEmptySequence: the empty list is the single byte 0xc0. */
  lemma OfEmptySequence()
    ensures Encode(Sequence([])) == Ok([192])
  {
    assert EncodeConcat([]) == Ok([]);
    assert EncodeList([]) == [ToByte(192)];
  }

  /**
   * Serialize(long) for the paths modelled here: 0 is the empty string, 1..127
   * a single byte, 128..255 a one-byte string; negative values fail in
   * Convert.ToByte.
   */
  function EncodeInteger(v: int): (r: Result<seq<Byte>>)
    ensures v < 0 ==> r == Err(Overflow)
    ensures 0 <= v < 256 ==> r == Ok(EncodeBytes(MinimalBigEndian(v)))
    ensures v >= 256 ==> r == Err(Unmodelled)
  {
    if v == 0 then
      assert EncodeBytes(MinimalBigEndian(0)) == [ToByte(128)];
      Ok([128])
    else if v < 128 then (if v < 0 then Err(Overflow) else Ok([v]))
    else if v <= 255 then Ok(EncodeBytes([v]))
    else Err(Unmodelled)
  }

  function Size(item: Item): nat
    ensures Size(item) >= 1
  {
    match item
    case Bytes(_) => 1
    case Integer(_) => 2
    case Sequence(items) => 1 + SizeSeq(items)
  }

  function SizeSeq(items: seq<Item>): nat
  {
    if items == [] then 0 else Size(items[0]) + SizeSeq(items[1..])
  }

  /** Serialize(object). */
  function Encode(item: Item): (r: Result<seq<Byte>>)
    ensures r.Ok? ==> |r.value| >= 1
    decreases Size(item), 1
  {
    match item
    case Bytes(b) => Ok(EncodeBytes(b))
    case Integer(v) => EncodeInteger(v)
    case Sequence(items) =>
      match EncodeConcat(items)
      case Err(e) => Err(e)
      case Ok(c) => Ok(EncodeList(c))
  }

  /** The `foreach` of Serialize(params object[]): the items' encodings, concatenated in order. */
  function EncodeConcat(items: seq<Item>): (r: Result<seq<Byte>>)
    decreases SizeSeq(items), 2
  {
    if items == [] then Ok([])
    else
      match Encode(items[0])
      case Err(e) => Err(e)
      case Ok(head) =>
        match EncodeConcat(items[1..])
        case Err(e) => Err(e)
        case Ok(tail) => Ok(head + tail)
  }

  // ---------------------------------------------------------------------------
  // Decoder specification
  // ---------------------------------------------------------------------------

  /** Collapse: a one-element result is returned as its element. */
  function Collapse(result: seq<Decoded>): (r: Decoded)
    ensures |result| == 1 ==> r == result[0]
    ensures |result| != 1 ==> r == DArray(result)
  {
    if |result| == 1 then result[0] else DArray(result)
  }

  /** Pop(n) at cursor `at`. */
  function Take(data: seq<Byte>, at: nat, n: int): (r: Result<seq<Byte>>)
    ensures r.Ok? <==> 0 <= n && at + n <= |data|
    ensures r.Ok? ==> |r.value| == n && r.value == data[at..at + n]
  {
    if n < 0 then Err(NegativeLength)
    else if at + n > |data| then Err(IndexOutOfRange)
    else Ok(data[at..at + n])
  }

  /** The length announced after a long-form prefix, read at `at` from `count` bytes. */
  function LongLength(data: seq<Byte>, at: nat, count: int): (r: Result<(int, nat)>)
    ensures r.Ok? ==> 0 <= count && r.value.1 == at + count <= |data|
  {
    match Take(data, at, count)
    case Err(e) => Err(e)
    case Ok(lengthBytes) =>
      match DeserializeLength(lengthBytes)
      case Err(e) => Err(e)
      case Ok(length) => Ok((length, at + count))
  }

  /**
   * The header of a string whose prefix `data[i]` is in 128..191: the string's
   * length and where its bytes start.
   */
  function StringHeader(lim: Limits, data: seq<Byte>, i: nat): (r: Result<(int, nat)>)
    requires i < |data| && 128 <= data[i] < 192
    ensures r.Ok? ==> i < r.value.1 <= |data|
  {
    var prefix := data[i];
    if prefix < lim.shortString then Ok((prefix - 128, i + 1))
    else LongLength(data, i + 1, prefix - 183)
  }

  /**
   * The header of a list whose prefix `data[i]` is 192 or more: the length of
   * the items' concatenation and where it starts.
   */
  function ListHeader(lim: Limits, data: seq<Byte>, i: nat): (r: Result<(int, nat)>)
    requires i < |data| && 192 <= data[i]
    ensures r.Ok? ==> i < r.value.1 <= |data|
  {
    var prefix := data[i];
    if prefix < lim.shortList then Ok((prefix - 192, i + 1))
    else LongLength(data, i + 1, prefix - 247)
  }

  /** A string: its header, then Pop(length), collapsed to the byte[] itself. */
  function DecodeString(lim: Limits, data: seq<Byte>, i: nat): (r: Result<(Decoded, nat)>)
    requires i < |data| && 128 <= data[i] < 192
    ensures r.Ok? ==> i < r.value.1 <= |data|
  {
    match StringHeader(lim, data, i)
    case Err(e) => Err(e)
    case Ok((length, start)) =>
      match Take(data, start, length)
      case Err(e) => Err(e)
      case Ok(bytes) => Ok((Collapse([DBytes(bytes)]), start + length))
  }

  /**
   * What Deserialize returns when its cursor starts at `i`, with the cursor
   * position afterwards.
   */
  function DecodeAt(lim: Limits, data: seq<Byte>, i: nat): (r: Result<(Decoded, nat)>)
    ensures r.Ok? ==> i < r.value.1 <= |data|
    decreases |data| - i, 0
  {
    if i >= |data| then Err(IndexOutOfRange)
    else if data[i] < 128 then Ok((DArray([DByte(data[i])]), i + 1))
    else if data[i] < 192 then DecodeString(lim, data, i)
    else
      match ListHeader(lim, data, i)
      case Err(e) => Err(e)
      case Ok((concatenationLength, start)) =>
        DecodeItems(lim, data, start, start + concatenationLength, [])
  }

  /** The loop at lines 84-87: decode items until the cursor reaches `end`, then Collapse. */
  function DecodeItems(lim: Limits, data: seq<Byte>, index: nat, end: int, result: seq<Decoded>)
    : (r: Result<(Decoded, nat)>)
    requires index <= |data|
    ensures r.Ok? ==> index <= r.value.1 <= |data| && r.value.1 >= end
    decreases |data| - index, 1
  {
    if index >= end then Ok((Collapse(result), index))
    else
      match DecodeAt(lim, data, index)
      case Err(e) => Err(e)
      case Ok((item, next)) => DecodeItems(lim, data, next, end, result + [item])
  }

  function DropIndex(r: Result<(Decoded, nat)>): Result<Decoded>
  {
    match r
    case Ok((d, _)) => Ok(d)
    case Err(e) => Err(e)
  }

  // ---------------------------------------------------------------------------
  // Decoder: the cursor and the recursive method
  // ---------------------------------------------------------------------------

  class DeserializationContext {
    const data: seq<Byte>
    var currentIndex: nat

    ghost predicate Valid()
      reads this
    {
      currentIndex <= |data|
    }

    constructor (data: seq<Byte>)
      ensures Valid() && this.data == data && currentIndex == 0
    {
      this.data := data;
      currentIndex := 0;
    }

    /** Pop(): the byte under the cursor, advancing it. */
    method Pop() returns (r: Result<Byte>)
      requires Valid()
      modifies this
      ensures Valid()
      ensures r.Ok? <==> old(currentIndex) < |data|
      ensures r.Ok? ==> r.value == data[old(currentIndex)] && currentIndex == old(currentIndex) + 1
      ensures r.Err? ==> r.error == IndexOutOfRange
    {
      if currentIndex >= |data| {
        return Err(IndexOutOfRange);
      }
      r := Ok(data[currentIndex]);
      currentIndex := currentIndex + 1;
    }

    /** Pop(n): the next n bytes, advancing the cursor past them. */
    method PopMany(n: int) returns (r: Result<seq<Byte>>)
      requires Valid()
      modifies this
      ensures Valid()
      ensures r == Take(data, old(currentIndex), n)
      ensures r.Ok? ==> currentIndex == old(currentIndex) + n
    {
      if n < 0 {
        return Err(NegativeLength);
      }
      if currentIndex + n > |data| {
        return Err(IndexOutOfRange);
      }
      r := Ok(data[currentIndex..currentIndex + n]);
      currentIndex := currentIndex + n;
    }
  }

  /**
   * DeserializeLength(context.Pop(count)): reads a length of `count` bytes at
   * the cursor, as the long-string and long-list headers do; agrees with
   * LongLength and leaves the cursor where LongLength says.
   */
  method ReadLength(context: DeserializationContext, count: int) returns (r: Result<int>)
    requires context.Valid()
    modifies context
    ensures context.Valid()
    ensures var spec := LongLength(context.data, old(context.currentIndex), count);
            (r.Ok? <==> spec.Ok?) && (r.Ok? ==> r.value == spec.value.0 && context.currentIndex == spec.value.1)
            && (r.Err? ==> r.error == spec.error)
  {
    var lengthBytes := context.PopMany(count);
    if lengthBytes.Err? {
      return Err(lengthBytes.error);
    }
    r := DeserializeLength(lengthBytes.value);
  }

  /** Deserialize(DeserializationContext), proved against `DecodeAt`. */
  method Deserialize(lim: Limits, context: DeserializationContext) returns (r: Result<Decoded>)
    requires ValidLimits(lim) && context.Valid()
    modifies context
    ensures context.Valid()
    ensures r == DropIndex(DecodeAt(lim, context.data, old(context.currentIndex)))
    ensures r.Ok? ==> context.currentIndex == DecodeAt(lim, context.data, old(context.currentIndex)).value.1
    decreases |context.data| - context.currentIndex
  {
    ghost var i0 := context.currentIndex;
    var result: seq<Decoded> := [];
    var popped := context.Pop();
    if popped.Err? {
      return Err(popped.error);
    }
    var prefix := popped.value;
    if prefix < 128 {
      result := result + [DByte(prefix)];
      assert result == [DByte(prefix)];
      return Ok(DArray(result));
    }

    if prefix < lim.shortString {
      var length := prefix - 128;
      assert StringHeader(lim, context.data, i0) == Ok((length, i0 + 1));
      var bytes := context.PopMany(length);
      if bytes.Err? {
        return Err(bytes.error);
      }
      result := result + [DBytes(bytes.value)];
      assert result == [DBytes(bytes.value)];
      return Ok(Collapse(result));
    }

    if prefix < 192 {
      var lengthOfLength := prefix - 183;
      var length := ReadLength(context, lengthOfLength);
      if length.Err? {
        return Err(length.error);
      }
      assert StringHeader(lim, context.data, i0) == Ok((length.value, context.currentIndex));
      var bytes := context.PopMany(length.value);
      if bytes.Err? {
        return Err(bytes.error);
      }
      result := result + [DBytes(bytes.value)];
      return Ok(Collapse(result));
    }

    var concatenationLength: int;
    if prefix < lim.shortList {
      concatenationLength := prefix - 192;
    } else {
      var lengthOfConcatenationLength := prefix - 247;
      var length := ReadLength(context, lengthOfConcatenationLength);
      if length.Err? {
        return Err(length.error);
      }
      concatenationLength := length.value;
    }

    var startIndex := context.currentIndex;
    assert ListHeader(lim, context.data, i0) == Ok((concatenationLength, startIndex));
    ghost var spec := DecodeItems(lim, context.data, startIndex, startIndex + concatenationLength, []);
    assert DecodeAt(lim, context.data, old(context.currentIndex)) == spec;
    while context.currentIndex < startIndex + concatenationLength
      invariant context.Valid() && startIndex <= context.currentIndex
      invariant DecodeItems(lim, context.data, context.currentIndex, startIndex + concatenationLength, result) == spec
      decreases |context.data| - context.currentIndex
    {
      var item := Deserialize(lim, context);
      if item.Err? {
        return Err(item.error);
      }
      result := result + [item.value];
    }
    return Ok(Collapse(result));
  }

  /** Deserialize(byte[]): a fresh cursor at the start of the input. */
  method DeserializeBytes(lim: Limits, bytes: seq<Byte>) returns (r: Result<Decoded>)
    requires ValidLimits(lim)
    ensures r == DropIndex(DecodeAt(lim, bytes, 0))
  {
    var context := new DeserializationContext(bytes);
    r := Deserialize(lim, context);
  }

  // ---------------------------------------------------------------------------
  // Round trip
  // ---------------------------------------------------------------------------

  /** What decoding an encoded item gives back: single small bytes come back boxed in an array, one-item lists collapse. */
  function Expected(item: Item): Decoded
    decreases Size(item), 1
  {
    match item
    case Bytes(b) => if |b| == 1 && b[0] < 128 then DArray([DByte(b[0])]) else DBytes(b)
    case Integer(v) => if 0 <= v then Expected(Bytes(MinimalBigEndian(v))) else DArray([])
    case Sequence(items) => Collapse(ExpectedSeq(items))
  }

  function ExpectedSeq(items: seq<Item>): (r: seq<Decoded>)
    ensures |r| == |items|
    decreases SizeSeq(items), 2
  {
    if items == [] then [] else [Expected(items[0])] + ExpectedSeq(items[1..])
  }

  /** `e` sits in `data` at offset `i`, byte by byte. */
  ghost predicate At(data: seq<Byte>, i: nat, e: seq<Byte>)
  {
    i + |e| <= |data| && forall k :: 0 <= k < |e| ==> data[i + k] == e[k]
  }

  lemma AtIsSlice(data: seq<Byte>, i: nat, e: seq<Byte>)
    ensures At(data, i, e) <==> i + |e| <= |data| && data[i..i + |e|] == e
  {
    if At(data, i, e) {
      forall k | 0 <= k < |e|
        ensures data[i..i + |e|][k] == e[k]
      {
        assert data[i + k] == e[k];
      }
    }
    if i + |e| <= |data| && data[i..i + |e|] == e {
      forall k | 0 <= k < |e|
        ensures data[i + k] == e[k]
      {
        assert data[i..i + |e|][k] == e[k];
      }
    }
  }

  lemma AtSlice(data: seq<Byte>, i: nat, e: seq<Byte>, a: nat, b: nat)
    requires At(data, i, e) && a <= b <= |e|
    ensures At(data, i + a, e[a..b])
  {
    forall k | 0 <= k < b - a
      ensures data[i + a + k] == e[a..b][k]
    {
      assert data[i + (a + k)] == e[a + k];
    }
  }

  /** A one-byte prefix `p` followed by `y` and `z`, sitting at `i`: the byte at `i` is `p`, then `y`, then `z`. */
  lemma AtHeader(data: seq<Byte>, i: nat, p: Byte, y: seq<Byte>, z: seq<Byte>)
    requires At(data, i, [p] + y + z)
    ensures i < |data| && data[i] == p
    ensures At(data, i + 1, y) && At(data, i + 1 + |y|, z)
  {
    var e := [p] + y + z;
    assert data[i + 0] == e[0];
    forall k | 0 <= k < |y|
      ensures data[i + 1 + k] == y[k]
    {
      assert data[i + (1 + k)] == e[1 + k] == y[k];
    }
    forall k | 0 <= k < |z|
      ensures data[i + 1 + |y| + k] == z[k]
    {
      assert data[i + (1 + |y| + k)] == e[1 + |y| + k] == z[k];
    }
  }

  lemma AtSplit(data: seq<Byte>, i: nat, x: seq<Byte>, y: seq<Byte>)
    requires At(data, i, x + y)
    ensures At(data, i, x) && At(data, i + |x|, y)
  {
    var e := x + y;
    forall k | 0 <= k < |x|
      ensures data[i + k] == x[k]
    {
      assert e[k] == x[k];
    }
    forall k | 0 <= k < |y|
      ensures data[i + |x| + k] == y[k]
    {
      assert data[i + (|x| + k)] == e[|x| + k] == y[k];
    }
  }

  /** A long-form header (prefix base + |L|, then L) announces `n` and is read back as `n`. */
  lemma LongHeaderDecodes(data: seq<Byte>, j: nat, n: nat)
    requires 56 <= n < TwoTo31
    requires At(data, j, MinimalBigEndian(n))
    ensures 1 <= |MinimalBigEndian(n)| <= 4
    ensures LongLength(data, j, |MinimalBigEndian(n)|) == Ok((n, j + |MinimalBigEndian(n)|))
  {
    LengthRoundTrip(n);
    LengthOfLength(n);
    AtIsSlice(data, j, MinimalBigEndian(n));
  }

  /** The header of a short encoded string announces its length and points just past the prefix. */
  lemma ShortStringHeader(lim: Limits, b: seq<Byte>, data: seq<Byte>, i: nat)
    requires !(|b| == 1 && b[0] < 128) && |b| < 56 && 128 + |b| < lim.shortString
    requires At(data, i, EncodeBytes(b))
    ensures i < |data| && data[i] == 128 + |b|
    ensures At(data, i + 1, b)
    ensures StringHeader(lim, data, i) == Ok((|b|, i + 1))
  {
    assert EncodeBytes(b) == [128 + |b|] + b;
    AtSplit(data, i, [128 + |b|], b);
    assert data[i + 0] == [128 + |b|][0];
  }

  /** Where the parts of a long encoded string sit: prefix, length bytes, string. */
  lemma LongStringLayout(b: seq<Byte>, data: seq<Byte>, i: nat)
    requires 56 <= |b| < TwoTo31
    requires At(data, i, EncodeBytes(b))
    ensures i < |data| && data[i] == 183 + |MinimalBigEndian(|b|)|
    ensures At(data, i + 1, MinimalBigEndian(|b|))
    ensures At(data, i + 1 + |MinimalBigEndian(|b|)|, b)
    ensures |EncodeBytes(b)| == 1 + |MinimalBigEndian(|b|)| + |b|
  {
    var m := MinimalBigEndian(|b|);
    EncodeBytesLong(b);
    AtHeader(data, i, 183 + |m|, m, b);
  }

  /** The header of a long string announces its length and points past the length bytes. */
  lemma LongStringHeader(lim: Limits, b: seq<Byte>, data: seq<Byte>, i: nat)
    requires 56 <= |b| < TwoTo31 && lim.shortString <= 184
    requires i < |data| && data[i] == 183 + |MinimalBigEndian(|b|)|
    requires At(data, i + 1, MinimalBigEndian(|b|))
    ensures 128 <= data[i] < 192
    ensures StringHeader(lim, data, i) == Ok((|b|, i + 1 + |MinimalBigEndian(|b|)|))
  {
    LongHeaderDecodes(data, i + 1, |b|);
  }

  /** A string whose header reads `(|b|, start)` and whose bytes `b` sit at `start` decodes to `b`. */
  lemma StringBody(lim: Limits, b: seq<Byte>, data: seq<Byte>, i: nat, start: nat)
    requires i < |data| && 128 <= data[i] < 192
    requires StringHeader(lim, data, i) == Ok((|b|, start)) && At(data, start, b)
    ensures DecodeAt(lim, data, i) == Ok((DBytes(b), start + |b|))
  {
    AtIsSlice(data, start, b);
    assert Take(data, start, |b|) == Ok(b);
  }

  /** Decoding an encoded byte string at offset `i`. */
  lemma DecodeEncodedBytes(lim: Limits, b: seq<Byte>, data: seq<Byte>, i: nat)
    requires ValidLimits(lim) && |b| < TwoTo31 && (|b| < 56 ==> 128 + |b| < lim.shortString)
    requires At(data, i, EncodeBytes(b))
    ensures DecodeAt(lim, data, i) == Ok((Expected(Bytes(b)), i + |EncodeBytes(b)|))
  {
    if |b| == 1 && b[0] < 128 {
      assert data[i] == EncodeBytes(b)[0];
    } else if |b| < 56 {
      ShortStringHeader(lim, b, data, i);
      StringBody(lim, b, data, i, i + 1);
    } else {
      LongStringLayout(b, data, i);
      LongStringHeader(lim, b, data, i);
      StringBody(lim, b, data, i, i + 1 + |MinimalBigEndian(|b|)|);
    }
  }

  /** Where the payload of an encoded list begins. */
  function PayloadStart(concatenation: seq<Byte>, i: nat): nat
  {
    i + |EncodeList(concatenation)| - |concatenation|
  }

  /** Where the parts of an encoded list sit: prefix, length bytes if any, payload. */
  lemma ListLayout(c: seq<Byte>, data: seq<Byte>, i: nat)
    requires |c| < TwoTo31
    requires At(data, i, EncodeList(c))
    ensures i < |data|
    ensures |c| < 56 ==> data[i] == 192 + |c| && PayloadStart(c, i) == i + 1
    ensures |c| >= 56 ==> data[i] == 247 + |MinimalBigEndian(|c|)| && At(data, i + 1, MinimalBigEndian(|c|))
                          && PayloadStart(c, i) == i + 1 + |MinimalBigEndian(|c|)|
    ensures At(data, PayloadStart(c, i), c)
  {
    if |c| < 56 {
      ShortListLayout(c, data, i);
    } else {
      LongListLayout(c, data, i);
    }
  }

  lemma ShortListLayout(c: seq<Byte>, data: seq<Byte>, i: nat)
    requires |c| < 56
    requires At(data, i, EncodeList(c))
    ensures i < |data| && data[i] == 192 + |c| && PayloadStart(c, i) == i + 1
    ensures At(data, i + 1, c)
  {
    assert EncodeList(c) == [192 + |c|] + c;
    AtSplit(data, i, [192 + |c|], c);
    assert data[i + 0] == [192 + |c|][0];
  }

  lemma LongListLayout(c: seq<Byte>, data: seq<Byte>, i: nat)
    requires 56 <= |c| < TwoTo31
    requires At(data, i, EncodeList(c))
    ensures i < |data| && data[i] == 247 + |MinimalBigEndian(|c|)| && At(data, i + 1, MinimalBigEndian(|c|))
    ensures PayloadStart(c, i) == i + 1 + |MinimalBigEndian(|c|)|
    ensures At(data, PayloadStart(c, i), c)
  {
    var m := MinimalBigEndian(|c|);
    EncodeListLong(c);
    AtHeader(data, i, 247 + |m|, m, c);
  }

  /** The header of an encoded list announces the payload length and points at the payload. */
  lemma EncodedListHeader(lim: Limits, c: seq<Byte>, data: seq<Byte>, i: nat)
    requires ValidLimits(lim) && |c| < TwoTo31 && (|c| < 56 ==> 192 + |c| < lim.shortList)
    requires At(data, i, EncodeList(c))
    ensures i < |data| && 192 <= data[i]
    ensures At(data, PayloadStart(c, i), c)
    ensures ListHeader(lim, data, i) == Ok((|c|, PayloadStart(c, i)))
  {
    ListLayout(c, data, i);
    if |c| >= 56 {
      LongHeaderDecodes(data, i + 1, |c|);
    }
  }

  /** The header of an encoded list sends the decoder to its item loop over exactly the payload. */
  lemma DecodeListHeader(lim: Limits, data: seq<Byte>, i: nat, n: int, start: nat, items: seq<Decoded>)
    requires i < |data| && 192 <= data[i]
    requires ListHeader(lim, data, i) == Ok((n, start))
    requires DecodeItems(lim, data, start, start + n, []) == Ok((Collapse([] + items), start + n))
    ensures DecodeAt(lim, data, i) == Ok((Collapse(items), start + n))
  {
    assert [] + items == items;
  }

  /** The empty payload: the loop does not run. */
  lemma DecodeItemsEmpty(lim: Limits, data: seq<Byte>, index: nat, result: seq<Decoded>)
    requires index <= |data|
    ensures EncodeConcat([]) == Ok([])
    ensures DecodeItems(lim, data, index, index + 0, result) == Ok((Collapse(result + ExpectedSeq([])), index + 0))
  {
    assert result + ExpectedSeq([]) == result;
  }

  /** One turn of the item loop: an item decoded at `index`, then the rest of the loop from where it ended. */
  lemma DecodeItemsStep(lim: Limits, data: seq<Byte>, index: nat, end: int, result: seq<Decoded>,
                        item: Decoded, next: nat, rest: seq<Decoded>)
    requires index <= |data| && index < end
    requires DecodeAt(lim, data, index) == Ok((item, next))
    requires DecodeItems(lim, data, next, end, result + [item]) == Ok((Collapse(result + [item] + rest), end))
    ensures DecodeItems(lim, data, index, end, result) == Ok((Collapse(result + ([item] + rest)), end))
  {
    assert result + [item] + rest == result + ([item] + rest);
  }

  /**
   * The round trip with the Yellow Paper's boundaries: decoding the encoding
   * of an item, wherever it sits in the input, yields `Expected(item)` and
   * leaves the cursor just past the encoding. The only condition is the one
   * the decoder's int32 lengths impose: the encoding is shorter than 2^31.
   */
  lemma {:induction false} DecodeEncoded(item: Item, e: seq<Byte>, data: seq<Byte>, i: nat)
    requires Encode(item) == Ok(e) && |e| < TwoTo31
    requires At(data, i, e)
    ensures DecodeAt(YellowPaper, data, i) == Ok((Expected(item), i + |e|))
    decreases Size(item), 1
  {
    match item
    case Bytes(b) =>
      DecodeEncodedString(b, e, data, i);
    case Integer(v) =>
      DecodeEncodedInteger(v, e, data, i);
    case Sequence(items) =>
      DecodeEncodedList(items, e, data, i);
  }

  /** With the Yellow Paper's boundaries every byte string shorter than 2^31 is read back. */
  lemma DecodeEncodedString(b: seq<Byte>, e: seq<Byte>, data: seq<Byte>, i: nat)
    requires Encode(Bytes(b)) == Ok(e) && |e| < TwoTo31
    requires At(data, i, e)
    ensures DecodeAt(YellowPaper, data, i) == Ok((Expected(Bytes(b)), i + |e|))
  {
    DecodeEncodedBytes(YellowPaper, b, data, i);
  }

  /** An integer item is read back as the byte string it was encoded as. */
  lemma DecodeEncodedInteger(v: int, e: seq<Byte>, data: seq<Byte>, i: nat)
    requires Encode(Integer(v)) == Ok(e)
    requires At(data, i, e)
    ensures DecodeAt(YellowPaper, data, i) == Ok((Expected(Integer(v)), i + |e|))
  {
    var b := IntegerEncoding(v, e);
    DecodeEncodedBytes(YellowPaper, b, data, i);
  }

  /** An integer that encodes is a byte value, encoded as its minimal big-endian string. */
  lemma IntegerEncoding(v: int, e: seq<Byte>) returns (b: seq<Byte>)
    requires Encode(Integer(v)) == Ok(e)
    ensures 0 <= v < 256 && |b| <= 1 && BigEndianValue(b) == v
    ensures e == EncodeBytes(b) && Expected(Integer(v)) == Expected(Bytes(b))
  {
    b := MinimalBigEndian(v);
    MinimalLength(v, 1);
  }

  /** The round trip for a list: its header, then the item loop over its payload. */
  lemma {:induction false} DecodeEncodedList(items: seq<Item>, e: seq<Byte>, data: seq<Byte>, i: nat)
    requires Encode(Sequence(items)) == Ok(e) && |e| < TwoTo31
    requires At(data, i, e)
    ensures DecodeAt(YellowPaper, data, i) == Ok((Expected(Sequence(items)), i + |e|))
    decreases SizeSeq(items), 3
  {
    var c := ListEncoding(items, e);
    var start := PayloadStart(c, i);
    EncodedListHeader(YellowPaper, c, data, i);
    DecodeItemsEncoded(items, c, data, start, []);
    DecodeListHeader(YellowPaper, data, i, |c|, start, ExpectedSeq(items));
  }

  /** The encoding of a list is the list header around the concatenation of its items' encodings. */
  lemma ListEncoding(items: seq<Item>, e: seq<Byte>) returns (c: seq<Byte>)
    requires Encode(Sequence(items)) == Ok(e)
    ensures EncodeConcat(items) == Ok(c) && e == EncodeList(c)
    ensures Expected(Sequence(items)) == Collapse(ExpectedSeq(items))
  {
    c := EncodeConcat(items).value;
  }

  /** The encoding of a non-empty list of items: the first item's encoding, then the rest's. */
  lemma EncodeConcatCons(items: seq<Item>, c: seq<Byte>) returns (head: seq<Byte>, tail: seq<Byte>)
    requires items != [] && EncodeConcat(items) == Ok(c)
    ensures Encode(items[0]) == Ok(head) && EncodeConcat(items[1..]) == Ok(tail) && c == head + tail
    ensures |head| >= 1
    ensures ExpectedSeq(items) == [Expected(items[0])] + ExpectedSeq(items[1..])
  {
    head, tail := Encode(items[0]).value, EncodeConcat(items[1..]).value;
  }

  /** The list loop reads back every item of an encoded concatenation and stops exactly at its end. */
  lemma {:induction false} DecodeItemsEncoded(items: seq<Item>, c: seq<Byte>, data: seq<Byte>, index: nat,
                                              result: seq<Decoded>)
    requires EncodeConcat(items) == Ok(c) && |c| < TwoTo31
    requires At(data, index, c)
    ensures DecodeItems(YellowPaper, data, index, index + |c|, result)
            == Ok((Collapse(result + ExpectedSeq(items)), index + |c|))
    decreases SizeSeq(items), 2
  {
    if items == [] {
      DecodeItemsEmpty(YellowPaper, data, index, result);
    } else {
      var head, tail := EncodeConcatCons(items, c);
      AtSplit(data, index, head, tail);
      DecodeEncoded(items[0], head, data, index);
      DecodeItemsEncoded(items[1..], tail, data, index + |head|, result + [Expected(items[0])]);
      DecodeItemsStep(YellowPaper, data, index, index + |c|, result, Expected(items[0]), index + |head|,
                      ExpectedSeq(items[1..]));
    }
  }

  /** Deserialize(Serialize(item)) returns Expected(item) and consumes the whole encoding. */
  lemma SerializeDeserialize(item: Item, e: seq<Byte>)
    requires Encode(item) == Ok(e) && |e| < TwoTo31
    ensures DecodeAt(YellowPaper, e, 0) == Ok((Expected(item), |e|))
  {
    assert e[0..|e|] == e;
    AtIsSlice(e, 0, e);
    DecodeEncoded(item, e, e, 0);
  }

  /** The byte-string round trip of the code as written: every length but 55. */
  lemma ByteStringRoundTrip(b: seq<Byte>)
    requires |b| < TwoTo31 && |b| != 55
    ensures DecodeAt(AsWritten, EncodeBytes(b), 0) == Ok((Expected(Bytes(b)), |EncodeBytes(b)|))
  {
    var e := EncodeBytes(b);
    assert e[0..|e|] == e;
    AtIsSlice(e, 0, e);
    DecodeEncodedBytes(AsWritten, b, e, 0);
  }

  /**
   * The code as written reads prefix 183 (a 55-byte string) as a long string
   * whose length has zero bytes: it yields the empty string and consumes one byte.
   */
  lemma FiftyFiveByteStringMisread(b: seq<Byte>)
    requires |b| == 55
    ensures EncodeBytes(b)[0] == 183
    ensures DecodeAt(AsWritten, EncodeBytes(b), 0) == Ok((DBytes([]), 1))
  {
    var e := EncodeBytes(b);
    assert Take(e, 1, 0) == Ok([]);
    assert DeserializeLength([]) == Ok(0) by { ZerosValue(4); }
  }

  /**
   * Likewise prefix 247 (a list whose payload is 55 bytes) is read as a long
   * list whose length has zero bytes: the empty list, one byte consumed.
   */
  lemma FiftyFiveByteListMisread(concatenation: seq<Byte>)
    requires |concatenation| == 55
    ensures EncodeList(concatenation)[0] == 247
    ensures DecodeAt(AsWritten, EncodeList(concatenation), 0) == Ok((DArray([]), 1))
  {
    var e := EncodeList(concatenation);
    assert Take(e, 1, 0) == Ok([]);
    assert DeserializeLength([]) == Ok(0) by { ZerosValue(4); }
  }

  /** A single byte below 128 decodes to a one-element array holding it. */
  lemma DecodeSingleByte(lim: Limits, data: seq<Byte>, i: nat)
    requires i < |data| && data[i] < 128
    ensures DecodeAt(lim, data, i) == Ok((DArray([DByte(data[i])]), i + 1))
  {
  }

  /** A list with exactly one item decodes to that item itself. */
  lemma DecodeSingletonList(item: Item, e: seq<Byte>)
    requires Encode(Sequence([item])) == Ok(e) && |e| < TwoTo31
    ensures DecodeAt(YellowPaper, e, 0).Ok?
    ensures DecodeAt(YellowPaper, e, 0).value.0 == Expected(item)
  {
    SerializeDeserialize(Sequence([item]), e);
    assert ExpectedSeq([item]) == [Expected(item)];
  }
}
