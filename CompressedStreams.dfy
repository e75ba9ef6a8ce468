/**
  HotSpot's compressed streams as the debugger scripts read them: the
  variable-length unsigned integer (at most five bytes, 64 "high codes"
  that continue a value and 192 "low codes" that end it), its zig-zag
  signed form, the compressed line-number pairs, and the cursor classes
  that walk a byte image while updating their position.

  The memory image is a sequence of bytes; an address is an index into it.
 */
module CompressedStreams {
  import opened Wrappers

  /** One byte of the inspected memory image. */
  type Byte = b: int | 0 <= b < 256

  const LgH: nat := 6
  /** Number of high codes, 1 << LgH. */
  const H: nat := 64
  /** Number of low codes, (1 << 8) - H: a byte below L ends an integer. */
  const L: nat := 192
  /** Index of the last byte an integer may occupy. */
  const MaxI: nat := 4

  const JuintModulus: nat := 0x1_0000_0000
  const JintMin: int := -0x8000_0000
  const JintMax: int := 0x7FFF_FFFF

  /** 2^n: a left shift by n bits multiplies by this. */
  function Pow2(n: nat): (r: nat)
    ensures r > 0
  {
    if n == 0 then 1 else 2 * Pow2(n - 1)
  }

  /** 64^i: the weight of byte b_i of an encoded integer. */
  function Weight(i: nat): (w: nat)
    ensures w > 0
  {
    if i == 0 then 1 else H * Weight(i - 1)
  }

  lemma Pow2PlusLgH(n: nat)
    ensures Pow2(n + LgH) == H * Pow2(n)
  {
    calc {
      Pow2(n + 6);
      2 * Pow2(n + 5);
      4 * Pow2(n + 4);
      8 * Pow2(n + 3);
      16 * Pow2(n + 2);
      32 * Pow2(n + 1);
      64 * Pow2(n);
    }
  }

  /** The weight of byte b_i is 1 shifted left by lg_H * i, the shift read_int_mb applies. */
  lemma {:induction false} WeightIsPow2(i: nat)
    ensures Weight(i) == Pow2(LgH * i)
  {
    if i > 0 {
      WeightIsPow2(i - 1);
      Pow2PlusLgH(LgH * (i - 1));
    }
  }

  // ---------------------------------------------------------------------
  // Unsigned integers
  // ---------------------------------------------------------------------

  /** A value read at some address and the address just past its last byte. */
  datatype Decoded = Decoded(value: int, next: int)

  /**
    The tail of read_int_mb: bytes b_0 .. b_(i-1) of the integer that starts
    at `start` are already summed into `sum`; read b_i, add b_i << (6 * i), and
    stop at a low code or at byte MaxI. None when b_i lies outside the image.
   */
  function ReadIntMbFrom(mem: seq<Byte>, start: int, i: nat, sum: int): (r: Option<Decoded>)
    requires 1 <= i <= MaxI
    ensures r.Some? ==> start + i < r.value.next <= |mem| && r.value.next <= start + MaxI + 1
    decreases MaxI - i
  {
    if !(0 <= start + i < |mem|) then None
    else
      var b := mem[start + i];
      var s := sum + b * Weight(i);
      if b < L || i == MaxI then Some(Decoded(s, start + i + 1))
      else ReadIntMbFrom(mem, start, i + 1, s)
  }

  /** One step of read_int_mb: byte i is added at weight 64^i, and reading stops or goes on to byte i + 1. */
  lemma ReadIntMbFromStep(mem: seq<Byte>, start: int, i: nat, sum: int, sum': int)
    requires 1 <= i <= MaxI && 0 <= start + i < |mem|
    requires sum' == sum + mem[start + i] * Weight(i)
    ensures mem[start + i] < L || i == MaxI ==> ReadIntMbFrom(mem, start, i, sum) == Some(Decoded(sum', start + i + 1))
    ensures mem[start + i] >= L && i < MaxI ==> ReadIntMbFrom(mem, start, i, sum) == ReadIntMbFrom(mem, start, i + 1, sum')
  {
  }

  /** read_int: the unsigned integer whose first byte is at address `at`. */
  function ReadIntAt(mem: seq<Byte>, at: int): (r: Option<Decoded>)
    ensures r.Some? ==> at < r.value.next <= |mem| && r.value.next <= at + MaxI + 1
  {
    if !(0 <= at < |mem|) then None
    else if mem[at] < L then Some(Decoded(mem[at], at + 1))
    else ReadIntMbFrom(mem, at, 1, mem[at])
  }

  /** The number a byte sequence stands for: the sum of bs[i] * 64^i. */
  function WeightedSum(bs: seq<Byte>): int
  {
    if bs == [] then 0 else bs[0] + H * WeightedSum(bs[1..])
  }

  /**
    A complete encoded integer: one to MaxI + 1 bytes, every byte but the last
    a high code, and the last a low code unless it is byte MaxI.
   */
  ghost predicate IsEncoding(bs: seq<Byte>)
  {
    && 1 <= |bs| <= MaxI + 1
    && (forall k :: 0 <= k < |bs| - 1 ==> bs[k] >= L)
    && (bs[|bs| - 1] < L || |bs| == MaxI + 1)
  }

  lemma {:induction false} WeightedSumSnoc(bs: seq<Byte>, b: Byte)
    ensures WeightedSum(bs + [b]) == WeightedSum(bs) + b * Weight(|bs|)
  {
    if bs == [] {
      assert bs + [b] == [b];
      assert [b][1..] == [];
    } else {
      assert (bs + [b])[1..] == bs[1..] + [b];
      WeightedSumSnoc(bs[1..], b);
      var t, w := WeightedSum(bs[1..]), Weight(|bs| - 1);
      assert WeightedSum(bs + [b]) == bs[0] + H * (t + b * w);
      assert b * Weight(|bs|) == H * (b * w);
    }
  }

  /** Extending a prefix of the image by one byte adds that byte at its weight. */
  lemma PrefixSumStep(mem: seq<Byte>, start: int, i: nat)
    requires 0 <= start && start + i < |mem|
    ensures WeightedSum(mem[start..start + i + 1]) == WeightedSum(mem[start..start + i]) + mem[start + i] * Weight(i)
  {
    assert mem[start..start + i + 1] == mem[start..start + i] + [mem[start + i]];
    WeightedSumSnoc(mem[start..start + i], mem[start + i]);
  }

  /** What the continuation loop of read_int_mb returns is an encoding and the number it stands for. */
  lemma {:induction false} ReadIntMbFromSound(mem: seq<Byte>, start: int, i: nat, sum: int)
    requires 1 <= i <= MaxI && 0 <= start && start + i <= |mem|
    requires forall k :: start <= k < start + i ==> mem[k] >= L
    requires sum == WeightedSum(mem[start..start + i])
    ensures var r := ReadIntMbFrom(mem, start, i, sum);
      r.Some? ==> IsEncoding(mem[start..r.value.next]) && r.value.value == WeightedSum(mem[start..r.value.next])
    decreases MaxI - i
  {
    if start + i < |mem| {
      var b := mem[start + i];
      var s := sum + b * Weight(i);
      PrefixSumStep(mem, start, i);
      ReadIntMbFromStep(mem, start, i, sum, s);
      if b < L || i == MaxI {
        var bs := mem[start..start + i + 1];
        assert forall k :: 0 <= k < |bs| - 1 ==> bs[k] == mem[start + k];
      } else {
        ReadIntMbFromSound(mem, start, i + 1, s);
      }
    }
  }

  /** The continuation loop of read_int_mb finds every encoding that starts at `start`. */
  lemma {:induction false} ReadIntMbFromComplete(mem: seq<Byte>, start: int, i: nat, sum: int, n: int)
    requires 1 <= i <= MaxI && 0 <= start && start + i < n <= |mem|
    requires sum == WeightedSum(mem[start..start + i])
    requires IsEncoding(mem[start..n])
    ensures ReadIntMbFrom(mem, start, i, sum) == Some(Decoded(WeightedSum(mem[start..n]), n))
    decreases MaxI - i
  {
    var b := mem[start + i];
    var s := sum + b * Weight(i);
    PrefixSumStep(mem, start, i);
    ReadIntMbFromStep(mem, start, i, sum, s);
    assert mem[start..n][i] == b;
    if b >= L && i < MaxI {
      ReadIntMbFromComplete(mem, start, i + 1, s, n);
    } else {
      assert mem[start..n] == mem[start..start + i + 1];
    }
  }

  /**
    read_int returns a value exactly when the bytes at `at` begin with a
    complete encoding, and then returns the number that encoding stands for
    and the address just past it; encodings are prefix-free, so there is at
    most one.
   */
  lemma ReadIntAtSpec(mem: seq<Byte>, at: int)
    ensures var r := ReadIntAt(mem, at);
      r.Some? ==> IsEncoding(mem[at..r.value.next]) && r.value.value == WeightedSum(mem[at..r.value.next])
    ensures forall n :: 0 <= at < n <= |mem| && IsEncoding(mem[at..n]) ==>
      ReadIntAt(mem, at) == Some(Decoded(WeightedSum(mem[at..n]), n))
  {
    if 0 <= at < |mem| {
      var b0 := mem[at];
      assert mem[at..at + 1] == [b0];
      assert WeightedSum([b0]) == b0 by { assert [b0][1..] == []; }
      if b0 < L {
        forall n | at < n <= |mem| && IsEncoding(mem[at..n])
          ensures n == at + 1
        {
          assert mem[at..n][0] == b0;
        }
      } else {
        ReadIntMbFromSound(mem, at, 1, b0);
        forall n | at < n <= |mem| && IsEncoding(mem[at..n])
          ensures ReadIntAt(mem, at) == Some(Decoded(WeightedSum(mem[at..n]), n))
        {
          assert mem[at..n][0] == b0;
          ReadIntMbFromComplete(mem, at, 1, b0, n);
        }
      }
    }
  }

  lemma {:induction false} WeightedSumBound(bs: seq<Byte>)
    ensures 0 <= 63 * WeightedSum(bs) <= 255 * (Weight(|bs|) - 1)
  {
    if bs != [] {
      WeightedSumBound(bs[1..]);
      assert Weight(|bs|) == H * Weight(|bs| - 1);
    }
  }

  /**
    A decoded integer never exceeds 4346097855, the value of five bytes 0xFF;
    that is above the 32-bit range the source's jint sum holds.
   */
  lemma ReadIntAtBound(mem: seq<Byte>, at: int)
    requires ReadIntAt(mem, at).Some?
    ensures 0 <= ReadIntAt(mem, at).value.value <= 4346097855
  {
    var d := ReadIntAt(mem, at).value;
    ReadIntAtSpec(mem, at);
    var bs := mem[at..d.next];
    WeightedSumBound(bs);
    assert Weight(|bs|) <= Weight(5) by {
      var k := |bs|;
      assert 1 <= k <= 5;
      assert Weight(1) == 64 && Weight(2) == 4096 && Weight(3) == 262144;
      assert Weight(4) == 16777216 && Weight(5) == 1073741824;
    }
  }

  // ---------------------------------------------------------------------
  // The writer's encoding (HotSpot's CompressedWriteStream), the producer
  // of the bytes read above
  // ---------------------------------------------------------------------

  /** What may still be encoded from byte i on: 2^32 / 64^i. */
  function Capacity(i: nat): nat
  {
    if i == 0 then 0x1_0000_0000
    else if i == 1 then 0x400_0000
    else if i == 2 then 0x10_0000
    else if i == 3 then 0x4000
    else 0x100
  }

  /** write_int from byte i on: high codes L + (sum - L) % H until the rest is a low code or the last byte. */
  function EncodeFrom(sum: nat, i: nat): seq<Byte>
    requires i <= MaxI && sum < Capacity(i)
    decreases MaxI - i
  {
    if sum < L || i == MaxI then [sum]
    else [L + (sum - L) % H] + EncodeFrom((sum - L) / H, i + 1)
  }

  /** The bytes the writer produces for an unsigned 32-bit value. */
  function EncodeUnsigned(v: nat): seq<Byte>
    requires v < JuintModulus
  {
    EncodeFrom(v, 0)
  }

  /** One high code of write_int: the digit it carries and the rest still to write. */
  lemma EncodeStep(sum: nat, i: nat)
    requires i < MaxI && L <= sum < Capacity(i)
    ensures L <= L + (sum - L) % H < 256
    ensures (sum - L) / H < Capacity(i + 1)
    ensures L + (sum - L) % H + H * ((sum - L) / H) == sum
  {
  }

  /** write_int emits high codes followed by one low code, or five bytes in all. */
  lemma {:induction false} EncodeFromShape(sum: nat, i: nat)
    requires i <= MaxI && sum < Capacity(i)
    ensures var bs := EncodeFrom(sum, i);
      && 1 <= |bs| <= MaxI + 1 - i
      && (forall k :: 0 <= k < |bs| - 1 ==> bs[k] >= L)
      && (bs[|bs| - 1] < L || |bs| == MaxI + 1 - i)
    decreases MaxI - i
  {
    if sum >= L && i < MaxI {
      EncodeStep(sum, i);
      var rest := EncodeFrom((sum - L) / H, i + 1);
      EncodeFromShape((sum - L) / H, i + 1);
      var bs := EncodeFrom(sum, i);
      assert bs == [L + (sum - L) % H] + rest;
      assert forall k :: 1 <= k < |bs| ==> bs[k] == rest[k - 1];
    }
  }

  /** The bytes write_int emits stand for the value written. */
  lemma {:induction false} EncodeFromValue(sum: nat, i: nat)
    requires i <= MaxI && sum < Capacity(i)
    ensures WeightedSum(EncodeFrom(sum, i)) == sum
    decreases MaxI - i
  {
    if sum < L || i == MaxI {
      assert [sum as Byte][1..] == [];
    } else {
      EncodeStep(sum, i);
      var rest := EncodeFrom((sum - L) / H, i + 1);
      EncodeFromValue((sum - L) / H, i + 1);
      var bs := EncodeFrom(sum, i);
      assert bs == [L + (sum - L) % H] + rest;
      assert bs[1..] == rest;
    }
  }

  lemma WriterEncodes(v: nat)
    requires v < JuintModulus
    ensures IsEncoding(EncodeUnsigned(v)) && WeightedSum(EncodeUnsigned(v)) == v
  {
    EncodeFromShape(v, 0);
    EncodeFromValue(v, 0);
  }

  /** Reading back what the writer wrote for v gives v and stops right after it. */
  lemma EncodeUnsignedRoundTrip(mem: seq<Byte>, at: int, v: nat)
    requires v < JuintModulus
    requires 0 <= at && at + |EncodeUnsigned(v)| <= |mem|
    requires mem[at..at + |EncodeUnsigned(v)|] == EncodeUnsigned(v)
    ensures ReadIntAt(mem, at) == Some(Decoded(v, at + |EncodeUnsigned(v)|))
  {
    WriterEncodes(v);
    ReadIntAtSpec(mem, at);
  }

  /** A compressed unsigned int followed by more bytes reads back, and leaves the rest right after it. */
  lemma UnsignedThen(mem: seq<Byte>, at: int, v: nat, e: seq<Byte>, rest: seq<Byte>)
    requires v < JuintModulus && e == EncodeUnsigned(v)
    requires 0 <= at && at + |e + rest| <= |mem| && mem[at..at + |e + rest|] == e + rest
    ensures ReadIntAt(mem, at) == Some(Decoded(v, at + |e|))
    ensures mem[at + |e|..at + |e| + |rest|] == rest
  {
    assert mem[at..at + |e|] == (e + rest)[..|e|] == e;
    assert mem[at + |e|..at + |e| + |rest|] == (e + rest)[|e|..];
    EncodeUnsignedRoundTrip(mem, at, v);
  }

  /** Three unsigned ints written one after the other read back one after the other. */
  lemma ThreeUnsignedRoundTrip(mem: seq<Byte>, at: int, a: nat, b: nat, c: nat) returns (at1: int, at2: int)
    requires a < JuintModulus && b < JuintModulus && c < JuintModulus
    requires var record := EncodeUnsigned(a) + (EncodeUnsigned(b) + EncodeUnsigned(c));
      0 <= at && at + |record| <= |mem| && mem[at..at + |record|] == record
    ensures ReadIntAt(mem, at) == Some(Decoded(a, at1))
    ensures ReadIntAt(mem, at1) == Some(Decoded(b, at2))
    ensures ReadIntAt(mem, at2).Some? && ReadIntAt(mem, at2).value.value == c
  {
    var e0, e1, e2 := EncodeUnsigned(a), EncodeUnsigned(b), EncodeUnsigned(c);
    at1, at2 := at + |e0|, at + |e0| + |e1|;
    UnsignedThen(mem, at, a, e0, e1 + e2);
    UnsignedThen(mem, at1, b, e1, e2);
    EncodeUnsignedRoundTrip(mem, at2, c);
  }

  // ---------------------------------------------------------------------
  // read_int as the script spells it
  // ---------------------------------------------------------------------

  /** How a read_int call ends. */
  datatype ReadOutcome = Value(d: Decoded) | NameError | OutsideImage

  /**
    read_int exactly as written: after a high code b_1 the loop of
    read_int_mb advances its shift by the bare name `lg_H`, which no scope of
    that method defines (the constant is the class attribute of
    CompressedStream), so the call raises NameError before reading b_2.
   */
  function ReadIntAsWritten(mem: seq<Byte>, at: int): (r: ReadOutcome)
    ensures r.Value? ==> ReadIntAt(mem, at) == Some(r.d)
  {
    if !(0 <= at < |mem|) then OutsideImage
    else if mem[at] < L then Value(Decoded(mem[at], at + 1))
    else if !(at + 1 < |mem|) then OutsideImage
    else if mem[at + 1] < L then Value(Decoded(mem[at] + mem[at + 1] * H, at + 2))
    else NameError
  }

  /** The script fails exactly on the integers whose first two bytes are high codes. */
  lemma AsWrittenFailsOnLongIntegers(mem: seq<Byte>, at: int)
    ensures ReadIntAsWritten(mem, at) == NameError <==>
      0 <= at && at + 1 < |mem| && mem[at] >= L && mem[at + 1] >= L
  {
  }

  /** The bytes 0xC0 0xC0 0x00 encode 12480; the script raises NameError on them. */
  lemma AsWrittenCounterexample()
    ensures ReadIntAsWritten([192, 192, 0], 0) == NameError
    ensures ReadIntAt([192, 192, 0], 0) == Some(Decoded(12480, 3))
  {
    assert Weight(1) == 64 && Weight(2) == 4096;
  }

  /**
    Every value of 12480 or more is written with at least two leading high
    codes, so the script cannot read any of them back.
   */
  lemma AsWrittenFailsOnWriterOutput(mem: seq<Byte>, at: int, v: nat)
    requires 12480 <= v < JuintModulus
    requires 0 <= at && at + |EncodeUnsigned(v)| <= |mem|
    requires mem[at..at + |EncodeUnsigned(v)|] == EncodeUnsigned(v)
    ensures ReadIntAsWritten(mem, at) == NameError
  {
    EncodeStep(v, 0);
    var w := (v - L) / H;
    EncodeStep(w, 1);
    var bs := EncodeUnsigned(v);
    assert bs == [L + (v - L) % H] + ([L + (w - L) % H] + EncodeFrom((w - L) / H, 2));
    assert mem[at] == bs[0] && mem[at + 1] == bs[1];
  }

  // ---------------------------------------------------------------------
  // Signed integers
  // ---------------------------------------------------------------------

  /**
    decode_sign: cast to juint, then (v >> 1) ^ -(v & 1) read as a jint.
    XOR with 0 keeps v >> 1; XOR with all ones is the complement -(v >> 1) - 1.
   */
  function DecodeSign(value: int): (r: int)
    ensures JintMin <= r <= JintMax
  {
    var v := value % JuintModulus;
    if v % 2 == 0 then v / 2 else -(v / 2) - 1
  }

  /** The writer's encode_sign, (n << 1) ^ (n >> 31) read as a juint. */
  function EncodeSign(n: int): nat
    requires JintMin <= n <= JintMax
  {
    if n >= 0 then 2 * n else -2 * n - 1
  }

  /** decode_sign is the zig-zag decoding: it inverts encode_sign on every jint. */
  lemma ZigZagRoundTrip(n: int)
    requires JintMin <= n <= JintMax
    ensures EncodeSign(n) < JuintModulus && DecodeSign(EncodeSign(n)) == n
  {
  }

  /** ... and every 32-bit pattern decodes to a jint that encodes back to it. */
  lemma ZigZagOnto(value: int)
    ensures JintMin <= DecodeSign(value) <= JintMax
    ensures EncodeSign(DecodeSign(value)) == value % JuintModulus
  {
  }

  lemma ZigZagExamples()
    ensures DecodeSign(0) == 0 && DecodeSign(1) == -1 && DecodeSign(2) == 1 && DecodeSign(3) == -2
  {
  }

  // ---------------------------------------------------------------------
  // Line-number pairs
  // ---------------------------------------------------------------------

  /** One step of the line-number stream: the terminator, or the running pair after one more delta. */
  datatype PairStep = End(next: int) | Pair(bci: int, line: int, next: int)

  /**
    read_pair on the running pair (bci, line) with the tag byte at `at`:
    0 ends the table, 0xFF is followed by two signed deltas, any other tag
    carries a bci delta in its upper five bits and a line delta in its lower three.
   */
  function ReadPairAt(mem: seq<Byte>, at: int, bci: int, line: int): (r: Option<PairStep>)
    ensures r.Some? ==> at < r.value.next <= |mem|
  {
    if !(0 <= at < |mem|) then None
    else
      var tag := mem[at];
      if tag == 0 then Some(End(at + 1))
      else if tag == 0xFF then
        match ReadIntAt(mem, at + 1)
        case None => None
        case Some(db) =>
          match ReadIntAt(mem, db.next)
          case None => None
          case Some(dl) => Some(Pair(bci + DecodeSign(db.value), line + DecodeSign(dl.value), dl.next))
      else Some(Pair(bci + tag / 8, line + tag % 8, at + 1))
  }

  /** A (bci, line) pair as the running totals stand after one read_pair. */
  datatype LinePair = LinePair(bci: int, line: int)

  /** Every running pair from the tag at `at` up to the terminator; None when the table runs off the image. */
  function PairsFrom(mem: seq<Byte>, at: int, bci: int, line: int): Option<seq<LinePair>>
    decreases |mem| - at
  {
    match ReadPairAt(mem, at, bci, line)
    case None => None
    case Some(End(_)) => Some([])
    case Some(Pair(b, l, n)) =>
      match PairsFrom(mem, n, b, l)
      case None => None
      case Some(rest) => Some([LinePair(b, l)] + rest)
  }

  /** The pairs of the line-number table that starts at `at`, totals starting from (0, 0). */
  function LineTable(mem: seq<Byte>, at: int): Option<seq<LinePair>>
  {
    PairsFrom(mem, at, 0, 0)
  }

  /** read_pair on an escape tag adds the two signed ints that follow it. */
  lemma EscapedPairStep(mem: seq<Byte>, at: int, bci: int, line: int, ub: int, ul: int, nb: int, nl: int)
    requires 0 <= at < |mem| && mem[at] == 0xFF
    requires ReadIntAt(mem, at + 1) == Some(Decoded(ub, nb)) && ReadIntAt(mem, nb) == Some(Decoded(ul, nl))
    ensures ReadPairAt(mem, at, bci, line) == Some(Pair(bci + DecodeSign(ub), line + DecodeSign(ul), nl))
  {
  }

  /** A one-byte pair: read_pair takes the bci delta from the upper five bits and the line delta from the lower three. */
  lemma ShortPairRoundTrip(mem: seq<Byte>, at: int, bci: int, line: int, bciDelta: int, lineDelta: int)
    requires 0 <= bciDelta < 32 && 0 <= lineDelta < 8
    requires bciDelta * 8 + lineDelta != 0 && bciDelta * 8 + lineDelta != 0xFF
    requires 0 <= at < |mem| && mem[at] == bciDelta * 8 + lineDelta
    ensures ReadPairAt(mem, at, bci, line) == Some(Pair(bci + bciDelta, line + lineDelta, at + 1))
  {
  }

  /**
    An escaped pair: 0xFF followed by the zig-zag encodings of two jint
    deltas reads back exactly those deltas and stops after the second.
   */
  lemma EscapedPairRoundTrip(mem: seq<Byte>, at: int, bci: int, line: int, bciDelta: int, lineDelta: int, nb: int, nl: int)
    requires JintMin <= bciDelta <= JintMax && JintMin <= lineDelta <= JintMax
    requires 0 <= at < |mem| && mem[at] == 0xFF
    requires nb == at + 1 + |EncodeUnsigned(EncodeSign(bciDelta))| && nl == nb + |EncodeUnsigned(EncodeSign(lineDelta))| && nl <= |mem|
    requires mem[at + 1..nb] == EncodeUnsigned(EncodeSign(bciDelta)) && mem[nb..nl] == EncodeUnsigned(EncodeSign(lineDelta))
    ensures ReadPairAt(mem, at, bci, line) == Some(Pair(bci + bciDelta, line + lineDelta, nl))
  {
    var ub, ul := EncodeSign(bciDelta), EncodeSign(lineDelta);
    ZigZagRoundTrip(bciDelta);
    ZigZagRoundTrip(lineDelta);
    EncodeUnsignedRoundTrip(mem, at + 1, ub);
    EncodeUnsignedRoundTrip(mem, nb, ul);
    EscapedPairStep(mem, at, bci, line, ub, ul, nb, nl);
  }

  // ---------------------------------------------------------------------
  // The cursor classes
  // ---------------------------------------------------------------------

  /** CompressedReadStream: a byte cursor; positions count from the address `buffer`. */
  class CompressedReadStream {
    const mem: seq<Byte>
    const buffer: int
    var position: int

    constructor (mem: seq<Byte>, buffer: int, position: int)
      ensures this.mem == mem && this.buffer == buffer && this.position == position
    {
      this.mem := mem;
      this.buffer := buffer;
      this.position := position;
    }

    /** The address the next read takes its byte from. */
    function Cursor(): int
      reads this
    {
      buffer + position
    }

    method Read() returns (b: Byte)
      requires 0 <= Cursor() < |mem|
      modifies this
      ensures b == mem[old(Cursor())] && position == old(position) + 1
    {
      b := mem[buffer + position];
      position := position + 1;
    }

    /** read_byte: the next byte as a signed jbyte. */
    method ReadByte() returns (b: int)
      requires 0 <= Cursor() < |mem|
      modifies this
      ensures -128 <= b < 128 && b % 256 == mem[old(Cursor())] && position == old(position) + 1
    {
      var u: int := Read();
      b := if u < 128 then u else u - 256;
    }

    /** read_int_mb: b0, a high code, was just read; collect b_1 .. b_k. */
    method ReadIntMb(b0: Byte) returns (sum: int)
      requires 0 <= Cursor() - 1 < |mem| && mem[Cursor() - 1] == b0 && b0 >= L
      requires ReadIntMbFrom(mem, Cursor() - 1, 1, b0).Some?
      modifies this
      ensures var d := ReadIntMbFrom(mem, old(Cursor()) - 1, 1, b0).value;
        sum == d.value && Cursor() == d.next
    {
      var pos := position - 1;
      var start := buffer + pos;
      ghost var whole := ReadIntMbFrom(mem, start, 1, b0).value;
      sum := b0;
      var lgHi: nat := LgH;
      var i := 0;
      while true
        invariant 0 <= i < MaxI
        invariant Pow2(lgHi) == Weight(i + 1)
        invariant ReadIntMbFrom(mem, start, i + 1, sum) == Some(whole)
        invariant position == old(position)
        decreases MaxI - i
      {
        i := i + 1;
        var bi := mem[start + i];
        ghost var before := sum;
        sum := sum + bi * Pow2(lgHi);
        ReadIntMbFromStep(mem, start, i, before, sum);
        if bi < L || i == MaxI {
          position := pos + i + 1;
          return;
        }
        Pow2PlusLgH(lgHi);
        lgHi := lgHi + LgH;
      }
    }

    method ReadInt() returns (v: int)
      requires ReadIntAt(mem, Cursor()).Some?
      modifies this
      ensures var d := ReadIntAt(mem, old(Cursor())).value;
        v == d.value && Cursor() == d.next
    {
      var b0 := Read();
      if b0 < L {
        v := b0;
      } else {
        v := ReadIntMb(b0);
      }
    }

    method ReadSignedInt() returns (v: int)
      requires ReadIntAt(mem, Cursor()).Some?
      modifies this
      ensures var d := ReadIntAt(mem, old(Cursor())).value;
        v == DecodeSign(d.value) && Cursor() == d.next
    {
      var u := ReadInt();
      v := DecodeSign(u);
    }
  }

  /** CompressedLineNumberReadStream: a cursor plus the running (bci, line) totals. */
  class CompressedLineNumberReadStream {
    const stream: CompressedReadStream
    var bci: int
    var line: int

    constructor (mem: seq<Byte>, buffer: int)
      ensures fresh(stream) && stream.mem == mem && stream.buffer == buffer && stream.position == 0
      ensures bci == 0 && line == 0
    {
      stream := new CompressedReadStream(mem, buffer, 0);
      bci, line := 0, 0;
    }

    /** read_pair: false at the terminator; otherwise the totals advance by one delta. */
    method ReadPair() returns (more: bool)
      requires ReadPairAt(stream.mem, stream.Cursor(), bci, line).Some?
      modifies this, stream
      ensures match ReadPairAt(stream.mem, old(stream.Cursor()), old(bci), old(line)).value
        case End(n) => !more && stream.Cursor() == n && bci == old(bci) && line == old(line)
        case Pair(b, l, n) => more && stream.Cursor() == n && bci == b && line == l
    {
      var t := stream.ReadByte();
      var tag := (t + 256) % 256;
      if tag == 0 {
        return false;
      }
      if tag == 0xFF {
        var db := stream.ReadSignedInt();
        bci := bci + db;
        var dl := stream.ReadSignedInt();
        line := line + dl;
      } else {
        bci := bci + tag / 8;
        line := line + tag % 8;
      }
      return true;
    }
  }
}
