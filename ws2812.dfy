/** The WS2812 ("NeoPixel") wire format: how one colour becomes 24 bits in
    GRB order, most significant bit first, and how each bit becomes a
    high/low pulse pair. Also a reference decoder, which recovers the colours
    from a pulse train, and the lemmas that connect the two. */
module Ws2812 {
  import opened Results

  type Byte = x: nat | x < 256

  /** One LED colour; each channel is an unsigned 8-bit value. */
  datatype RGB = RGB(r: Byte, g: Byte, b: Byte)

  datatype PinState = Low | High

  /** One pulse of the remote-control peripheral: a pin level held for a
      number of ticks of the peripheral's counter clock. */
  datatype Pulse = Pulse(level: PinState, ticks: nat)

  /** The four pulses that make up the two bit symbols: a zero bit is
      `t0h` then `t0l`, a one bit is `t1h` then `t1l`. */
  datatype Timing = Timing(t0h: Pulse, t0l: Pulse, t1h: Pulse, t1l: Pulse)

  /** The protocol's pulse durations, in nanoseconds. */
  const T0H_NS: nat := 350
  const T0L_NS: nat := 800
  const T1H_NS: nat := 700
  const T1L_NS: nat := 600

  /** Both high pulses are high and both low pulses are low. */
  predicate WellLeveled(t: Timing) {
    t.t0h.level == High && t.t1h.level == High && t.t0l.level == Low && t.t1l.level == Low
  }

  /** A one bit and a zero bit can be told apart by their high pulse. */
  predicate Distinguishable(t: Timing) {
    t.t0h != t.t1h
  }

  // ---------------------------------------------------------------------
  // Bits and packing

  function Pow2(i: nat): (p: nat)
    ensures p > 0
  {
    if i == 0 then 1 else 2 * Pow2(i - 1)
  }

  lemma {:induction false} Pow2Add(a: nat, b: nat)
    ensures Pow2(a + b) == Pow2(a) * Pow2(b)
  {
    if b > 0 {
      Pow2Add(a, b - 1);
    }
  }

  /** The powers of two at the byte boundaries of a colour word. */
  lemma Pow2Bytes()
    ensures Pow2(8) == 0x100 && Pow2(16) == 0x1_0000 && Pow2(24) == 0x100_0000
  {
    assert Pow2(4) == 16;
    Pow2Add(4, 4);
    Pow2Add(8, 8);
    Pow2Add(16, 8);
  }

  /** Bit `i` of `w` is set (`BitIsMask` shows this is the mask test
      `2^i & w != 0`). */
  predicate Bit(w: nat, i: nat) {
    if i == 0 then w % 2 == 1 else Bit(w / 2, i - 1)
  }

  /** The low `n` bits of `x`, most significant first. */
  function Bits(x: nat, n: nat): (bs: seq<bool>)
    ensures |bs| == n
  {
    if n == 0 then [] else Bits(x / 2, n - 1) + [x % 2 == 1]
  }

  /** The number whose binary digits, most significant first, are `bs`. */
  function FromBits(bs: seq<bool>): (x: nat)
    ensures x < Pow2(|bs|)
  {
    if bs == [] then 0
    else 2 * FromBits(bs[..|bs| - 1]) + (if bs[|bs| - 1] then 1 else 0)
  }

  /** The 24-bit colour word: green in bits 23..16, red in bits 15..8,
      blue in bits 7..0. */
  function Pack(c: RGB): (w: nat)
    ensures w < 0x100_0000
  {
    c.g * 0x1_0000 + c.r * 0x100 + c.b
  }

  /** Splits a 24-bit word back into its green, red and blue bytes. */
  function Unpack(w: nat): (c: RGB)
    requires w < 0x100_0000
  {
    RGB((w / 0x100) % 0x100, w / 0x1_0000, w % 0x100)
  }

  // ---------------------------------------------------------------------
  // The pulse train

  /** The pulse pair for one bit: high pulse first, then low pulse. */
  function PairFor(bit: bool, t: Timing): (p: seq<Pulse>)
    ensures |p| == 2
    ensures WellLeveled(t) ==> p[0].level == High && p[1].level == Low
    ensures Distinguishable(t) ==> (p[0] == t.t1h <==> bit)
  {
    if bit then [t.t1h, t.t1l] else [t.t0h, t.t0l]
  }

  /** The pulses for a sequence of bits, one pair per bit, in order. */
  function BitPulses(bs: seq<bool>, t: Timing): (ps: seq<Pulse>)
    ensures |ps| == 2 * |bs|
  {
    if bs == [] then [] else PairFor(bs[0], t) + BitPulses(bs[1..], t)
  }

  /** The pulses for one colour: its packed word, bit 23 down to bit 0. */
  function ColorPulses(c: RGB, t: Timing): (ps: seq<Pulse>)
    ensures |ps| == 48
  {
    BitPulses(Bits(Pack(c), 24), t)
  }

  /** The whole signal: each colour's pulses, in list order, back to back. */
  function Train(cs: seq<RGB>, t: Timing): (ps: seq<Pulse>)
    ensures |ps| == 48 * |cs|
  {
    if cs == [] then [] else ColorPulses(cs[0], t) + Train(cs[1..], t)
  }

  // ---------------------------------------------------------------------
  // Reference decoder

  /** One bit per pulse pair: a pair whose high pulse is `t1h` is a one. */
  function DecodeBits(ps: seq<Pulse>, t: Timing): (bs: seq<bool>)
    requires |ps| % 2 == 0
    ensures |bs| == |ps| / 2
  {
    if ps == [] then [] else [ps[0] == t.t1h] + DecodeBits(ps[2..], t)
  }

  /** The colour carried by 48 pulses. */
  function DecodeColor(ps: seq<Pulse>, t: Timing): RGB
    requires |ps| == 48
  {
    Pow2Bytes();
    Unpack(FromBits(DecodeBits(ps, t)))
  }

  /** The colours of a train, 48 pulses per colour; `None` when the train
      does not split into whole colours. */
  function Decode(ps: seq<Pulse>, t: Timing): (r: Option<seq<RGB>>)
    ensures r.Some? <==> |ps| % 48 == 0
    decreases |ps|
  {
    if |ps| < 48 then
      if ps == [] then Some([]) else None
    else
      match Decode(ps[48..], t)
      case None => None
      case Some(rest) => Some([DecodeColor(ps[..48], t)] + rest)
  }

  // ---------------------------------------------------------------------
  // Lemmas about bits and packing

  lemma MulAtLeast(k: int, d: int)
    requires k >= 1 && d > 0
    ensures k * d >= d
  {
    assert k * d == (k - 1) * d + d;
  }

  lemma DivUnique(x: int, d: int, q: int, r: int)
    requires d > 0 && 0 <= r < d && x == q * d + r
    ensures x / d == q && x % d == r
  {
    var q', r' := x / d, x % d;
    assert x == q' * d + r';
    assert (q - q') * d == r' - r;
    if q > q' {
      MulAtLeast(q - q', d);
    } else if q' > q {
      MulAtLeast(q' - q, d);
    }
  }

  /** Dividing by `2^(i+1)` is halving and then dividing by `2^i`. */
  lemma DivPow2Succ(x: nat, i: nat)
    ensures x / Pow2(i + 1) == (x / 2) / Pow2(i)
  {
    var d := Pow2(i);
    var q, r1, r0 := (x / 2) / d, (x / 2) % d, x % 2;
    assert x / 2 == q * d + r1;
    assert x == (q * (2 * d)) + (2 * r1 + r0);
    DivUnique(x, 2 * d, q, 2 * r1 + r0);
  }

  /** `Bit` is the test the encoder applies: `w` divided by the mask `2^i`
      is odd exactly when bit `i` of `w` is set. */
  lemma {:induction false} BitIsMask(w: nat, i: nat)
    ensures Bit(w, i) <==> (w / Pow2(i)) % 2 == 1
  {
    if i > 0 {
      BitIsMask(w / 2, i - 1);
      DivPow2Succ(w, i - 1);
    }
  }

  /** The encoder's test `p & w != 0` with the single-bit mask `p = 2^i`:
      it holds exactly when bit `i` of `w` is set. */
  function MaskTest(w: nat, i: nat): (isSet: bool)
    ensures isSet == Bit(w, i)
  {
    var p := Pow2(i);
    BitIsMask(w, i);
    (w / p) % 2 == 1
  }

  /** Element `k` of the `n` bits of `x` is bit `n - 1 - k`: the sequence
      runs from the most significant bit down. */
  lemma {:induction false} BitsAt(x: nat, n: nat, k: nat)
    requires k < n
    ensures Bits(x, n)[k] == Bit(x, n - 1 - k)
  {
    if k < n - 1 {
      BitsAt(x / 2, n - 1, k);
    }
  }

  /** The bits of a word made of a high part above an `m`-bit low part are
      the high part's bits followed by the low part's. */
  lemma {:induction false} BitsConcat(hi: nat, lo: nat, n: nat, m: nat)
    requires lo < Pow2(m)
    ensures Bits(hi * Pow2(m) + lo, n + m) == Bits(hi, n) + Bits(lo, m)
  {
    if m == 0 {
      assert lo == 0;
    } else {
      var a := hi * Pow2(m - 1);
      assert hi * Pow2(m) == 2 * a;
      var w := hi * Pow2(m) + lo;
      assert w / 2 == a + lo / 2 && w % 2 == lo % 2;
      BitsConcat(hi, lo / 2, n, m - 1);
      assert Bits(w, n + m) == Bits(w / 2, n + m - 1) + [w % 2 == 1];
      assert Bits(lo, m) == Bits(lo / 2, m - 1) + [lo % 2 == 1];
    }
  }

  /** `BitsConcat` for a low part of one byte. */
  lemma BitsConcatByte(hi: nat, lo: Byte, n: nat)
    ensures Bits(hi * 0x100 + lo, n + 8) == Bits(hi, n) + Bits(lo, 8)
  {
    assert Pow2(8) == 0x100 by {
      Pow2Bytes();
    }
    BitsConcat(hi, lo, n, 8);
  }

  /** The 24 bits of a packed colour are green's 8 bits, then red's, then
      blue's, each most significant first. */
  lemma PackBits(c: RGB)
    ensures Bits(Pack(c), 24) == Bits(c.g, 8) + Bits(c.r, 8) + Bits(c.b, 8)
  {
    var gr := c.g * 0x100 + c.r;
    assert Pack(c) == gr * 0x100 + c.b;
    BitsConcatByte(gr, c.b, 16);
    BitsConcatByte(c.g, c.r, 8);
  }

  /** Bit `23 - k` of the packed word, the bit sent in pair `k`, is a bit of
      green for `k < 8`, of red for `8 <= k < 16` and of blue after that,
      each channel sent from its bit 7 down to its bit 0. */
  lemma PackBitOrder(c: RGB, k: nat)
    requires k < 24
    ensures Bit(Pack(c), 23 - k) ==
      if k < 8 then Bit(c.g, 7 - k)
      else if k < 16 then Bit(c.r, 15 - k)
      else Bit(c.b, 23 - k)
  {
    BitsAt(Pack(c), 24, k);
    PackBits(c);
    if k < 8 {
      BitsAt(c.g, 8, k);
    } else if k < 16 {
      BitsAt(c.r, 8, k - 8);
    } else {
      BitsAt(c.b, 8, k - 16);
    }
  }

  /** Packing keeps every channel: the fields can be read back. */
  lemma UnpackPack(c: RGB)
    ensures Unpack(Pack(c)) == c
  {
    var w := Pack(c);
    DivUnique(w, 0x1_0000, c.g, c.r * 0x100 + c.b);
    DivUnique(w, 0x100, c.g * 0x100 + c.r, c.b);
    DivUnique(c.g * 0x100 + c.r, 0x100, c.g, c.r);
  }

  /** The worked example: (r=1, g=2, b=4) packs to 0x020104, whose bits are
      00000010 00000001 00000100. */
  lemma PackExample()
    ensures Pack(RGB(1, 2, 4)) == 0x02_01_04
    ensures Bits(Pack(RGB(1, 2, 4)), 24) ==
      [false, false, false, false, false, false, true, false] +
      [false, false, false, false, false, false, false, true] +
      [false, false, false, false, false, true, false, false]
  {
    PackBits(RGB(1, 2, 4));
    assert Bits(2, 8) == [false, false, false, false, false, false, true, false];
    assert Bits(1, 8) == [false, false, false, false, false, false, false, true];
    assert Bits(4, 8) == [false, false, false, false, false, true, false, false];
  }

  /** Reading the bits back gives the number, for any number that fits. */
  lemma {:induction false} FromBitsBits(x: nat, n: nat)
    requires x < Pow2(n)
    ensures FromBits(Bits(x, n)) == x
  {
    if n > 0 {
      var bs := Bits(x, n);
      assert bs[..|bs| - 1] == Bits(x / 2, n - 1);
      FromBitsBits(x / 2, n - 1);
    }
  }

  // ---------------------------------------------------------------------
  // Lemmas about the pulse train

  lemma {:induction false} BitPulsesAppend(a: seq<bool>, b: seq<bool>, t: Timing)
    ensures BitPulses(a + b, t) == BitPulses(a, t) + BitPulses(b, t)
  {
    if a != [] {
      assert (a + b)[0] == a[0] && (a + b)[1..] == a[1..] + b;
      BitPulsesAppend(a[1..], b, t);
      calc {
        BitPulses(a + b, t);
        PairFor(a[0], t) + BitPulses(a[1..] + b, t);
        PairFor(a[0], t) + (BitPulses(a[1..], t) + BitPulses(b, t));
        BitPulses(a, t) + BitPulses(b, t);
      }
    } else {
      assert a + b == b;
    }
  }

  /** Pair `k` of the pulses for `bs` is the pair for `bs[k]`. */
  lemma {:induction false} BitPulsesAt(bs: seq<bool>, t: Timing, k: nat)
    requires k < |bs|
    ensures BitPulses(bs, t)[2 * k] == PairFor(bs[k], t)[0]
    ensures BitPulses(bs, t)[2 * k + 1] == PairFor(bs[k], t)[1]
  {
    var head, rest := PairFor(bs[0], t), BitPulses(bs[1..], t);
    assert BitPulses(bs, t) == head + rest;
    if k > 0 {
      BitPulsesAt(bs[1..], t, k - 1);
      assert bs[1..][k - 1] == bs[k];
      assert (head + rest)[2 * k] == rest[2 * (k - 1)];
      assert (head + rest)[2 * k + 1] == rest[2 * (k - 1) + 1];
    }
  }

  /** Emitting bits from bit 23 down: once bit `i` has been emitted, the
      pulses so far are those for bits 23 to `i + 1` followed by the pair
      for bit `i`. */
  lemma BitPulsesStep(x: nat, i: nat, t: Timing)
    requires i < 24
    ensures BitPulses(Bits(x, 24)[..24 - i], t) == BitPulses(Bits(x, 24)[..23 - i], t) + PairFor(Bit(x, i), t)
  {
    var bits := Bits(x, 24);
    BitsAt(x, 24, 23 - i);
    assert bits[..24 - i] == bits[..23 - i] + [bits[23 - i]];
    BitPulsesAppend(bits[..23 - i], [bits[23 - i]], t);
  }

  /** Colours are encoded in list order with nothing between them. */
  lemma {:induction false} TrainAppend(a: seq<RGB>, b: seq<RGB>, t: Timing)
    ensures Train(a + b, t) == Train(a, t) + Train(b, t)
  {
    if a != [] {
      assert (a + b)[0] == a[0] && (a + b)[1..] == a[1..] + b;
      TrainAppend(a[1..], b, t);
      calc {
        Train(a + b, t);
        ColorPulses(a[0], t) + Train(a[1..] + b, t);
        ColorPulses(a[0], t) + (Train(a[1..], t) + Train(b, t));
        Train(a, t) + Train(b, t);
      }
    } else {
      assert a + b == b;
    }
  }

  /** The train of the first `j + 1` colours extends that of the first `j`
      with the pulses of colour `j`. */
  lemma TrainStep(cs: seq<RGB>, j: nat, t: Timing)
    requires j < |cs|
    ensures Train(cs[..j + 1], t) == Train(cs[..j], t) + ColorPulses(cs[j], t)
  {
    assert cs[..j + 1] == cs[..j] + [cs[j]];
    TrainAppend(cs[..j], [cs[j]], t);
    assert Train([cs[j]], t) == ColorPulses(cs[j], t) + Train([], t);
  }

  /** Pulse `m` of colour `j` sits at position `48*j + m` of the train. */
  lemma {:induction false} TrainAt(cs: seq<RGB>, t: Timing, j: nat, m: nat)
    requires j < |cs| && m < 48
    ensures Train(cs, t)[48 * j + m] == ColorPulses(cs[j], t)[m]
  {
    var head, rest := ColorPulses(cs[0], t), Train(cs[1..], t);
    assert Train(cs, t) == head + rest;
    if j > 0 {
      TrainAt(cs[1..], t, j - 1, m);
      assert cs[1..][j - 1] == cs[j];
      assert (head + rest)[48 + (48 * (j - 1) + m)] == rest[48 * (j - 1) + m];
    }
  }

  /** Pulses `2*k` and `2*k + 1` of a colour are the pair for bit `23 - k`
      of its packed word. */
  lemma ColorPulsesPairAt(c: RGB, t: Timing, k: nat)
    requires k < 24
    ensures ColorPulses(c, t)[2 * k] == PairFor(Bit(Pack(c), 23 - k), t)[0]
    ensures ColorPulses(c, t)[2 * k + 1] == PairFor(Bit(Pack(c), 23 - k), t)[1]
  {
    BitPulsesAt(Bits(Pack(c), 24), t, k);
    BitsAt(Pack(c), 24, k);
  }

  /** Pair `k` of colour `j` sits at pulses `48*j + 2*k` and `48*j + 2*k + 1`
      and is the pair for bit `23 - k` of that colour's packed word: `t1h`
      then `t1l` when that bit is set, `t0h` then `t0l` otherwise. */
  lemma TrainPairAt(cs: seq<RGB>, t: Timing, j: nat, k: nat)
    requires j < |cs| && k < 24
    ensures Train(cs, t)[48 * j + 2 * k .. 48 * j + 2 * k + 2] == PairFor(Bit(Pack(cs[j]), 23 - k), t)
  {
    TrainAt(cs, t, j, 2 * k);
    TrainAt(cs, t, j, 2 * k + 1);
    ColorPulsesPairAt(cs[j], t, k);
    var pair := Train(cs, t)[48 * j + 2 * k .. 48 * j + 2 * k + 2];
    assert pair[0] == Train(cs, t)[48 * j + 2 * k];
    assert pair[1] == Train(cs, t)[48 * j + 2 * k + 1];
  }

  lemma {:induction false} BitPulsesLevels(bs: seq<bool>, t: Timing, m: nat)
    requires WellLeveled(t) && m < |BitPulses(bs, t)|
    ensures BitPulses(bs, t)[m].level == if m % 2 == 0 then High else Low
  {
    if m >= 2 {
      BitPulsesLevels(bs[1..], t, m - 2);
    }
  }

  /** With well-levelled timing pulses the train alternates high and low,
      starting high: every even pulse is high and every odd pulse low. */
  lemma {:induction false} TrainLevels(cs: seq<RGB>, t: Timing, m: nat)
    requires WellLeveled(t) && m < |Train(cs, t)|
    ensures Train(cs, t)[m].level == if m % 2 == 0 then High else Low
  {
    if m < 48 {
      BitPulsesLevels(Bits(Pack(cs[0]), 24), t, m);
    } else {
      TrainLevels(cs[1..], t, m - 48);
    }
  }

  /** Decoding the pulses of some bits gives those bits back, provided the
      two high pulses differ. */
  lemma {:induction false} DecodeBitPulses(bs: seq<bool>, t: Timing)
    requires Distinguishable(t)
    ensures DecodeBits(BitPulses(bs, t), t) == bs
  {
    if bs != [] {
      var ps := BitPulses(bs, t);
      assert ps[2..] == BitPulses(bs[1..], t);
      DecodeBitPulses(bs[1..], t);
    }
  }

  /** Decoding the 48 pulses of one colour gives that colour back. */
  lemma DecodeColorPulses(c: RGB, t: Timing)
    requires Distinguishable(t)
    ensures FromBits(DecodeBits(ColorPulses(c, t), t)) == Pack(c)
    ensures DecodeColor(ColorPulses(c, t), t) == c
  {
    DecodeBitPulses(Bits(Pack(c), 24), t);
    Pow2Bytes();
    FromBitsBits(Pack(c), 24);
    UnpackPack(c);
  }

  /** Decoding a colour's pulses followed by whole colours decodes the
      colour, then the rest. */
  lemma DecodeCons(c: RGB, rest: seq<Pulse>, t: Timing)
    requires Distinguishable(t) && |rest| % 48 == 0
    ensures Decode(ColorPulses(c, t) + rest, t) == Some([c] + Decode(rest, t).value)
  {
    var ps := ColorPulses(c, t) + rest;
    assert ps[..48] == ColorPulses(c, t);
    assert ps[48..] == rest;
    DecodeColorPulses(c, t);
    assert Decode(ps, t) == Some([c] + Decode(rest, t).value);
  }

  /** Round trip: decoding the train of any colour list gives the list back,
      provided the two high pulses differ. */
  lemma {:induction false} DecodeTrain(cs: seq<RGB>, t: Timing)
    requires Distinguishable(t)
    ensures Decode(Train(cs, t), t) == Some(cs)
  {
    if cs != [] {
      DecodeTrain(cs[1..], t);
      DecodeCons(cs[0], Train(cs[1..], t), t);
      assert [cs[0]] + cs[1..] == cs;
    }
  }

  /** Distinct colour lists give distinct trains. */
  lemma TrainInjective(a: seq<RGB>, b: seq<RGB>, t: Timing)
    requires Distinguishable(t) && Train(a, t) == Train(b, t)
    ensures a == b
  {
    DecodeTrain(a, t);
    DecodeTrain(b, t);
  }
}
