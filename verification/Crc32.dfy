/**
 The frame check sequence of device/rtl8139.cpp (section 3.2.9 of IEEE 802.3): the register
 loop, the receive check, and the bursts it is guaranteed to catch. The loop's 64-bit
 variable never exceeds 32 bits, so the register is a bv32.
 */
module Crc32 {

  const POLYNOMIAL: bv32 := 0xedb88320
  const ONES: bv32 := 0xffffffff

  predicate Odd(c: bv32) { c & 1 != 0 }

  function Halve(c: bv32): bv32 { c >> 1 }

  function Xor(a: bv32, b: bv32): bv32 { a ^ b }

  /** One pass of the inner loop. */
  function BitStep(c: bv32): bv32
  {
    if Odd(c) then Xor(Halve(c), POLYNOMIAL) else Halve(c)
  }

  function Shift(c: bv32, n: nat): bv32
    decreases n
  {
    if n == 0 then c else Shift(BitStep(c), n - 1)
  }

  function Wide(b: bv8): bv32 { b as bv32 }

  function Mix(c: bv32, b: bv8): bv32 { c ^ Wide(b) }

  function ByteStep(c: bv32, b: bv8): bv32
  {
    Shift(Mix(c, b), 8)
  }

  /** The register after a sequence of bytes. */
  function Register(c: bv32, data: seq<bv8>): bv32
    decreases |data|
  {
    if data == [] then c else Register(ByteStep(c, data[0]), data[1..])
  }

  function Invert(c: bv32): bv32 { c ^ ONES }

  function Crc(data: seq<bv8>): bv32 { Invert(Register(Invert(0), data)) }

  /** The inner loop on one byte. */
  method ProcessByte(c: bv32, b: bv8) returns (crc: bv32)
    ensures crc == ByteStep(c, b)
  {
    crc := Mix(c, b);
    ghost var start := crc;
    var k := 0;
    while k < 8
      invariant 0 <= k <= 8
      invariant Shift(crc, 8 - k) == Shift(start, 8)
    {
      assert Shift(crc, 8 - k) == Shift(BitStep(crc), 8 - k - 1);
      crc := if crc & 1 != 0 then (crc >> 1) ^ POLYNOMIAL else crc >> 1;
      k := k + 1;
    }
  }

  /** crc32iso_hdlc */
  method Crc32IsoHdlc(init: bv32, data: seq<bv8>) returns (crc: bv32)
    ensures crc == Invert(Register(Invert(init), data))
    ensures init == 0 ==> crc == Crc(data)
  {
    hide ByteStep, Invert;
    crc := Invert(init);
    ghost var start := crc;
    var i := 0;
    while i < |data|
      invariant 0 <= i <= |data|
      invariant Register(start, data) == Register(crc, data[i..])
    {
      assert data[i..][0] == data[i] && data[i..][1..] == data[i + 1..];
      crc := ProcessByte(crc, data[i]);
      i := i + 1;
    }
    crc := Invert(crc);
  }

  // ----- The step is injective -----

  lemma {:induction false} BitStepInjective(a: bv32, b: bv32)
    requires BitStep(a) == BitStep(b)
    ensures a == b
  {
  }

  lemma {:induction false} ShiftInjective(a: bv32, b: bv32, n: nat)
    requires Shift(a, n) == Shift(b, n)
    ensures a == b
    decreases n
  {
    hide BitStep;
    if n > 0 {
      ShiftInjective(BitStep(a), BitStep(b), n - 1);
      BitStepInjective(a, b);
    }
  }

  lemma {:induction false} XorInjective(a: bv32, b: bv32, x: bv32)
    requires Xor(a, x) == Xor(b, x) || Xor(x, a) == Xor(x, b)
    ensures a == b
  {
  }

  // ----- The register bit by bit -----

  function Bit(b: bool): bv32 { if b then 1 else 0 }

  /** The register after a sequence of bits, each entering at the lowest place. */
  function RegisterBits(c: bv32, bits: seq<bool>): bv32
    decreases |bits|
  {
    if bits == [] then c else RegisterBits(BitStep(Xor(c, Bit(bits[0]))), bits[1..])
  }

  lemma {:induction false} RegisterBitsInjective(a: bv32, b: bv32, bits: seq<bool>)
    requires RegisterBits(a, bits) == RegisterBits(b, bits)
    ensures a == b
    decreases |bits|
  {
    hide BitStep, Xor, Bit;
    if bits != [] {
      var x := Bit(bits[0]);
      RegisterBitsInjective(BitStep(Xor(a, x)), BitStep(Xor(b, x)), bits[1..]);
      BitStepInjective(Xor(a, x), Xor(b, x));
      XorInjective(a, b, x);
    }
  }

  lemma {:induction false} RegisterBitsSplit(c: bv32, a: seq<bool>, b: seq<bool>)
    ensures RegisterBits(c, a + b) == RegisterBits(RegisterBits(c, a), b)
    decreases |a|
  {
    hide BitStep, Xor, Bit;
    if a == [] {
      assert a + b == b;
    } else {
      assert (a + b)[0] == a[0] && (a + b)[1..] == a[1..] + b;
      RegisterBitsSplit(BitStep(Xor(c, Bit(a[0]))), a[1..], b);
    }
  }

  // ----- Up to 32 bits at once -----

  function Double(y: bv32): bv32 { y << 1 }

  predicate TopClear(y: bv32) { y & 0x8000_0000 == 0 }

  function Join(b: bool, y: bv32): bv32 { Xor(Bit(b), Double(y)) }

  /** The number whose binary digits, lowest first, are the given bits. */
  function Pack(bits: seq<bool>): bv32
    decreases |bits|
  {
    if bits == [] then 0 else Join(bits[0], Pack(bits[1..]))
  }

  /** The k highest bits of y are clear. */
  predicate Fits(y: bv32, k: nat)
    decreases k
  {
    k == 0 || (TopClear(y) && Fits(Double(y), k - 1))
  }

  lemma {:induction false} DoubleXor(y: bv32, z: bv32)
    ensures Double(Xor(y, z)) == Xor(Double(y), Double(z))
  {
  }

  lemma {:induction false} TopClearXor(y: bv32, z: bv32)
    requires TopClear(y) && TopClear(z)
    ensures TopClear(Xor(y, z))
  {
  }

  lemma {:induction false} FitsXor(y: bv32, z: bv32, k: nat)
    requires Fits(y, k) && Fits(z, k)
    ensures Fits(Xor(y, z), k)
    decreases k
  {
    hide TopClear, Double, Xor;
    if k > 0 {
      TopClearXor(y, z);
      DoubleXor(y, z);
      FitsXor(Double(y), Double(z), k - 1);
    }
  }

  /** One has 31 clear bits above it. */
  lemma {:induction false} OneFits()
    ensures Fits(1, 31)
  {
    assert Fits(0x40000000, 1);
    assert Fits(0x10000000, 3);
    assert Fits(0x4000000, 5);
    assert Fits(0x1000000, 7);
    assert Fits(0x400000, 9);
    assert Fits(0x100000, 11);
    assert Fits(0x40000, 13);
    assert Fits(0x10000, 15);
    assert Fits(0x4000, 17);
    assert Fits(0x1000, 19);
    assert Fits(0x400, 21);
    assert Fits(0x100, 23);
    assert Fits(0x40, 25);
    assert Fits(0x10, 27);
    assert Fits(0x4, 29);
  }

  lemma {:induction false} FitsLess(y: bv32, k: nat, n: nat)
    requires Fits(y, n) && k <= n
    ensures Fits(y, k)
    decreases k
  {
    hide TopClear, Double;
    if k > 0 {
      FitsLess(Double(y), k - 1, n - 1);
    }
  }

  lemma {:induction false} ZeroFits(k: nat)
    ensures Fits(0, k)
    decreases k
  {
    assert Double(0) == 0 && TopClear(0);
    hide Double, TopClear;
    if k > 0 {
      ZeroFits(k - 1);
    }
  }

  lemma {:induction false} BitFits(b: bool, k: nat)
    requires k <= 31
    ensures Fits(Bit(b), k)
  {
    hide Fits;
    if b {
      OneFits();
      FitsLess(1, k, 31);
    } else {
      ZeroFits(k);
    }
  }

  /** A packed sequence leaves the places above its own clear. */
  lemma {:induction false} PackFits(bits: seq<bool>)
    requires |bits| <= 32
    ensures Fits(Pack(bits), 32 - |bits|)
    decreases |bits|
  {
    hide TopClear, Double, Xor, Bit;
    if bits == [] {
      ZeroFits(32);
    } else {
      PackFits(bits[1..]);
      BitFits(bits[0], 32 - |bits|);
      FitsXor(Bit(bits[0]), Double(Pack(bits[1..])), 32 - |bits|);
    }
  }

  lemma {:induction false} JoinInjective(a: bool, y: bv32, b: bool, z: bv32)
    requires TopClear(y) && TopClear(z) && Join(a, y) == Join(b, z)
    ensures a == b && y == z
  {
  }

  lemma {:induction false} PackInjective(a: seq<bool>, b: seq<bool>)
    requires |a| == |b| <= 32 && Pack(a) == Pack(b)
    ensures a == b
    decreases |a|
  {
    hide TopClear, Double, Join;
    if a != [] {
      PackFits(a[1..]);
      PackFits(b[1..]);
      JoinInjective(a[0], Pack(a[1..]), b[0], Pack(b[1..]));
      PackInjective(a[1..], b[1..]);
      assert a == [a[0]] + a[1..] && b == [b[0]] + b[1..];
    }
  }

  lemma {:induction false} OddAlone(x: bv32, y: bv32)
    ensures Odd(Xor(x, Double(y))) == Odd(x)
  {
  }

  lemma {:induction false} RestHalves(x: bv32, y: bv32)
    requires TopClear(y)
    ensures Halve(Xor(x, Double(y))) == Xor(Halve(x), y)
  {
  }

  lemma {:induction false} XorAssociates(x: bv32, y: bv32, z: bv32)
    ensures Xor(x, Xor(y, z)) == Xor(Xor(x, y), z)
  {
  }

  lemma {:induction false} XorCommutes(x: bv32, y: bv32)
    ensures Xor(x, y) == Xor(y, x)
  {
  }

  lemma {:induction false} XorSwap(x: bv32, y: bv32, z: bv32)
    ensures Xor(Xor(x, y), z) == Xor(Xor(x, z), y)
  {
    hide Xor;
    XorAssociates(x, y, z);
    XorCommutes(y, z);
    XorAssociates(x, z, y);
  }

  /** Bits above the lowest pass through one step unchanged. */
  lemma {:induction false} BitStepSplit(x: bv32, y: bv32)
    requires TopClear(y)
    ensures BitStep(Xor(x, Double(y))) == Xor(BitStep(x), y)
  {
    hide Odd, Halve, Xor, Double, TopClear;
    OddAlone(x, y);
    RestHalves(x, y);
    XorSwap(Halve(x), y, POLYNOMIAL);
  }

  /** Feeding up to 32 bits one by one is adding them all and then shifting. */
  lemma {:induction false} BitsAreWord(c: bv32, bits: seq<bool>)
    requires |bits| <= 32
    ensures RegisterBits(c, bits) == Shift(Xor(c, Pack(bits)), |bits|)
    decreases |bits|
  {
    assert Xor(c, 0) == c;
    hide TopClear, Double, Bit, Xor, BitStep;
    if bits != [] {
      var x, y := Bit(bits[0]), Pack(bits[1..]);
      PackFits(bits[1..]);
      XorAssociates(c, x, Double(y));
      BitStepSplit(Xor(c, x), y);
      BitsAreWord(BitStep(Xor(c, x)), bits[1..]);
    }
  }

  // ----- Bytes -----

  /** The bits of a byte in the order they are sent, lowest first. */
  function Bits(b: bv8): (r: seq<bool>)
    ensures |r| == 8
  {
    [b & 1 != 0, b & 2 != 0, b & 4 != 0, b & 8 != 0, b & 16 != 0, b & 32 != 0, b & 64 != 0, b & 128 != 0]
  }

  function AllBits(data: seq<bv8>): (r: seq<bool>)
    ensures |r| == 8 * |data|
    decreases |data|
  {
    if data == [] then [] else Bits(data[0]) + AllBits(data[1..])
  }

  lemma {:induction false} AllBitsSplit(a: seq<bv8>, b: seq<bv8>)
    ensures AllBits(a + b) == AllBits(a) + AllBits(b)
    decreases |a|
  {
    hide Bits;
    if a == [] {
      assert a + b == b;
    } else {
      assert (a + b)[0] == a[0] && (a + b)[1..] == a[1..] + b;
      AllBitsSplit(a[1..], b);
    }
  }

  lemma {:induction false} BitsInjective(a: bv8, b: bv8)
    requires Bits(a) == Bits(b)
    ensures a == b
  {
    var s, t := Bits(a), Bits(b);
    assert s[0] == t[0] && s[1] == t[1] && s[2] == t[2] && s[3] == t[3];
    assert s[4] == t[4] && s[5] == t[5] && s[6] == t[6] && s[7] == t[7];
  }

  lemma {:induction false} AllBitsInjective(a: seq<bv8>, b: seq<bv8>)
    requires |a| == |b| && AllBits(a) == AllBits(b)
    ensures a == b
    decreases |a|
  {
    hide Bits;
    if a != [] {
      assert AllBits(a)[..8] == Bits(a[0]) && AllBits(b)[..8] == Bits(b[0]);
      assert AllBits(a)[8..] == AllBits(a[1..]) && AllBits(b)[8..] == AllBits(b[1..]);
      BitsInjective(a[0], b[0]);
      AllBitsInjective(a[1..], b[1..]);
      assert a == [a[0]] + a[1..] && b == [b[0]] + b[1..];
    }
  }

  /** A byte below the bytes above it. */
  function JoinByte(b: bv8, rest: bv32): bv32 { Mix(rest << 8, b) }

  lemma {:induction false} EightJoins(b: bv8, y: bv32)
    ensures var s := Bits(b);
      Join(s[0], Join(s[1], Join(s[2], Join(s[3], Join(s[4], Join(s[5], Join(s[6], Join(s[7], y))))))))
      == JoinByte(b, y)
  {
  }

  /** The bits of s from place k on, joined below y. */
  function JoinFrom(s: seq<bool>, k: nat, y: bv32): bv32
    decreases |s| - k
  {
    if k >= |s| then y else Join(s[k], JoinFrom(s, k + 1, y))
  }

  lemma {:induction false} PackAppend(s: seq<bool>, k: nat, rest: seq<bool>)
    requires k <= |s|
    ensures Pack((s + rest)[k..]) == JoinFrom(s, k, Pack(rest))
    decreases |s| - k
  {
    hide Join;
    var t := s + rest;
    if k == |s| {
      assert t[k..] == rest;
    } else {
      assert t[k..][0] == s[k] && t[k..][1..] == t[k + 1..];
      PackAppend(s, k + 1, rest);
    }
  }

  lemma {:induction false} EightFrom(s: seq<bool>, y: bv32)
    requires |s| == 8
    ensures JoinFrom(s, 0, y)
         == Join(s[0], Join(s[1], Join(s[2], Join(s[3], Join(s[4], Join(s[5], Join(s[6], Join(s[7], y))))))))
  {
    hide Join;
    assert JoinFrom(s, 6, y) == Join(s[6], Join(s[7], JoinFrom(s, 8, y)));
    assert JoinFrom(s, 4, y) == Join(s[4], Join(s[5], JoinFrom(s, 6, y)));
    assert JoinFrom(s, 2, y) == Join(s[2], Join(s[3], JoinFrom(s, 4, y)));
  }

  lemma {:induction false} PackByte(b: bv8, rest: seq<bool>)
    ensures Pack(Bits(b) + rest) == JoinByte(b, Pack(rest))
  {
    hide Join, Bits, JoinByte, Pack, JoinFrom;
    PackAppend(Bits(b), 0, rest);
    assert (Bits(b) + rest)[0..] == Bits(b) + rest;
    EightFrom(Bits(b), Pack(rest));
    EightJoins(b, Pack(rest));
  }

  lemma {:induction false} JoinByteZero(b: bv8)
    ensures JoinByte(b, 0) == Wide(b)
  {
  }

  lemma {:induction false} ByteStepIsBits(c: bv32, b: bv8)
    ensures ByteStep(c, b) == RegisterBits(c, Bits(b))
  {
    assert Mix(c, b) == Xor(c, Wide(b));
    hide Mix, Xor, Bits, Wide, Shift, JoinByte, Join;
    assert Bits(b) + [] == Bits(b);
    PackByte(b, []);
    JoinByteZero(b);
    BitsAreWord(c, Bits(b));
  }

  /** The loop over bytes is the loop over their bits. */
  lemma {:induction false} RegisterIsBits(c: bv32, data: seq<bv8>)
    ensures Register(c, data) == RegisterBits(c, AllBits(data))
    decreases |data|
  {
    hide ByteStep, Bits;
    if data != [] {
      ByteStepIsBits(c, data[0]);
      RegisterBitsSplit(c, Bits(data[0]), AllBits(data[1..]));
      RegisterIsBits(ByteStep(c, data[0]), data[1..]);
    }
  }

  // ----- The receive check -----

  /** The 32-bit number stored little-endian in four bytes. */
  function Word(b0: bv8, b1: bv8, b2: bv8, b3: bv8): bv32
  {
    JoinByte(b0, JoinByte(b1, JoinByte(b2, Wide(b3))))
  }

  lemma {:induction false} EmptyPack()
    ensures Pack([]) == 0
  {
  }

  lemma {:induction false} WordIsPack(b0: bv8, b1: bv8, b2: bv8, b3: bv8)
    ensures Word(b0, b1, b2, b3) == Pack(AllBits([b0, b1, b2, b3]))
  {
    hide JoinByte, Bits, Pack, Wide;
    assert [b0, b1, b2, b3][1..] == [b1, b2, b3] && [b1, b2, b3][1..] == [b2, b3];
    assert [b2, b3][1..] == [b3] && [b3][1..] == [];
    assert AllBits([b3]) == Bits(b3) + [];
    assert AllBits([b2, b3]) == Bits(b2) + AllBits([b3]);
    assert AllBits([b1, b2, b3]) == Bits(b1) + AllBits([b2, b3]);
    PackByte(b3, []);
    assert Pack([]) == 0 by { EmptyPack(); }
    JoinByteZero(b3);
    PackByte(b2, AllBits([b3]));
    PackByte(b1, AllBits([b2, b3]));
    PackByte(b0, AllBits([b1, b2, b3]));
  }

  /** The last four bytes of a frame as the stored checksum. */
  function Stored(frame: seq<bv8>): bv32
    requires |frame| >= 4
  {
    var n := |frame|;
    Word(frame[n - 4], frame[n - 3], frame[n - 2], frame[n - 1])
  }

  /** The comparison in handle_rx. */
  predicate Passes(frame: seq<bv8>)
  {
    |frame| >= 4 && Stored(frame) == Crc(frame[..|frame| - 4])
  }

  /** The register value every correct frame ends with. */
  function Residue(): bv32 { Shift(ONES, 32) }

  lemma {:induction false} XorOnes(c: bv32, w: bv32)
    ensures w == Invert(c) ==> Xor(c, w) == ONES
    ensures Xor(c, w) == ONES ==> w == Invert(c)
  {
  }

  lemma {:induction false} InvertZero()
    ensures Invert(0) == ONES
  {
  }

  /** The register over a frame whose last four bytes are its checksum field. */
  lemma {:induction false} RegisterOfStored(frame: seq<bv8>)
    requires |frame| >= 4
    ensures Register(ONES, frame) == Shift(Xor(Register(ONES, frame[..|frame| - 4]), Stored(frame)), 32)
  {
    hide Word, Shift, Xor, Pack, RegisterBits, AllBits, Register;
    var n := |frame|;
    var a, t := frame[..n - 4], frame[n - 4..];
    assert frame == a + t && t == [frame[n - 4], frame[n - 3], frame[n - 2], frame[n - 1]];
    RegisterIsBits(ONES, frame);
    AllBitsSplit(a, t);
    RegisterBitsSplit(ONES, AllBits(a), AllBits(t));
    RegisterIsBits(ONES, a);
    BitsAreWord(Register(ONES, a), AllBits(t));
    WordIsPack(t[0], t[1], t[2], t[3]);
  }

  /** Running the register over a frame and its checksum ends in one constant exactly when the check passes. */
  lemma {:induction false} PassesIffResidue(frame: seq<bv8>)
    requires |frame| >= 4
    ensures Passes(frame) <==> Register(ONES, frame) == Residue()
  {
    var c := Register(ONES, frame[..|frame| - 4]);
    RegisterOfStored(frame);
    XorOnes(c, Stored(frame));
    InvertZero();
    hide Word, Shift, Xor, Invert, Register, Stored;
    if Register(ONES, frame) == Residue() {
      ShiftInjective(Xor(c, Stored(frame)), ONES, 32);
    }
  }

  /** The bits in the order sent agree outside the 32 from place o on. */
  ghost predicate DifferWithin(a: seq<bool>, b: seq<bool>, o: nat)
  {
    |a| == |b| && o + 32 <= |a| && a[..o] == b[..o] && a[o + 32..] == b[o + 32..]
  }

  /** Bit strings that differ only within 32 consecutive bits leave different registers. */
  lemma {:induction false} BurstChangesRegister(c: bv32, a: seq<bool>, b: seq<bool>, o: nat)
    requires DifferWithin(a, b, o) && RegisterBits(c, a) == RegisterBits(c, b)
    ensures a == b
  {
    hide RegisterBits, Pack, Xor, Shift;
    var p, v, w, z := a[..o], a[o..o + 32], b[o..o + 32], a[o + 32..];
    assert a == p + (v + z) && b == p + (w + z);
    var d := RegisterBits(c, p);
    RegisterBitsSplit(c, p, v + z);
    RegisterBitsSplit(c, p, w + z);
    RegisterBitsSplit(d, v, z);
    RegisterBitsSplit(d, w, z);
    RegisterBitsInjective(RegisterBits(d, v), RegisterBits(d, w), z);
    BitsAreWord(d, v);
    BitsAreWord(d, w);
    ShiftInjective(Xor(d, Pack(v)), Xor(d, Pack(w)), 32);
    XorInjective(Pack(v), Pack(w), d);
    PackInjective(v, w);
  }

  /**
   Two different frames of one length whose bits agree outside a burst of 32 consecutive
   bits at any place, checksum included, never both pass the receive check.
   */
  lemma {:induction false} BurstDetected(f: seq<bv8>, g: seq<bv8>, o: nat)
    requires |f| == |g| && DifferWithin(AllBits(f), AllBits(g), o) && f != g
    ensures !(Passes(f) && Passes(g))
  {
    if Passes(f) && Passes(g) {
      PassesIffResidue(f);
      PassesIffResidue(g);
      hide Passes, Register, RegisterBits, AllBits;
      RegisterIsBits(ONES, f);
      RegisterIsBits(ONES, g);
      BurstChangesRegister(ONES, AllBits(f), AllBits(g), o);
      AllBitsInjective(f, g);
    }
  }

  lemma {:induction false} BitsAround(f: seq<bv8>, k: nat)
    requires k + 4 <= |f|
    ensures AllBits(f)[..8 * k] == AllBits(f[..k]) && AllBits(f)[8 * k + 32..] == AllBits(f[k + 4..])
  {
    hide AllBits;
    var a, w, z := f[..k], f[k..k + 4], f[k + 4..];
    assert f == a + (w + z);
    AllBitsSplit(a, w + z);
    AllBitsSplit(w, z);
    assert AllBits(f) == AllBits(a) + (AllBits(w) + AllBits(z));
  }

  /** Four consecutive bytes are such a burst. */
  lemma {:induction false} ByteBurst(f: seq<bv8>, g: seq<bv8>, k: nat)
    requires |f| == |g| && k + 4 <= |f| && f[..k] == g[..k] && f[k + 4..] == g[k + 4..]
    ensures DifferWithin(AllBits(f), AllBits(g), 8 * k)
  {
    BitsAround(f, k);
    BitsAround(g, k);
    hide AllBits;
  }

  // ----- The transmit side -----

  /** A checksum as the four little-endian bytes tx_async appends. */
  function LittleEndian(c: bv32): (b: seq<bv8>)
    ensures |b| == 4
  {
    [(c & 0xff) as bv8, ((c >> 8) & 0xff) as bv8, ((c >> 16) & 0xff) as bv8, ((c >> 24) & 0xff) as bv8]
  }

  lemma {:induction false} LittleEndianWord(c: bv32)
    ensures Word(LittleEndian(c)[0], LittleEndian(c)[1], LittleEndian(c)[2], LittleEndian(c)[3]) == c
  {
  }

  /** What tx_async appends is what handle_rx accepts. */
  lemma {:induction false} SentFramePasses(data: seq<bv8>)
    ensures Passes(data + LittleEndian(Crc(data)))
  {
    var tail := LittleEndian(Crc(data));
    var frame := data + tail;
    LittleEndianWord(Crc(data));
    assert frame[..|frame| - 4] == data;
    hide Word, LittleEndian, Crc;
  }
}
