/**
 What the register of Crc32 computes: the frame check sequence of section 3.2.9 of IEEE 802.3,
 by long division of polynomials over the field of two elements. A polynomial is the sequence
 of its coefficients, highest power first.
 */
module FrameCheck {
  import opened Crc32

  type Poly = seq<bool>

  function Zeros(n: nat): (z: Poly)
    ensures |z| == n && forall i :: 0 <= i < n ==> !z[i]
  {
    seq(n, _ => false)
  }

  function Ones(n: nat): (z: Poly)
    ensures |z| == n && forall i :: 0 <= i < n ==> z[i]
  {
    seq(n, _ => true)
  }

  function Add(a: Poly, b: Poly): (r: Poly)
    requires |a| == |b|
    ensures |r| == |a|
  {
    seq(|a|, i requires 0 <= i < |a| => a[i] != b[i])
  }

  /** u added to the highest coefficients of s. */
  function AddFront(s: Poly, u: Poly): (r: Poly)
    requires |u| <= |s|
    ensures |r| == |s|
  {
    Add(s, u + Zeros(|s| - |u|))
  }

  /** The powers with coefficient 1 in the generating polynomial of the standard. */
  predicate Exponent(e: int) { e in {32, 26, 23, 22, 16, 12, 11, 10, 8, 7, 5, 4, 2, 1, 0} }

  function Generator(): (g: Poly)
    ensures |g| == 33 && g[0]
  {
    seq(33, i requires 0 <= i < 33 => Exponent(32 - i))
  }

  // ----- Long division -----

  /** The generator if the coefficient is 1, else nothing. */
  function Multiple(b: bool): (r: Poly)
    ensures |r| == 33 && r[0] == b
  {
    if b then Generator() else Zeros(33)
  }

  /** One line of the division: the highest coefficient is cancelled and dropped. */
  function Reduce(s: Poly): (r: Poly)
    requires |s| > 32
    ensures |r| == |s| - 1
  {
    AddFront(s, Multiple(s[0]))[1..]
  }

  function Remainder(s: Poly): (r: Poly)
    ensures |r| == if |s| < 32 then |s| else 32
    decreases |s|
  {
    if |s| <= 32 then s else Remainder(Reduce(s))
  }

  function Quotient(s: Poly): (q: Poly)
    ensures |q| == if |s| < 32 then 0 else |s| - 32
    decreases |s|
  {
    if |s| <= 32 then [] else [s[0]] + Quotient(Reduce(s))
  }

  /** q times the generator. */
  function Product(q: Poly): (p: Poly)
    ensures |p| == |q| + 32
    decreases |q|
  {
    if q == [] then Zeros(32) else AddFront([false] + Product(q[1..]), Multiple(q[0]))
  }

  lemma {:induction false} ReduceUndone(s: Poly)
    requires |s| > 32
    ensures s == AddFront([false] + Reduce(s), Multiple(s[0]))
  {
    hide Multiple;
    var m := Multiple(s[0]);
    assert AddFront(s, m) == [false] + Reduce(s);
  }

  lemma {:induction false} AddInto(p: Poly, r: Poly, m: Poly)
    requires |p| == |r| && |m| <= |p| + 1
    ensures AddFront([false] + Add(p, r), m) == Add(AddFront([false] + p, m), [false] + r)
  {
  }

  /** Quotient times generator plus remainder is the dividend. */
  lemma {:induction false} DivisionIdentity(s: Poly)
    requires |s| >= 32
    ensures s == Add(Product(Quotient(s)), Zeros(|s| - 32) + Remainder(s))
    decreases |s|
  {
    if |s| == 32 {
      assert Product([]) == Zeros(32);
    } else {
      var t, m := Reduce(s), Multiple(s[0]);
      DivisionIdentity(t);
      ReduceUndone(s);
      assert Quotient(s)[0] == s[0] && Quotient(s)[1..] == Quotient(t);
      assert [false] + (Zeros(|t| - 32) + Remainder(t)) == Zeros(|s| - 32) + Remainder(s);
      hide Add, Reduce, Multiple;
      AddInto(Product(Quotient(t)), Zeros(|t| - 32) + Remainder(t), m);
    }
  }

  lemma {:induction false} ReduceProduct(q: Poly)
    requires q != []
    ensures Product(q)[0] == q[0] && Reduce(Product(q)) == Product(q[1..])
  {
    hide Multiple;
    var p := Product(q[1..]);
    assert Product(q) == AddFront([false] + p, Multiple(q[0]));
    hide Product;
    assert AddFront(Product(q), Multiple(q[0])) == [false] + p;
  }

  /** A product leaves no remainder, and the quotient is its factor. */
  lemma {:induction false} ProductDivides(q: Poly)
    ensures Remainder(Product(q)) == Zeros(32) && Quotient(Product(q)) == q
    decreases |q|
  {
    if q != [] {
      ReduceProduct(q);
      hide Product, Reduce;
      ProductDivides(q[1..]);
      assert q == [q[0]] + q[1..];
    }
  }

  lemma {:induction false} MultipleAdd(a: bool, b: bool)
    ensures Multiple(a != b) == Add(Multiple(a), Multiple(b))
  {
    hide Generator;
  }

  lemma {:induction false} ReduceAdd(a: Poly, b: Poly)
    requires |a| == |b| > 32
    ensures Reduce(Add(a, b)) == Add(Reduce(a), Reduce(b))
  {
    MultipleAdd(a[0], b[0]);
    hide Multiple;
  }

  lemma {:induction false} RemainderAdd(a: Poly, b: Poly)
    requires |a| == |b|
    ensures Remainder(Add(a, b)) == Add(Remainder(a), Remainder(b))
    decreases |a|
  {
    if |a| > 32 {
      ReduceAdd(a, b);
      hide Add, Reduce;
      RemainderAdd(Reduce(a), Reduce(b));
    }
  }

  lemma {:induction false} RemainderOfLow(n: nat, t: Poly)
    requires |t| == 32
    ensures Remainder(Zeros(n) + t) == t
    decreases n
  {
    if n == 0 {
      assert Zeros(0) + t == t;
    } else {
      assert Reduce(Zeros(n) + t) == Zeros(n - 1) + t;
      RemainderOfLow(n - 1, t);
    }
  }

  // ----- The register is the remainder -----

  lemma {:induction false} XorInterchange(p: bv32, q: bv32, r: bv32, s: bv32)
    ensures Xor(Xor(p, q), Xor(r, s)) == Xor(Xor(p, r), Xor(q, s))
  {
    hide Xor;
    XorAssociates(Xor(p, q), r, s);
    XorSwap(p, q, r);
    XorAssociates(Xor(p, r), q, s);
  }

  lemma {:induction false} XorBits(a: bool, b: bool)
    ensures Xor(Bit(a), Bit(b)) == Bit(a != b)
  {
  }

  lemma {:induction false} XorPairs(a: bool, y: bv32, b: bool, z: bv32)
    ensures Xor(Join(a, y), Join(b, z)) == Join(a != b, Xor(y, z))
  {
    hide Xor, Bit, Double;
    XorInterchange(Bit(a), Double(y), Bit(b), Double(z));
    XorBits(a, b);
    DoubleXor(y, z);
  }

  lemma {:induction false} XorZero(x: bv32)
    ensures Xor(x, 0) == x
  {
  }

  lemma {:induction false} PackAdd(a: Poly, b: Poly)
    requires |a| == |b|
    ensures Pack(Add(a, b)) == Xor(Pack(a), Pack(b))
    decreases |a|
  {
    hide Join, Xor;
    if a == [] {
      XorZero(0);
    } else {
      assert Add(a, b)[0] == (a[0] != b[0]) && Add(a, b)[1..] == Add(a[1..], b[1..]);
      PackAdd(a[1..], b[1..]);
      XorPairs(a[0], Pack(a[1..]), b[0], Pack(b[1..]));
    }
  }

  lemma {:induction false} JoinZero()
    ensures Join(false, 0) == 0
  {
  }

  lemma {:induction false} PackPad(u: Poly)
    ensures Pack(u + [false]) == Pack(u)
    decreases |u|
  {
    hide Join;
    if u == [] {
      JoinZero();
      assert [false][1..] == [];
      assert u + [false] == [false];
    } else {
      assert (u + [false])[0] == u[0] && (u + [false])[1..] == u[1..] + [false];
      PackPad(u[1..]);
    }
  }

  lemma {:induction false} PackZeros(n: nat)
    ensures Pack(Zeros(n)) == 0
    decreases n
  {
    hide Join;
    if n > 0 {
      JoinZero();
      assert Zeros(n)[1..] == Zeros(n - 1);
      PackZeros(n - 1);
    }
  }

  lemma {:induction false} PolynomialBytes()
    ensures Word(0x20, 0x83, 0xb8, 0xed) == POLYNOMIAL
  {
  }

  lemma {:induction false} ByteBits()
    ensures Bits(0x20) == [false, false, false, false, false, true, false, false]
    ensures Bits(0x83) == [true, true, false, false, false, false, false, true]
    ensures Bits(0xb8) == [false, false, false, true, true, true, false, true]
    ensures Bits(0xed) == [true, false, true, true, false, true, true, true]
  {
  }

  /** The constant of the loop is the generator without its highest coefficient, the next one lowest. */
  lemma {:induction false} PolynomialIsGenerator()
    ensures Pack(Generator()[1..]) == POLYNOMIAL
  {
    hide Word, Pack, Bits;
    PolynomialBytes();
    ByteBits();
    WordIsPack(0x20, 0x83, 0xb8, 0xed);
    var bs: seq<bv8> := [0x20, 0x83, 0xb8, 0xed];
    assert bs[1..] == [0x83, 0xb8, 0xed] && bs[1..][1..] == [0xb8, 0xed] && bs[1..][1..][1..] == [0xed];
    assert AllBits([]) == [];
    assert AllBits([0xed]) == Bits(0xed) + AllBits([0xed as bv8][1..]);
    assert AllBits(bs) == Bits(0x20) + (Bits(0x83) + (Bits(0xb8) + Bits(0xed)));
    assert Generator()[1..] == AllBits(bs);
  }

  /** The register, as its coefficients, after one more bit. */
  function Next(u: Poly, b: bool): (r: Poly)
    requires |u| == 32
    ensures |r| == 32
  {
    Add(u[1..] + [false], Multiple(u[0] != b)[1..])
  }

  lemma {:induction false} LowBit(b: bool)
    ensures Odd(Bit(b)) == b && Halve(Bit(b)) == 0
  {
  }

  lemma {:induction false} JoinSteps(b: bool, y: bv32)
    requires TopClear(y)
    ensures Odd(Join(b, y)) == b && Halve(Join(b, y)) == y
  {
    hide Odd, Halve, Xor, Double, TopClear, Bit;
    LowBit(b);
    OddAlone(Bit(b), y);
    RestHalves(Bit(b), y);
    XorZero(y);
    XorCommutes(0, y);
  }

  lemma {:induction false} FlipLow(a: bool, y: bv32, b: bool)
    ensures Xor(Join(a, y), Bit(b)) == Join(a != b, y)
  {
    hide Double, Bit, Xor;
    XorBits(a, b);
    XorSwap(Bit(a), Double(y), Bit(b));
  }

  lemma {:induction false} PackMultiple(b: bool)
    ensures Pack(Multiple(b)[1..]) == if b then POLYNOMIAL else 0
  {
    hide Generator, Pack;
    if b {
      PolynomialIsGenerator();
    } else {
      assert Zeros(33)[1..] == Zeros(32);
      PackZeros(32);
    }
  }

  lemma {:induction false} StepIsNext(u: Poly, b: bool)
    requires |u| == 32
    ensures BitStep(Xor(Pack(u), Bit(b))) == Pack(Next(u, b))
  {
    var y := Pack(u[1..]);
    assert Pack(u) == Join(u[0], y);
    PackFits(u[1..]);
    assert TopClear(y);
    hide TopClear, Join, Xor, Bit, Multiple, Pack, Odd, Halve;
    FlipLow(u[0], y, b);
    JoinSteps(u[0] != b, y);
    PackMultiple(u[0] != b);
    PackAdd(u[1..] + [false], Multiple(u[0] != b)[1..]);
    PackPad(u[1..]);
    XorZero(y);
  }

  /** One line of the division of the bits still to come, with the register added at the front. */
  lemma {:induction false} ReduceIsNext(bits: Poly, u: Poly)
    requires bits != [] && |u| == 32
    ensures Reduce(AddFront(bits + Zeros(32), u)) == AddFront(bits[1..] + Zeros(32), Next(u, bits[0]))
  {
    hide Generator;
    var s := AddFront(bits + Zeros(32), u);
    assert s[0] == (u[0] != bits[0]);
    var m := Multiple(s[0]);
    hide Multiple;
    var l, r := Reduce(s), AddFront(bits[1..] + Zeros(32), Next(u, bits[0]));
    forall i | 0 <= i < |l|
      ensures l[i] == r[i]
    {
      assert l[i] == (s[i + 1] != (m + Zeros(|s| - 33))[i + 1]);
    }
  }

  /**
   From any register, the bits leave the remainder of the polynomial that has the bits,
   followed by 32 zeros, with the register added to its first 32 coefficients.
   */
  lemma {:induction false} RegisterIsRemainder(u: Poly, bits: Poly)
    requires |u| == 32
    ensures RegisterBits(Pack(u), bits) == Pack(Remainder(AddFront(bits + Zeros(32), u)))
    decreases |bits|
  {
    hide BitStep, Xor, Bit, Pack, Next, Reduce;
    if bits == [] {
      assert AddFront(bits + Zeros(32), u) == u;
    } else {
      StepIsNext(u, bits[0]);
      ReduceIsNext(bits, u);
      RegisterIsRemainder(Next(u, bits[0]), bits[1..]);
    }
  }

  // ----- The frame check sequence -----

  /**
   Section 3.2.9: the first 32 bits are complemented, the polynomial is multiplied by x^32 and
   divided by the generator, and the remainder is complemented.
   */
  function Fcs(bits: Poly): (r: Poly)
    ensures |r| == 32
  {
    Add(Remainder(AddFront(bits + Zeros(32), Ones(32))), Ones(32))
  }

  lemma {:induction false} AllOnesWord()
    ensures Word(0xff, 0xff, 0xff, 0xff) == ONES
    ensures Bits(0xff) == Ones(8)
  {
  }

  lemma {:induction false} PackOnes()
    ensures Pack(Ones(32)) == ONES
  {
    hide Word, Pack, Bits;
    AllOnesWord();
    WordIsPack(0xff, 0xff, 0xff, 0xff);
    var bs: seq<bv8> := [0xff, 0xff, 0xff, 0xff];
    assert bs[1..] == [0xff, 0xff, 0xff] && bs[1..][1..] == [0xff, 0xff] && bs[1..][1..][1..] == [0xff];
    assert AllBits([0xff]) == Bits(0xff) + AllBits([0xff as bv8][1..]);
    assert AllBits(bs) == Bits(0xff) + (Bits(0xff) + (Bits(0xff) + Bits(0xff)));
    assert Ones(32) == AllBits(bs);
  }

  lemma {:induction false} InvertIsXor(c: bv32)
    ensures Invert(c) == Xor(c, ONES)
  {
  }

  /** The checksum of the driver is the sequence of the standard. */
  lemma {:induction false} CrcIsFcs(data: seq<bv8>)
    ensures Crc(data) == Pack(Fcs(AllBits(data)))
  {
    hide Register, RegisterBits, Pack, Xor, Invert, Remainder;
    InvertZero();
    PackOnes();
    RegisterIsBits(ONES, data);
    RegisterIsRemainder(Ones(32), AllBits(data));
    var r := Remainder(AddFront(AllBits(data) + Zeros(32), Ones(32)));
    InvertIsXor(Pack(r));
    PackAdd(r, Ones(32));
  }

  /** A frame passes the receive check exactly when its last 32 bits are the sequence of those before. */
  lemma {:induction false} PassesIffFcs(frame: seq<bv8>)
    requires |frame| >= 4
    ensures Passes(frame) <==> AllBits(frame[|frame| - 4..]) == Fcs(AllBits(frame[..|frame| - 4]))
  {
    hide Fcs, Crc, Pack, Word, AllBits;
    var n := |frame|;
    var t := frame[n - 4..];
    assert t == [frame[n - 4], frame[n - 3], frame[n - 2], frame[n - 1]];
    WordIsPack(t[0], t[1], t[2], t[3]);
    CrcIsFcs(frame[..n - 4]);
    if Passes(frame) {
      PackInjective(AllBits(t), Fcs(AllBits(frame[..n - 4])));
    }
  }

  // ----- Errors -----

  lemma {:induction false} FcsDifference(a: Poly, b: Poly)
    requires |a| == |b|
    ensures Add(Fcs(a), Fcs(b)) == Remainder(Add(a, b) + Zeros(32))
  {
    hide Remainder;
    var x, y := AddFront(a + Zeros(32), Ones(32)), AddFront(b + Zeros(32), Ones(32));
    RemainderAdd(x, y);
    assert Add(x, y) == Add(a, b) + Zeros(32);
    assert Add(Fcs(a), Fcs(b)) == Add(Remainder(x), Remainder(y));
  }

  lemma {:induction false} RemainderSplit(d: Poly, t: Poly)
    requires |t| == 32
    ensures Remainder(d + t) == Add(Remainder(d + Zeros(32)), t)
  {
    hide Remainder;
    RemainderAdd(d + Zeros(32), Zeros(|d|) + t);
    assert Add(d + Zeros(32), Zeros(|d|) + t) == d + t;
    RemainderOfLow(|d|, t);
  }

  lemma {:induction false} AddCancels(f: Poly, x: Poly, t: Poly, y: Poly)
    requires |f| == |x| == |t| == |y| && t == f
    ensures Add(Add(f, x), Add(t, y)) == Zeros(|f|) <==> y == x
  {
    if Add(Add(f, x), Add(t, y)) == Zeros(|f|) {
      forall i | 0 <= i < |f|
        ensures y[i] == x[i]
      {
        assert !Add(Add(f, x), Add(t, y))[i];
      }
    }
  }

  lemma {:induction false} DividesIff(s: Poly)
    requires |s| >= 32
    ensures Remainder(s) == Zeros(32) <==> exists q: Poly :: Product(q) == s
  {
    if Remainder(s) == Zeros(32) {
      DivisionIdentity(s);
      assert Product(Quotient(s)) == s;
    }
    if q: Poly :| Product(q) == s {
      ProductDivides(q);
    }
  }

  lemma {:induction false} FrameBits(f: seq<bv8>)
    requires |f| >= 4
    ensures AllBits(f) == AllBits(f[..|f| - 4]) + AllBits(f[|f| - 4..])
  {
    hide AllBits;
    assert f == f[..|f| - 4] + f[|f| - 4..];
    AllBitsSplit(f[..|f| - 4], f[|f| - 4..]);
  }

  /**
   An error turns a frame that passes into another that passes exactly when its polynomial,
   the bits in which the two differ, is a multiple of the generator.
   */
  lemma {:induction false} UndetectedIffMultiple(f: seq<bv8>, g: seq<bv8>)
    requires |f| == |g| && Passes(f)
    ensures Passes(g) <==> exists q: Poly :: Product(q) == Add(AllBits(f), AllBits(g))
  {
    var n := |f| - 4;
    var a, b, t, y := AllBits(f[..n]), AllBits(g[..n]), AllBits(f[n..]), AllBits(g[n..]);
    PassesIffFcs(f);
    PassesIffFcs(g);
    FrameBits(f);
    FrameBits(g);
    hide AllBits, Passes, Fcs, Remainder, Product;
    var d := Add(a + t, b + y);
    assert d == Add(a, b) + Add(t, y);
    RemainderSplit(Add(a, b), Add(t, y));
    FcsDifference(a, b);
    AddCancels(Fcs(a), Fcs(b), t, y);
    DividesIff(d);
  }

  lemma {:induction false} AddToZeros(p: Poly)
    ensures Add(Zeros(|p|), p) == p && Add(p, Zeros(|p|)) == p
  {
  }

  lemma {:induction false} NothingAdded(p: Poly)
    requires |p| >= 32
    ensures AddFront([false] + p, Multiple(false)) == [false] + p
  {
    assert Zeros(33) + Zeros(|p| - 32) == Zeros(|p| + 1);
    AddToZeros([false] + p);
  }

  lemma {:induction false} ZeroProduct(n: nat)
    ensures Product(Zeros(n)) == Zeros(n + 32)
    decreases n
  {
    if n > 0 {
      assert Zeros(n)[1..] == Zeros(n - 1) && [false] + Zeros(n + 31) == Zeros(n + 32);
      hide AddFront, Multiple;
      ZeroProduct(n - 1);
      NothingAdded(Zeros(n + 31));
    }
  }

  lemma {:induction false} GeneratorProduct(o: nat, n: nat)
    ensures Product(Zeros(o) + [true] + Zeros(n)) == Zeros(o) + Generator() + Zeros(n)
    decreases o
  {
    hide Generator, Add;
    var q := Zeros(o) + [true] + Zeros(n);
    if o == 0 {
      assert q[0] && q[1..] == Zeros(n);
      ZeroProduct(n);
      assert [false] + Zeros(n + 32) == Zeros(n + 33);
      AddToZeros(Generator() + Zeros(n));
      assert Zeros(0) + Generator() == Generator();
    } else {
      var p := Zeros(o - 1) + Generator() + Zeros(n);
      assert !q[0] && q[1..] == Zeros(o - 1) + [true] + Zeros(n);
      hide AddFront, Multiple;
      GeneratorProduct(o - 1, n);
      NothingAdded(p);
      assert Zeros(o) == [false] + Zeros(o - 1);
      assert [false] + p == Zeros(o) + Generator() + Zeros(n);
    }
  }

  /** Adding the generator anywhere in a frame never changes whether it passes. */
  lemma {:induction false} GeneratorUndetected(f: seq<bv8>, g: seq<bv8>, o: nat)
    requires |f| == |g| && o + 33 <= 8 * |f|
    requires Add(AllBits(f), AllBits(g)) == Zeros(o) + Generator() + Zeros(8 * |f| - o - 33)
    ensures Passes(f) <==> Passes(g)
  {
    hide Passes, AllBits, Product, Generator;
    var q := Zeros(o) + [true] + Zeros(8 * |f| - o - 33);
    GeneratorProduct(o, 8 * |f| - o - 33);
    assert Add(AllBits(g), AllBits(f)) == Add(AllBits(f), AllBits(g));
    assert Product(q) == Add(AllBits(f), AllBits(g));
    if Passes(f) { UndetectedIffMultiple(f, g); }
    if Passes(g) { UndetectedIffMultiple(g, f); }
  }
}
