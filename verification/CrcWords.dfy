/** Machine words of W little-endian bytes in the CRC-32 computation (crypto/src/crc32.cpp). A 4-byte
    word is held in the low half of the 64-bit type. */
module CrcWords {
  import opened CrcRegister

  function LowByte64(w: bv64): bv8
  {
    (w & 0xFF) as bv8
  }

  function Widen64(r: bv32): bv64
  {
    r as bv64
  }

  /** The register added into the low bytes of a word. */
  function Absorb(w: bv64, r: bv32): bv64
  {
    Xor64(w, Widen64(r))
  }

  function Xor64(a: bv64, b: bv64): bv64
  {
    a ^ b
  }

  /** One byte down. */
  function Down(w: bv64): bv64
  {
    w >> 8
  }

  function Down32(r: bv32): bv32
  {
    r >> 8
  }

  function Xor8(a: bv8, b: bv8): bv8
  {
    a ^ b
  }

  function ByteAt(s: seq<bv8>, i: nat): bv8
  {
    if i < |s| then s[i] else 0
  }

  /** The word at the address of the bytes s. */
  function Load(s: seq<bv8>): bv64
  {
    Pack(ByteAt(s, 0), ByteAt(s, 1), ByteAt(s, 2), ByteAt(s, 3), ByteAt(s, 4), ByteAt(s, 5), ByteAt(s, 6), ByteAt(s, 7))
  }

  function Pack(a: bv8, b: bv8, c: bv8, d: bv8, e: bv8, f: bv8, g: bv8, h: bv8): bv64
  {
    (a as bv64) | ((b as bv64) << 8) | ((c as bv64) << 16) | ((d as bv64) << 24) |
    ((e as bv64) << 32) | ((f as bv64) << 40) | ((g as bv64) << 48) | ((h as bv64) << 56)
  }

  /** word >> (k << 3). */
  function ShiftBytes(w: bv64, k: nat): bv64
    decreases k
  {
    if k == 0 then w else ShiftBytes(Down(w), k - 1)
  }

  /** The n low bytes of a word, least significant first. */
  function BytesOf(w: bv64, n: nat): (s: seq<bv8>)
    ensures |s| == n
    decreases n
  {
    if n == 0 then [] else [LowByte64(w)] + BytesOf(Down(w), n - 1)
  }

  lemma {:induction false} BytesOfAt(w: bv64, n: nat, k: nat)
    requires k < n
    ensures BytesOf(w, n)[k] == LowByte64(ShiftBytes(w, k))
    decreases k
  {
    hide LowByte64, Down;
    if k > 0 { BytesOfAt(Down(w), n - 1, k - 1); }
  }

  lemma {:induction false} BytesOfTake(w: bv64, n: nat, k: nat)
    requires k <= n
    ensures BytesOf(w, n)[..k] == BytesOf(w, k)
    decreases k
  {
    hide LowByte64, Down;
    if k > 0 { BytesOfTake(Down(w), n - 1, k - 1); }
  }

  lemma PackBits(a: bv64, b: bv64, c: bv64, d: bv64, e: bv64, f: bv64, g: bv64, h: bv64)
    requires a <= 0xFF && b <= 0xFF && c <= 0xFF && d <= 0xFF && e <= 0xFF && f <= 0xFF && g <= 0xFF && h <= 0xFF
    ensures (a | (b << 8) | (c << 16) | (d << 24) | (e << 32) | (f << 40) | (g << 48) | (h << 56)) >> 8 ==
            b | (c << 8) | (d << 16) | (e << 24) | (f << 32) | (g << 40) | (h << 48) | (0 << 56)
    ensures (a | (b << 8) | (c << 16) | (d << 24) | (e << 32) | (f << 40) | (g << 48) | (h << 56)) & 0xFF == a
  {
  }

  lemma PackDown(a: bv8, b: bv8, c: bv8, d: bv8, e: bv8, f: bv8, g: bv8, h: bv8)
    ensures Down(Pack(a, b, c, d, e, f, g, h)) == Pack(b, c, d, e, f, g, h, 0)
  {
    PackBits(a as bv64, b as bv64, c as bv64, d as bv64, e as bv64, f as bv64, g as bv64, h as bv64);
  }

  lemma PackLow(a: bv8, b: bv8, c: bv8, d: bv8, e: bv8, f: bv8, g: bv8, h: bv8)
    ensures LowByte64(Pack(a, b, c, d, e, f, g, h)) == a
  {
    PackBits(a as bv64, b as bv64, c as bv64, d as bv64, e as bv64, f as bv64, g as bv64, h as bv64);
  }

  lemma LoadStep(s: seq<bv8>)
    requires 0 < |s| <= 8
    ensures Down(Load(s)) == Load(s[1..]) && LowByte64(Load(s)) == s[0]
  {
    hide Pack, Down, LowByte64;
    assert forall i: nat :: ByteAt(s[1..], i) == ByteAt(s, i + 1);
    PackDown(ByteAt(s, 0), ByteAt(s, 1), ByteAt(s, 2), ByteAt(s, 3),
              ByteAt(s, 4), ByteAt(s, 5), ByteAt(s, 6), ByteAt(s, 7));
    PackLow(ByteAt(s, 0), ByteAt(s, 1), ByteAt(s, 2), ByteAt(s, 3),
             ByteAt(s, 4), ByteAt(s, 5), ByteAt(s, 6), ByteAt(s, 7));
  }

  lemma AbsorbStep(w: bv64, r: bv32)
    ensures Down(Absorb(w, r)) == Absorb(Down(w), Down32(r))
    ensures LowByte64(Absorb(w, r)) == Xor8(LowByte64(w), LowByte(r))
  {
    hide *;
    AbsorbDown(w, r);
    AbsorbLowByte(w, r);
  }

  lemma AbsorbDown(w: bv64, r: bv32)
    ensures Down(Absorb(w, r)) == Absorb(Down(w), Down32(r))
  {
    AbsorbShift(w, r);
    assert Absorb(w, r) == w ^ (r as bv64);
    assert Absorb(Down(w), Down32(r)) == (w >> 8) ^ ((r >> 8) as bv64);
  }

  lemma AbsorbLowByte(w: bv64, r: bv32)
    ensures LowByte64(Absorb(w, r)) == Xor8(LowByte64(w), LowByte(r))
  {
    AbsorbLow(w, r);
    assert Absorb(w, r) == w ^ (r as bv64);
  }

  lemma AbsorbShift(w: bv64, r: bv32)
    ensures (w ^ (r as bv64)) >> 8 == (w >> 8) ^ ((r >> 8) as bv64)
  {
  }

  lemma AbsorbLow(w: bv64, r: bv32)
    ensures ((w ^ (r as bv64)) & 0xFF) as bv8 == ((w & 0xFF) as bv8) ^ ((r & 0xFF) as bv8)
  {
  }

  /** r has no bits above its n low bytes. */
  predicate Fits(r: bv32, n: nat)
    decreases n
  {
    if n == 0 then r == 0 else Fits(Down32(r), n - 1)
  }

  lemma {:induction false} ZeroFits(n: nat)
    ensures Fits(0, n)
  {
    if n > 0 { ZeroFits(n - 1); }
  }

  lemma FourBytesFit(r: bv32, n: nat)
    requires n >= 4
    ensures Fits(r, n)
  {
    var a := Down32(r);
    var b := Down32(a);
    var c := Down32(b);
    assert Down32(c) == 0 by { assert (((r >> 8) >> 8) >> 8) >> 8 == 0; }
    ZeroFits(n - 4);
    assert Fits(c, n - 3);
    assert Fits(b, n - 2);
  }

  lemma AbsorbByte(r: bv32, c: bv32, b: bv8)
    ensures Xor(Xor(r, c), Widen(b)) == Xor(Xor(r, Widen(Xor8(b, LowByte(c)))), (c >> 8) << 8)
  {
    hide Xor, Xor8, Widen, LowByte;
    var h, l, w := (c >> 8) << 8, Widen(LowByte(c)), Widen(b);
    SplitLowByte(c);
    WidenXor8(b, LowByte(c));
    XorComm(h, l);
    XorAssoc(r, l, h);
    XorExchange(Xor(r, l), h, w, 0);
    XorAssoc(r, l, w);
    XorComm(l, w);
  }

  lemma WidenXor8(a: bv8, b: bv8)
    ensures Widen(Xor8(a, b)) == Xor(Widen(a), Widen(b))
  {
  }

  lemma FeedAbsorbed(r: bv32, c: bv32, b: bv8)
    ensures Feed(Xor(r, c), b) == Xor(Feed(r, Xor8(b, LowByte(c))), Down32(c))
  {
    hide Xor, Xor8, Steps, LowByte;
    StepsHigh(c);
    AbsorbByte(r, c, b);
    StepsXor(Xor(r, Widen(Xor8(b, LowByte(c)))), (c >> 8) << 8, 8);
  }

  /** Running the bytes of a word that has absorbed c is starting the plain bytes from c. */
  lemma {:induction false} AbsorbedRun(r: bv32, c: bv32, s: seq<bv8>)
    requires |s| <= 8 && Fits(c, |s|)
    ensures Reg(r, BytesOf(Absorb(Load(s), c), |s|)) == Reg(Xor(r, c), s)
    decreases |s|
  {
    hide Xor, Xor8, Feed, Absorb, Load, LowByte, LowByte64, Down, Down32;
    if s == [] {
      XorZero(r);
    } else {
      LoadStep(s);
      AbsorbStep(Load(s), c);
      FeedAbsorbed(r, c, s[0]);
      var rest := BytesOf(Absorb(Load(s[1..]), Down32(c)), |s| - 1);
      var b := Xor8(s[0], LowByte(c));
      assert BytesOf(Absorb(Load(s), c), |s|) == [b] + rest;
      assert ([b] + rest)[1..] == rest;
      AbsorbedRun(Feed(r, b), Down32(c), s[1..]);
    }
  }

  lemma WordRun(c: bv32, s: seq<bv8>)
    requires |s| == 4 || |s| == 8
    ensures Reg(0, BytesOf(Absorb(Load(s), c), |s|)) == Reg(c, s)
  {
    hide Xor, Reg, Fits, BytesOf, Absorb, Load;
    FourBytesFit(c, |s|);
    AbsorbedRun(0, c, s);
    XorZero(c);
  }
}
