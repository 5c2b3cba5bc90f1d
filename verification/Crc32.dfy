/** `crc32_z` (crypto/src/crc32.cpp): the braided computation against the byte-at-a-time register. */
module Crc32 {
  import opened CrcRegister
  import opened CrcWords

  /** The checksum of a message: the register, pre- and post-conditioned by complement. */
  function Checksum(crc: bv32, s: seq<bv8>): bv32
  {
    Invert(Reg(Invert(crc), s))
  }

  function Invert(r: bv32): bv32
  {
    r ^ 0xFFFF_FFFF
  }

  function Low32(crc: bv64): bv32
  {
    (crc & 0xFFFF_FFFF) as bv32
  }

  /** crc_braid_table[k][b]: the register reached from 0 by the byte b and n * w - 1 - k zero bytes. */
  function BraidTable(n: nat, w: nat, k: nat, b: bv8): bv32
    requires k < n * w
  {
    Steps(CrcTable(b), 8 * (n * w - 1 - k))
  }

  lemma FeedFromTable(r: bv32, b: bv8)
    ensures Feed(r, b) == Xor(Steps(r, 8), CrcTable(b))
  {
    hide Xor, Steps, Widen;
    StepsXor(r, Widen(b), 8);
  }

  /** One more byte of a braid word, seen from the start of the same word in the next block. */
  lemma BraidByte(r: bv32, b: bv8, m: nat)
    ensures Steps(Feed(r, b), m) == Xor(Steps(r, 8 + m), Steps(CrcTable(b), m))
  {
    hide Xor, Feed, Steps, CrcTable;
    FeedFromTable(r, b);
    StepsXor(Steps(r, 8), CrcTable(b), m);
    StepsAdd(r, 8, m);
  }

  /** The table loop over the bytes of one braid word. */
  method BraidWord(word: bv64, n: nat, w: nat) returns (c: bv32)
    requires n >= 1 && w >= 1 && w <= n * w
    ensures c == Steps(Reg(0, BytesOf(word, w)), 8 * (n * w - w))
  {
    hide Xor, Feed, Steps, CrcTable, LowByte64, ShiftBytes, Reg, BytesOf;
    ghost var bytes, total := BytesOf(word, w), n * w;
    BytesOfAt(word, w, 0);
    FirstBraidByte(bytes, total);
    c := BraidTable(n, w, 0, LowByte64(ShiftBytes(word, 0)));
    var k := 1;
    while k < w
      invariant 1 <= k <= w && c == Steps(Reg(0, bytes[..k]), 8 * (total - k))
    {
      BytesOfAt(word, w, k);
      NextBraidByte(bytes, k, total);
      c := Xor(c, BraidTable(n, w, k, LowByte64(ShiftBytes(word, k))));
      k := k + 1;
    }
    assert bytes[..w] == bytes;
  }

  lemma FirstBraidByte(bytes: seq<bv8>, total: nat)
    requires bytes != [] && total >= 1
    ensures Steps(CrcTable(bytes[0]), 8 * (total - 1)) == Steps(Reg(0, bytes[..1]), 8 * (total - 1))
  {
    hide Xor, Feed, Steps, CrcTable;
    assert bytes[..1] == [] + [bytes[0]];
    RegSnoc(0, [], bytes[0]);
    BraidByte(0, bytes[0], 8 * (total - 1));
    StepsZero(8 * total);
    XorZero(Steps(CrcTable(bytes[0]), 8 * (total - 1)));
  }

  lemma NextBraidByte(bytes: seq<bv8>, k: nat, total: nat)
    requires k < |bytes| && k < total
    ensures Xor(Steps(Reg(0, bytes[..k]), 8 * (total - k)), Steps(CrcTable(bytes[k]), 8 * (total - 1 - k))) ==
            Steps(Reg(0, bytes[..k + 1]), 8 * (total - (k + 1)))
  {
    hide Xor, Feed, Steps, CrcTable, Reg;
    assert bytes[..k + 1] == bytes[..k] + [bytes[k]];
    RegSnoc(0, bytes[..k], bytes[k]);
    BraidByte(Reg(0, bytes[..k]), bytes[k], 8 * (total - k - 1));
  }

  /** The register of the w bytes in a word, from 0, with the table loop of `crc_word`. */
  method CrcWord(word: bv64, w: nat) returns (c: bv32)
    requires ShiftBytes(word, w) == 0
    ensures c == Reg(0, BytesOf(word, w))
  {
    hide Xor, Feed, Absorb, LowByte64, LowByte, CrcTable, Down, Down32, Widen64, Low64;
    var data := word;
    ghost var bytes := BytesOf(word, w);
    ghost var o, r := word, 0;
    AbsorbZero(word);
    var k := 0;
    while k < w
      invariant 0 <= k <= w && o == ShiftBytes(word, k) && r == Reg(0, bytes[..k]) && data == Absorb(o, r)
    {
      CrcWordStep(o, r);
      BytesOfAt(word, w, k);
      assert bytes[..k + 1] == bytes[..k] + [bytes[k]];
      RegSnoc(0, bytes[..k], bytes[k]);
      ShiftBytesNext(word, k);
      data := Absorb(Down(data), CrcTable(LowByte64(data)));
      o, r := Down(o), Feed(r, LowByte64(o));
      k := k + 1;
    }
    assert bytes[..w] == bytes;
    c := Low64(data);
    AbsorbedZero(r);
  }

  function Low64(w: bv64): bv32
  {
    (w & 0xFFFF_FFFF) as bv32
  }

  lemma AbsorbZero(w: bv64)
    ensures Absorb(w, 0) == w
  {
  }

  lemma AbsorbedZero(r: bv32)
    ensures Low64(Absorb(0, r)) == r
  {
  }

  lemma AbsorbTwice(w: bv64, a: bv32, b: bv32)
    ensures Absorb(Absorb(w, a), b) == Absorb(w, Xor(a, b))
  {
    hide Xor, Xor64, Widen64;
    Assoc64(w, Widen64(a), Widen64(b));
    WidenXor(a, b);
  }

  lemma Assoc64(a: bv64, b: bv64, c: bv64)
    ensures Xor64(Xor64(a, b), c) == Xor64(a, Xor64(b, c))
  {
    hide Xor64;
    var x, y := Xor64(a, b), Xor64(b, c);
    Xor64Is(a, b);
    Xor64Is(b, c);
    Xor64Is(x, c);
    Xor64Is(a, y);
    AssocBits64(a, b, c, x, y);
  }

  lemma Xor64Is(a: bv64, b: bv64)
    ensures Xor64(a, b) == a ^ b
  {
  }

  lemma AssocBits64(a: bv64, b: bv64, c: bv64, x: bv64, y: bv64)
    requires x == a ^ b && y == b ^ c
    ensures x ^ c == a ^ y
  {
  }

  lemma WidenXor(a: bv32, b: bv32)
    ensures Widen64(Xor(a, b)) == Xor64(Widen64(a), Widen64(b))
  {
  }

  lemma {:induction false} ShiftBytesNext(w: bv64, k: nat)
    ensures ShiftBytes(w, k + 1) == Down(ShiftBytes(w, k))
    decreases k
  {
    hide Down;
    if k > 0 { ShiftBytesNext(Down(w), k - 1); }
  }

  lemma CrcWordStep(o: bv64, r: bv32)
    ensures Absorb(Down(Absorb(o, r)), CrcTable(LowByte64(Absorb(o, r)))) == Absorb(Down(o), Feed(r, LowByte64(o)))
  {
    hide Xor, Feed, Absorb, LowByte64, CrcTable, Down;
    AbsorbStep(o, r);
    AbsorbTwice(Down(o), Down32(r), CrcTable(LowByte64(Absorb(o, r))));
    TableStepIsFeed(r, LowByte64(o));
    Xor8Comm(LowByte64(o), LowByte(r));
  }

  lemma Xor8Comm(a: bv8, b: bv8)
    ensures Xor8(a, b) == b ^ a
  {
  }

  /** The number of bits in n words of w bytes. */
  function Bits(w: nat, n: nat): nat
  {
    if n == 0 then 0 else 8 * w + Bits(w, n - 1)
  }

  lemma {:induction false} BitsAdd(w: nat, m: nat, n: nat)
    ensures Bits(w, m + n) == Bits(w, m) + Bits(w, n)
  {
    if m > 0 { BitsAdd(w, m - 1, n); }
  }

  lemma {:induction false} BitsAre(w: nat, n: nat)
    ensures Bits(w, n) == 8 * (n * w)
  {
    if n > 0 { BitsAre(w, n - 1); }
  }

  /** What the braid registers still owe the message: each is added into its word of the next block,
      as many words before the end of that block as there are registers from it on. */
  function Owed(crcs: seq<bv32>, w: nat): bv32
  {
    if crcs == [] then 0 else Xor(Steps(crcs[0], Bits(w, |crcs|)), Owed(crcs[1..], w))
  }

  /** The registers after a block: each has absorbed its word and then run to its own word of the next
      block, n words on. */
  function NextLanes(crcs: seq<bv32>, block: seq<bv8>, w: nat, n: nat): (r: seq<bv32>)
    requires 8 * |block| == Bits(w, |crcs|) && n >= 1
    ensures |r| == |crcs|
  {
    if crcs == [] then []
    else [Steps(Reg(crcs[0], block[..w]), Bits(w, n - 1))] + NextLanes(crcs[1..], block[w..], w, n)
  }

  /** The last block, whose words are run one after the other. */
  function Combined(acc: bv32, crcs: seq<bv32>, block: seq<bv8>, w: nat): bv32
    requires 8 * |block| == Bits(w, |crcs|)
    decreases |crcs|
  {
    if crcs == [] then acc else Combined(Reg(Xor(acc, crcs[0]), block[..w]), crcs[1..], block[w..], w)
  }

  /** A word in front of a run: its own register and the run that follows it. */
  lemma RunSplit(acc: bv32, block: seq<bv8>, w: nat)
    requires w <= |block|
    ensures Reg(acc, block) == Reg(Reg(acc, block[..w]), block[w..])
  {
    hide Reg;
    assert block == block[..w] + block[w..];
    RegAppend(acc, block[..w], block[w..]);
  }

  /** Combining pays what is owed. */
  lemma {:induction false} CombinedPays(acc: bv32, crcs: seq<bv32>, block: seq<bv8>, w: nat)
    requires 8 * |block| == Bits(w, |crcs|)
    ensures Combined(acc, crcs, block, w) == Xor(Reg(acc, block), Owed(crcs, w))
    decreases |crcs|
  {
    hide Xor, Feed, Steps;
    if crcs == [] {
      assert block == [];
      XorZero(acc);
    } else {
      var a, rest, c := block[..w], block[w..], crcs[0];
      RunSplit(acc, block, w);
      RegXor(acc, c, a);
      RegXor(Reg(acc, a), Steps(c, 8 * w), rest);
      StepsAdd(c, 8 * w, 8 * |rest|);
      CombinedPays(Reg(Xor(acc, c), a), crcs[1..], rest, w);
      XorAssoc(Reg(Reg(acc, a), rest), Steps(c, Bits(w, |crcs|)), Owed(crcs[1..], w));
    }
  }

  /** One lane: what it owes and what its word adds, together, are its word run from its register. */
  lemma LanePays(c: bv32, block: seq<bv8>, w: nat, m: nat)
    requires m >= 1 && 8 * |block| == Bits(w, m)
    ensures Xor(Reg(0, block), Steps(c, Bits(w, m))) ==
            Xor(Reg(0, block[w..]), Steps(Reg(c, block[..w]), Bits(w, m - 1)))
  {
    hide Xor, Reg, Steps;
    var a, rest := block[..w], block[w..];
    RunSplit(0, block, w);
    RegSplit(Reg(0, a), rest);
    RegSplit(c, a);
    StepsXor(Reg(0, a), Steps(c, 8 * w), Bits(w, m - 1));
    StepsAdd(c, 8 * w, Bits(w, m - 1));
    XorAssoc(Reg(0, rest), Steps(Reg(0, a), Bits(w, m - 1)), Steps(c, Bits(w, m)));
  }

  /** A block moves the debt on: what the new registers owe is what the whole block, together with the
      old debt, becomes at the end of the next block. */
  lemma {:induction false} NextLanesOwe(crcs: seq<bv32>, block: seq<bv8>, w: nat, n: nat)
    requires 8 * |block| == Bits(w, |crcs|) && n >= 1
    ensures Owed(NextLanes(crcs, block, w, n), w) == Steps(Xor(Reg(0, block), Owed(crcs, w)), Bits(w, n))
    decreases |crcs|
  {
    hide Xor, Feed, Steps;
    if crcs == [] {
      assert block == [];
      XorZero(0);
      StepsZero(Bits(w, n));
    } else {
      var a, rest, c, cs, m := block[..w], block[w..], crcs[0], crcs[1..], |crcs|;
      var lane, debt := Reg(c, a), Owed(cs, w);
      NextLanesOwe(cs, rest, w, n);
      LanePays(c, block, w, m);
      // regroup the debt of lane 0 with the block
      XorAssoc(Reg(0, block), Steps(c, Bits(w, m)), debt);
      XorExchange(Reg(0, rest), Steps(lane, Bits(w, m - 1)), debt, 0);
      XorComm(Xor(Reg(0, rest), debt), Steps(lane, Bits(w, m - 1)));
      StepsXor(Steps(lane, Bits(w, m - 1)), Xor(Reg(0, rest), debt), Bits(w, n));
      // lane 0 runs (m - 1) + n words either way
      StepsAdd(lane, Bits(w, m - 1), Bits(w, n));
      StepsAdd(lane, Bits(w, n - 1), Bits(w, m));
      BitsAdd(w, m - 1, n);
      BitsAdd(w, n - 1, m);
      var next := NextLanes(crcs, block, w, n);
      assert next[1..] == NextLanes(cs, rest, w, n);
    }
  }

  /** A word of w bytes has nothing above them, not even after absorbing a register. */
  lemma {:induction false} ShiftedOut(s: seq<bv8>, c: bv32)
    requires |s| <= 8 && Fits(c, |s|)
    ensures ShiftBytes(Absorb(Load(s), c), |s|) == 0
    decreases |s|
  {
    hide Absorb, Load, LowByte, LowByte64, Down, Down32, Xor8;
    if s == [] {
      LoadEmpty();
    } else {
      LoadStep(s);
      AbsorbStep(Load(s), c);
      ShiftedOut(s[1..], Down32(c));
    }
  }

  lemma LoadEmpty()
    ensures Absorb(Load([]), 0) == 0
  {
  }

  lemma LaneBits(n: nat, w: nat)
    requires n >= 1
    ensures Bits(w, n - 1) == 8 * (n * w - w) && w <= n * w
  {
    BitsAre(w, n - 1);
    assert (n - 1) * w == n * w - w;
  }

  lemma LaneAppended(crcs: seq<bv32>, block: seq<bv8>, w: nat, n: nat, c: bv32)
    requires crcs != [] && n >= 1 && 8 * |block| == Bits(w, |crcs|)
    requires c == Steps(Reg(crcs[0], block[..w]), Bits(w, n - 1))
    ensures NextLanes(crcs, block, w, n) == [c] + NextLanes(crcs[1..], block[w..], w, n)
  {
    hide Reg, Steps;
  }

  /** One pass of the braided loop: every lane absorbs its word and runs it through the tables. */
  method BraidBlock(crcs: seq<bv32>, block: seq<bv8>, w: nat) returns (next: seq<bv32>)
    requires |crcs| >= 1 && (w == 4 || w == 8) && 8 * |block| == Bits(w, |crcs|)
    ensures next == NextLanes(crcs, block, w, |crcs|)
  {
    hide Xor, Reg, Steps, Absorb, Load, BytesOf, NextLanes;
    var n := |crcs|;
    LaneBits(n, w);
    next := [];
    assert crcs[0..] == crcs && block[0..] == block;
    var i, p := 0, 0;
    while i < n
      invariant 0 <= i <= n == |crcs| && 0 <= p <= |block| && 8 * (|block| - p) == Bits(w, n - i)
      invariant next + NextLanes(crcs[i..], block[p..], w, n) == NextLanes(crcs, block, w, n)
    {
      var bytes := block[p..p + w];
      assert bytes == block[p..][..w];
      WordRun(crcs[i], bytes);
      var c := BraidWord(Absorb(Load(bytes), crcs[i]), n, w);
      LaneAppended(crcs[i..], block[p..], w, n, c);
      assert block[p..][w..] == block[p + w..] && crcs[i..][1..] == crcs[i + 1..];
      next := next + [c];
      i, p := i + 1, p + w;
    }
  }

  /** The last block: the words are run in order, each with its lane's register and the result so far. */
  method CombineBlock(crcs: seq<bv32>, block: seq<bv8>, w: nat) returns (crc: bv32)
    requires |crcs| >= 1 && (w == 4 || w == 8) && 8 * |block| == Bits(w, |crcs|)
    ensures crc == Combined(0, crcs, block, w)
  {
    hide Xor, Reg, Steps, Absorb, Load, BytesOf, Fits, ShiftBytes;
    var n := |crcs|;
    XorZero(crcs[0]);
    crc := RunWord(crcs[0], block[..w]);
    var i, p := 1, w;
    while i < n
      invariant 1 <= i <= n == |crcs| && 0 <= p <= |block| && 8 * (|block| - p) == Bits(w, n - i)
      invariant Combined(crc, crcs[i..], block[p..], w) == Combined(0, crcs, block, w)
    {
      var bytes := block[p..p + w];
      AbsorbTwice(Load(bytes), crcs[i], crc);
      XorComm(crcs[i], crc);
      assert block[p..][..w] == bytes && block[p..][w..] == block[p + w..];
      assert crcs[i..][1..] == crcs[i + 1..];
      crc := RunWord(Xor(crcs[i], crc), bytes);
      i, p := i + 1, p + w;
    }
  }

  /** crc_word(c ^ *word). */
  method RunWord(c: bv32, bytes: seq<bv8>) returns (crc: bv32)
    requires |bytes| == 4 || |bytes| == 8
    ensures crc == Reg(c, bytes)
  {
    hide Reg, Absorb, Load, BytesOf, Fits, ShiftBytes;
    FourBytesFit(c, |bytes|);
    ShiftedOut(bytes, c);
    WordRun(c, bytes);
    crc := CrcWord(Absorb(Load(bytes), c), |bytes|);
  }

  /** The debt of fresh lanes: the register so far in lane 0, nothing in the others. */
  lemma {:induction false} FreshOwed(crcs: seq<bv32>, w: nat)
    requires forall i :: 0 <= i < |crcs| ==> crcs[i] == 0
    ensures Owed(crcs, w) == 0
  {
    hide Xor, Steps;
    if crcs != [] {
      StepsZero(Bits(w, |crcs|));
      FreshOwed(crcs[1..], w);
      XorZero(0);
    }
  }

  lemma StartOwed(c: bv32, crcs: seq<bv32>, w: nat)
    requires crcs != [] && crcs[0] == c && forall i :: 1 <= i < |crcs| ==> crcs[i] == 0
    ensures Owed(crcs, w) == Steps(c, Bits(w, |crcs|))
  {
    hide Xor, Steps;
    FreshOwed(crcs[1..], w);
    XorZero(Steps(c, Bits(w, |crcs|)));
  }

  /** The braided loop over whole blocks. `while (--blks)` runs blks - 1 passes, so blks must not be 0. */
  method Braided(crc: bv32, s: seq<bv8>, blks: nat, n: nat, w: nat) returns (r: bv32)
    requires blks >= 1 && n >= 1 && (w == 4 || w == 8) && |s| == blks * (n * w)
    ensures r == Reg(crc, s)
  {
    hide Xor, Reg, Steps, NextLanes, Combined, Owed;
    var size := n * w;
    BitsAre(w, n);
    var crcs := [crc] + seq(n - 1, _ => 0);
    StartOwed(crc, crcs, w);
    assert s[..0] == [] && Reg(crc, []) == crc by { RegEmpty(crc); }
    var p := 0;
    var left := blks - 1;
    while left != 0
      invariant 0 <= left < blks && 0 <= p <= |s| && |s| - p == left * size + size
      invariant |crcs| == n && Owed(crcs, w) == Steps(Reg(crc, s[..p]), Bits(w, n))
      decreases left
    {
      OneBlockLess(left, size);
      var block := s[p..p + size];
      assert s[..p + size] == s[..p] + block;
      BlockDone(crc, s[..p], block, crcs, w, n);
      crcs := BraidBlock(crcs, block, w);
      p := p + size;
      left := left - 1;
    }
    var block := s[p..];
    assert s == s[..p] + block;
    CombinedPays(0, crcs, block, w);
    RegAppend(crc, s[..p], block);
    RegSplit(Reg(crc, s[..p]), block);
    r := CombineBlock(crcs, block, w);
  }

  lemma OneBlockLess(left: nat, size: nat)
    requires left >= 1
    ensures left * size == (left - 1) * size + size && (left - 1) * size >= 0
  {
  }

  lemma RegEmpty(r: bv32)
    ensures Reg(r, []) == r
  {
  }

  lemma BlockDone(crc: bv32, prefix: seq<bv8>, block: seq<bv8>, crcs: seq<bv32>, w: nat, n: nat)
    requires |crcs| == n >= 1 && 8 * |block| == Bits(w, n)
    requires Owed(crcs, w) == Steps(Reg(crc, prefix), Bits(w, n))
    ensures Owed(NextLanes(crcs, block, w, n), w) == Steps(Reg(crc, prefix + block), Bits(w, n))
  {
    hide Xor, Reg, Steps, NextLanes, Owed;
    NextLanesOwe(crcs, block, w, n);
    RegAppend(crc, prefix, block);
    RegSplit(Reg(crc, prefix), block);
  }

  /** One table step, seen from the bytes still to come. */
  lemma ByteDone(r: bv32, s: seq<bv8>)
    requires s != []
    ensures Reg(TableStep(r, s[0]), s[1..]) == Reg(r, s)
  {
    hide Feed, TableStep;
    TableStepIsFeed(r, s[0]);
  }

  /** The closing byte loops: eight table steps a round, then single ones. */
  method ByteLoops(crc: bv32, s: seq<bv8>) returns (r: bv32)
    ensures r == Reg(crc, s)
  {
    hide Reg, TableStep;
    r := crc;
    var rest := s;
    while |rest| >= 8
      invariant Reg(r, rest) == Reg(crc, s)
      decreases |rest|
    {
      ghost var len := |rest|;
      for i := 0 to 8
        invariant |rest| == len - i && Reg(r, rest) == Reg(crc, s)
      {
        ByteDone(r, rest);
        r, rest := TableStep(r, rest[0]), rest[1..];
      }
    }
    while rest != []
      invariant Reg(r, rest) == Reg(crc, s)
      decreases |rest|
    {
      ByteDone(r, rest);
      r, rest := TableStep(r, rest[0]), rest[1..];
    }
    RegEmpty(r);
  }

  /** The bytes before the first word boundary; address is where the buffer starts. */
  method ToBoundary(crc: bv32, s: seq<bv8>, address: nat, w: nat) returns (r: bv32, p: nat)
    requires w == 4 || w == 8
    ensures p <= |s| && r == Reg(crc, s[..p]) && p < w
    ensures p == |s| || (address + p) % w == 0
  {
    hide Reg, TableStep, Feed;
    r, p := crc, 0;
    RegEmpty(crc);
    assert s[..0] == [];
    while p < |s| && (address + p) % w != 0
      invariant p <= |s| && r == Reg(crc, s[..p])
      invariant p > 0 ==> address % w != 0 && p <= w - address % w
    {
      assert s[..p + 1] == s[..p] + [s[p]];
      RegSnoc(crc, s[..p], s[p]);
      TableStepIsFeed(r, s[p]);
      OneNearer(address, p, w);
      r, p := TableStep(r, s[p]), p + 1;
    }
  }

  lemma OneNearer(address: nat, p: nat, w: nat)
    requires (w == 4 || w == 8) && (address + p) % w != 0
    requires p > 0 ==> address % w != 0 && p <= w - address % w
    ensures address % w != 0 && p + 1 <= w - address % w
  {
  }

  /** `crc32_z` on a little-endian machine with n braids of w-byte words, for a buffer that starts at
      the given address. A null buffer asks for the initial value. */
  method Crc32Z(crc: bv64, buffer: Buffer, address: nat, n: nat, w: nat) returns (r: bv64)
    requires n >= 1 && (w == 4 || w == 8)
    ensures buffer.Null? ==> r == 0
    ensures buffer.Bytes? ==> r == Widen64(Checksum(Low32(crc), buffer.bytes))
  {
    hide Reg, Low32, Widen64;
    if buffer.Null? { return 0; }
    var s := buffer.bytes;
    var c := Invert(Low32(crc));
    var rest := s;
    if |s| >= n * w + w - 1 {
      var p;
      c, p := ToBoundary(c, s, address, w);
      var blks := (|s| - p) / (n * w);
      BlocksThere(|s| - p, n * w);
      var q := p + blks * (n * w);
      assert s == (s[..p] + s[p..q]) + s[q..];
      RegAppend(Invert(Low32(crc)), s[..p] + s[p..q], s[q..]);
      RegAppend(Invert(Low32(crc)), s[..p], s[p..q]);
      c := Braided(c, s[p..q], blks, n, w);
      rest := s[q..];
    }
    c := ByteLoops(c, rest);
    r := Widen64(Invert(c));
  }

  lemma BlocksThere(len: nat, size: nat)
    requires len >= size > 0
    ensures len / size >= 1 && 0 < (len / size) * size <= len
  {
    assert len == (len / size) * size + len % size;
    if len / size == 0 { assert false; }
  }

  datatype Buffer = Null | Bytes(bytes: seq<bv8>)
}
