/** The functions of FIPS 180-4 on words: logical functions (section 4.1.2) and the order of bytes (section 3.1). */
module Sha256Words {

  type byte = bv8
  type word = bv32

  function Not(x: word): word {
    !x
  }

  function And(x: word, y: word): word {
    x & y
  }

  function Xor(x: word, y: word): word {
    x ^ y
  }

  function Or(x: word, y: word): word {
    x | y
  }

  function Shr(x: word, n: word): word
    requires n <= 32
  {
    x >> n
  }

  function Shl(x: word, n: word): word
    requires n <= 32
  {
    x << n
  }

  function Ch(x: word, y: word, z: word): word {
    Xor(And(x, y), And(Not(x), z))
  }

  function Maj(x: word, y: word, z: word): word {
    Xor(Xor(And(x, y), And(x, z)), And(y, z))
  }

  function Rotr(x: word, n: word): word
    requires n <= 32
  {
    Or(Shr(x, n), Shl(x, 32 - n))
  }

  function BigSigma0(x: word): word {
    Xor(Xor(Rotr(x, 2), Rotr(x, 13)), Rotr(x, 22))
  }

  function BigSigma1(x: word): word {
    Xor(Xor(Rotr(x, 6), Rotr(x, 11)), Rotr(x, 25))
  }

  function SmallSigma0(x: word): word {
    Xor(Xor(Rotr(x, 7), Rotr(x, 18)), Shr(x, 3))
  }

  function SmallSigma1(x: word): word {
    Xor(Xor(Rotr(x, 17), Rotr(x, 19)), Shr(x, 10))
  }

  // ---------------------------------------------------------------- what the functions do, bit by bit

  predicate Bit(x: word, i: word)
    requires i < 32
  {
    (x >> i) & 1 == 1
  }

  /** The index `n` places further on, around the end of the word. */
  function Around(i: word, n: word): (j: word)
    ensures j < 32
  {
    (i + n) & 31
  }

  lemma BitNot(x: word, i: word)
    requires i < 32
    ensures Bit(Not(x), i) <==> !Bit(x, i)
  {
  }

  lemma BitAnd(x: word, y: word, i: word)
    requires i < 32
    ensures Bit(And(x, y), i) <==> Bit(x, i) && Bit(y, i)
  {
    BitAndOf(x, y, i);
    hide Bit;
  }

  lemma BitAndOf(x: word, y: word, i: word)
    requires i < 32
    ensures Bit(x & y, i) <==> Bit(x, i) && Bit(y, i)
  {
  }

  lemma BitXor(x: word, y: word, i: word)
    requires i < 32
    ensures Bit(Xor(x, y), i) == (Bit(x, i) != Bit(y, i))
  {
    BitXorOf(x, y, i);
    hide Bit;
  }

  lemma BitXorOf(x: word, y: word, i: word)
    requires i < 32
    ensures Bit(x ^ y, i) == (Bit(x, i) != Bit(y, i))
  {
  }

  lemma BitShifted(x: word, n: word, i: word)
    requires i < 32 && n < 32
    ensures Bit(Shr(x, n), i) <==> i + n < 32 && Bit(x, Around(i, n))
  {
    BitShiftedOf(x, n, i);
    hide Bit;
  }

  lemma BitShiftedOf(x: word, n: word, i: word)
    requires i < 32 && n < 32
    ensures Bit(x >> n, i) <==> i + n < 32 && Bit(x, (i + n) & 31)
  {
  }

  /** `Ch` chooses: where a bit of `x` is set the bit of `y`, elsewhere that of `z`. */
  lemma ChChooses(x: word, y: word, z: word, i: word)
    requires i < 32
    ensures Bit(Ch(x, y, z), i) == if Bit(x, i) then Bit(y, i) else Bit(z, i)
  {
    hide Bit, Not, And, Xor;
    BitNot(x, i);
    BitAnd(x, y, i);
    BitAnd(Not(x), z, i);
    BitXor(And(x, y), And(Not(x), z), i);
  }

  /** `Maj` is the majority of the three bits. */
  lemma MajIsMajority(x: word, y: word, z: word, i: word)
    requires i < 32
    ensures Bit(Maj(x, y, z), i) <==>
      (Bit(x, i) && Bit(y, i)) || (Bit(x, i) && Bit(z, i)) || (Bit(y, i) && Bit(z, i))
  {
    hide Bit, And, Xor;
    BitAnd(x, y, i);
    BitAnd(x, z, i);
    BitAnd(y, z, i);
    BitXorThree(And(x, y), And(x, z), And(y, z), i);
  }

  lemma RotateOne(x: word, i: word)
    requires i < 32
    ensures Bit(Rotr(x, 1), i) == Bit(x, Around(i, 1))
  {
  }

  lemma ShiftRightMore(x: word, n: word)
    requires 0 < n < 32
    ensures Shr(x, n) == Shr(Shr(x, n - 1), 1)
  {
  }

  lemma ShiftLeftLess(x: word, n: word)
    requires 0 < n < 32
    ensures Shl(x, 32 - n) == Or(Shr(Shl(x, 32 - (n - 1)), 1), Shl(Shr(x, n - 1), 31))
    ensures Shl(Shl(x, 32 - (n - 1)), 31) == 0
  {
  }

  lemma RotateParts(a: word, b: word)
    requires Shl(b, 31) == 0
    ensures Or(Shr(a, 1), Or(Shr(b, 1), Shl(a, 31))) == Or(Shr(Or(a, b), 1), Shl(Or(a, b), 31))
  {
    OrLaws(Shr(a, 1), Shr(b, 1), Shl(a, 31));
    ShiftsOfOr(a, b);
    OrZero(Shl(a, 31));
    hide Or, Shr, Shl;
  }

  lemma OrLaws(x: word, y: word, z: word)
    ensures Or(x, Or(y, z)) == Or(Or(x, y), z)
  {
  }

  lemma OrZero(x: word)
    ensures Or(x, 0) == x
  {
  }

  lemma ShiftsOfOr(a: word, b: word)
    ensures Shr(Or(a, b), 1) == Or(Shr(a, 1), Shr(b, 1)) && Shl(Or(a, b), 31) == Or(Shl(a, 31), Shl(b, 31))
  {
  }

  lemma RotateMore(x: word, n: word)
    requires 0 < n < 32
    ensures Rotr(x, n) == Rotr(Rotr(x, n - 1), 1)
  {
    hide Or, Shr, Shl;
    ShiftRightMore(x, n);
    ShiftLeftLess(x, n);
    RotateParts(Shr(x, n - 1), Shl(x, 32 - (n - 1)));
  }

  lemma AroundMore(i: word, n: word)
    requires i < 32 && 0 < n < 32
    ensures Around(Around(i, 1), n - 1) == Around(i, n)
  {
  }

  /** `Rotr` moves bit `i + n` to `i`, around the end of the word. */
  lemma {:induction false} RotrRotates(x: word, n: word, i: word)
    requires n < 32 && i < 32
    ensures Bit(Rotr(x, n), i) == Bit(x, Around(i, n))
    decreases n
  {
    if n == 0 {
      assert Rotr(x, 0) == x && Around(i, 0) == i;
    } else {
      hide Rotr, Bit, Around;
      RotateMore(x, n);
      RotateOne(Rotr(x, n - 1), i);
      RotrRotates(x, n - 1, Around(i, 1));
      AroundMore(i, n);
    }
  }

  /** Whether an odd number of the three is set. */
  predicate Parity(p: bool, q: bool, r: bool) {
    (p != q) != r
  }

  lemma BitXorThree(x: word, y: word, z: word, i: word)
    requires i < 32
    ensures Bit(Xor(Xor(x, y), z), i) == Parity(Bit(x, i), Bit(y, i), Bit(z, i))
  {
    hide Bit, Xor;
    BitXor(x, y, i);
    BitXor(Xor(x, y), z, i);
  }

  /** The capital sigmas: each bit is the parity of three bits of `x`, at the distances of the standard. */
  lemma BigSigmaBits(x: word, i: word)
    requires i < 32
    ensures Bit(BigSigma0(x), i) == Parity(Bit(x, Around(i, 2)), Bit(x, Around(i, 13)), Bit(x, Around(i, 22)))
    ensures Bit(BigSigma1(x), i) == Parity(Bit(x, Around(i, 6)), Bit(x, Around(i, 11)), Bit(x, Around(i, 25)))
  {
    hide Bit, Rotr, Xor, Shr, Parity, Around;
    RotrRotates(x, 2, i);
    RotrRotates(x, 13, i);
    RotrRotates(x, 22, i);
    BitXorThree(Rotr(x, 2), Rotr(x, 13), Rotr(x, 22), i);
    RotrRotates(x, 6, i);
    RotrRotates(x, 11, i);
    RotrRotates(x, 25, i);
    BitXorThree(Rotr(x, 6), Rotr(x, 11), Rotr(x, 25), i);
  }

  /** The small ones: the third bit is shifted, not rotated. */
  lemma SmallSigmaBits(x: word, i: word)
    requires i < 32
    ensures Bit(SmallSigma0(x), i) ==
      Parity(Bit(x, Around(i, 7)), Bit(x, Around(i, 18)), i + 3 < 32 && Bit(x, Around(i, 3)))
    ensures Bit(SmallSigma1(x), i) ==
      Parity(Bit(x, Around(i, 17)), Bit(x, Around(i, 19)), i + 10 < 32 && Bit(x, Around(i, 10)))
  {
    hide Bit, Rotr, Xor, Shr, Parity, Around;
    RotrRotates(x, 7, i);
    RotrRotates(x, 18, i);
    BitShifted(x, 3, i);
    BitXorThree(Rotr(x, 7), Rotr(x, 18), Shr(x, 3), i);
    RotrRotates(x, 17, i);
    RotrRotates(x, 19, i);
    BitShifted(x, 10, i);
    BitXorThree(Rotr(x, 17), Rotr(x, 19), Shr(x, 10), i);
  }

  lemma NextByte(b: byte)
    requires b < 255
    ensures (b + 1) as int == b as int + 1
  {
  }

  lemma NotLast(b: byte, x: nat)
    requires b as int == x && x < 255
    ensures b < 255
  {
  }

  lemma {:induction false} ByteOf(x: nat) returns (b: byte)
    requires x < 256
    ensures b as int == x
  {
    if x == 0 {
      b := 0;
    } else {
      var c := ByteOf(x - 1);
      NotLast(c, x - 1);
      NextByte(c);
      b := c + 1;
    }
  }

  lemma ConvertedBack(x: nat, b: byte)
    requires x == b as int
    ensures x as byte == b
  {
  }

  lemma ToByte(x: nat)
    requires x < 256
    ensures x as byte as int == x
  {
    var b := ByteOf(x);
    ConvertedBack(x, b);
  }

  function BigEndian(b0: byte, b1: byte, b2: byte, b3: byte): word {
    ((b0 as word) << 24) | ((b1 as word) << 16) | ((b2 as word) << 8) | (b3 as word)
  }

  lemma AppendByte(x: word, b: byte)
    requires x < 0x100_0000
    ensures ((x << 8) | (b as word)) as int == 256 * (x as int) + (b as int)
  {
  }

  lemma ByteByByte(b0: byte, b1: byte, b2: byte, b3: byte)
    ensures ((b0 as word) << 8) | (b1 as word) < 0x1_0000
    ensures ((((b0 as word) << 8) | (b1 as word)) << 8) | (b2 as word) < 0x100_0000
    ensures BigEndian(b0, b1, b2, b3) ==
      ((((((b0 as word) << 8) | (b1 as word)) << 8) | (b2 as word)) << 8) | (b3 as word)
  {
  }

  /** The first byte is the most significant one. */
  lemma BigEndianValue(b0: byte, b1: byte, b2: byte, b3: byte)
    ensures BigEndian(b0, b1, b2, b3) as int ==
      0x100_0000 * (b0 as int) + 0x1_0000 * (b1 as int) + 0x100 * (b2 as int) + (b3 as int)
  {
    var x0 := b0 as word;
    var x1 := (x0 << 8) | (b1 as word);
    var x2 := (x1 << 8) | (b2 as word);
    ByteByByte(b0, b1, b2, b3);
    AppendByte(x0, b1);
    AppendByte(x1, b2);
    AppendByte(x2, b3);
  }

  /** The bytes of a word, the highest first. */
  function WordByte(w: word, i: nat): byte
    requires i < 4
  {
    ((w >> Offset(i)) & 0xff) as byte
  }

  /** 24 - 8 * i. */
  function Offset(i: nat): (n: word)
    requires i < 4
    ensures n <= 24
  {
    if i == 0 then 24 else if i == 1 then 16 else if i == 2 then 8 else 0
  }

  /** They are the bytes that the word is read from. */
  lemma WordByteValue(w: word)
    ensures BigEndian(WordByte(w, 0), WordByte(w, 1), WordByte(w, 2), WordByte(w, 3)) == w
    ensures w as int == 0x100_0000 * (WordByte(w, 0) as int) + 0x1_0000 * (WordByte(w, 1) as int)
      + 0x100 * (WordByte(w, 2) as int) + (WordByte(w, 3) as int)
  {
    BytesBack(w);
    BigEndianValue(WordByte(w, 0), WordByte(w, 1), WordByte(w, 2), WordByte(w, 3));
  }

  lemma BytesBack(w: word)
    ensures BigEndian(WordByte(w, 0), WordByte(w, 1), WordByte(w, 2), WordByte(w, 3)) == w
  {
    assert WordByte(w, 0) == ((w >> 24) & 0xff) as byte;
    assert WordByte(w, 1) == ((w >> 16) & 0xff) as byte;
    assert WordByte(w, 2) == ((w >> 8) & 0xff) as byte;
    assert WordByte(w, 3) == (w & 0xff) as byte;
    hide WordByte;
    Reassembled(w);
  }

  lemma Reassembled(w: word)
    ensures BigEndian(((w >> 24) & 0xff) as byte, ((w >> 16) & 0xff) as byte, ((w >> 8) & 0xff) as byte,
      (w & 0xff) as byte) == w
  {
  }
}

/** SHA-256 as FIPS 180-4 defines it: padding (section 5.1.1), constants (4.2.2, 5.3.3), and the hash computation
    (6.2.2). */
module Sha256Spec {
  import opened Sha256Words

  const K: seq<seq<word>> := [
    [0x428a2f98, 0x71374491, 0xb5c0fbcf, 0xe9b5dba5, 0x3956c25b, 0x59f111f1, 0x923f82a4, 0xab1c5ed5],
    [0xd807aa98, 0x12835b01, 0x243185be, 0x550c7dc3, 0x72be5d74, 0x80deb1fe, 0x9bdc06a7, 0xc19bf174],
    [0xe49b69c1, 0xefbe4786, 0x0fc19dc6, 0x240ca1cc, 0x2de92c6f, 0x4a7484aa, 0x5cb0a9dc, 0x76f988da],
    [0x983e5152, 0xa831c66d, 0xb00327c8, 0xbf597fc7, 0xc6e00bf3, 0xd5a79147, 0x06ca6351, 0x14292967],
    [0x27b70a85, 0x2e1b2138, 0x4d2c6dfc, 0x53380d13, 0x650a7354, 0x766a0abb, 0x81c2c92e, 0x92722c85],
    [0xa2bfe8a1, 0xa81a664b, 0xc24b8b70, 0xc76c51a3, 0xd192e819, 0xd6990624, 0xf40e3585, 0x106aa070],
    [0x19a4c116, 0x1e376c08, 0x2748774c, 0x34b0bcb5, 0x391c0cb3, 0x4ed8aa4a, 0x5b9cca4f, 0x682e6ff3],
    [0x748f82ee, 0x78a5636f, 0x84c87814, 0x8cc70208, 0x90befffa, 0xa4506ceb, 0xbef9a3f7, 0xc67178f2]]

  /** The working variables, and likewise the hash value between blocks. */
  datatype Regs = Regs(a: word, b: word, c: word, d: word, e: word, f: word, g: word, h: word)

  const IV: Regs := Regs(0x6a09e667, 0xbb67ae85, 0x3c6ef372, 0xa54ff53a, 0x510e527f, 0x9b05688c, 0x1f83d9ab, 0x5be0cd19)

  /** Addition modulo 2^32. */
  function Sum(x: word, y: word): word {
    x + y
  }

  function ExtendWord(w2: word, w7: word, w15: word, w16: word): word {
    SmallSigma1(w2) + w7 + SmallSigma0(w15) + w16
  }

  function T1(h: word, e: word, f: word, g: word, k: word, w: word): word {
    h + BigSigma1(e) + Ch(e, f, g) + k + w
  }

  function T2(a: word, b: word, c: word): word {
    BigSigma0(a) + Maj(a, b, c)
  }

  function RoundConstant(i: nat): word
    requires i < 64
  {
    K[i / 8][i % 8]
  }

  /** The first `n` words of the message schedule. */
  function Schedule(block: seq<byte>, n: nat): (w: seq<word>)
    requires |block| == 64 && n <= 64
    ensures |w| == n
  {
    if n == 0 then []
    else
      var w := Schedule(block, n - 1);
      var t := n - 1;
      if t < 16 then w + [BigEndian(block[4 * t], block[4 * t + 1], block[4 * t + 2], block[4 * t + 3])]
      else w + [ExtendWord(w[t - 2], w[t - 7], w[t - 15], w[t - 16])]
  }

  lemma {:induction false} ScheduleExtends(block: seq<byte>, m: nat, n: nat)
    requires |block| == 64 && m <= n <= 64
    ensures Schedule(block, n)[..m] == Schedule(block, m)
  {
    if m < n {
      ScheduleExtends(block, m, n - 1);
      hide BigEndian, ExtendWord;
      assert Schedule(block, n)[..n - 1] == Schedule(block, n - 1);
      assert Schedule(block, n)[..m] == Schedule(block, n - 1)[..m];
    }
  }

  /** Each word of the schedule: the first sixteen are read from the block, the others follow by the recurrence. */
  lemma ScheduleAt(block: seq<byte>, t: nat)
    requires |block| == 64 && t < 64
    ensures var w := Schedule(block, 64);
      w[t] == if t < 16 then BigEndian(block[4 * t], block[4 * t + 1], block[4 * t + 2], block[4 * t + 3])
        else ExtendWord(w[t - 2], w[t - 7], w[t - 15], w[t - 16])
  {
    var w, front := Schedule(block, 64), Schedule(block, t);
    ScheduleExtends(block, t, 64);
    ScheduleExtends(block, t + 1, 64);
    hide BigEndian, ExtendWord;
    assert w[..t + 1][t] == w[t];
    assert forall i :: 0 <= i < t ==> w[i] == w[..t][i];
  }

  function Round(r: Regs, k: word, w: word): Regs {
    var t1 := T1(r.h, r.e, r.f, r.g, k, w);
    Regs(Sum(t1, T2(r.a, r.b, r.c)), r.a, r.b, r.c, Sum(r.d, t1), r.e, r.f, r.g)
  }

  function Rounds(r: Regs, w: seq<word>, n: nat): Regs
    requires |w| == 64 && n <= 64
  {
    if n == 0 then r else Round(Rounds(r, w, n - 1), RoundConstant(n - 1), w[n - 1])
  }

  function Add(r: Regs, s: Regs): Regs {
    Regs(Sum(r.a, s.a), Sum(r.b, s.b), Sum(r.c, s.c), Sum(r.d, s.d), Sum(r.e, s.e), Sum(r.f, s.f), Sum(r.g, s.g),
      Sum(r.h, s.h))
  }

  function Compress(h: Regs, block: seq<byte>): Regs
    requires |block| == 64
  {
    Add(h, Rounds(h, Schedule(block, 64), 64))
  }

  /** All blocks of a message whose length is a multiple of 64. */
  function Digest(h: Regs, blocks: seq<byte>): Regs {
    if |blocks| < 64 then h
    else Compress(Digest(h, blocks[..|blocks| - 64]), blocks[|blocks| - 64..])
  }

  lemma DigestNone()
    ensures Digest(IV, []) == IV
    ensures IV == Regs(0x6a09e667, 0xbb67ae85, 0x3c6ef372, 0xa54ff53a, 0x510e527f, 0x9b05688c, 0x1f83d9ab, 0x5be0cd19)
  {
    hide Compress;
  }

  const U64: nat := 0x1_0000_0000_0000_0000

  /** How many zero bytes follow the `0x80`. */
  function Zeros(len: nat): nat {
    (55 - len) % 64
  }

  /** The byte that `n >> 8 * k` leaves, for `d == 256^k`. */
  function ByteAt(n: nat, d: nat): byte
    requires d > 0
  {
    (n / d % 256) as byte
  }

  function Length64(bits: nat): (r: seq<byte>)
    ensures |r| == 8
  {
    [ByteAt(bits, 0x100_0000_0000_0000), ByteAt(bits, 0x1_0000_0000_0000), ByteAt(bits, 0x100_0000_0000),
     ByteAt(bits, 0x1_0000_0000), ByteAt(bits, 0x100_0000), ByteAt(bits, 0x1_0000), ByteAt(bits, 0x100),
       ByteAt(bits, 1)]
  }

  function Fill(n: nat): (r: seq<byte>)
    ensures |r| == n && forall i :: 0 <= i < n ==> r[i] == 0
  {
    seq(n, _ => 0)
  }

  /** The padding appended to a message of `len` bytes. */
  function Padding(len: nat): (p: seq<byte>)
    ensures |p| == 9 + Zeros(len)
  {
    [0x80] + Fill(Zeros(len)) + Length64(8 * len)
  }

  lemma PaddedLength(len: nat)
    ensures (len + |Padding(len)|) % 64 == 0 && (len + 1 + Zeros(len)) % 64 == 56
  {
    hide Fill, Length64, Padding;
  }

  /** No shorter run of zeros would do. */
  lemma ZerosLeast(len: nat, k: nat)
    requires (len + 1 + k) % 64 == 56
    ensures Zeros(len) <= k
  {
    PaddedLength(len);
  }

  /** The length field holds the bit count modulo 2^64. */
  lemma LengthWraps(bits: nat)
    ensures Length64(bits % U64) == Length64(bits)
  {
    var q, r := bits / U64, bits % U64;
    assert bits == q * U64 + r;
    hide ByteAt;
    ByteWraps(q, r, 0x100_0000_0000_0000, 1);
    ByteWraps(q, r, 0x1_0000_0000_0000, 0x100);
    ByteWraps(q, r, 0x100_0000_0000, 0x1_0000);
    ByteWraps(q, r, 0x1_0000_0000, 0x100_0000);
    ByteWraps(q, r, 0x100_0000, 0x1_0000_0000);
    ByteWraps(q, r, 0x1_0000, 0x100_0000_0000);
    ByteWraps(q, r, 0x100, 0x1_0000_0000_0000);
    ByteWraps(q, r, 1, 0x100_0000_0000_0000);
  }

  /** Its bytes are the digits to the base 256, the most significant first. */
  lemma LengthValue(bits: nat)
    requires bits < U64
    ensures var b := Length64(bits);
      bits == 0x100_0000_0000_0000 * (b[0] as int) + 0x1_0000_0000_0000 * (b[1] as int)
        + 0x100_0000_0000 * (b[2] as int)
        + 0x1_0000_0000 * (b[3] as int) + 0x100_0000 * (b[4] as int) + 0x1_0000 * (b[5] as int)
        + 0x100 * (b[6] as int) + (b[7] as int)
  {
    Digit(bits, 1, 0x100);
    Digit(bits, 0x100, 0x1_0000);
    Digit(bits, 0x1_0000, 0x100_0000);
    Digit(bits, 0x100_0000, 0x1_0000_0000);
    Digit(bits, 0x1_0000_0000, 0x100_0000_0000);
    Digit(bits, 0x100_0000_0000, 0x1_0000_0000_0000);
    Digit(bits, 0x1_0000_0000_0000, 0x100_0000_0000_0000);
    Digit(bits, 0x100_0000_0000_0000, U64);
    Beginning(bits);
    var b := Length64(bits);
    hide ByteAt, Quotient;
    Horner(bits, Quotient(bits, 0x100), Quotient(bits, 0x1_0000), Quotient(bits, 0x100_0000),
      Quotient(bits, 0x1_0000_0000), Quotient(bits, 0x100_0000_0000), Quotient(bits, 0x1_0000_0000_0000),
      b[0] as int, b[1] as int, b[2] as int, b[3] as int, b[4] as int, b[5] as int, b[6] as int, b[7] as int);
  }

  lemma Horner(n: nat, q1: nat, q2: nat, q3: nat, q4: nat, q5: nat, q6: nat,
               b0: int, b1: int, b2: int, b3: int, b4: int, b5: int, b6: int, b7: int)
    requires n == 256 * q1 + b7 && q1 == 256 * q2 + b6 && q2 == 256 * q3 + b5 && q3 == 256 * q4 + b4
    requires q4 == 256 * q5 + b3 && q5 == 256 * q6 + b2 && q6 == 256 * b0 + b1
    ensures n == 0x100_0000_0000_0000 * b0 + 0x1_0000_0000_0000 * b1 + 0x100_0000_0000 * b2 + 0x1_0000_0000 * b3
      + 0x100_0000 * b4 + 0x1_0000 * b5 + 0x100 * b6 + b7
  {
  }

  function Quotient(n: nat, d: nat): nat
    requires d > 0
  {
    n / d
  }

  lemma Beginning(bits: nat)
    requires bits < U64
    ensures Quotient(bits, 1) == bits && Quotient(bits, U64) == 0
  {
  }

  lemma Digit(n: nat, d: nat, e: nat)
    requires d > 0 && e == 256 * d
    ensures Quotient(n, d) == 256 * Quotient(n, e) + ByteAt(n, d) as int
  {
    var q, r := Divide(n, e);
    var q1, r1 := Divide(r, d);
    DigitOf(n, d, e, q, q1, r1);
    ByteBack(n, d);
    hide ByteAt;
  }

  lemma Divide(n: nat, d: nat) returns (q: nat, r: nat)
    requires d > 0
    ensures q == n / d && n == q * d + r && r < d
  {
    q, r := n / d, n % d;
  }

  lemma DigitOf(n: nat, d: nat, e: nat, q: nat, q1: nat, r1: nat)
    requires d > 0 && e == 256 * d && n == q * e + (q1 * d + r1) && q1 * d + r1 < e && r1 < d
    ensures n / d == 256 * q + q1 && n / d % 256 == q1
  {
    Regroup(q, d, e, q1, r1);
    DivUnique(n, d, 256 * q + q1, r1);
    BelowBase(q1, d, r1);
    DivUnique(256 * q + q1, 256, q, q1);
  }

  lemma ByteBack(n: nat, d: nat)
    requires d > 0
    ensures ByteAt(n, d) as int == n / d % 256
  {
    ToByte(n / d % 256);
  }

  lemma Regroup(q: nat, d: nat, e: nat, q1: nat, r1: nat)
    requires e == 256 * d
    ensures q * e + (q1 * d + r1) == (256 * q + q1) * d + r1
  {
    assert q * e == 256 * q * d;
  }

  lemma BelowBase(q1: nat, d: nat, r1: nat)
    requires q1 * d + r1 < 256 * d
    ensures q1 < 256
  {
    if q1 >= 256 { MulAtLeast(q1 - 255, d); }
  }

  lemma ByteWraps(q: nat, r: nat, d: nat, f: nat)
    requires d > 0 && d * (256 * f) == U64
    ensures ByteAt(q * U64 + r, d) == ByteAt(r, d)
  {
    var m := q * (256 * f);
    MulSwap(q, d, 256 * f);
    MulSwap(q, 256, f);
    Shifted(r, m, d);
    SameRest(r / d, q * f, 256);
  }

  lemma MulSwap(q: nat, d: nat, e: nat)
    ensures q * (d * e) == q * e * d
  {
  }

  lemma {:induction false} Shifted(n: nat, m: nat, d: nat)
    requires d > 0
    ensures (n + m * d) / d == n / d + m
  {
    if m > 0 {
      Shifted(n, m - 1, d);
      assert n + m * d == n + (m - 1) * d + d;
      OneMore(n + (m - 1) * d, d);
    }
  }

  lemma OneMore(x: nat, d: nat)
    requires d > 0
    ensures (x + d) / d == x / d + 1
  {
    var q, r := x / d, x % d;
    assert (q + 1) * d == q * d + d && x + d == (q + 1) * d + r;
    DivUnique(x + d, d, q + 1, r);
  }

  lemma DivUnique(x: int, d: nat, q: int, r: int)
    requires d > 0 && x == q * d + r && 0 <= r < d
    ensures x / d == q && x % d == r
  {
    var k := q - x / d;
    assert k * d == q * d - x / d * d;
    Small(k, d, x % d - r);
  }

  lemma Small(k: int, d: int, e: int)
    requires k * d == e && -d < e < d
    ensures k == 0
  {
    if k >= 1 {
      MulAtLeast(k, d);
    } else if k <= -1 {
      MulAtLeast(-k, d);
    }
  }

  lemma {:induction false} MulAtLeast(k: int, d: int)
    requires k >= 1 && d >= 0
    ensures k * d >= d
  {
    if k > 1 { MulAtLeast(k - 1, d); }
  }

  lemma DigestOne(h: Regs, front: seq<byte>, block: seq<byte>)
    requires |block| == 64
    ensures Digest(h, front + block) == Compress(Digest(h, front), block)
  {
    hide Compress;
    var all := front + block;
    assert all[..|all| - 64] == front && all[|all| - 64..] == block;
  }

  lemma ZerosAre(len: nat)
    ensures Zeros(len) == if len % 64 < 56 then 55 - len % 64 else 119 - len % 64
  {
  }

  /** The padded message when the tail leaves room for the length. */
  lemma OneMoreBlock(message: seq<byte>, front: seq<byte>, tail: seq<byte>, block: seq<byte>)
    requires message == front + tail && |tail| < 56 && |message| % 64 == |tail|
    requires block == tail + [0x80] + Fill(55 - |tail|) + Length64(8 * |message|)
    ensures Digest(IV, message + Padding(|message|)) == Compress(Digest(IV, front), block)
  {
    ZerosAre(|message|);
    hide Digest, Compress, Zeros, Length64, Fill, IV;
    assert message + Padding(|message|) == front + block;
    DigestOne(IV, front, block);
  }

  /** The padded message when the padding spills into another block. */
  lemma TwoMoreBlocks(message: seq<byte>, front: seq<byte>, tail: seq<byte>, block: seq<byte>, last: seq<byte>)
    requires message == front + tail && 56 <= |tail| < 64 && |message| % 64 == |tail|
    requires block == tail + [0x80] + Fill(63 - |tail|) && last == Fill(56) + Length64(8 * |message|)
    ensures Digest(IV, message + Padding(|message|)) == Compress(Compress(Digest(IV, front), block), last)
  {
    ZerosAre(|message|);
    assert Fill(119 - |tail|) == Fill(63 - |tail|) + Fill(56);
    hide Digest, Compress, Zeros, Length64, Fill, IV;
    assert message + Padding(|message|) == front + block + last;
    DigestOne(IV, front, block);
    DigestOne(IV, front + block, last);
  }

  function Nth(r: Regs, k: nat): word
    requires k < 8
  {
    if k == 0 then r.a else if k == 1 then r.b else if k == 2 then r.c else if k == 3 then r.d
    else if k == 4 then r.e else if k == 5 then r.f else if k == 6 then r.g else r.h
  }

  /** The hash value as bytes. */
  function Output(r: Regs): (bytes: seq<byte>)
    ensures |bytes| == 32
  {
    seq(32, p requires 0 <= p < 32 => WordByte(Nth(r, p / 4), p % 4))
  }

  lemma OutputAt(r: Regs, k: nat, i: nat)
    requires k < 8 && i < 4
    ensures Output(r)[4 * k + i] == WordByte(Nth(r, k), i)
  {
    hide WordByte, Nth;
    var p := 4 * k + i;
    assert p / 4 == k && p % 4 == i;
  }

  /** Byte `i` of word `n` is where the output has it. */
  ghost predicate Lane(hash: seq<byte>, r: Regs, i: nat, n: nat) {
    i < 4 && n < 8 && |hash| >= 32 && hash[i + 4 * n] == WordByte(Nth(r, n), i)
  }

  lemma LaneKept(was: seq<byte>, now: seq<byte>, r: Regs, i: nat, n: nat)
    requires Lane(was, r, i, n) && |now| == |was| && now[i + 4 * n] == was[i + 4 * n]
    ensures Lane(now, r, i, n)
  {
  }

  lemma EightLanes(hash: seq<byte>, r: Regs, i: nat, p: nat)
    requires Lane(hash, r, i, 0) && Lane(hash, r, i, 1) && Lane(hash, r, i, 2) && Lane(hash, r, i, 3)
    requires Lane(hash, r, i, 4) && Lane(hash, r, i, 5) && Lane(hash, r, i, 6) && Lane(hash, r, i, 7)
    requires p < 32 && p % 4 == i
    ensures hash[p] == Output(r)[p]
  {
    hide WordByte, Nth;
    var n := p / 4;
    assert Lane(hash, r, i, n);
    OutputAt(r, n, i);
  }

  lemma WrapAdd(x: nat, y: nat)
    ensures (x % U64 + y) % U64 == (x + y) % U64
  {
    var q := x / U64;
    SameRest(x % U64 + y, q, U64);
    assert x + y == x % U64 + y + q * U64;
  }

  /** A bit counter is a 64 bit word. */
  function AddBits(bits: nat, more: nat): nat {
    (bits + more) % U64
  }

  /** The counter after whole blocks of `n` bytes. */
  ghost predicate Counted(bits: nat, n: nat) {
    n % 64 == 0 && bits == 8 * n % U64
  }

  lemma CountBlock(bits: nat, n: nat)
    requires Counted(bits, n)
    ensures Counted(AddBits(bits, 512), n + 64)
  {
    WrapAdd(8 * n, 512);
  }

  lemma CountRest(bits: nat, n: nat, rest: nat)
    requires Counted(bits, n) && rest < 64
    ensures AddBits(bits, 8 * rest) == 8 * (n + rest) % U64 && (n + rest) % 64 == rest
  {
    WrapAdd(8 * n, 8 * rest);
    assert 8 * n + 8 * rest == 8 * (n + rest);
    var q := n / 64;
    SameRest(rest, q, 64);
    assert n + rest == rest + q * 64;
  }

  lemma {:induction false} SameRest(a: nat, q: nat, n: nat)
    requires n > 0
    ensures (a + q * n) % n == a % n
  {
    if q > 0 {
      SameRest(a, q - 1, n);
      assert a + q * n == a + (q - 1) * n + n;
      OneMore(a + (q - 1) * n, n);
    }
  }

  function Sha256(message: seq<byte>): seq<byte> {
    Output(Digest(IV, message + Padding(|message|)))
  }
}

/** The streaming context of src/sha256.c. */
module Sha256 {
  import opened Sha256Words
  import opened Sha256Spec

  class Ctx {
    const data: array<byte>
    const state: array<word>
    var datalen: nat
    var bitlen: nat
    ghost var front: seq<byte>

    ghost predicate Shape()
      reads this
    {
      data.Length == 64 && state.Length == 8 && datalen <= 64
    }

    function StateOf(): Regs
      requires Shape()
      reads this, state
    {
      Regs(state[0], state[1], state[2], state[3], state[4], state[5], state[6], state[7])
    }

    /** The whole blocks of the message so far (`front`) are in the state, the rest is in the buffer. */
    ghost predicate Valid()
      reads this, data, state
    {
      Shape() && datalen < 64 && StateOf() == Digest(IV, front) && Counted(bitlen, |front|)
    }

    /** All bytes fed so far. */
    ghost function Message(): seq<byte>
      requires Shape()
      reads this, data
    {
      front + data[..datalen]
    }

    constructor ()
      ensures Shape() && fresh(data) && fresh(state)
    {
      data := new byte[64];
      state := new word[8];
      datalen, bitlen, front := 0, 0, [];
    }

    /** `sha256_init`. */
    method Init()
      requires data.Length == 64 && state.Length == 8
      modifies this, state
      ensures Valid() && Message() == []
    {
      datalen, bitlen, front := 0, 0, [];
      SetState(0x6a09e667, 0xbb67ae85, 0x3c6ef372, 0xa54ff53a, 0x510e527f, 0x9b05688c, 0x1f83d9ab, 0x5be0cd19);
      DigestNone();
      hide Digest;
    }

    method SetState(a: word, b: word, c: word, d: word, e: word, f: word, g: word, h: word)
      requires Shape()
      modifies state
      ensures StateOf() == Regs(a, b, c, d, e, f, g, h)
    {
      state[0], state[1], state[2], state[3] := a, b, c, d;
      state[4], state[5], state[6], state[7] := e, f, g, h;
    }

    /** The end of `sha256_transform`. */
    method AddState(a: word, b: word, c: word, d: word, e: word, f: word, g: word, h: word)
      requires Shape()
      modifies state
      ensures StateOf() == Add(old(StateOf()), Regs(a, b, c, d, e, f, g, h))
    {
      hide Sum;
      state[0], state[1], state[2], state[3] := Sum(state[0], a), Sum(state[1], b), Sum(state[2], c), Sum(state[3], d);
      state[4], state[5], state[6], state[7] := Sum(state[4], e), Sum(state[5], f), Sum(state[6], g), Sum(state[7], h);
    }

    /** `sha256_transform` on the buffer. */
    method Transform()
      requires Shape()
      modifies state
      ensures StateOf() == Compress(old(StateOf()), data[..])
    {
      ghost var block := data[..];
      var m := Expand();
      hide T1, T2, Sum, RoundConstant, Schedule;
      var r0 := StateOf();
      var a, b, c, d, e, f, g, h := state[0], state[1], state[2], state[3], state[4], state[5], state[6], state[7];
      var i := 0;
      while i < 64
        invariant 0 <= i <= 64 && Regs(a, b, c, d, e, f, g, h) == Rounds(r0, m[..], i)
      {
        var t1 := T1(h, e, f, g, RoundConstant(i), m[i]);
        var t2 := T2(a, b, c);
        h := g;
        g := f;
        f := e;
        e := Sum(d, t1);
        d := c;
        c := b;
        b := a;
        a := Sum(t1, t2);
        i := i + 1;
      }
      AddState(a, b, c, d, e, f, g, h);
    }

    /** The loop body of `sha256_update`. */
    method Feed(b: byte)
      requires Valid()
      modifies this, data, state
      ensures Valid() && Message() == old(Message()) + [b]
    {
      hide Digest, Compress, IV, Counted;
      data[datalen] := b;
      datalen := datalen + 1;
      assert Message() == old(Message()) + [b];
      if datalen == 64 {
        Flush();
      }
    }

    method Flush()
      requires Shape() && datalen == 64 && StateOf() == Digest(IV, front) && Counted(bitlen, |front|)
      modifies this, state
      ensures Valid() && Message() == old(Message())
    {
      hide Digest, Compress, IV, Counted, AddBits;
      DigestOne(IV, front, data[..]);
      assert data[..64] == data[..];
      ghost var front' := front + data[..];
      assert |front'| == |front| + 64 && data[..0] == [] && front' + [] == front';
      CountBlock(bitlen, |front|);
      bitlen := AddBits(bitlen, 512);
      front := front';
      datalen := 0;
      Transform();
    }

    /** `sha256_update`. Its index is a 32 bit word, see `UpdateEnds`. */
    method Update(input: seq<byte>)
      requires Valid() && |input| < 0x1_0000_0000
      modifies this, data, state
      ensures Valid() && Message() == old(Message()) + input
    {
      hide Digest, Counted, IV, Message;
      ghost var message := Message();
      assert message + input[..0] == message;
      var i := 0;
      while i < |input|
        invariant 0 <= i <= |input| && Valid() && Message() == message + input[..i]
      {
        assert message + input[..i + 1] == message + input[..i] + [input[i]];
        Feed(input[i]);
        i := Advance(i);
      }
      assert input[..|input|] == input;
    }

    /** The padding of `sha256_final` up to position `end`. */
    method PutPadding(end: nat)
      requires Shape() && datalen < end <= 64
      modifies data
      ensures data[..end] == old(data[..datalen]) + [0x80] + Fill(end - datalen - 1)
    {
      var i := datalen;
      data[i] := 0x80;
      i := i + 1;
      while i < end
        invariant datalen < i <= end && data[..i] == old(data[..datalen]) + [0x80] + Fill(i - datalen - 1)
      {
        data[i] := 0;
        i := i + 1;
      }
    }

    /** The last eight bytes of the buffer. */
    method PutLength()
      requires Shape()
      modifies data
      ensures data[..] == old(data[..56]) + Length64(bitlen)
    {
      hide ByteAt;
      data[63], data[62], data[61], data[60] :=
        ByteAt(bitlen, 1), ByteAt(bitlen, 0x100), ByteAt(bitlen, 0x1_0000), ByteAt(bitlen, 0x100_0000);
      data[59], data[58], data[57], data[56] :=
        ByteAt(bitlen, 0x1_0000_0000), ByteAt(bitlen, 0x100_0000_0000),
        ByteAt(bitlen, 0x1_0000_0000_0000), ByteAt(bitlen, 0x100_0000_0000_0000);
      assert data[..56] == old(data[..56]);
      assert data[56..] == Length64(bitlen);
    }

    method ClearFront()
      requires Shape()
      modifies data
      ensures data[..56] == Fill(56)
    {
      var i := 0;
      while i < 56
        invariant 0 <= i <= 56 && data[..i] == Fill(i)
      {
        data[i] := 0;
        i := i + 1;
      }
    }

    /** `sha256_final`: the hash of everything fed since `sha256_init`. */
    method Final(hash: array<byte>)
      requires Valid() && hash.Length >= 32 && hash != data
      modifies this, data, state, hash
      ensures hash[..32] == Sha256(old(Message()))
    {
      Finish();
      WriteOut(hash);
    }

    /** The padding, the length and the last one or two blocks. */
    method Finish()
      requires Valid()
      modifies this, data, state
      ensures Shape() && StateOf() == Digest(IV, old(Message()) + Padding(|old(Message())|))
    {
      if datalen < 56 {
        FinishInOne();
      } else {
        FinishInTwo();
      }
    }

    method FinishInOne()
      requires Valid() && datalen < 56
      modifies this, data, state
      ensures Shape() && StateOf() == Digest(IV, old(Message()) + Padding(|old(Message())|))
    {
      ghost var message, tail := Message(), data[..datalen];
      BitLength(bitlen, datalen, front, message);
      hide Digest, Compress, IV, Length64, Padding, Fill, Counted, AddBits;
      PutPadding(56);
      ghost var block := LastBlock(tail + [0x80] + Fill(55 - |tail|));
      OneMoreBlock(message, front, tail, block);
    }

    /** The first of the two blocks; the second starts with zeros. */
    method SpillBlock() returns (ghost block: seq<byte>)
      requires Shape() && 56 <= datalen < 64
      modifies data, state
      ensures block == old(data[..datalen]) + [0x80] + Fill(63 - datalen) &&
        StateOf() == Compress(old(StateOf()), block)
      ensures data[..56] == Fill(56)
    {
      PutPadding(64);
      assert data[..64] == data[..];
      block := data[..];
      Transform();
      ClearFront();
    }

    method FinishInTwo()
      requires Valid() && datalen >= 56
      modifies this, data, state
      ensures Shape() && StateOf() == Digest(IV, old(Message()) + Padding(|old(Message())|))
    {
      ghost var message, tail := Message(), data[..datalen];
      BitLength(bitlen, datalen, front, message);
      hide Digest, Compress, IV, Length64, Padding, Fill, Counted, AddBits;
      ghost var block := SpillBlock();
      ghost var last := LastBlock(Fill(56));
      TwoMoreBlocks(message, front, tail, block, last);
    }

    static lemma BitLength(bitlen: nat, datalen: nat, front: seq<byte>, message: seq<byte>)
      requires Counted(bitlen, |front|) && datalen < 64 && |message| == |front| + datalen
      ensures Length64(AddBits(bitlen, datalen * 8)) == Length64(8 * |message|) && |message| % 64 == datalen
    {
      CountRest(bitlen, |front|, datalen);
      hide Length64, Counted, AddBits;
      LengthWraps(8 * |message|);
    }

    method LastBlock(ghost head: seq<byte>) returns (ghost block: seq<byte>)
      requires Shape() && data[..56] == head
      modifies this`bitlen, data, state
      ensures block == head + Length64(AddBits(old(bitlen), datalen * 8))
      ensures StateOf() == Compress(old(StateOf()), block)
    {
      bitlen := AddBits(bitlen, datalen * 8);
      PutLength();
      block := data[..];
      Transform();
    }

    /** The loop of `sha256_final` that copies the state out. */
    method WriteOut(hash: array<byte>)
      requires Shape() && hash.Length >= 32
      modifies hash
      ensures hash[..32] == Output(StateOf())
    {
      hide WordByte;
      var i := 0;
      while i < 4
        invariant 0 <= i <= 4
        invariant forall p :: 0 <= p < 32 && p % 4 < i ==> hash[p] == Output(StateOf())[p]
      {
        PutBytes(hash, i);
        i := i + 1;
      }
    }

    /** Byte `i` of each of the eight words. */
    method PutBytes(hash: array<byte>, i: nat)
      requires Shape() && hash.Length >= 32 && i < 4
      modifies hash
      ensures forall p :: 0 <= p < 32 ==> hash[p] == if p % 4 == i then Output(StateOf())[p] else old(hash[p])
    {
      ghost var r := StateOf();
      PutFour(hash, i, 0, state[0], state[1], state[2], state[3], r);
      ghost var mid := hash[..];
      PutFour(hash, i, 4, state[4], state[5], state[6], state[7], r);
      hide WordByte, Nth, Output, Lane;
      assert StateOf() == r;
      ghost var now := hash[..];
      LaneKept(mid, now, r, i, 0);
      LaneKept(mid, now, r, i, 1);
      LaneKept(mid, now, r, i, 2);
      LaneKept(mid, now, r, i, 3);
      forall p | 0 <= p < 32 && p % 4 == i
        ensures now[p] == Output(r)[p]
      {
        EightLanes(now, r, i, p);
      }
    }

    /** Byte `i` of words `k` to `k + 3`. */
    method PutFour(hash: array<byte>, i: nat, k: nat, w0: word, w1: word, w2: word, w3: word, ghost r: Regs)
      requires hash.Length >= 32 && i < 4 && k <= 4
      requires Nth(r, k) == w0 && Nth(r, k + 1) == w1 && Nth(r, k + 2) == w2 && Nth(r, k + 3) == w3
      modifies hash
      ensures Lane(hash[..], r, i, k) && Lane(hash[..], r, i, k + 1) && Lane(hash[..], r, i, k + 2) &&
        Lane(hash[..], r, i, k + 3)
      ensures forall p :: 0 <= p < hash.Length && (p % 4 != i || p < 4 * k || p >= 4 * k + 16) ==>
        hash[p] == old(hash[p])
    {
      hide WordByte, Nth;
      hash[i + 4 * k] := WordByte(w0, i);
      hash[i + 4 * k + 4] := WordByte(w1, i);
      hash[i + 4 * k + 8] := WordByte(w2, i);
      hash[i + 4 * k + 12] := WordByte(w3, i);
    }

    /** The first part of `sha256_transform`: the message schedule. */
    method Expand() returns (m: array<word>)
      requires Shape()
      ensures fresh(m) && m.Length == 64 && m[..] == Schedule(data[..], 64)
    {
      hide BigEndian, ExtendWord;
      m := new word[64];
      var i, j := 0, 0;
      while i < 16
        invariant 0 <= i <= 16 && j == 4 * i && m[..i] == Schedule(data[..], i)
      {
        m[i] := BigEndian(data[j], data[j + 1], data[j + 2], data[j + 3]);
        i, j := i + 1, j + 4;
      }
      while i < 64
        invariant 16 <= i <= 64 && m[..i] == Schedule(data[..], i)
      {
        m[i] := ExtendWord(m[i - 2], m[i - 7], m[i - 15], m[i - 16]);
        i := i + 1;
      }
      assert m[..64] == m[..];
    }
  }

  /** One step of the loop index of `sha256_update`, which is a 32 bit word. */
  function Advance(i: nat): nat {
    if i == 0xffff_ffff then 0 else i + 1
  }

  /** The loop index of `Update` after `rounds` rounds. */
  function Index(rounds: nat): nat {
    if rounds == 0 then 0 else Advance(Index(rounds - 1))
  }

  lemma {:induction false} IndexWraps(rounds: nat)
    ensures Index(rounds) < 0x1_0000_0000 && (rounds < 0x1_0000_0000 ==> Index(rounds) == rounds)
  {
    if rounds > 0 { IndexWraps(rounds - 1); }
  }

  /** So the loop ends exactly for lengths that fit the index, although the length is a wider type. */
  lemma UpdateEnds(len: nat)
    ensures (exists rounds: nat :: Index(rounds) >= len) <==> len < 0x1_0000_0000
  {
    if len < 0x1_0000_0000 {
      IndexWraps(len);
    } else {
      forall rounds: nat ensures Index(rounds) < len { IndexWraps(rounds); }
    }
  }

  function Concat(chunks: seq<seq<byte>>): seq<byte> {
    if chunks == [] then [] else Concat(chunks[..|chunks| - 1]) + chunks[|chunks| - 1]
  }

  /** Whatever the chunks, the result is the hash of the whole message. */
  method HashChunks(chunks: seq<seq<byte>>) returns (hash: array<byte>)
    requires forall i :: 0 <= i < |chunks| ==> |chunks[i]| < 0x1_0000_0000
    ensures fresh(hash) && hash.Length == 32 && hash[..] == Sha256Spec.Sha256(Concat(chunks))
  {
    hide Digest, IV, Padding, Output;
    hash := new byte[32];
    var ctx := new Ctx();
    ctx.Init();
    var i := 0;
    assert chunks[..0] == [];
    while i < |chunks|
      invariant 0 <= i <= |chunks| && fresh(ctx) && fresh(ctx.data) && fresh(ctx.state) && ctx.data != hash
      invariant ctx.Valid() && ctx.Message() == Concat(chunks[..i])
    {
      assert chunks[..i + 1][..i] == chunks[..i];
      ctx.Update(chunks[i]);
      i := i + 1;
    }
    assert chunks[..|chunks|] == chunks;
    ctx.Final(hash);
    assert hash[..32] == hash[..];
  }
}
