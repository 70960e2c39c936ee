/** The keyed hash of the name maps (lib/hashmap.c SIP64), against SipHash-2-4 as section 2 of the SipHash
    paper (Aumasson and Bernstein) defines it. */
module SipHash {
  type Byte = bv8

  datatype State = State(v0: bv64, v1: bv64, v2: bv64, v3: bv64)

  // ----- the definition

  function Plus(x: bv64, y: bv64): bv64 { x + y }

  function Xor(x: bv64, y: bv64): bv64 { x ^ y }

  /** Rotation to the left by the amounts of the definition. */
  function Turn(x: bv64, n: nat): bv64 {
    if n == 13 then x.RotateLeft(13)
    else if n == 16 then x.RotateLeft(16)
    else if n == 17 then x.RotateLeft(17)
    else if n == 21 then x.RotateLeft(21)
    else x.RotateLeft(32)
  }

  /** Section 2.1: SipRound, two halves of two parallel lanes each. */
  function SipRound(s: State): State {
    var a0, a2 := Plus(s.v0, s.v1), Plus(s.v2, s.v3);
    var a1, a3 := Xor(Turn(s.v1, 13), a0), Xor(Turn(s.v3, 16), a2);
    var c2, c0 := Plus(a2, a1), Plus(Turn(a0, 32), a3);
    var c1, c3 := Xor(Turn(a1, 17), c2), Xor(Turn(a3, 21), c0);
    State(c0, c1, Turn(c2, 32), c3)
  }

  function Rounds(s: State, n: nat): State {
    if n == 0 then s else SipRound(Rounds(s, n - 1))
  }

  function Start(k0: bv64, k1: bv64): State {
    State(k0 ^ 0x736f6d6570736575, k1 ^ 0x646f72616e646f6d, k0 ^ 0x6c7967656e657261, k1 ^ 0x7465646279746573)
  }

  /** A little-endian word. */
  function Word(bs: seq<Byte>): bv64 {
    if bs == [] then 0 else Above(bs[0], Word(bs[1..]))
  }

  /** A word one byte up, with a new lowest byte. */
  function Above(low: Byte, rest: bv64): bv64 {
    (low as bv64) | (rest << 8)
  }

  function Zeros(n: nat): (r: seq<Byte>)
    ensures |r| == n
  {
    seq(n, _ => 0)
  }

  function LengthByte(input: seq<Byte>): Byte {
    (|input| % 256) as bv8
  }

  /** The input behind which zeros and the byte of its length fill the last of |input| / 8 + 1 words. */
  function Padded(input: seq<Byte>): (p: seq<Byte>)
    ensures |p| == 8 * (|input| / 8 + 1)
  {
    input + Zeros(7 - |input| % 8) + [LengthByte(input)]
  }

  /** Compression, c = 2. */
  function Absorb(s: State, m: bv64): State {
    var r := Rounds(s.(v3 := Xor(s.v3, m)), 2);
    r.(v0 := Xor(r.v0, m))
  }

  function AbsorbWords(s: State, p: seq<Byte>, n: nat): State
    requires 8 * n <= |p|
  {
    if n == 0 then s else Absorb(AbsorbWords(s, p, n - 1), Word(p[8 * (n - 1)..8 * n]))
  }

  /** Finalization, d = 4. */
  function Finish(s: State): bv64 {
    var r := Rounds(s.(v2 := Xor(s.v2, 0xff)), 4);
    Xor(Xor(Xor(r.v0, r.v1), r.v2), r.v3)
  }

  function Hash(input: seq<Byte>, k0: bv64, k1: bv64): bv64 {
    Finish(AbsorbWords(Start(k0, k1), Padded(input), |input| / 8 + 1))
  }

  // ----- the code

  /** `ROTL`, for the amounts in use. */
  function Rotl(x: bv64, b: nat): bv64 {
    if b == 13 then (x << 13) | (x >> 51)
    else if b == 16 then (x << 16) | (x >> 48)
    else if b == 17 then (x << 17) | (x >> 47)
    else if b == 21 then (x << 21) | (x >> 43)
    else (x << 32) | (x >> 32)
  }

  lemma RotlTurns(x: bv64)
    ensures Rotl(x, 13) == Turn(x, 13)
    ensures Rotl(x, 16) == Turn(x, 16)
    ensures Rotl(x, 17) == Turn(x, 17)
    ensures Rotl(x, 21) == Turn(x, 21)
    ensures Rotl(x, 32) == Turn(x, 32)
  {
  }

  /** `SIPROUND`, statement by statement. */
  method SipRoundInPlace(s: State) returns (r: State)
    ensures r == SipRound(s)
  {
    hide Rotl, Turn, Plus, Xor;
    var v0, v1, v2, v3 := s.v0, s.v1, s.v2, s.v3;
    v0 := Plus(v0, v1);
    RotlTurns(v1);
    v1 := Rotl(v1, 13);
    v1 := Xor(v1, v0);
    RotlTurns(v0);
    v0 := Rotl(v0, 32);
    v2 := Plus(v2, v3);
    RotlTurns(v3);
    v3 := Rotl(v3, 16);
    v3 := Xor(v3, v2);
    v0 := Plus(v0, v3);
    RotlTurns(v3);
    v3 := Rotl(v3, 21);
    v3 := Xor(v3, v0);
    v2 := Plus(v2, v1);
    RotlTurns(v1);
    v1 := Rotl(v1, 17);
    v1 := Xor(v1, v2);
    RotlTurns(v2);
    v2 := Rotl(v2, 32);
    r := State(v0, v1, v2, v3);
  }

  /** `U8TO64_LE`. */
  function Load64(p: seq<Byte>): bv64
    requires |p| == 8
  {
    Spread(p[0], p[1], p[2], p[3], p[4], p[5], p[6], p[7])
  }

  /** `((uint64_t)x) << shift`, for the shifts in use. */
  function Lifted(x: Byte, shift: nat): bv64 {
    var w := x as bv64;
    if shift == 0 then w
    else if shift == 8 then w << 8
    else if shift == 16 then w << 16
    else if shift == 24 then w << 24
    else if shift == 32 then w << 32
    else if shift == 40 then w << 40
    else if shift == 48 then w << 48
    else w << 56
  }

  function Spread(b0: Byte, b1: Byte, b2: Byte, b3: Byte, b4: Byte, b5: Byte, b6: Byte, b7: Byte): bv64 {
    Lifted(b0, 0) | Lifted(b1, 8) | Lifted(b2, 16) | Lifted(b3, 24) | Lifted(b4, 32) | Lifted(b5, 40) | Lifted(b6, 48)
      | Lifted(b7, 56)
  }

  /** Four bytes of a word. */
  function Half(b0: Byte, b1: Byte, b2: Byte, b3: Byte): bv64 {
    Lifted(b0, 0) | Lifted(b1, 8) | Lifted(b2, 16) | Lifted(b3, 24)
  }

  lemma SpreadIsAbove(b0: Byte, b1: Byte, b2: Byte, b3: Byte, b4: Byte, b5: Byte, b6: Byte, b7: Byte)
    ensures Spread(b0, b1, b2, b3, b4, b5, b6, b7) ==
              Above(b0, Above(b1, Above(b2, Above(b3, Above(b4, Above(b5, Above(b6, Above(b7, 0))))))))
  {
    hide Above, Half, Spread;
    AboveFour(b0, b1, b2, b3, Above(b4, Above(b5, Above(b6, Above(b7, 0)))));
    AboveFour(b4, b5, b6, b7, 0);
    TwoHalves(b0, b1, b2, b3, b4, b5, b6, b7);
  }

  lemma AboveFour(b0: Byte, b1: Byte, b2: Byte, b3: Byte, rest: bv64)
    ensures Above(b0, Above(b1, Above(b2, Above(b3, rest)))) == Half(b0, b1, b2, b3) | (rest << 32)
  {
  }

  lemma TwoHalves(b0: Byte, b1: Byte, b2: Byte, b3: Byte, b4: Byte, b5: Byte, b6: Byte, b7: Byte)
    ensures Spread(b0, b1, b2, b3, b4, b5, b6, b7) == Half(b0, b1, b2, b3) | (Half(b4, b5, b6, b7) << 32)
  {
    hide Lifted;
    LiftsOver(b4, b5, b6, b7);
    OrOver(Lifted(b4, 0), Lifted(b5, 8), Lifted(b6, 16), Lifted(b7, 24));
    OrFlat(Lifted(b0, 0), Lifted(b1, 8), Lifted(b2, 16), Lifted(b3, 24), Lifted(b4, 32), Lifted(b5, 40), Lifted(b6, 48),
           Lifted(b7, 56));
  }

  lemma LiftsOver(b4: Byte, b5: Byte, b6: Byte, b7: Byte)
    ensures Lifted(b4, 0) << 32 == Lifted(b4, 32) && Lifted(b5, 8) << 32 == Lifted(b5, 40)
    ensures Lifted(b6, 16) << 32 == Lifted(b6, 48) && Lifted(b7, 24) << 32 == Lifted(b7, 56)
  {
  }

  lemma OrOver(x: bv64, y: bv64, z: bv64, w: bv64)
    ensures (x | y | z | w) << 32 == (x << 32) | (y << 32) | (z << 32) | (w << 32)
  {
  }

  lemma OrFlat(x0: bv64, x1: bv64, x2: bv64, x3: bv64, x4: bv64, x5: bv64, x6: bv64, x7: bv64)
    ensures x0 | x1 | x2 | x3 | (x4 | x5 | x6 | x7) == x0 | x1 | x2 | x3 | x4 | x5 | x6 | x7
  {
  }

  lemma WordNext(p: seq<Byte>, i: nat)
    requires i < |p|
    ensures Word(p[i..]) == Above(p[i], Word(p[i + 1..]))
  {
    hide Above;
    assert p[i..][1..] == p[i + 1..];
  }

  lemma LoadsWord(p: seq<Byte>)
    requires |p| == 8
    ensures Load64(p) == Word(p)
  {
    hide Above, Spread, Word;
    SpreadIsAbove(p[0], p[1], p[2], p[3], p[4], p[5], p[6], p[7]);
    assert p[0..] == p;
    WordNext(p, 0);
    WordNext(p, 1);
    WordNext(p, 2);
    WordNext(p, 3);
    WordNext(p, 4);
    WordNext(p, 5);
    WordNext(p, 6);
    WordNext(p, 7);
    NoWord(p[8..]);
  }

  lemma NoWord(p: seq<Byte>)
    requires p == []
    ensures Word(p) == 0
  {
  }

  // ----- the last word

  function ByteOr0(tail: seq<Byte>, i: nat): Byte {
    if i < |tail| then tail[i] else 0
  }

  /** `b |= ((uint64_t)x) << shift`. */
  function OrIn(b: bv64, x: Byte, shift: nat): bv64 {
    b | Lifted(x, shift)
  }

  /** One case of the switch, entered from above or skipped. */
  lemma CaseTaken(b: bv64, tail: seq<Byte>, i: nat, shift: nat)
    ensures OrIn(b, ByteOr0(tail, i), shift) == if i < |tail| then OrIn(b, tail[i], shift) else b
  {
  }

  lemma OrReversed(x0: bv64, x1: bv64, x2: bv64, x3: bv64, x4: bv64, x5: bv64, x6: bv64, x7: bv64)
    ensures x7 | x6 | x5 | x4 | x3 | x2 | x1 | x0 == x0 | x1 | x2 | x3 | x4 | x5 | x6 | x7
  {
  }

  lemma Gathered(b0: Byte, b1: Byte, b2: Byte, b3: Byte, b4: Byte, b5: Byte, b6: Byte, b7: Byte)
    ensures OrIn(OrIn(OrIn(OrIn(OrIn(OrIn(OrIn(Lifted(b7, 56), b6, 48), b5, 40), b4, 32), b3, 24), b2, 16), b1, 8),
                 b0, 0)
            == Spread(b0, b1, b2, b3, b4, b5, b6, b7)
  {
    hide Lifted;
    OrReversed(Lifted(b0, 0), Lifted(b1, 8), Lifted(b2, 16), Lifted(b3, 24), Lifted(b4, 32), Lifted(b5, 40),
               Lifted(b6, 48), Lifted(b7, 56));
  }

  /** The fall-through `switch` over the bytes behind the last whole word. */
  method LastWord(tail: seq<Byte>, length: Byte) returns (b: bv64)
    requires |tail| < 8
    ensures b == Word(tail + Zeros(7 - |tail|) + [length])
  {
    hide Word, Spread, Lifted, OrIn;
    var left := |tail|;
    b := Lifted(length, 56);
    CaseTaken(b, tail, 6, 48);
    if left >= 7 { b := OrIn(b, tail[6], 48); }
    CaseTaken(b, tail, 5, 40);
    if left >= 6 { b := OrIn(b, tail[5], 40); }
    CaseTaken(b, tail, 4, 32);
    if left >= 5 { b := OrIn(b, tail[4], 32); }
    CaseTaken(b, tail, 3, 24);
    if left >= 4 { b := OrIn(b, tail[3], 24); }
    CaseTaken(b, tail, 2, 16);
    if left >= 3 { b := OrIn(b, tail[2], 16); }
    CaseTaken(b, tail, 1, 8);
    if left >= 2 { b := OrIn(b, tail[1], 8); }
    CaseTaken(b, tail, 0, 0);
    if left >= 1 { b := OrIn(b, tail[0], 0); }
    Gathered(ByteOr0(tail, 0), ByteOr0(tail, 1), ByteOr0(tail, 2), ByteOr0(tail, 3), ByteOr0(tail, 4), ByteOr0(tail, 5),
             ByteOr0(tail, 6), length);
    var p := tail + Zeros(7 - |tail|) + [length];
    LoadsWord(p);
    assert p[7] == length;
  }

  // ----- the whole

  lemma RoundsNext(s: State, n: nat)
    ensures Rounds(s, 0) == s && Rounds(s, n + 1) == SipRound(Rounds(s, n))
  {
  }

  /** What SIP64 does with a word. */
  method Compress(s: State, m: bv64) returns (r: State)
    ensures r == Absorb(s, m)
  {
    hide SipRound, Xor;
    RoundsNext(s.(v3 := Xor(s.v3, m)), 0);
    RoundsNext(s.(v3 := Xor(s.v3, m)), 1);
    var v := SipRoundInPlace(s.(v3 := Xor(s.v3, m)));
    v := SipRoundInPlace(v);
    r := v.(v0 := Xor(v.v0, m));
  }

  /** Its end. */
  method Finalize(s: State) returns (hash: bv64)
    ensures hash == Finish(s)
  {
    hide SipRound, Xor;
    RoundsNext(s.(v2 := Xor(s.v2, 0xff)), 0);
    RoundsNext(s.(v2 := Xor(s.v2, 0xff)), 1);
    RoundsNext(s.(v2 := Xor(s.v2, 0xff)), 2);
    RoundsNext(s.(v2 := Xor(s.v2, 0xff)), 3);
    var v := SipRoundInPlace(s.(v2 := Xor(s.v2, 0xff)));
    v := SipRoundInPlace(v);
    v := SipRoundInPlace(v);
    v := SipRoundInPlace(v);
    hash := Xor(Xor(Xor(v.v0, v.v1), v.v2), v.v3);
  }

  /** `SIP64`: the words of the input in a loop, its last bytes and its length in a last word. */
  method Sip64(input: seq<Byte>, seed0: bv64, seed1: bv64) returns (hash: bv64)
    ensures hash == Hash(input, seed0, seed1)
  {
    hide Word, Padded, Absorb, Finish, Start, Load64, AbsorbWords;
    var s := Start(seed0, seed1);
    var end := |input| - |input| % 8;
    ghost var n := 0;
    var at := 0;
    AbsorbNone(s, Padded(input));
    while at != end
      invariant at == 8 * n && at <= end
      invariant s == AbsorbWords(Start(seed0, seed1), Padded(input), n)
    {
      LoadsWord(input[at..at + 8]);
      WholeWord(input, n);
      AbsorbNext(Start(seed0, seed1), Padded(input), n);
      s := Compress(s, Load64(input[at..at + 8]));
      at, n := at + 8, n + 1;
    }
    var b := LastWord(input[at..], LengthByte(input));
    PartialWord(input);
    AbsorbNext(Start(seed0, seed1), Padded(input), n);
    s := Compress(s, b);
    hash := Finalize(s);
  }

  lemma AbsorbNone(s: State, p: seq<Byte>)
    ensures AbsorbWords(s, p, 0) == s
  {
  }

  lemma AbsorbNext(s: State, p: seq<Byte>, n: nat)
    requires 8 * (n + 1) <= |p|
    ensures AbsorbWords(s, p, n + 1) == Absorb(AbsorbWords(s, p, n), Word(p[8 * n..8 * (n + 1)]))
  {
    hide Word, Absorb;
  }

  lemma WholeWord(input: seq<Byte>, i: nat)
    requires 8 * (i + 1) <= |input|
    ensures Padded(input)[8 * i..8 * (i + 1)] == input[8 * i..8 * i + 8]
  {
  }

  lemma PartialWord(input: seq<Byte>)
    ensures var n := |input| / 8;
            Padded(input)[8 * n..8 * (n + 1)] == input[8 * n..] + Zeros(7 - |input| % 8) + [LengthByte(input)]
  {
  }

  // ----- the example of appendix A of the paper

  function Counting(n: nat): (r: seq<Byte>)
    requires n <= 256
    ensures |r| == n
  {
    seq(n, i requires 0 <= i < n => i as bv8)
  }

  lemma ExampleRound1()
    ensures SipRound(State(0x7469686173716475, 0x6b617f6d656e6665, 0x6b7f62616d677361, 0x7c6d6c6a717c6d7b))
            == State(0x64668a929363847f, 0x4ed232083d9aa8dc, 0xf2f74892d8141a2e, 0x9290f9810552f4a8)
  {
  }

  lemma ExampleRound2()
    ensures SipRound(State(0x64668a929363847f, 0x4ed232083d9aa8dc, 0xf2f74892d8141a2e, 0x9290f9810552f4a8))
            == State(0x4d07749cdd0858e0, 0x0d52f6f62a4f59a4, 0x634cb3577b01fd3d, 0xa5224d6f55c7d9c8)
  {
  }

  lemma ExampleRound3()
    ensures SipRound(State(0x4a017198de0a59e0, 0x0d52f6f62a4f59a4, 0x634cb3577b01fd3d, 0xaa2c40635ecdd0c0))
            == State(0x557560fb6063d060, 0x4c8e675bd961133e, 0xbd3d002b1703a181, 0xfb9441179a4a7315)
  {
  }

  lemma ExampleRound4()
    ensures SipRound(State(0x557560fb6063d060, 0x4c8e675bd961133e, 0xbd3d002b1703a181, 0xfb9441179a4a7315))
            == State(0x338bbea7645fb759, 0x414fc3fb98efe374, 0xccf13ea527b9f4bd, 0x5293f5da84008f82)
  {
  }

  lemma ExampleRound5()
    ensures SipRound(State(0x3c85b3ab6f55be51, 0x414fc3fb98efe374, 0xccf13ea527b9f442, 0x5293f5da84008f82))
            == State(0xf2a55244a20e48fe, 0xac5ad16ccc3ca6e4, 0x9fe5adb0a52f393a, 0xfd41d55e88f30308)
  {
  }

  lemma ExampleRound6()
    ensures SipRound(State(0xf2a55244a20e48fe, 0xac5ad16ccc3ca6e4, 0x9fe5adb0a52f393a, 0xfd41d55e88f30308))
            == State(0xb6c3fbdecc2ae4b4, 0x1638c86adc6b3cf0, 0x28b8b6ab62553d46, 0xc9465e86ec43eb95)
  {
  }

  lemma ExampleRound7()
    ensures SipRound(State(0xb6c3fbdecc2ae4b4, 0x1638c86adc6b3cf0, 0x28b8b6ab62553d46, 0xc9465e86ec43eb95))
            == State(0x58101b167209a5e6, 0xf8792ae75b66e7dd, 0x1da14c3ec7f0b4f7, 0x7624ba8a41bc4ad9)
  {
  }

  lemma ExampleRound8()
    ensures SipRound(State(0x58101b167209a5e6, 0xf8792ae75b66e7dd, 0x1da14c3ec7f0b4f7, 0x7624ba8a41bc4ad9))
            == State(0xf6bcd53893fecff1, 0x54b9964c7ea0d937, 0x1b38329c099bb55a, 0x1814bb89ad7be679)
  {
  }

  lemma ExampleBytes(k: nat)
    requires k < 16
    ensures Padded(Counting(15))[k] == k as bv8
  {
  }

  lemma LowBytes()
    ensures Spread(0, 1, 2, 3, 4, 5, 6, 7) == 0x0706050403020100
  {
  }

  lemma HighBytes()
    ensures Spread(8, 9, 10, 11, 12, 13, 14, 15) == 0x0f0e0d0c0b0a0908
  {
  }

  lemma EightBytes(p: seq<Byte>, at: nat)
    requires at + 8 <= |p|
    ensures Word(p[at..at + 8]) ==
              Spread(p[at], p[at + 1], p[at + 2], p[at + 3], p[at + 4], p[at + 5], p[at + 6], p[at + 7])
  {
    hide Word, Spread;
    LoadsWord(p[at..at + 8]);
  }

  lemma ExampleWords()
    ensures var p := Padded(Counting(15));
            Word(p[0..8]) == 0x0706050403020100 && Word(p[8..16]) == 0x0f0e0d0c0b0a0908
  {
    hide Word, Spread, Padded, Counting;
    var p := Padded(Counting(15));
    forall k: nat | k < 16 ensures p[k] == k as bv8 { ExampleBytes(k); }
    EightBytes(p, 0);
    EightBytes(p, 8);
    LowBytes();
    HighBytes();
  }

  lemma ExampleAbsorb()
    ensures Absorb(State(0x7469686173716475, 0x6b617f6d656e6665, 0x6b7f62616d677361, 0x7b6b696e727e6c7b),
                   0x0706050403020100)
            == State(0x4a017198de0a59e0, 0x0d52f6f62a4f59a4, 0x634cb3577b01fd3d, 0xa5224d6f55c7d9c8)
    ensures Absorb(State(0x4a017198de0a59e0, 0x0d52f6f62a4f59a4, 0x634cb3577b01fd3d, 0xa5224d6f55c7d9c8),
                   0x0f0e0d0c0b0a0908)
            == State(0x3c85b3ab6f55be51, 0x414fc3fb98efe374, 0xccf13ea527b9f4bd, 0x5293f5da84008f82)
    ensures Finish(State(0x3c85b3ab6f55be51, 0x414fc3fb98efe374, 0xccf13ea527b9f4bd, 0x5293f5da84008f82))
            == 0xa129ca6149be45e5
  {
    hide SipRound;
    ExampleRound1();
    ExampleRound2();
    ExampleRound3();
    ExampleRound4();
    ExampleRound5();
    ExampleRound6();
    ExampleRound7();
    ExampleRound8();
  }

  /** The key 00 01 ... 0f and the input 00 01 ... 0e give the value of the paper. */
  lemma Example()
    ensures Hash(Counting(15), 0x0706050403020100, 0x0f0e0d0c0b0a0908) == 0xa129ca6149be45e5
  {
    hide SipRound, Word, Padded, Counting, Absorb, Finish;
    var p, s := Padded(Counting(15)), Start(0x0706050403020100, 0x0f0e0d0c0b0a0908);
    ExampleWords();
    ExampleAbsorb();
    AbsorbNone(s, p);
    AbsorbNext(s, p, 0);
    AbsorbNext(s, p, 1);
  }
}
