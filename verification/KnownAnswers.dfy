/** Two known answers: the message "abc", and the handshake example of section 1.3 of RFC 6455. */
module KnownAnswers {
  import opened Bits
  import opened Sha1
  import opened Base64

  // ------------- section 6.1.3 of FIPS 180-4: a schedule of sixteen words

  /** The working variables and the next sixteen words of the schedule. */
  datatype Running = Running(v: Hash, w0: word, w1: word, w2: word, w3: word, w4: word, w5: word, w6: word, w7: word,
                             w8: word, w9: word, w10: word, w11: word, w12: word, w13: word, w14: word, w15: word)

  function Left5(v: word): word { (v << 5) | (v >> 27) }

  function Left30(v: word): word { (v << 30) | (v >> 2) }

  function Mixed(x: word, y: word, z: word, u: word): word { ((x ^ y ^ z ^ u) << 1) | ((x ^ y ^ z ^ u) >> 31) }

  function Turn(r: Running, t: nat): Running {
    Running(Hash(Sum5(Left5(r.v.a), RoundFunction(t, r.v.b, r.v.c, r.v.d), r.v.e, RoundConstant(t), r.w0),
                 r.v.a, Left30(r.v.b), r.v.c, r.v.d),
            r.w1, r.w2, r.w3, r.w4, r.w5, r.w6, r.w7, r.w8, r.w9, r.w10, r.w11, r.w12, r.w13, r.w14, r.w15,
            Mixed(r.w13, r.w8, r.w2, r.w0))
  }

  function Five(r: Running, t: nat): Running {
    Turn(Turn(Turn(Turn(Turn(r, t), t + 1), t + 2), t + 3), t + 4)
  }

  function Twenty(r: Running, t: nat): Running {
    Five(Five(Five(Five(r, t), t + 5), t + 10), t + 15)
  }

  /** Where the rounds over `block` are before round `t`. */
  function Before(h: Hash, block: bytes, t: nat): Running
    requires |block| == 64
  {
    Running(Rounds(h, block, t),
            Schedule(block, t), Schedule(block, t + 1), Schedule(block, t + 2), Schedule(block, t + 3),
            Schedule(block, t + 4), Schedule(block, t + 5), Schedule(block, t + 6), Schedule(block, t + 7),
            Schedule(block, t + 8), Schedule(block, t + 9), Schedule(block, t + 10), Schedule(block, t + 11),
            Schedule(block, t + 12), Schedule(block, t + 13), Schedule(block, t + 14), Schedule(block, t + 15))
  }

  lemma Rotations(x: word, y: word, z: word, u: word)
    ensures RotL(x, 5) == Left5(x) && RotL(x, 30) == Left30(x)
    ensures RotateXor(x, y, z, u) == Mixed(x, y, z, u)
  {
  }

  lemma RoundsStep(h: Hash, block: bytes, t: nat)
    requires |block| == 64
    ensures Rounds(h, block, 0) == h
    ensures Rounds(h, block, t + 1) == Round(Rounds(h, block, t), t, Schedule(block, t))
    ensures Schedule(block, t + 16) == RotateXor(Schedule(block, t + 13), Schedule(block, t + 8),
                                                 Schedule(block, t + 2), Schedule(block, t))
  {
    hide Round, RotateXor, WordAt;
  }

  lemma TurnIsRound(h: Hash, block: bytes, t: nat)
    requires |block| == 64
    ensures Turn(Before(h, block, t), t) == Before(h, block, t + 1)
  {
    hide RotL, RotateXor, Left5, Left30, Mixed, Sum5, RoundFunction, RoundConstant, Rounds, Schedule;
    var r := Before(h, block, t);
    RoundsStep(h, block, t);
    Rotations(r.v.a, 0, 0, 0);
    Rotations(r.v.b, 0, 0, 0);
    Rotations(r.w13, r.w8, r.w2, r.w0);
  }

  lemma FiveIsRounds(h: Hash, block: bytes, t: nat)
    requires |block| == 64
    ensures Five(Before(h, block, t), t) == Before(h, block, t + 5)
  {
    hide Turn, Before;
    TurnIsRound(h, block, t);
    TurnIsRound(h, block, t + 1);
    TurnIsRound(h, block, t + 2);
    TurnIsRound(h, block, t + 3);
    TurnIsRound(h, block, t + 4);
  }

  lemma TwentyIsRounds(h: Hash, block: bytes, t: nat)
    requires |block| == 64
    ensures Twenty(Before(h, block, t), t) == Before(h, block, t + 20)
  {
    hide Five, Before;
    FiveIsRounds(h, block, t);
    FiveIsRounds(h, block, t + 5);
    FiveIsRounds(h, block, t + 10);
    FiveIsRounds(h, block, t + 15);
  }

  lemma BeforeHash(h: Hash, block: bytes, t: nat)
    requires |block| == 64
    ensures Before(h, block, t).v == Rounds(h, block, t)
  {
  }

  lemma WordIs(p: byte, q: byte, r: byte, s: byte, x: word)
    requires p as word == x >> 24 && q as word == (x >> 16) & 0xFF
    requires r as word == (x >> 8) & 0xFF && s as word == x & 0xFF
    ensures WordOf(p, q, r, s) == x
  {
  }

  // ------------------------------------------------- the message "abc"

  const ABC_BLOCK: bytes := [97, 98, 99, 128] + Zeros(59) + [24]

  const ABC_0 := Running(
    Hash(0x67452301, 0xEFCDAB89, 0x98BADCFE, 0x10325476, 0xC3D2E1F0),
    0x61626380, 0x00000000, 0x00000000, 0x00000000, 0x00000000, 0x00000000, 0x00000000, 0x00000000,
    0x00000000, 0x00000000, 0x00000000, 0x00000000, 0x00000000, 0x00000000, 0x00000000, 0x00000018)

  const ABC_20 := Running(
    Hash(0xFD9E1D7D, 0xDC64901D, 0x20AA99CA, 0xD3A49608, 0xC82F758B),
    0x00000000, 0x00000060, 0x0B131C03, 0x00000030, 0x85898EC1, 0x16263806, 0x00000000, 0x00000180,
    0x2C4C700C, 0x000000F0, 0x93AFB507, 0x5898E048, 0x8E9A9202, 0x00000600, 0xB131C0F0, 0x16263BC6)

  const ABC_40 := Running(
    Hash(0x32DE1CBA, 0x4C986405, 0xF718E5CF, 0x03D447F6, 0xF72EEC32),
    0xD2E138C4, 0x00000F00, 0x3AFB5079, 0x898E04E5, 0xE2BA3C2B, 0x000060C0, 0x053A37CD, 0x74458547,
    0xDA9415ED, 0x26380A16, 0x626383A1, 0x4EBF54DE, 0x3835B44B, 0x0000F600, 0x1E84C7A3, 0x98E04D98)

  const ABC_60 := Running(
    Hash(0x3F52DE5A, 0x09D785FD, 0x3498BFD4, 0xF211824F, 0xD79915AB),
    0x7BA06619, 0x6380AEA2, 0x0AE55269, 0x627B49A1, 0x7CD45C9D, 0x000F0000, 0xFB50753A, 0xEC6765E8,
    0xBA3C2BE2, 0x0060C000, 0x3A37CD05, 0x458546F4, 0xB8599DD6, 0x380A1A26, 0x01E02203, 0xE7CC3456)

  const ABC_80 := Running(
    Hash(0x42541B35, 0x5738D5E1, 0x21834873, 0x681E6DF6, 0xD8FDF6AD),
    0x7E577CE2, 0x07EF2103, 0x8544E945, 0xEB39DAB8, 0xC205991A, 0x80AECB63, 0x7D84CA48, 0x7B499B62,
    0x8E8010A8, 0x4B5B8A77, 0x3216B69A, 0x0507E88D, 0x705BEE96, 0x60C0FF00, 0xA28362D0, 0x1DA6B91D)

  lemma AbcStart()
    ensures Before(INITIAL, ABC_BLOCK, 0) == ABC_0
  {
    hide WordOf;
    WordIs(97, 98, 99, 128, 0x61626380);
    WordIs(0, 0, 0, 0, 0x00000000);
    WordIs(0, 0, 0, 24, 0x00000018);
  }

  lemma AbcTwenty0()
    ensures Twenty(ABC_0, 0) == ABC_20
  {
  }

  lemma AbcTwenty20()
    ensures Twenty(ABC_20, 20) == ABC_40
  {
  }

  lemma AbcTwenty40()
    ensures Twenty(ABC_40, 40) == ABC_60
  {
  }

  lemma AbcTwenty60()
    ensures Twenty(ABC_60, 60) == ABC_80
  {
  }

  lemma AbcCompressed()
    ensures |ABC_BLOCK| == 64
    ensures Compress(INITIAL, ABC_BLOCK) == Hash(0xA9993E36, 0x4706816A, 0xBA3E2571, 0x7850C26C, 0x9CD0D89D)
  {
    hide Before, Rounds, Schedule, Twenty;
    AbcStart();
    AbcTwenty0();
    TwentyIsRounds(INITIAL, ABC_BLOCK, 0);
    AbcTwenty20();
    TwentyIsRounds(INITIAL, ABC_BLOCK, 20);
    AbcTwenty40();
    TwentyIsRounds(INITIAL, ABC_BLOCK, 40);
    AbcTwenty60();
    TwentyIsRounds(INITIAL, ABC_BLOCK, 60);
    BeforeHash(INITIAL, ABC_BLOCK, 80);
  }

  // -------------------- the key and the magic of section 1.3 of RFC 6455

  const KEY_BYTES: bytes :=
    [100, 71, 104, 108, 73, 72, 78, 104, 98, 88, 66, 115, 90, 83, 66, 117] +
    [98, 50, 53, 106, 90, 81, 61, 61]
  const MAGIC_BYTES: bytes :=
    [50, 53, 56, 69, 65, 70, 65, 53] +
    [45, 69, 57, 49, 52, 45, 52, 55, 68, 65, 45, 57, 53, 67, 65, 45] +
    [67, 53, 65, 66, 48, 68, 67, 56, 53, 66, 49, 49]

  const HEAD_BLOCK: bytes := KEY_BYTES + MAGIC_BYTES + [128] + Zeros(3)

  const HEAD_0 := Running(
    Hash(0x67452301, 0xEFCDAB89, 0x98BADCFE, 0x10325476, 0xC3D2E1F0),
    0x6447686C, 0x49484E68, 0x62584273, 0x5A534275, 0x6232356A, 0x5A513D3D, 0x32353845, 0x41464135,
    0x2D453931, 0x342D3437, 0x44412D39, 0x3543412D, 0x43354142, 0x30444338, 0x35423131, 0x80000000)

  const HEAD_20 := Running(
    Hash(0x091AB97C, 0x8DC510B6, 0xDFAECA5A, 0x75F6BD5D, 0x2801311A),
    0x6FB4BCB6, 0x460B16E3, 0x599219AE, 0x35BF9369, 0x3267458E, 0xF828FD04, 0x753A96A7, 0x6336F612,
    0xC3D66383, 0x06EB86F9, 0x73B4FD42, 0xA503C5B8, 0x15CDAE35, 0x531E5DC5, 0x6FB6B7D0, 0x6C16E4AC)

  const HEAD_40 := Running(
    Hash(0x2BA2C83E, 0xD0869081, 0x1A1D8209, 0xD3334889, 0x2779E4F2),
    0xCE8628B4, 0x415DBA9E, 0x2792F049, 0x8E9B79E7, 0x79C425C5, 0x6353B49D, 0x00994218, 0x8A950ED1,
    0xAF5D0B99, 0xFD9883DE, 0x1ED8FFEB, 0xF007FF28, 0x425E3674, 0x059631C0, 0xAD6C3C31, 0x860B71D7)

  const HEAD_60 := Running(
    Hash(0x4872D85A, 0xD284F163, 0x83091F0B, 0x1BBDBFBD, 0x9F8490BC),
    0x0ACF5108, 0xC2B479DA, 0x6C93370A, 0xF7935BA1, 0xE91C91C1, 0xBED165A2, 0x4C3E4ABE, 0x50D96238,
    0xB6587DDE, 0x1A2EE6E6, 0x2D335896, 0xF3495D0B, 0xF30E0A1D, 0x32CE5459, 0x7165E3B8, 0xAB05FF94)

  const HEAD_80 := Running(
    Hash(0xF48A5426, 0x835995E1, 0x25C11EFB, 0x4A45C402, 0x9A73C2F2),
    0xD5E93E51, 0xB768A0A3, 0xE87859BC, 0x68368A36, 0xD32E35C1, 0x7B8F5837, 0x62F3B65F, 0xDB2D892B,
    0x581B1F86, 0x98A17A62, 0x0F495849, 0x4FE048DC, 0x12D3A675, 0x6E436C64, 0xFF118681, 0x0352EFF7)

  lemma HeadWords0()
    ensures WordAt(HEAD_BLOCK, 0) == 0x6447686C && WordAt(HEAD_BLOCK, 4) == 0x49484E68
    ensures WordAt(HEAD_BLOCK, 8) == 0x62584273 && WordAt(HEAD_BLOCK, 12) == 0x5A534275
  {
    hide WordOf;
    WordIs(100, 71, 104, 108, 0x6447686C);
    WordIs(73, 72, 78, 104, 0x49484E68);
    WordIs(98, 88, 66, 115, 0x62584273);
    WordIs(90, 83, 66, 117, 0x5A534275);
  }

  lemma HeadWords4()
    ensures WordAt(HEAD_BLOCK, 16) == 0x6232356A && WordAt(HEAD_BLOCK, 20) == 0x5A513D3D
    ensures WordAt(HEAD_BLOCK, 24) == 0x32353845 && WordAt(HEAD_BLOCK, 28) == 0x41464135
  {
    hide WordOf;
    WordIs(98, 50, 53, 106, 0x6232356A);
    WordIs(90, 81, 61, 61, 0x5A513D3D);
    WordIs(50, 53, 56, 69, 0x32353845);
    WordIs(65, 70, 65, 53, 0x41464135);
  }

  lemma HeadWords8()
    ensures WordAt(HEAD_BLOCK, 32) == 0x2D453931 && WordAt(HEAD_BLOCK, 36) == 0x342D3437
    ensures WordAt(HEAD_BLOCK, 40) == 0x44412D39 && WordAt(HEAD_BLOCK, 44) == 0x3543412D
  {
    hide WordOf;
    WordIs(45, 69, 57, 49, 0x2D453931);
    WordIs(52, 45, 52, 55, 0x342D3437);
    WordIs(68, 65, 45, 57, 0x44412D39);
    WordIs(53, 67, 65, 45, 0x3543412D);
  }

  lemma HeadWords12()
    ensures WordAt(HEAD_BLOCK, 48) == 0x43354142 && WordAt(HEAD_BLOCK, 52) == 0x30444338
    ensures WordAt(HEAD_BLOCK, 56) == 0x35423131 && WordAt(HEAD_BLOCK, 60) == 0x80000000
  {
    hide WordOf;
    WordIs(67, 53, 65, 66, 0x43354142);
    WordIs(48, 68, 67, 56, 0x30444338);
    WordIs(53, 66, 49, 49, 0x35423131);
    WordIs(128, 0, 0, 0, 0x80000000);
  }

  lemma HeadStart()
    ensures Before(INITIAL, HEAD_BLOCK, 0) == HEAD_0
  {
    hide WordAt;
    HeadWords0();
    HeadWords4();
    HeadWords8();
    HeadWords12();
  }

  lemma HeadTwenty0()
    ensures Twenty(HEAD_0, 0) == HEAD_20
  {
  }

  lemma HeadTwenty20()
    ensures Twenty(HEAD_20, 20) == HEAD_40
  {
  }

  lemma HeadTwenty40()
    ensures Twenty(HEAD_40, 40) == HEAD_60
  {
  }

  lemma HeadTwenty60()
    ensures Twenty(HEAD_60, 60) == HEAD_80
  {
  }

  lemma HeadCompressed()
    ensures |HEAD_BLOCK| == 64
    ensures Compress(INITIAL, HEAD_BLOCK) == Hash(0x5BCF7727, 0x7327416A, 0xBE7BFBF9, 0x5A781878, 0x5E46A4E2)
  {
    hide Before, Rounds, Schedule, Twenty;
    HeadStart();
    HeadTwenty0();
    TwentyIsRounds(INITIAL, HEAD_BLOCK, 0);
    HeadTwenty20();
    TwentyIsRounds(INITIAL, HEAD_BLOCK, 20);
    HeadTwenty40();
    TwentyIsRounds(INITIAL, HEAD_BLOCK, 40);
    HeadTwenty60();
    TwentyIsRounds(INITIAL, HEAD_BLOCK, 60);
    BeforeHash(INITIAL, HEAD_BLOCK, 80);
  }

  const MIDDLE := Hash(0x5BCF7727, 0x7327416A, 0xBE7BFBF9, 0x5A781878, 0x5E46A4E2)

  const TAIL_BLOCK: bytes := Zeros(62) + [1, 224]

  const TAIL_0 := Running(
    Hash(0x5BCF7727, 0x7327416A, 0xBE7BFBF9, 0x5A781878, 0x5E46A4E2),
    0x00000000, 0x00000000, 0x00000000, 0x00000000, 0x00000000, 0x00000000, 0x00000000, 0x00000000,
    0x00000000, 0x00000000, 0x00000000, 0x00000000, 0x00000000, 0x00000000, 0x00000000, 0x000001E0)

  const TAIL_20 := Running(
    Hash(0x2A008B51, 0x2F193A09, 0x9C8663C1, 0x8EB5D103, 0x261B7C9A),
    0x00000000, 0x00000780, 0x00000000, 0x000003C0, 0x00000F00, 0x00000000, 0x00000000, 0x00001E00,
    0x00000000, 0x00000CC0, 0x00003C00, 0x00000440, 0x00000000, 0x00007800, 0x00000F00, 0x00003300)

  const TAIL_40 := Running(
    Hash(0x6F698F1A, 0xC6FF0CD3, 0xDE5AB7BC, 0x5F6F3CBB, 0x1DA48A85),
    0x00000000, 0x0000CC00, 0x0003C000, 0x00004380, 0x00000000, 0x00078F00, 0x0000FF00, 0x00032680,
    0x000F0000, 0x0000F000, 0x00003300, 0x001EFF00, 0x00000000, 0x000CB800, 0x003C0000, 0x00040B00)

  const TAIL_60 := Running(
    Hash(0x56119F19, 0x085EB2FE, 0x484A25C5, 0xC140CFE8, 0x686DA050),
    0x00F00000, 0x000FC300, 0x0000F000, 0x01EFBB00, 0x00000000, 0x00CC0000, 0x03C0F000, 0x00438000,
    0x00000000, 0x078F0000, 0x00FF0000, 0x03269E00, 0x0F000000, 0x00F0F000, 0x00333C00, 0x1EFF8800)

  const TAIL_80 := Running(
    Hash(0x57AAD805, 0x4D3B0DAC, 0xD27A4A0D, 0x74C040CD, 0x54782008),
    0x00F0F000, 0x78FF0000, 0x0FF30C00, 0x3387F000, 0xF0000000, 0x0FC43400, 0x00F00000, 0xEFB84801,
    0x000FF000, 0xCC00F000, 0xC0F0F003, 0x439E0000, 0x00000000, 0x8F0C0C07, 0xFF3C0000, 0x269A0403)

  lemma TailStart()
    ensures Before(MIDDLE, TAIL_BLOCK, 0) == TAIL_0
  {
    hide WordOf;
    WordIs(0, 0, 0, 0, 0x00000000);
    WordIs(0, 0, 1, 224, 0x000001E0);
  }

  lemma TailTwenty0()
    ensures Twenty(TAIL_0, 0) == TAIL_20
  {
  }

  lemma TailTwenty20()
    ensures Twenty(TAIL_20, 20) == TAIL_40
  {
  }

  lemma TailTwenty40()
    ensures Twenty(TAIL_40, 40) == TAIL_60
  {
  }

  lemma TailTwenty60()
    ensures Twenty(TAIL_60, 60) == TAIL_80
  {
  }

  lemma TailCompressed()
    ensures |TAIL_BLOCK| == 64
    ensures Compress(MIDDLE, TAIL_BLOCK) == Hash(0xB37A4F2C, 0xC0624F16, 0x90F64606, 0xCF385945, 0xB2BEC4EA)
  {
    hide Before, Rounds, Schedule, Twenty;
    TailStart();
    TailTwenty0();
    TwentyIsRounds(MIDDLE, TAIL_BLOCK, 0);
    TailTwenty20();
    TwentyIsRounds(MIDDLE, TAIL_BLOCK, 20);
    TailTwenty40();
    TwentyIsRounds(MIDDLE, TAIL_BLOCK, 40);
    TailTwenty60();
    TwentyIsRounds(MIDDLE, TAIL_BLOCK, 60);
    BeforeHash(MIDDLE, TAIL_BLOCK, 80);
  }

  // ------------------------------------------------------- the known answers

  lemma ZeroBytes(k: nat)
    ensures BigEndian(0, k) == Zeros(k)
  {
    if k > 0 { ZeroBytes(k - 1); }
  }

  lemma BigEndianStep(v: nat, k: nat)
    ensures BigEndian(v, k + 1) == BigEndian(v / 256, k) + [v % 256]
  {
  }

  /** FIPS 180-4: the digest of "abc". */
  lemma AbcDigest()
    ensures Digest(Ascii("abc")) == [
      0xA9, 0x99, 0x3E, 0x36, 0x47, 0x06, 0x81, 0x6A, 0xBA, 0x3E, 0x25, 0x71, 0x78, 0x50, 0xC2, 0x6C,
      0x9C, 0xD0, 0xD8, 0x9D]
  {
    hide Compress, WordBytes;
    var m := Ascii("abc");
    assert m == [97, 98, 99];
    BigEndianStep(24, 7);
    ZeroBytes(7);
    assert Pad(m) == ABC_BLOCK;
    assert Pad(m)[0..64] == ABC_BLOCK;
    AbcCompressed();
    assert Blocks(Pad(m), 1) == Compress(Blocks(Pad(m), 0), Pad(m)[0..64]);
    AbcBytes();
  }

  lemma AbcBytes()
    ensures WordBytes(0xA9993E36) == [0xA9, 0x99, 0x3E, 0x36] && WordBytes(0x4706816A) == [0x47, 0x06, 0x81, 0x6A]
    ensures WordBytes(0xBA3E2571) == [0xBA, 0x3E, 0x25, 0x71] && WordBytes(0x7850C26C) == [0x78, 0x50, 0xC2, 0x6C]
    ensures WordBytes(0x9CD0D89D) == [0x9C, 0xD0, 0xD8, 0x9D]
  {
  }

  const KEY := "dGhlIHNhbXBsZSBub25jZQ=="

  lemma KeyBytes()
    ensures Ascii(KEY) == KEY_BYTES
  {
  }

  lemma MagicBytes()
    ensures MAGIC == MAGIC_BYTES
  {
    assert |MAGIC| == 36 && |MAGIC_BYTES| == 36;
  }

  lemma KeyBits()
    ensures BigEndian(480, 8) == Zeros(6) + [1] + [224]
  {
    hide BigEndian;
    BigEndianStep(480, 7);
    BigEndianStep(1, 6);
    ZeroBytes(6);
  }

  lemma KeyPadded()
    ensures var p := Pad(Ascii(KEY) + MAGIC); |p| == 128 && p[0..64] == HEAD_BLOCK && p[64..128] == TAIL_BLOCK
  {
    hide Ascii, BigEndian, Zeros;
    KeyBytes();
    MagicBytes();
    var m := KEY_BYTES + MAGIC_BYTES;
    assert |m| == 60;
    KeyBits();
    KeyParts(m);
  }

  lemma KeyParts(m: bytes)
    requires |m| == 60
    ensures var p := m + [0x80] + Zeros(59) + (Zeros(6) + [1] + [224]);
            && |p| == 128 && p[0..64] == m + [128] + Zeros(3) && p[64..128] == Zeros(62) + [1, 224]
  {
  }

  /** Section 1.3 of RFC 6455: key and magic have this digest. */
  lemma KeyDigest()
    ensures Digest(Ascii(KEY) + MAGIC) == [
      0xB3, 0x7A, 0x4F, 0x2C, 0xC0, 0x62, 0x4F, 0x16, 0x90, 0xF6, 0x46, 0x06, 0xCF, 0x38, 0x59, 0x45,
      0xB2, 0xBE, 0xC4, 0xEA]
  {
    hide Compress, WordBytes, Pad;
    var p := Pad(Ascii(KEY) + MAGIC);
    KeyPadded();
    HeadCompressed();
    TailCompressed();
    assert Blocks(p, 1) == Compress(Blocks(p, 0), p[0..64]);
    assert Blocks(p, 2) == Compress(Blocks(p, 1), p[64..128]);
    KeyDigestBytes();
  }

  lemma KeyDigestBytes()
    ensures WordBytes(0xB37A4F2C) == [0xB3, 0x7A, 0x4F, 0x2C]
    ensures WordBytes(0xC0624F16) == [0xC0, 0x62, 0x4F, 0x16]
    ensures WordBytes(0x90F64606) == [0x90, 0xF6, 0x46, 0x06]
    ensures WordBytes(0xCF385945) == [0xCF, 0x38, 0x59, 0x45]
    ensures WordBytes(0xB2BEC4EA) == [0xB2, 0xBE, 0xC4, 0xEA]
  {
  }

  /** The four sextets of a group are its symbols. */
  lemma QuadIs(d: bytes, i: nat, j: nat, k: nat, l: nat)
    requires 2 <= |d| <= 3 && i < 64 && j < 64 && k < 64 && l < 64
    requires Group(d) == ((i * 64 + j) * 64 + k) * 64 + l
    ensures Quad(d) == [Symbol(i), Symbol(j), Symbol(k), if |d| == 2 then PADDING else Symbol(l)]
  {
    hide Symbol, Group;
    var v := Group(d);
    DivModUnique(v, 64, (i * 64 + j) * 64 + k, l);
    DivModUnique(v / 64, 64, i * 64 + j, k);
    DivModUnique(v / 4096, 64, i, j);
  }

  lemma SampleQuads()
    ensures Quad([0xB3, 0x7A, 0x4F]) == [115, 51, 112, 80]
    ensures Quad([0x2C, 0xC0, 0x62]) == [76, 77, 66, 105]
    ensures Quad([0x4F, 0x16, 0x90]) == [84, 120, 97, 81]
    ensures Quad([0xF6, 0x46, 0x06]) == [57, 107, 89, 71]
    ensures Quad([0xCF, 0x38, 0x59]) == [122, 122, 104, 90]
    ensures Quad([0x45, 0xB2, 0xBE]) == [82, 98, 75, 43]
    ensures Quad([0xC4, 0xEA]) == [120, 79, 111, 61]
  {
    hide Quad, Index;
    QuadIs([0xB3, 0x7A, 0x4F], 44, 55, 41, 15);
    QuadIs([0x2C, 0xC0, 0x62], 11, 12, 1, 34);
    QuadIs([0x4F, 0x16, 0x90], 19, 49, 26, 16);
    QuadIs([0xF6, 0x46, 0x06], 61, 36, 24, 6);
    QuadIs([0xCF, 0x38, 0x59], 51, 51, 33, 25);
    QuadIs([0x45, 0xB2, 0xBE], 17, 27, 10, 62);
    QuadIs([0xC4, 0xEA], 49, 14, 40, 0);
  }

  lemma EncodeCons(three: bytes, rest: bytes)
    requires |three| == 3 && rest != []
    ensures Encode(three + rest) == Quad(three) + Encode(rest)
  {
    EncodeStep(three + rest);
    assert (three + rest)[..3] == three && (three + rest)[3..] == rest;
  }

  lemma SampleText()
    ensures Ascii("s3pPLMBiTxaQ9kYGzzhZRbK+xOo=") ==
      [115, 51, 112, 80] + ([76, 77, 66, 105] + ([84, 120, 97, 81] + ([57, 107, 89, 71] +
      ([122, 122, 104, 90] + ([82, 98, 75, 43] + [120, 79, 111, 61])))))
  {
  }

  /** Section 1.3 of RFC 6455: the accept value of its sample key. */
  lemma SampleAccept()
    ensures AcceptKey(Ascii("dGhlIHNhbXBsZSBub25jZQ==")) == Ascii("s3pPLMBiTxaQ9kYGzzhZRbK+xOo=")
  {
    hide Digest, Encode, Quad, Ascii;
    KeyDigest();
    SampleQuads();
    SampleText();
    var r6: bytes := [0xC4, 0xEA];
    var r5 := [0x45, 0xB2, 0xBE] + r6;
    EncodeCons([0x45, 0xB2, 0xBE], r6);
    var r4 := [0xCF, 0x38, 0x59] + r5;
    EncodeCons([0xCF, 0x38, 0x59], r5);
    var r3 := [0xF6, 0x46, 0x06] + r4;
    EncodeCons([0xF6, 0x46, 0x06], r4);
    var r2 := [0x4F, 0x16, 0x90] + r3;
    EncodeCons([0x4F, 0x16, 0x90], r3);
    var r1 := [0x2C, 0xC0, 0x62] + r2;
    EncodeCons([0x2C, 0xC0, 0x62], r2);
    var r0 := [0xB3, 0x7A, 0x4F] + r1;
    EncodeCons([0xB3, 0x7A, 0x4F], r1);
    EncodeStep(r6);
    assert Digest(Ascii(KEY) + MAGIC) == r0;
  }
}
