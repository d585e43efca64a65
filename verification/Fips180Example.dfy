/** The example of FIPS 180-4 for a message of one block: the digest of "abc". */
module Fips180Example {
  import opened Fips180
  import Fips180Constants

  const ABC: seq<Octet> := [0x61, 0x62, 0x63]

  /** The message, the padding bit, zeros, and the length of 24 bits. */
  const BLOCK: seq<Octet> := [0x61, 0x62, 0x63, 0x80] + Zeros(59) + [0x18]

  /** The words of the message schedule. */
  function W(t: nat): Word {
    match t
    case 0 => 0x61626380 case 1 => 0x00000000 case 2 => 0x00000000 case 3 => 0x00000000 case 4 => 0x00000000
    case 5 => 0x00000000 case 6 => 0x00000000 case 7 => 0x00000000 case 8 => 0x00000000 case 9 => 0x00000000
    case 10 => 0x00000000 case 11 => 0x00000000 case 12 => 0x00000000 case 13 => 0x00000000 case 14 => 0x00000000
    case 15 => 0x00000018 case 16 => 0x61626380 case 17 => 0x000f0000 case 18 => 0x7da86405 case 19 => 0x600003c6
    case 20 => 0x3e9d7b78 case 21 => 0x0183fc00 case 22 => 0x12dcbfdb case 23 => 0xe2e2c38e case 24 => 0xc8215c1a
    case 25 => 0xb73679a2 case 26 => 0xe5bc3909 case 27 => 0x32663c5b case 28 => 0x9d209d67 case 29 => 0xec8726cb
    case 30 => 0x702138a4 case 31 => 0xd3b7973b case 32 => 0x93f5997f case 33 => 0x3b68ba73 case 34 => 0xaff4ffc1
    case 35 => 0xf10a5c62 case 36 => 0x0a8b3996 case 37 => 0x72af830a case 38 => 0x9409e33e case 39 => 0x24641522
    case 40 => 0x9f47bf94 case 41 => 0xf0a64f5a case 42 => 0x3e246a79 case 43 => 0x27333ba3 case 44 => 0x0c4763f2
    case 45 => 0x840abf27 case 46 => 0x7a290d5d case 47 => 0x065c43da case 48 => 0xfb3e89cb case 49 => 0xcc7617db
    case 50 => 0xb9e66c34 case 51 => 0xa9993667 case 52 => 0x84badedd case 53 => 0xc21462bc case 54 => 0x1487472c
    case 55 => 0xb20f7a99 case 56 => 0xef57b9cd case 57 => 0xebe6b238 case 58 => 0x9fe3095e case 59 => 0x78bc8d4b
    case 60 => 0xa43fcf15 case 61 => 0x668b2ff8 case 62 => 0xeeaba2cc case 63 => 0x12b1edeb
    case _ => 0
  }

  /** The round constants, by rows. */
  function KW(t: nat): Word {
    if t < 8 then K0[t] else if t < 16 then K1[t - 8] else if t < 24 then K2[t - 16] else if t < 32 then K3[t - 24]
    else if t < 40 then K4[t - 32] else if t < 48 then K5[t - 40] else if t < 56 then K6[t - 48]
    else if t < 64 then K7[t - 56] else 0
  }

  /** The working word a after t - 3 rounds; the first four are the initial d, c, b and a. */
  function A(t: nat): Word {
    match t
    case 0 => 0xa54ff53a case 1 => 0x3c6ef372 case 2 => 0xbb67ae85 case 3 => 0x6a09e667 case 4 => 0x5d6aebcd
    case 5 => 0x5a6ad9ad case 6 => 0xc8c347a7 case 7 => 0xd550f666 case 8 => 0x04409a6a case 9 => 0x2b4209f5
    case 10 => 0xe5030380 case 11 => 0x85a07b5f case 12 => 0x8e04ecb9 case 13 => 0x8c87346b case 14 => 0x4798a3f4
    case 15 => 0xf71fc5a9 case 16 => 0x87912990 case 17 => 0xd932eb16 case 18 => 0xc0645fde case 19 => 0xb0fa238e
    case 20 => 0x21da9a9b case 21 => 0xc2fbd9d1 case 22 => 0xfe777bbf case 23 => 0xe1f20c33 case 24 => 0x9dc68b63
    case 25 => 0xc2606d6d case 26 => 0xa7a3623f case 27 => 0xc5d53d8d case 28 => 0x1c2c2838 case 29 => 0xcde8037d
    case 30 => 0xb62ec4bc case 31 => 0x77d37528 case 32 => 0x363482c9 case 33 => 0xa0060b30 case 34 => 0xea992a22
    case 35 => 0x73b33bf5 case 36 => 0x98e12507 case 37 => 0xfe604df5 case 38 => 0xa9a7738c case 39 => 0x65a0cfe4
    case 40 => 0x41a65cb1 case 41 => 0x34df1604 case 42 => 0x6dc57a8a case 43 => 0x79ea687a case 44 => 0xd6670766
    case 45 => 0xdf46652f case 46 => 0x17aa0dfe case 47 => 0x9d4baf93 case 48 => 0x26628815 case 49 => 0x72ab4b91
    case 50 => 0xa14c14b0 case 51 => 0x4172328d case 52 => 0x05757ceb case 53 => 0xf11bfaa8 case 54 => 0x7a0508a1
    case 55 => 0x886e7a22 case 56 => 0x101fd28f case 57 => 0xf5702fdb case 58 => 0x3ec45cdb case 59 => 0x38cc9913
    case 60 => 0xfcd1887b case 61 => 0xc062d46f case 62 => 0xffb70472 case 63 => 0xb6ae8fff case 64 => 0xb85e2ce9
    case 65 => 0x04d24d6c case 66 => 0xd39a2165 case 67 => 0x506e3058
    case _ => 0
  }

  /** The working word e after t - 3 rounds; the first four are the initial h, g, f and e. */
  function E(t: nat): Word {
    match t
    case 0 => 0x5be0cd19 case 1 => 0x1f83d9ab case 2 => 0x9b05688c case 3 => 0x510e527f case 4 => 0xfa2a4622
    case 5 => 0x78ce7989 case 6 => 0xf92939eb case 7 => 0x24e00850 case 8 => 0x43ada245 case 9 => 0x714260ad
    case 10 => 0x9b27a401 case 11 => 0x0c657a79 case 12 => 0x32ca2d8c case 13 => 0x1cc92596 case 14 => 0x436b23e8
    case 15 => 0x816fd6e9 case 16 => 0x1e578218 case 17 => 0x745a48de case 18 => 0x0b92f20c case 19 => 0x07590dcd
    case 20 => 0x8034229c case 21 => 0x846ee454 case 22 => 0xcc899961 case 23 => 0xb0638179 case 24 => 0x8ada8930
    case 25 => 0xe1257970 case 26 => 0x49f5114a case 27 => 0xaa47c347 case 28 => 0x2823ef91 case 29 => 0x14383d8e
    case 30 => 0xc74c6516 case 31 => 0xedffbff8 case 32 => 0x6112a3b7 case 33 => 0xade79437 case 34 => 0x0109ab3a
    case 35 => 0xba591112 case 36 => 0x9cd9f5f6 case 37 => 0x59249dd3 case 38 => 0x085f3833 case 39 => 0xf4b002d6
    case 40 => 0x0772a26b case 41 => 0xa507a53d case 42 => 0xf0781bc8 case 43 => 0x1efbc0a0 case 44 => 0x26352d63
    case 45 => 0x838b2711 case 46 => 0xdecd4715 case 47 => 0xfda24c2e case 48 => 0xa80f11f0 case 49 => 0xb7755da1
    case 50 => 0xd57b94a9 case 51 => 0xfecf0bc6 case 52 => 0xbd714038 case 53 => 0x6e5c390c case 54 => 0x52f1ccf7
    case 55 => 0x49231c1e case 56 => 0x529e7d00 case 57 => 0x9f4787c3 case 58 => 0xe50e1b4f case 59 => 0x54cb266b
    case 60 => 0x9b5e906c case 61 => 0x7e44008e case 62 => 0x6d83bfc6 case 63 => 0xb21bad3d case 64 => 0x961f4894
    case 65 => 0x948d25b6 case 66 => 0xfb121210 case 67 => 0x5ef50f24
    case _ => 0
  }

  function State(t: nat): Hash {
    Hash(A(t + 3), A(t + 2), A(t + 1), A(t), E(t + 3), E(t + 2), E(t + 1), E(t))
  }

  lemma Words16(t: nat)
    requires 16 <= t < 24
    ensures W(t) == Add(Add(Add(W(t - 16), SmallSigma0(W(t - 15))), W(t - 7)), SmallSigma1(W(t - 2)))
  {
    match t
    case 16 => case 17 => case 18 => case 19 => case 20 => case 21 => case 22 => case 23 =>
  }

  lemma Words24(t: nat)
    requires 24 <= t < 32
    ensures W(t) == Add(Add(Add(W(t - 16), SmallSigma0(W(t - 15))), W(t - 7)), SmallSigma1(W(t - 2)))
  {
    match t
    case 24 => case 25 => case 26 => case 27 => case 28 => case 29 => case 30 => case 31 =>
  }

  lemma Words32(t: nat)
    requires 32 <= t < 40
    ensures W(t) == Add(Add(Add(W(t - 16), SmallSigma0(W(t - 15))), W(t - 7)), SmallSigma1(W(t - 2)))
  {
    match t
    case 32 => case 33 => case 34 => case 35 => case 36 => case 37 => case 38 => case 39 =>
  }

  lemma Words40(t: nat)
    requires 40 <= t < 48
    ensures W(t) == Add(Add(Add(W(t - 16), SmallSigma0(W(t - 15))), W(t - 7)), SmallSigma1(W(t - 2)))
  {
    match t
    case 40 => case 41 => case 42 => case 43 => case 44 => case 45 => case 46 => case 47 =>
  }

  lemma Words48(t: nat)
    requires 48 <= t < 56
    ensures W(t) == Add(Add(Add(W(t - 16), SmallSigma0(W(t - 15))), W(t - 7)), SmallSigma1(W(t - 2)))
  {
    match t
    case 48 => case 49 => case 50 => case 51 => case 52 => case 53 => case 54 => case 55 =>
  }

  lemma Words56(t: nat)
    requires 56 <= t < 64
    ensures W(t) == Add(Add(Add(W(t - 16), SmallSigma0(W(t - 15))), W(t - 7)), SmallSigma1(W(t - 2)))
  {
    match t
    case 56 => case 57 => case 58 => case 59 => case 60 => case 61 => case 62 => case 63 =>
  }

  lemma Round0(t: nat)
    requires 0 <= t < 8
    ensures State(t + 1) == Round(State(t), KW(t), W(t))
  {
    match t
    case 0 => case 1 => case 2 => case 3 => case 4 => case 5 => case 6 => case 7 =>
  }

  lemma Round8(t: nat)
    requires 8 <= t < 16
    ensures State(t + 1) == Round(State(t), KW(t), W(t))
  {
    match t
    case 8 => case 9 => case 10 => case 11 => case 12 => case 13 => case 14 => case 15 =>
  }

  lemma Round16(t: nat)
    requires 16 <= t < 24
    ensures State(t + 1) == Round(State(t), KW(t), W(t))
  {
    match t
    case 16 => case 17 => case 18 => case 19 => case 20 => case 21 => case 22 => case 23 =>
  }

  lemma Round24(t: nat)
    requires 24 <= t < 32
    ensures State(t + 1) == Round(State(t), KW(t), W(t))
  {
    match t
    case 24 => case 25 => case 26 => case 27 => case 28 => case 29 => case 30 => case 31 =>
  }

  lemma Round32(t: nat)
    requires 32 <= t < 40
    ensures State(t + 1) == Round(State(t), KW(t), W(t))
  {
    match t
    case 32 => case 33 => case 34 => case 35 => case 36 => case 37 => case 38 => case 39 =>
  }

  lemma Round40(t: nat)
    requires 40 <= t < 48
    ensures State(t + 1) == Round(State(t), KW(t), W(t))
  {
    match t
    case 40 => case 41 => case 42 => case 43 => case 44 => case 45 => case 46 => case 47 =>
  }

  lemma Round48(t: nat)
    requires 48 <= t < 56
    ensures State(t + 1) == Round(State(t), KW(t), W(t))
  {
    match t
    case 48 => case 49 => case 50 => case 51 => case 52 => case 53 => case 54 => case 55 =>
  }

  lemma Round56(t: nat)
    requires 56 <= t < 64
    ensures State(t + 1) == Round(State(t), KW(t), W(t))
  {
    match t
    case 56 => case 57 => case 58 => case 59 => case 60 => case 61 => case 62 => case 63 =>
  }

  lemma BlockLength()
    ensures |BLOCK| == 64
  {
  }

  lemma MessageWords(t: nat)
    requires t < 16
    ensures |BLOCK| == 64 && MessageWord(BLOCK, t) == W(t)
  {
    hide WordOf;
    assert WordOf(0x61, 0x62, 0x63, 0x80) == 0x61626380 && WordOf(0, 0, 0, 0) == 0 && WordOf(0, 0, 0, 0x18) == 0x18 by { Encoded(); }
    if t == 0 {
      assert BLOCK[0] == 0x61 && BLOCK[1] == 0x62 && BLOCK[2] == 0x63 && BLOCK[3] == 0x80;
    } else if t == 15 {
      assert BLOCK[63] == 0x18 && BLOCK[60] == BLOCK[61] == BLOCK[62] == 0;
    } else {
      assert forall i :: 4 <= i < 63 ==> BLOCK[i] == 0;
      assert W(t) == 0 by { Quiet(t); }
    }
  }

  lemma Encoded()
    ensures WordOf(0x61, 0x62, 0x63, 0x80) == 0x61626380 && WordOf(0, 0, 0, 0) == 0 && WordOf(0, 0, 0, 0x18) == 0x18
  {
  }

  lemma Quiet(t: nat)
    requires 0 < t < 15
    ensures W(t) == 0
  {
  }

  lemma NextWord(t: nat)
    requires 16 <= t < 64
    ensures W(t) == Add(Add(Add(W(t - 16), SmallSigma0(W(t - 15))), W(t - 7)), SmallSigma1(W(t - 2)))
  {
    hide W, Add, SmallSigma0, SmallSigma1;
    if t < 24 { Words16(t); } else if t < 32 { Words24(t); } else if t < 40 { Words32(t); }
    else if t < 48 { Words40(t); } else if t < 56 { Words48(t); } else { Words56(t); }
  }

  lemma {:induction false} ScheduleIs(t: nat)
    requires t < 64
    ensures |BLOCK| == 64 && Schedule(BLOCK, t) == W(t)
  {
    hide W, Add, SmallSigma0, SmallSigma1, MessageWord;
    BlockLength();
    if t < 16 {
      MessageWords(t);
    } else {
      ScheduleIs(t - 16);
      ScheduleIs(t - 15);
      ScheduleIs(t - 7);
      ScheduleIs(t - 2);
      NextWord(t);
    }
  }

  lemma NextState(t: nat)
    requires t < 64
    ensures State(t + 1) == Round(State(t), KW(t), W(t))
  {
    hide W, KW, State, Round;
    if t < 8 { Round0(t); } else if t < 16 { Round8(t); } else if t < 24 { Round16(t); } else if t < 32 { Round24(t); }
    else if t < 40 { Round32(t); } else if t < 48 { Round40(t); } else if t < 56 { Round48(t); } else { Round56(t); }
  }

  lemma {:induction false} RoundsAre(t: nat)
    requires t <= 64
    ensures |BLOCK| == 64 && Rounds(INITIAL, BLOCK, t) == State(t)
  {
    hide W, KW, Round, Schedule;
    BlockLength();
    if t == 0 {
      assert State(0) == INITIAL;
    } else {
      hide State;
      RoundsAre(t - 1);
      ScheduleIs(t - 1);
      ConstantIs(t - 1);
      NextState(t - 1);
    }
  }

  lemma ConstantIs(t: nat)
    requires t < 64
    ensures K[t] == KW(t)
  {
    Fips180Constants.RowOf(K0, K1, K2, K3, K4, K5, K6, K7, t / 8, t % 8);
  }

  lemma Padded()
    ensures Pad(ABC) == BLOCK
  {
    hide BigEndian64;
    assert BigEndian64(24) == Zeros(7) + [0x18] by { Length24(); }
    assert (55 - 3) % 64 == 52 && 8 * 3 % TWO_64 == 24;
    assert Zeros(52) + Zeros(7) == Zeros(59);
  }

  lemma Length24()
    ensures BigEndian64(24) == Zeros(7) + [0x18]
  {
    assert Power256(0) == 1 && Power256(1) == 256;
    PowersPositive();
    forall i: nat | 0 < i ensures 24 / Power256(i) == 0 { LargePower(i); }
  }

  lemma LargePower(i: nat)
    requires 0 < i
    ensures Power256(i) >= 256 && 24 / Power256(i) == 0
  {
    PowerPositive(i - 1);
    Quotient(24, Power256(i));
  }

  lemma Quotient(n: nat, d: nat)
    requires n < d
    ensures n / d == 0
  {
  }

  lemma OneBlock()
    ensures |BLOCK| == 64 && HashBlocks(BLOCK) == Compress(INITIAL, BLOCK)
  {
    hide Compress;
    BlockLength();
    assert BLOCK[..|BLOCK| - 64] == [] && BLOCK[|BLOCK| - 64..] == BLOCK;
    assert HashBlocks([]) == INITIAL;
  }

  lemma Compressed()
    ensures |BLOCK| == 64
    ensures Compress(INITIAL, BLOCK) ==
      Hash(0xba7816bf, 0x8f01cfea, 0x414140de, 0x5dae2223, 0xb00361a3, 0x96177a9c, 0xb410ff61, 0xf20015ad)
  {
    hide Rounds, State;
    BlockLength();
    RoundsAre(64);
    LastState();
  }

  lemma LastA()
    ensures A(67) == 0x506e3058 && A(66) == 0xd39a2165 && A(65) == 0x04d24d6c && A(64) == 0xb85e2ce9
  {
  }

  lemma LastE()
    ensures E(67) == 0x5ef50f24 && E(66) == 0xfb121210 && E(65) == 0x948d25b6 && E(64) == 0x961f4894
  {
  }

  lemma LastState()
    ensures State(64) == Hash(0x506e3058, 0xd39a2165, 0x04d24d6c, 0xb85e2ce9, 0x5ef50f24, 0xfb121210, 0x948d25b6, 0x961f4894)
  {
    hide A, E;
    LastA();
    LastE();
  }

  /** The digest of "abc" is the one that the standard's example gives. */
  lemma ExampleDigest()
    ensures Digest(ABC) == "ba7816bf8f01cfea414140de5dae2223b00361a396177a9cb410ff61f20015ad"
  {
    hide HexWord, HashBlocks, Pad, Compress;
    Padded();
    OneBlock();
    Compressed();
    HexWords();
    Joined();
  }

  lemma Joined()
    ensures "ba7816bf" + "8f01cfea" + "414140de" + "5dae2223" + "b00361a3" + "96177a9c" + "b410ff61" + "f20015ad"
      == "ba7816bf8f01cfea414140de5dae2223b00361a396177a9cb410ff61f20015ad"
  {
    assert "ba7816bf" + "8f01cfea" == "ba7816bf8f01cfea";
    assert "ba7816bf8f01cfea" + "414140de" == "ba7816bf8f01cfea414140de";
    assert "ba7816bf8f01cfea414140de" + "5dae2223" == "ba7816bf8f01cfea414140de5dae2223";
    assert "ba7816bf8f01cfea414140de5dae2223" + "b00361a3" == "ba7816bf8f01cfea414140de5dae2223b00361a3";
    assert "ba7816bf8f01cfea414140de5dae2223b00361a3" + "96177a9c" == "ba7816bf8f01cfea414140de5dae2223b00361a396177a9c";
    assert "ba7816bf8f01cfea414140de5dae2223b00361a396177a9c" + "b410ff61" == "ba7816bf8f01cfea414140de5dae2223b00361a396177a9cb410ff61";
    assert "ba7816bf8f01cfea414140de5dae2223b00361a396177a9cb410ff61" + "f20015ad" == "ba7816bf8f01cfea414140de5dae2223b00361a396177a9cb410ff61f20015ad";
  }

  lemma HexWords()
    ensures HexWord(0xba7816bf) == "ba7816bf" && HexWord(0x8f01cfea) == "8f01cfea" && HexWord(0x414140de) == "414140de"
    ensures HexWord(0x5dae2223) == "5dae2223" && HexWord(0xb00361a3) == "b00361a3" && HexWord(0x96177a9c) == "96177a9c"
    ensures HexWord(0xb410ff61) == "b410ff61" && HexWord(0xf20015ad) == "f20015ad"
  {
  }
}
