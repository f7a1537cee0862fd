/** A key hashed by hand: one word and all three tail bytes go through every step of the hash. */
module MurmurExample {
  import opened Bytes
  import opened Codec
  import opened Words
  import opened Murmur

  lemma Digit06()
    ensures IsXor4(0x0, 0x6, 0x6)
  {
  }

  lemma Digit1b()
    ensures IsXor4(0x1, 0xb, 0xa)
  {
  }

  lemma Digit21()
    ensures IsXor4(0x2, 0x1, 0x3)
  {
  }

  lemma Digit34()
    ensures IsXor4(0x3, 0x4, 0x7)
  {
  }

  lemma Digit41()
    ensures IsXor4(0x4, 0x1, 0x5)
  {
  }

  lemma Digit47()
    ensures IsXor4(0x4, 0x7, 0x3)
  {
  }

  lemma Digit63()
    ensures IsXor4(0x6, 0x3, 0x5)
  {
  }

  lemma Digit66()
    ensures IsXor4(0x6, 0x6, 0x0)
  {
  }

  lemma Digit6e()
    ensures IsXor4(0x6, 0xe, 0x8)
  {
  }

  lemma Digit73()
    ensures IsXor4(0x7, 0x3, 0x4)
  {
  }

  lemma Digit7d()
    ensures IsXor4(0x7, 0xd, 0xa)
  {
  }

  lemma Digit7e()
    ensures IsXor4(0x7, 0xe, 0x9)
  {
  }

  lemma Digit86()
    ensures IsXor4(0x8, 0x6, 0xe)
  {
  }

  lemma Digit96()
    ensures IsXor4(0x9, 0x6, 0xf)
  {
  }

  lemma Digita6()
    ensures IsXor4(0xa, 0x6, 0xc)
  {
  }

  lemma Digitac()
    ensures IsXor4(0xa, 0xc, 0x6)
  {
  }

  lemma Digitad()
    ensures IsXor4(0xa, 0xd, 0x7)
  {
  }

  lemma Digitae()
    ensures IsXor4(0xa, 0xe, 0x4)
  {
  }

  lemma Digitbe()
    ensures IsXor4(0xb, 0xe, 0x5)
  {
  }

  lemma Digitd3()
    ensures IsXor4(0xd, 0x3, 0xe)
  {
  }

  lemma Digitda()
    ensures IsXor4(0xd, 0xa, 0x7)
  {
  }

  lemma Digitf2()
    ensures IsXor4(0xf, 0x2, 0xd)
  {
  }

  lemma Digitfd()
    ensures IsXor4(0xf, 0xd, 0x2)
  {
  }

  lemma Nothing()
    ensures IsXor(0, 0, 0, 0)
  {
  }

  lemma Xor1()
    ensures Xor(0xbc451d34, 0x7) == 0xbc451d33
  {
    hide Xor, IsXor, IsXor4;
    XorZero4(0xb);
    XorZero4(0xc);
    XorZero4(0x4);
    XorZero4(0x5);
    XorZero4(0x1);
    XorZero4(0xd);
    XorZero4(0x3);
    Digit47();
    Nothing();
    XorHex4(0xb, 0xc, 0x4, 0x5, 0x0, 0x0, 0x0, 0x0,
            0xb, 0xc, 0x4, 0x5, 0, 0, 0, 0);
    XorHex4(0x1, 0xd, 0x3, 0x4, 0x0, 0x0, 0x0, 0x7,
            0x1, 0xd, 0x3, 0x3, 0xbc45, 0x0, 0xbc45, 16);
    XorHalves(0xbc45, 0x1d34, 0x0, 0x7, 0xbc45, 0x1d33);
  }

  lemma Xor2()
    ensures Xor(0x1e516a47, 0x1e) == 0x1e516a59
  {
    hide Xor, IsXor, IsXor4;
    XorZero4(0x1);
    XorZero4(0xe);
    XorZero4(0x5);
    XorZero4(0x6);
    XorZero4(0xa);
    Digit41();
    Digit7e();
    Nothing();
    XorHex4(0x1, 0xe, 0x5, 0x1, 0x0, 0x0, 0x0, 0x0,
            0x1, 0xe, 0x5, 0x1, 0, 0, 0, 0);
    XorHex4(0x6, 0xa, 0x4, 0x7, 0x0, 0x0, 0x1, 0xe,
            0x6, 0xa, 0x5, 0x9, 0x1e51, 0x0, 0x1e51, 16);
    XorHalves(0x1e51, 0x6a47, 0x0, 0x1e, 0x1e51, 0x6a59);
  }

  lemma Xor3()
    ensures Xor(0x737069af, 0x34d6e6cd) == 0x47a68f62
  {
    hide Xor, IsXor, IsXor4;
    Digit73();
    Digit34();
    Digit7d();
    Digit06();
    Digit6e();
    Digit96();
    Digitac();
    Digitfd();
    Nothing();
    XorHex4(0x7, 0x3, 0x7, 0x0, 0x3, 0x4, 0xd, 0x6,
            0x4, 0x7, 0xa, 0x6, 0, 0, 0, 0);
    XorHex4(0x6, 0x9, 0xa, 0xf, 0xe, 0x6, 0xc, 0xd,
            0x8, 0xf, 0x6, 0x2, 0x7370, 0x34d6, 0x47a6, 16);
    XorHalves(0x7370, 0x69af, 0x34d6, 0xe6cd, 0x47a6, 0x8f62);
  }

  lemma Xor4()
    ensures Xor(0x47a68f62, 0x630000) == 0x47c58f62
  {
    hide Xor, IsXor, IsXor4;
    XorZero4(0x4);
    XorZero4(0x7);
    Digita6();
    Digit63();
    XorZero4(0x8);
    XorZero4(0xf);
    XorZero4(0x6);
    XorZero4(0x2);
    Nothing();
    XorHex4(0x4, 0x7, 0xa, 0x6, 0x0, 0x0, 0x6, 0x3,
            0x4, 0x7, 0xc, 0x5, 0, 0, 0, 0);
    XorHex4(0x8, 0xf, 0x6, 0x2, 0x0, 0x0, 0x0, 0x0,
            0x8, 0xf, 0x6, 0x2, 0x47a6, 0x63, 0x47c5, 16);
    XorHalves(0x47a6, 0x8f62, 0x63, 0x0, 0x47c5, 0x8f62);
  }

  lemma Xor5()
    ensures Xor(0x47c58f62, 0x6200) == 0x47c5ed62
  {
    hide Xor, IsXor, IsXor4;
    XorZero4(0x4);
    XorZero4(0x7);
    XorZero4(0xc);
    XorZero4(0x5);
    Digit86();
    Digitf2();
    XorZero4(0x6);
    XorZero4(0x2);
    Nothing();
    XorHex4(0x4, 0x7, 0xc, 0x5, 0x0, 0x0, 0x0, 0x0,
            0x4, 0x7, 0xc, 0x5, 0, 0, 0, 0);
    XorHex4(0x8, 0xf, 0x6, 0x2, 0x6, 0x2, 0x0, 0x0,
            0xe, 0xd, 0x6, 0x2, 0x47c5, 0x0, 0x47c5, 16);
    XorHalves(0x47c5, 0x8f62, 0x0, 0x6200, 0x47c5, 0xed62);
  }

  lemma Xor6()
    ensures Xor(0x47c5ed62, 0x61) == 0x47c5ed03
  {
    hide Xor, IsXor, IsXor4;
    XorZero4(0x4);
    XorZero4(0x7);
    XorZero4(0xc);
    XorZero4(0x5);
    XorZero4(0xe);
    XorZero4(0xd);
    Digit66();
    Digit21();
    Nothing();
    XorHex4(0x4, 0x7, 0xc, 0x5, 0x0, 0x0, 0x0, 0x0,
            0x4, 0x7, 0xc, 0x5, 0, 0, 0, 0);
    XorHex4(0xe, 0xd, 0x6, 0x2, 0x0, 0x0, 0x6, 0x1,
            0xe, 0xd, 0x0, 0x3, 0x47c5, 0x0, 0x47c5, 16);
    XorHalves(0x47c5, 0xed62, 0x0, 0x61, 0x47c5, 0xed03);
  }

  lemma Xor7()
    ensures Xor(0x7b5dadbf, 0x3daed) == 0x7b5e7752
  {
    hide Xor, IsXor, IsXor4;
    XorZero4(0x7);
    XorZero4(0xb);
    XorZero4(0x5);
    Digitd3();
    Digitad();
    Digitda();
    Digitbe();
    Digitfd();
    Nothing();
    XorHex4(0x7, 0xb, 0x5, 0xd, 0x0, 0x0, 0x0, 0x3,
            0x7, 0xb, 0x5, 0xe, 0, 0, 0, 0);
    XorHex4(0xa, 0xd, 0xb, 0xf, 0xd, 0xa, 0xe, 0xd,
            0x7, 0x7, 0x5, 0x2, 0x7b5d, 0x3, 0x7b5e, 16);
    XorHalves(0x7b5d, 0xadbf, 0x3, 0xdaed, 0x7b5e, 0x7752);
  }

  lemma Xor8()
    ensures Xor(0x588714ba, 0xb10e) == 0x5887a5b4
  {
    hide Xor, IsXor, IsXor4;
    XorZero4(0x5);
    XorZero4(0x8);
    XorZero4(0x7);
    Digit1b();
    Digit41();
    XorZero4(0xb);
    Digitae();
    Nothing();
    XorHex4(0x5, 0x8, 0x8, 0x7, 0x0, 0x0, 0x0, 0x0,
            0x5, 0x8, 0x8, 0x7, 0, 0, 0, 0);
    XorHex4(0x1, 0x4, 0xb, 0xa, 0xb, 0x1, 0x0, 0xe,
            0xa, 0x5, 0xb, 0x4, 0x5887, 0x0, 0x5887, 16);
    XorHalves(0x5887, 0x14ba, 0x0, 0xb10e, 0x5887, 0xa5b4);
  }

  /** "key1abc". */
  const KEY: bytes := [0x6b, 0x65, 0x79, 0x31, 0x61, 0x62, 0x63]

  lemma FirstWord()
    ensures DecodeFixed32(KEY) == 0x3179656b && |KEY| == 7 && KEY[4..] == [0x61, 0x62, 0x63]
  {
  }

  lemma MixedWord()
    ensures MixWords(0xbc451d33, KEY) == 0x47a68f62
  {
    hide Xor, Shr, DecodeFixed32;
    FirstWord();
    Shr24(0x1e516a47);
    assert TimesM(0x3179656b) == 0x1e516a47 && TimesM(0x1e516a59) == 0x34d6e6cd && TimesM(0xbc451d33) == 0x737069af;
    Xor2();
    Xor3();
    assert Mixed4(0xbc451d33, 0x3179656b) == 0x47a68f62;
    assert MixWords(0x47a68f62, KEY[4..]) == 0x47a68f62;
  }

  lemma MixedTail()
    ensures MixTail(0x47a68f62, [0x61, 0x62, 0x63]) == 0x7b5dadbf
  {
    hide Xor;
    Xor4();
    Xor5();
    Xor6();
    assert TimesM(0x47c5ed03) == 0x7b5dadbf;
  }

  lemma Shifts()
    ensures Shr(0x7b5dadbf, 13) == 0x3daed && Shr(0x588714ba, 15) == 0xb10e
  {
    hide Shr;
    Shr13(0x7b5dadbf);
    Shr15(0x588714ba);
  }

  lemma LastProduct()
    ensures TimesM(0x7b5e7752) == 0x588714ba
  {
  }

  lemma Finished()
    ensures Finish(0x7b5dadbf) == 0x5887a5b4
  {
    hide Xor, Shr, TimesM;
    Shifts();
    Xor7();
    LastProduct();
    Xor8();
  }

  lemma HashOfKey()
    ensures Hash(KEY) == 0x5887a5b4
  {
    hide Xor, MixWords, MixTail, Finish;
    FirstWord();
    Xor1();
    MixedWord();
    MixedTail();
    Finished();
  }
}
