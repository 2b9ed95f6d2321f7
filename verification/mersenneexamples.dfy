/**
  The first words that Cryptography/src/MersenneTwister.cpp draws after seed 5489, the seed of the reference
  implementation of the 64-bit Mersenne twister (mt19937-64).
*/
module MersenneExamples {
  import opened Words
  import opened Mersenne

  // --- any words ------------------------------------------------------------------------------------------

  /** Element `j` after the seed is `v`, and the loop variable is `c` there. */
  ghost predicate Holds<W(!new)>(e: Engine<W>, s: Seeding<W>, seed: W, v: W, c: W, j: nat) {
    Element(e, seed, j) == v && s.Counter(j) == c
  }

  ghost predicate Leads<W>(s: Seeding<W>, v: W, c: W, v': W, c': W) {
    s.plus(s.scramble(v), c') == v' && s.plus(c, s.one) == c'
  }

  lemma StepHolds<W(!new)>(e: Engine<W>, s: Seeding<W>, seed: W, v: W, c: W, v': W, c': W, j: nat)
    requires 0 < j < N && Holds(e, s, seed, v, c, j - 1) && Leads(s, v, c, v', c') && e.step(v, j) == s.Step(v, j)
    ensures Holds(e, s, seed, v', c', j)
  {
    assert s.Counter(j) == s.plus(s.Counter(j - 1), s.one);
  }

  /** A statement about the elements that goes on from one to the next. */
  ghost predicate Grows<W(!new)>(s: Seeding<W>, at: (W, W, nat) -> bool) {
    forall v: W, c: W, v': W, c': W, j: nat ::
      Leads(s, v, c, v', c') ==> 0 < j < N && at(v, c, j - 1) ==> at(v', c', j)
  }

  lemma Grow<W(!new)>(s: Seeding<W>, at: (W, W, nat) -> bool, v: W, c: W, v': W, c': W, j: nat)
    requires Grows(s, at) && 0 < j < N && at(v, c, j - 1)
    requires s.plus(s.scramble(v), c') == v' && s.plus(c, s.one) == c'
    ensures at(v', c', j)
  {
    assert Leads(s, v, c, v', c');
  }

  lemma SeedGrows<W(!new)>(e: Engine<W>, s: Seeding<W>, seed: W, at: (W, W, nat) -> bool)
    requires forall v: W, c: W, j: nat :: at(v, c, j) <==> Holds(e, s, seed, v, c, j)
    requires forall v: W, j: nat :: e.step(v, j) == s.Step(v, j)
    ensures Grows(s, at) && at(seed, s.zero, 0)
  {
    forall v: W, c: W, v': W, c': W, j: nat | Leads(s, v, c, v', c')
      ensures 0 < j < N && at(v, c, j - 1) ==> at(v', c', j)
    {
      if 0 < j < N && at(v, c, j - 1) { StepHolds(e, s, seed, v, c, v', c', j); }
    }
    assert Holds(e, s, seed, seed, s.zero, 0);
  }

  lemma TwistIs<W>(e: Engine<W>, seed: W, k: nat)
    requires k < M
    ensures Element(e, seed, N + k)
         == e.mix(Element(e, seed, k), Element(e, seed, k + 1), Element(e, seed, k + M))
  {
  }

  // --- seed 5489 ------------------------------------------------------------------------------------------

  lemma Seeded13(at: (bv64, bv64, nat) -> bool)
    requires Grows(SEEDING, at) && at(0x1571, 0, 0)
    ensures at(0xD26A818BA186457D, 13, 13)
  {
    Grow(SEEDING, at, 0x1571, 0, 0xB5347F47116BD3DE, 1, 1);
    Grow(SEEDING, at, 0xB5347F47116BD3DE, 1, 0x9165B5762D1A61AE, 2, 2);
    Grow(SEEDING, at, 0x9165B5762D1A61AE, 2, 0xD139B6BBED337F3F, 3, 3);
    Grow(SEEDING, at, 0xD139B6BBED337F3F, 3, 0x37E740001C182190, 4, 4);
    Grow(SEEDING, at, 0x37E740001C182190, 4, 0xE398F84731B45655, 5, 5);
    Grow(SEEDING, at, 0xE398F84731B45655, 5, 0x97392E1FB95D724, 6, 6);
    Grow(SEEDING, at, 0x97392E1FB95D724, 6, 0x102FF8F17705AD5B, 7, 7);
    Grow(SEEDING, at, 0x102FF8F17705AD5B, 7, 0xAFD3B741A6F69E07, 8, 8);
    Grow(SEEDING, at, 0xAFD3B741A6F69E07, 8, 0x3673B7B326A741EA, 9, 9);
    Grow(SEEDING, at, 0x3673B7B326A741EA, 9, 0x967BEFB79A4BAC2C, 10, 10);
    Grow(SEEDING, at, 0x967BEFB79A4BAC2C, 10, 0x81579A10887E1621, 11, 11);
    Grow(SEEDING, at, 0x81579A10887E1621, 11, 0xFA4F68BAD1844133, 12, 12);
    Grow(SEEDING, at, 0xFA4F68BAD1844133, 12, 0xD26A818BA186457D, 13, 13);
  }

  lemma Seeded26(at: (bv64, bv64, nat) -> bool)
    requires Grows(SEEDING, at) && at(0xD26A818BA186457D, 13, 13)
    ensures at(0xB35584C73A6AD254, 26, 26)
  {
    Grow(SEEDING, at, 0xD26A818BA186457D, 13, 0x58EA399ADB69B934, 14, 14);
    Grow(SEEDING, at, 0x58EA399ADB69B934, 14, 0x7BE61CE78C4FD960, 15, 15);
    Grow(SEEDING, at, 0x7BE61CE78C4FD960, 15, 0x6520FC5E9855551D, 16, 16);
    Grow(SEEDING, at, 0x6520FC5E9855551D, 16, 0xC641EF0DF584D9FD, 17, 17);
    Grow(SEEDING, at, 0xC641EF0DF584D9FD, 17, 0xE8B0B2F1595553B8, 18, 18);
    Grow(SEEDING, at, 0xE8B0B2F1595553B8, 18, 0x2ACC772248607CF2, 19, 19);
    Grow(SEEDING, at, 0x2ACC772248607CF2, 19, 0xE21A56B927CC049E, 20, 20);
    Grow(SEEDING, at, 0xE21A56B927CC049E, 20, 0x222B48008087B2AE, 21, 21);
    Grow(SEEDING, at, 0x222B48008087B2AE, 21, 0xCFFD407690C4BAAC, 22, 22);
    Grow(SEEDING, at, 0xCFFD407690C4BAAC, 22, 0x185E6D58A70CA1DA, 23, 23);
    Grow(SEEDING, at, 0x185E6D58A70CA1DA, 23, 0xA47F692D8D65996A, 24, 24);
    Grow(SEEDING, at, 0xA47F692D8D65996A, 24, 0xD80BA31C6B7E8F61, 25, 25);
    Grow(SEEDING, at, 0xD80BA31C6B7E8F61, 25, 0xB35584C73A6AD254, 26, 26);
  }

  lemma Seeded39(at: (bv64, bv64, nat) -> bool)
    requires Grows(SEEDING, at) && at(0xB35584C73A6AD254, 26, 26)
    ensures at(0x9FF6E624D16735B3, 39, 39)
  {
    Grow(SEEDING, at, 0xB35584C73A6AD254, 26, 0x92AAD4BC372DA339, 27, 27);
    Grow(SEEDING, at, 0x92AAD4BC372DA339, 27, 0x59C35BD9DC56F67B, 28, 28);
    Grow(SEEDING, at, 0x59C35BD9DC56F67B, 28, 0x5FEEE4D68C91D98F, 29, 29);
    Grow(SEEDING, at, 0x5FEEE4D68C91D98F, 29, 0xA20C5CE2D836B014, 30, 30);
    Grow(SEEDING, at, 0xA20C5CE2D836B014, 30, 0x6EE0DD1C27C5DDFD, 31, 31);
    Grow(SEEDING, at, 0x6EE0DD1C27C5DDFD, 31, 0x8A81EF0B2A94096C, 32, 32);
    Grow(SEEDING, at, 0x8A81EF0B2A94096C, 32, 0xA161CA6211B93A77, 33, 33);
    Grow(SEEDING, at, 0xA161CA6211B93A77, 33, 0x2A3A52C2C3A851B3, 34, 34);
    Grow(SEEDING, at, 0x2A3A52C2C3A851B3, 34, 0x8CD8FCFC964D299A, 35, 35);
    Grow(SEEDING, at, 0x8CD8FCFC964D299A, 35, 0x39559F108AAB7DC, 36, 36);
    Grow(SEEDING, at, 0x39559F108AAB7DC, 36, 0xAA981E498A4475D1, 37, 37);
    Grow(SEEDING, at, 0xAA981E498A4475D1, 37, 0x47B66D6F7C4B633D, 38, 38);
    Grow(SEEDING, at, 0x47B66D6F7C4B633D, 38, 0x9FF6E624D16735B3, 39, 39);
  }

  lemma Seeded52(at: (bv64, bv64, nat) -> bool)
    requires Grows(SEEDING, at) && at(0x9FF6E624D16735B3, 39, 39)
    ensures at(0xBF99B825822A0877, 52, 52)
  {
    Grow(SEEDING, at, 0x9FF6E624D16735B3, 39, 0x7F7D617ACECC3F45, 40, 40);
    Grow(SEEDING, at, 0x7F7D617ACECC3F45, 40, 0x38FCFDCAAFDDDB1D, 41, 41);
    Grow(SEEDING, at, 0x38FCFDCAAFDDDB1D, 41, 0x14928B261D93E743, 42, 42);
    Grow(SEEDING, at, 0x14928B261D93E743, 42, 0xFE6000E410B8E3F2, 43, 43);
    Grow(SEEDING, at, 0xFE6000E410B8E3F2, 43, 0xB208B107E0D9A089, 44, 44);
    Grow(SEEDING, at, 0xB208B107E0D9A089, 44, 0x82F135B131CD2D9C, 45, 45);
    Grow(SEEDING, at, 0x82F135B131CD2D9C, 45, 0x987DDA96FFA866F4, 46, 46);
    Grow(SEEDING, at, 0x987DDA96FFA866F4, 46, 0xE1EBB23270DC236D, 47, 47);
    Grow(SEEDING, at, 0xE1EBB23270DC236D, 47, 0x2F775D6534BCC86, 48, 48);
    Grow(SEEDING, at, 0x2F775D6534BCC86, 48, 0x2916B16310C76DBF, 49, 49);
    Grow(SEEDING, at, 0x2916B16310C76DBF, 49, 0x8BB8A2F776AB0BC5, 50, 50);
    Grow(SEEDING, at, 0x8BB8A2F776AB0BC5, 50, 0x7ED20066A5BBCB2E, 51, 51);
    Grow(SEEDING, at, 0x7ED20066A5BBCB2E, 51, 0xBF99B825822A0877, 52, 52);
  }

  lemma Seeded65(at: (bv64, bv64, nat) -> bool)
    requires Grows(SEEDING, at) && at(0xBF99B825822A0877, 52, 52)
    ensures at(0x1182F4C543304C7, 65, 65)
  {
    Grow(SEEDING, at, 0xBF99B825822A0877, 52, 0x175137B563AE87C6, 53, 53);
    Grow(SEEDING, at, 0x175137B563AE87C6, 53, 0x8ED13207E9471804, 54, 54);
    Grow(SEEDING, at, 0x8ED13207E9471804, 54, 0xC8BE8AAF09E83345, 55, 55);
    Grow(SEEDING, at, 0xC8BE8AAF09E83345, 55, 0xD6F2A55B8EFEBD86, 56, 56);
    Grow(SEEDING, at, 0xD6F2A55B8EFEBD86, 56, 0x33EC6BF14D354B9A, 57, 57);
    Grow(SEEDING, at, 0x33EC6BF14D354B9A, 57, 0x1AA08340BB81B04C, 58, 58);
    Grow(SEEDING, at, 0x1AA08340BB81B04C, 58, 0x658C3F94787DB197, 59, 59);
    Grow(SEEDING, at, 0x658C3F94787DB197, 59, 0x3E32761E6D7FA19A, 60, 60);
    Grow(SEEDING, at, 0x3E32761E6D7FA19A, 60, 0xB6DFAB00573CCE4F, 61, 61);
    Grow(SEEDING, at, 0xB6DFAB00573CCE4F, 61, 0xC4EDB5826ED976C7, 62, 62);
    Grow(SEEDING, at, 0xC4EDB5826ED976C7, 62, 0x9E186133AE391CB3, 63, 63);
    Grow(SEEDING, at, 0x9E186133AE391CB3, 63, 0xC8B2D463344ADA5D, 64, 64);
    Grow(SEEDING, at, 0xC8B2D463344ADA5D, 64, 0x1182F4C543304C7, 65, 65);
  }

  lemma Seeded78(at: (bv64, bv64, nat) -> bool)
    requires Grows(SEEDING, at) && at(0x1182F4C543304C7, 65, 65)
    ensures at(0x800B954BEFB3D899, 78, 78)
  {
    Grow(SEEDING, at, 0x1182F4C543304C7, 65, 0xB99FD847F829903D, 66, 66);
    Grow(SEEDING, at, 0xB99FD847F829903D, 66, 0xB5ADE6D9E6889C56, 67, 67);
    Grow(SEEDING, at, 0xB5ADE6D9E6889C56, 67, 0x53F2F45B38752708, 68, 68);
    Grow(SEEDING, at, 0x53F2F45B38752708, 68, 0x9E6E49666F3253DA, 69, 69);
    Grow(SEEDING, at, 0x9E6E49666F3253DA, 69, 0xFC88FE527028E53E, 70, 70);
    Grow(SEEDING, at, 0xFC88FE527028E53E, 70, 0xB8275B6896A8F00, 71, 71);
    Grow(SEEDING, at, 0xB8275B6896A8F00, 71, 0x6964FFBB3FAC2348, 72, 72);
    Grow(SEEDING, at, 0x6964FFBB3FAC2348, 72, 0x957EC9FFCC406B1E, 73, 73);
    Grow(SEEDING, at, 0x957EC9FFCC406B1E, 73, 0x8149ED8183C1B836, 74, 74);
    Grow(SEEDING, at, 0x8149ED8183C1B836, 74, 0xB6423B4E9B32D6F, 75, 75);
    Grow(SEEDING, at, 0xB6423B4E9B32D6F, 75, 0x8FEA06065DA40DCF, 76, 76);
    Grow(SEEDING, at, 0x8FEA06065DA40DCF, 76, 0x737C3D30BD002056, 77, 77);
    Grow(SEEDING, at, 0x737C3D30BD002056, 77, 0x800B954BEFB3D899, 78, 78);
  }

  lemma Seeded91(at: (bv64, bv64, nat) -> bool)
    requires Grows(SEEDING, at) && at(0x800B954BEFB3D899, 78, 78)
    ensures at(0x6A57D5662813764D, 91, 91)
  {
    Grow(SEEDING, at, 0x800B954BEFB3D899, 78, 0xF91A17D7148F88E, 79, 79);
    Grow(SEEDING, at, 0xF91A17D7148F88E, 79, 0x23044078EFC82346, 80, 80);
    Grow(SEEDING, at, 0x23044078EFC82346, 80, 0xD2413979BF6BED9F, 81, 81);
    Grow(SEEDING, at, 0xD2413979BF6BED9F, 81, 0x3C786924CCA528BE, 82, 82);
    Grow(SEEDING, at, 0x3C786924CCA528BE, 82, 0x147B229D06D46BB9, 83, 83);
    Grow(SEEDING, at, 0x147B229D06D46BB9, 83, 0xCAC949203374B6D9, 84, 84);
    Grow(SEEDING, at, 0xCAC949203374B6D9, 84, 0xB47359B9171C4AA7, 85, 85);
    Grow(SEEDING, at, 0xB47359B9171C4AA7, 85, 0x7AB3D4A18709FA57, 86, 86);
    Grow(SEEDING, at, 0x7AB3D4A18709FA57, 86, 0x82C40AA0EBFFAB75, 87, 87);
    Grow(SEEDING, at, 0x82C40AA0EBFFAB75, 87, 0x877A85FE72442D43, 88, 88);
    Grow(SEEDING, at, 0x877A85FE72442D43, 88, 0xDAB66FF48B4433C6, 89, 89);
    Grow(SEEDING, at, 0xDAB66FF48B4433C6, 89, 0x4BF32AC4EE54D4FB, 90, 90);
    Grow(SEEDING, at, 0x4BF32AC4EE54D4FB, 90, 0x6A57D5662813764D, 91, 91);
  }

  lemma Seeded104(at: (bv64, bv64, nat) -> bool)
    requires Grows(SEEDING, at) && at(0x6A57D5662813764D, 91, 91)
    ensures at(0xC5CDCA88C7CC7DEE, 104, 104)
  {
    Grow(SEEDING, at, 0x6A57D5662813764D, 91, 0xF2E186A51D577FB8, 92, 92);
    Grow(SEEDING, at, 0xF2E186A51D577FB8, 92, 0x368B524C6C96393C, 93, 93);
    Grow(SEEDING, at, 0x368B524C6C96393C, 93, 0x4BFA6D46BCB8D3EA, 94, 94);
    Grow(SEEDING, at, 0x4BFA6D46BCB8D3EA, 94, 0x5D423FDAF965D5AE, 95, 95);
    Grow(SEEDING, at, 0x5D423FDAF965D5AE, 95, 0x19C09AAFAEC36123, 96, 96);
    Grow(SEEDING, at, 0x19C09AAFAEC36123, 96, 0xF8BB804992E77088, 97, 97);
    Grow(SEEDING, at, 0xF8BB804992E77088, 97, 0xDF7875C686ABDD1, 98, 98);
    Grow(SEEDING, at, 0xDF7875C686ABDD1, 98, 0x7741AB42D5930D20, 99, 99);
    Grow(SEEDING, at, 0x7741AB42D5930D20, 99, 0x429CFBFCEE91AE31, 100, 100);
    Grow(SEEDING, at, 0x429CFBFCEE91AE31, 100, 0xBE763EC0D6F56ED5, 101, 101);
    Grow(SEEDING, at, 0xBE763EC0D6F56ED5, 101, 0x9AC91415E2442531, 102, 102);
    Grow(SEEDING, at, 0x9AC91415E2442531, 102, 0x2CCA75C45F1DD75E, 103, 103);
    Grow(SEEDING, at, 0x2CCA75C45F1DD75E, 103, 0xC5CDCA88C7CC7DEE, 104, 104);
  }

  lemma Seeded117(at: (bv64, bv64, nat) -> bool)
    requires Grows(SEEDING, at) && at(0xC5CDCA88C7CC7DEE, 104, 104)
    ensures at(0x46B1D5A1EF466A33, 117, 117)
  {
    Grow(SEEDING, at, 0xC5CDCA88C7CC7DEE, 104, 0xB0887B3A385BB612, 105, 105);
    Grow(SEEDING, at, 0xB0887B3A385BB612, 105, 0x2B73D36F1EC0F13A, 106, 106);
    Grow(SEEDING, at, 0x2B73D36F1EC0F13A, 106, 0xB73E27E5BE582D9D, 107, 107);
    Grow(SEEDING, at, 0xB73E27E5BE582D9D, 107, 0x113C84A0F5ACE65F, 108, 108);
    Grow(SEEDING, at, 0x113C84A0F5ACE65F, 108, 0x8F1386E53EF8A020, 109, 109);
    Grow(SEEDING, at, 0x8F1386E53EF8A020, 109, 0xCD9074C2B4EF0468, 110, 110);
    Grow(SEEDING, at, 0xCD9074C2B4EF0468, 110, 0x5B702538B77BDC3E, 111, 111);
    Grow(SEEDING, at, 0x5B702538B77BDC3E, 111, 0xDC4A018B97B3F883, 112, 112);
    Grow(SEEDING, at, 0xDC4A018B97B3F883, 112, 0x9B0BEDD1956A2EF1, 113, 113);
    Grow(SEEDING, at, 0x9B0BEDD1956A2EF1, 113, 0xAAB8206B6863CE29, 114, 114);
    Grow(SEEDING, at, 0xAAB8206B6863CE29, 114, 0x999B98859FD99302, 115, 115);
    Grow(SEEDING, at, 0x999B98859FD99302, 115, 0x9E999210982BD774, 116, 116);
    Grow(SEEDING, at, 0x9E999210982BD774, 116, 0x46B1D5A1EF466A33, 117, 117);
  }

  lemma Seeded130(at: (bv64, bv64, nat) -> bool)
    requires Grows(SEEDING, at) && at(0x46B1D5A1EF466A33, 117, 117)
    ensures at(0x5524BF4114923F24, 130, 130)
  {
    Grow(SEEDING, at, 0x46B1D5A1EF466A33, 117, 0x6F16177A5297940, 118, 118);
    Grow(SEEDING, at, 0x6F16177A5297940, 118, 0x248F3E5A2DB110B7, 119, 119);
    Grow(SEEDING, at, 0x248F3E5A2DB110B7, 119, 0x8B1F37B4EDEDB9A3, 120, 120);
    Grow(SEEDING, at, 0x8B1F37B4EDEDB9A3, 120, 0x8FB8B09C989580C6, 121, 121);
    Grow(SEEDING, at, 0x8FB8B09C989580C6, 121, 0x9A8C5EEB1F3CDEEE, 122, 122);
    Grow(SEEDING, at, 0x9A8C5EEB1F3CDEEE, 122, 0x4BAB3EB7FA643F7, 123, 123);
    Grow(SEEDING, at, 0x4BAB3EB7FA643F7, 123, 0x68327B16CEB47BE7, 124, 124);
    Grow(SEEDING, at, 0x68327B16CEB47BE7, 124, 0x652AD6D0440EE1EB, 125, 125);
    Grow(SEEDING, at, 0x652AD6D0440EE1EB, 125, 0xF57FDA3C4DE2CCA0, 126, 126);
    Grow(SEEDING, at, 0xF57FDA3C4DE2CCA0, 126, 0x247245A5B341D626, 127, 127);
    Grow(SEEDING, at, 0x247245A5B341D626, 127, 0xE8012FA117ED7F2E, 128, 128);
    Grow(SEEDING, at, 0xE8012FA117ED7F2E, 128, 0x31E6F8156807AE6A, 129, 129);
    Grow(SEEDING, at, 0x31E6F8156807AE6A, 129, 0x5524BF4114923F24, 130, 130);
  }

  lemma Seeded143(at: (bv64, bv64, nat) -> bool)
    requires Grows(SEEDING, at) && at(0x5524BF4114923F24, 130, 130)
    ensures at(0x6A9E329B1D3A9515, 143, 143)
  {
    Grow(SEEDING, at, 0x5524BF4114923F24, 130, 0x89ECA903E7917504, 131, 131);
    Grow(SEEDING, at, 0x89ECA903E7917504, 131, 0x9D78E605C21D8C92, 132, 132);
    Grow(SEEDING, at, 0x9D78E605C21D8C92, 132, 0x8213008D57BD25D5, 133, 133);
    Grow(SEEDING, at, 0x8213008D57BD25D5, 133, 0x2845027D1C285051, 134, 134);
    Grow(SEEDING, at, 0x2845027D1C285051, 134, 0x88CF2E81BE134DC4, 135, 135);
    Grow(SEEDING, at, 0x88CF2E81BE134DC4, 135, 0xE59A4A3B0937E656, 136, 136);
    Grow(SEEDING, at, 0xE59A4A3B0937E656, 136, 0xA14CCCCEA590A87A, 137, 137);
    Grow(SEEDING, at, 0xA14CCCCEA590A87A, 137, 0x8A7FD0C38BD925A2, 138, 138);
    Grow(SEEDING, at, 0x8A7FD0C38BD925A2, 138, 0xC505AE6EB4F5FDAB, 139, 139);
    Grow(SEEDING, at, 0xC505AE6EB4F5FDAB, 139, 0x1EDAA63E5ADBEF14, 140, 140);
    Grow(SEEDING, at, 0x1EDAA63E5ADBEF14, 140, 0x48086B892AE7F311, 141, 141);
    Grow(SEEDING, at, 0x48086B892AE7F311, 141, 0x2CE7C25ED4AAAA5E, 142, 142);
    Grow(SEEDING, at, 0x2CE7C25ED4AAAA5E, 142, 0x6A9E329B1D3A9515, 143, 143);
  }

  lemma Seeded156(at: (bv64, bv64, nat) -> bool)
    requires Grows(SEEDING, at) && at(0x6A9E329B1D3A9515, 143, 143)
    ensures at(0x245B1C66FA082BFF, 156, 156)
  {
    Grow(SEEDING, at, 0x6A9E329B1D3A9515, 143, 0xBE9684A2E7E52114, 144, 144);
    Grow(SEEDING, at, 0xBE9684A2E7E52114, 144, 0xEAB0E8BA387EBB6F, 145, 145);
    Grow(SEEDING, at, 0xEAB0E8BA387EBB6F, 145, 0xE7CBAE25F31D868E, 146, 146);
    Grow(SEEDING, at, 0xE7CBAE25F31D868E, 146, 0x5581BF318E019A5C, 147, 147);
    Grow(SEEDING, at, 0x5581BF318E019A5C, 147, 0xB07E184435FD45ED, 148, 148);
    Grow(SEEDING, at, 0xB07E184435FD45ED, 148, 0x20BACEF5CB51DC98, 149, 149);
    Grow(SEEDING, at, 0x20BACEF5CB51DC98, 149, 0xAAAA9BECDE4B2F4E, 150, 150);
    Grow(SEEDING, at, 0xAAAA9BECDE4B2F4E, 150, 0x898B5F1376EA04F3, 151, 151);
    Grow(SEEDING, at, 0x898B5F1376EA04F3, 151, 0xCB65A0736BDB6DF5, 152, 152);
    Grow(SEEDING, at, 0xCB65A0736BDB6DF5, 152, 0x47E02E65D94D5ED7, 153, 153);
    Grow(SEEDING, at, 0x47E02E65D94D5ED7, 153, 0x99EAC4824F33D638, 154, 154);
    Grow(SEEDING, at, 0x99EAC4824F33D638, 154, 0xA1C29D298B256ECD, 155, 155);
    Grow(SEEDING, at, 0xA1C29D298B256ECD, 155, 0x245B1C66FA082BFF, 156, 156);
  }

  lemma FirstOfHalf(at: (bv64, bv64, nat) -> bool)
    requires Grows(SEEDING, at) && at(0x1571, 0, 0)
    ensures at(0xB5347F47116BD3DE, 1, 1) && at(0x9165B5762D1A61AE, 2, 2) && at(0xD139B6BBED337F3F, 3, 3)
  {
    Grow(SEEDING, at, 0x1571, 0, 0xB5347F47116BD3DE, 1, 1);
    Grow(SEEDING, at, 0xB5347F47116BD3DE, 1, 0x9165B5762D1A61AE, 2, 2);
    Grow(SEEDING, at, 0x9165B5762D1A61AE, 2, 0xD139B6BBED337F3F, 3, 3);
  }

  lemma LastOfHalf(at: (bv64, bv64, nat) -> bool)
    requires Grows(SEEDING, at) && at(0x1571, 0, 0)
    ensures at(0x245B1C66FA082BFF, 156, 156) && at(0x252CFC850AE3D70, 157, 157) && at(0x16CD2293A14B5D4E, 158, 158)
  {
    Seeded13(at);
    Seeded26(at);
    Seeded39(at);
    Seeded52(at);
    Seeded65(at);
    Seeded78(at);
    Seeded91(at);
    Seeded104(at);
    Seeded117(at);
    Seeded130(at);
    Seeded143(at);
    Seeded156(at);
    Grow(SEEDING, at, 0x245B1C66FA082BFF, 156, 0x252CFC850AE3D70, 157, 157);
    Grow(SEEDING, at, 0x252CFC850AE3D70, 157, 0x16CD2293A14B5D4E, 158, 158);
  }

  ghost predicate Mixes(x: bv64, y: bv64, z: bv64, w: bv64) {
    Temper(Mix(x, y, z)) == w
  }

  lemma FirstMix()
    ensures Mixes(0x1571, 0xB5347F47116BD3DE, 0x245B1C66FA082BFF, 0xC96D191CF6F6AEA6)
  {
    assert Mix(0x1571, 0xB5347F47116BD3DE, 0x245B1C66FA082BFF) == 0x245B1C66F2BDC210;
  }

  lemma SecondMix()
    ensures Mixes(0xB5347F47116BD3DE, 0x9165B5762D1A61AE, 0x252CFC850AE3D70, 0x401F7AC78BC80F1C)
  {
    assert Mix(0xB5347F47116BD3DE, 0x9165B5762D1A61AE, 0x252CFC850AE3D70) == 0x58C8F06BC6230DA7;
  }

  lemma ThirdMix()
    ensures Mixes(0x9165B5762D1A61AE, 0xD139B6BBED337F3F, 0x16CD2293A14B5D4E, 0xB5EE8CB6ABE457F8)
  {
    assert Mix(0x9165B5762D1A61AE, 0xD139B6BBED337F3F, 0x16CD2293A14B5D4E) == 0xEB7D97723EB4FB38;
  }

  lemma DrawIs(seed: bv64, x: bv64, y: bv64, z: bv64, w: bv64, k: nat)
    requires k < M && Mixes(x, y, z, w)
    requires Element(MT19937, seed, k) == x && Element(MT19937, seed, k + 1) == y && Element(MT19937, seed, k + M) == z
    ensures Temper(Element(MT19937, seed, N + k)) == w
  {
    TwistIs(MT19937, seed, k);
    MixOf(x, y, z);
  }

  lemma StepsAre()
    ensures forall v: bv64, j: nat :: MT19937.step(v, j) == SEEDING.Step(v, j)
  {
  }

  lemma MixOf(x: bv64, y: bv64, z: bv64)
    ensures MT19937.mix(x, y, z) == Mix(x, y, z)
  {
  }

  lemma Seeded(seed: bv64)
    requires seed == 5489
    ensures Element(MT19937, seed, 0) == 0x1571 && Element(MT19937, seed, 1) == 0xB5347F47116BD3DE
    ensures Element(MT19937, seed, 2) == 0x9165B5762D1A61AE && Element(MT19937, seed, 3) == 0xD139B6BBED337F3F
    ensures Element(MT19937, seed, 156) == 0x245B1C66FA082BFF && Element(MT19937, seed, 157) == 0x252CFC850AE3D70
    ensures Element(MT19937, seed, 158) == 0x16CD2293A14B5D4E
  {
    var at := (v: bv64, c: bv64, j: nat) => Holds(MT19937, SEEDING, seed, v, c, j);
    StepsAre();
    SeedGrows(MT19937, SEEDING, seed, at);
    FirstOfHalf(at);
    LastOfHalf(at);
  }

  lemma FirstDraws(seed: bv64)
    requires seed == 5489
    ensures Temper(Element(MT19937, seed, N)) == 0xC96D191CF6F6AEA6
    ensures Temper(Element(MT19937, seed, N + 1)) == 0x401F7AC78BC80F1C
    ensures Temper(Element(MT19937, seed, N + 2)) == 0xB5EE8CB6ABE457F8
  {
    Seeded(seed);
    FirstMix();
    SecondMix();
    ThirdMix();
    DrawIs(seed, 0x1571, 0xB5347F47116BD3DE, 0x245B1C66FA082BFF, 0xC96D191CF6F6AEA6, 0);
    DrawIs(seed, 0xB5347F47116BD3DE, 0x9165B5762D1A61AE, 0x252CFC850AE3D70, 0x401F7AC78BC80F1C, 1);
    DrawIs(seed, 0x9165B5762D1A61AE, 0xD139B6BBED337F3F, 0x16CD2293A14B5D4E, 0xB5EE8CB6ABE457F8, 2);
  }

  /** The first three words drawn after seed 5489, as the reference implementation prints them. */
  method DrawThree(seed: bv64) returns (a: bv64, b: bv64, c: bv64)
    requires seed == 5489
    ensures a == 14514284786278117030 && b == 4620546740167642908 && c == 13109570281517897720
  {
    var out := Outputs(seed, 3);
    ThreeOf(out, seed);
    return out[0], out[1], out[2];
  }

  lemma ThreeOf(out: seq<bv64>, seed: bv64)
    requires |out| == 3 && seed == 5489
    requires forall k :: 0 <= k < 3 ==> out[k] == Temper(Element(MT19937, seed, N + k))
    ensures out[0] == 14514284786278117030 && out[1] == 4620546740167642908 && out[2] == 13109570281517897720
  {
    FirstDraws(seed);
    assert out[0] == Temper(Element(MT19937, seed, N + 0));
  }
}
