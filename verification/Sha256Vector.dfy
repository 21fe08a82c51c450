/** The message "abc" of the examples published with FIPS 180-4, through every schedule word and every round:
    a wrong rotation, constant, sum or byte order in Sha256Spec would make a lemma below fail. */
module Sha256Vector {
  import opened Sha256Spec

  /** The only block of the padded message "abc". */
  ghost predicate IsBlock(m: seq<bv32>) {
    |m| == 16 && m[0] == 0x61626380 && m[15] == 0x18 && forall i :: 1 <= i < 15 ==> m[i] == 0
  }

  // ---- The message schedule ----

  ghost predicate Word(m: seq<bv32>, t: nat, w: bv32) { IsBlock(m) && Schedule(m, t) == w }

  lemma FirstWords(m: seq<bv32>)
    requires IsBlock(m)
    ensures Word(m, 0, 0x61626380) && Word(m, 15, 0x18) && forall t :: 1 <= t < 15 ==> Word(m, t, 0)
  {}

  lemma NextWord(m: seq<bv32>, t: nat, w2: bv32, w7: bv32, w15: bv32, w16: bv32, w: bv32)
    requires t >= 16 && Word(m, t - 2, w2) && Word(m, t - 7, w7) && Word(m, t - 15, w15) && Word(m, t - 16, w16)
    requires Mix(w2, w7, w15, w16) == w
    ensures Word(m, t, w)
  {
    hide Mix, Schedule;
    ScheduleNext(m, t);
  }

  lemma Word16(m: seq<bv32>) requires IsBlock(m) ensures Word(m, 16, 0x61626380) {
    hide Word, IsBlock; FirstWords(m); NextWord(m, 16, 0, 0, 0, 0x61626380, 0x61626380);
  }
  lemma Word17(m: seq<bv32>) requires IsBlock(m) ensures Word(m, 17, 0x000f0000) {
    hide Word, IsBlock; FirstWords(m); NextWord(m, 17, 0x18, 0, 0, 0, 0x000f0000);
  }
  lemma Word18(m: seq<bv32>) requires IsBlock(m) ensures Word(m, 18, 0x7da86405) {
    hide Word, IsBlock; FirstWords(m); Word16(m); NextWord(m, 18, 0x61626380, 0, 0, 0, 0x7da86405);
  }
  lemma Word19(m: seq<bv32>) requires IsBlock(m) ensures Word(m, 19, 0x600003c6) {
    hide Word, IsBlock; FirstWords(m); Word17(m); NextWord(m, 19, 0x000f0000, 0, 0, 0, 0x600003c6);
  }
  lemma Word20(m: seq<bv32>) requires IsBlock(m) ensures Word(m, 20, 0x3e9d7b78) {
    hide Word, IsBlock; FirstWords(m); Word18(m); NextWord(m, 20, 0x7da86405, 0, 0, 0, 0x3e9d7b78);
  }
  lemma Word21(m: seq<bv32>) requires IsBlock(m) ensures Word(m, 21, 0x0183fc00) {
    hide Word, IsBlock; FirstWords(m); Word19(m); NextWord(m, 21, 0x600003c6, 0, 0, 0, 0x0183fc00);
  }
  lemma Word22(m: seq<bv32>) requires IsBlock(m) ensures Word(m, 22, 0x12dcbfdb) {
    hide Word, IsBlock; FirstWords(m); Word20(m); NextWord(m, 22, 0x3e9d7b78, 0x18, 0, 0, 0x12dcbfdb);
  }
  lemma Word23(m: seq<bv32>) requires IsBlock(m) ensures Word(m, 23, 0xe2e2c38e) {
    hide Word, IsBlock; FirstWords(m); Word21(m); Word16(m); NextWord(m, 23, 0x0183fc00, 0x61626380, 0, 0, 0xe2e2c38e);
  }
  lemma Word24(m: seq<bv32>) requires IsBlock(m) ensures Word(m, 24, 0xc8215c1a) {
    hide Word, IsBlock; FirstWords(m); Word22(m); Word17(m); NextWord(m, 24, 0x12dcbfdb, 0x000f0000, 0, 0, 0xc8215c1a);
  }
  lemma Word25(m: seq<bv32>) requires IsBlock(m) ensures Word(m, 25, 0xb73679a2) {
    hide Word, IsBlock; FirstWords(m); Word23(m); Word18(m); NextWord(m, 25, 0xe2e2c38e, 0x7da86405, 0, 0, 0xb73679a2);
  }
  lemma Word26(m: seq<bv32>) requires IsBlock(m) ensures Word(m, 26, 0xe5bc3909) {
    hide Word, IsBlock; FirstWords(m); Word24(m); Word19(m); NextWord(m, 26, 0xc8215c1a, 0x600003c6, 0, 0, 0xe5bc3909);
  }
  lemma Word27(m: seq<bv32>) requires IsBlock(m) ensures Word(m, 27, 0x32663c5b) {
    hide Word, IsBlock; FirstWords(m); Word25(m); Word20(m); NextWord(m, 27, 0xb73679a2, 0x3e9d7b78, 0, 0, 0x32663c5b);
  }
  lemma Word28(m: seq<bv32>) requires IsBlock(m) ensures Word(m, 28, 0x9d209d67) {
    hide Word, IsBlock; FirstWords(m); Word26(m); Word21(m); NextWord(m, 28, 0xe5bc3909, 0x0183fc00, 0, 0, 0x9d209d67);
  }
  lemma Word29(m: seq<bv32>) requires IsBlock(m) ensures Word(m, 29, 0xec8726cb) {
    hide Word, IsBlock; FirstWords(m); Word27(m); Word22(m); NextWord(m, 29, 0x32663c5b, 0x12dcbfdb, 0, 0, 0xec8726cb);
  }
  lemma Word30(m: seq<bv32>) requires IsBlock(m) ensures Word(m, 30, 0x702138a4) {
    hide Word, IsBlock; FirstWords(m); Word28(m); Word23(m); NextWord(m, 30, 0x9d209d67, 0xe2e2c38e, 0x18, 0, 0x702138a4);
  }
  lemma Word31(m: seq<bv32>) requires IsBlock(m) ensures Word(m, 31, 0xd3b7973b) {
    hide Word, IsBlock; FirstWords(m); Word29(m); Word24(m); Word16(m); NextWord(m, 31, 0xec8726cb, 0xc8215c1a, 0x61626380, 0x18, 0xd3b7973b);
  }
  lemma Word32(m: seq<bv32>) requires IsBlock(m) ensures Word(m, 32, 0x93f5997f) {
    hide Word, IsBlock; Word30(m); Word25(m); Word17(m); Word16(m); NextWord(m, 32, 0x702138a4, 0xb73679a2, 0x000f0000, 0x61626380, 0x93f5997f);
  }
  lemma Word33(m: seq<bv32>) requires IsBlock(m) ensures Word(m, 33, 0x3b68ba73) {
    hide Word, IsBlock; Word31(m); Word26(m); Word18(m); Word17(m); NextWord(m, 33, 0xd3b7973b, 0xe5bc3909, 0x7da86405, 0x000f0000, 0x3b68ba73);
  }
  lemma Word34(m: seq<bv32>) requires IsBlock(m) ensures Word(m, 34, 0xaff4ffc1) {
    hide Word, IsBlock; Word32(m); Word27(m); Word19(m); Word18(m); NextWord(m, 34, 0x93f5997f, 0x32663c5b, 0x600003c6, 0x7da86405, 0xaff4ffc1);
  }
  lemma Word35(m: seq<bv32>) requires IsBlock(m) ensures Word(m, 35, 0xf10a5c62) {
    hide Word, IsBlock; Word33(m); Word28(m); Word20(m); Word19(m); NextWord(m, 35, 0x3b68ba73, 0x9d209d67, 0x3e9d7b78, 0x600003c6, 0xf10a5c62);
  }
  lemma Word36(m: seq<bv32>) requires IsBlock(m) ensures Word(m, 36, 0x0a8b3996) {
    hide Word, IsBlock; Word34(m); Word29(m); Word21(m); Word20(m); NextWord(m, 36, 0xaff4ffc1, 0xec8726cb, 0x0183fc00, 0x3e9d7b78, 0x0a8b3996);
  }
  lemma Word37(m: seq<bv32>) requires IsBlock(m) ensures Word(m, 37, 0x72af830a) {
    hide Word, IsBlock; Word35(m); Word30(m); Word22(m); Word21(m); NextWord(m, 37, 0xf10a5c62, 0x702138a4, 0x12dcbfdb, 0x0183fc00, 0x72af830a);
  }
  lemma Word38(m: seq<bv32>) requires IsBlock(m) ensures Word(m, 38, 0x9409e33e) {
    hide Word, IsBlock; Word36(m); Word31(m); Word23(m); Word22(m); NextWord(m, 38, 0x0a8b3996, 0xd3b7973b, 0xe2e2c38e, 0x12dcbfdb, 0x9409e33e);
  }
  lemma Word39(m: seq<bv32>) requires IsBlock(m) ensures Word(m, 39, 0x24641522) {
    hide Word, IsBlock; Word37(m); Word32(m); Word24(m); Word23(m); NextWord(m, 39, 0x72af830a, 0x93f5997f, 0xc8215c1a, 0xe2e2c38e, 0x24641522);
  }
  lemma Word40(m: seq<bv32>) requires IsBlock(m) ensures Word(m, 40, 0x9f47bf94) {
    hide Word, IsBlock; Word38(m); Word33(m); Word25(m); Word24(m); NextWord(m, 40, 0x9409e33e, 0x3b68ba73, 0xb73679a2, 0xc8215c1a, 0x9f47bf94);
  }
  lemma Word41(m: seq<bv32>) requires IsBlock(m) ensures Word(m, 41, 0xf0a64f5a) {
    hide Word, IsBlock; Word39(m); Word34(m); Word26(m); Word25(m); NextWord(m, 41, 0x24641522, 0xaff4ffc1, 0xe5bc3909, 0xb73679a2, 0xf0a64f5a);
  }
  lemma Word42(m: seq<bv32>) requires IsBlock(m) ensures Word(m, 42, 0x3e246a79) {
    hide Word, IsBlock; Word40(m); Word35(m); Word27(m); Word26(m); NextWord(m, 42, 0x9f47bf94, 0xf10a5c62, 0x32663c5b, 0xe5bc3909, 0x3e246a79);
  }
  lemma Word43(m: seq<bv32>) requires IsBlock(m) ensures Word(m, 43, 0x27333ba3) {
    hide Word, IsBlock; Word41(m); Word36(m); Word28(m); Word27(m); NextWord(m, 43, 0xf0a64f5a, 0x0a8b3996, 0x9d209d67, 0x32663c5b, 0x27333ba3);
  }
  lemma Word44(m: seq<bv32>) requires IsBlock(m) ensures Word(m, 44, 0x0c4763f2) {
    hide Word, IsBlock; Word42(m); Word37(m); Word29(m); Word28(m); NextWord(m, 44, 0x3e246a79, 0x72af830a, 0xec8726cb, 0x9d209d67, 0x0c4763f2);
  }
  lemma Word45(m: seq<bv32>) requires IsBlock(m) ensures Word(m, 45, 0x840abf27) {
    hide Word, IsBlock; Word43(m); Word38(m); Word30(m); Word29(m); NextWord(m, 45, 0x27333ba3, 0x9409e33e, 0x702138a4, 0xec8726cb, 0x840abf27);
  }
  lemma Word46(m: seq<bv32>) requires IsBlock(m) ensures Word(m, 46, 0x7a290d5d) {
    hide Word, IsBlock; Word44(m); Word39(m); Word31(m); Word30(m); NextWord(m, 46, 0x0c4763f2, 0x24641522, 0xd3b7973b, 0x702138a4, 0x7a290d5d);
  }
  lemma Word47(m: seq<bv32>) requires IsBlock(m) ensures Word(m, 47, 0x065c43da) {
    hide Word, IsBlock; Word45(m); Word40(m); Word32(m); Word31(m); NextWord(m, 47, 0x840abf27, 0x9f47bf94, 0x93f5997f, 0xd3b7973b, 0x065c43da);
  }
  lemma Word48(m: seq<bv32>) requires IsBlock(m) ensures Word(m, 48, 0xfb3e89cb) {
    hide Word, IsBlock; Word46(m); Word41(m); Word33(m); Word32(m); NextWord(m, 48, 0x7a290d5d, 0xf0a64f5a, 0x3b68ba73, 0x93f5997f, 0xfb3e89cb);
  }
  lemma Word49(m: seq<bv32>) requires IsBlock(m) ensures Word(m, 49, 0xcc7617db) {
    hide Word, IsBlock; Word47(m); Word42(m); Word34(m); Word33(m); NextWord(m, 49, 0x065c43da, 0x3e246a79, 0xaff4ffc1, 0x3b68ba73, 0xcc7617db);
  }
  lemma Word50(m: seq<bv32>) requires IsBlock(m) ensures Word(m, 50, 0xb9e66c34) {
    hide Word, IsBlock; Word48(m); Word43(m); Word35(m); Word34(m); NextWord(m, 50, 0xfb3e89cb, 0x27333ba3, 0xf10a5c62, 0xaff4ffc1, 0xb9e66c34);
  }
  lemma Word51(m: seq<bv32>) requires IsBlock(m) ensures Word(m, 51, 0xa9993667) {
    hide Word, IsBlock; Word49(m); Word44(m); Word36(m); Word35(m); NextWord(m, 51, 0xcc7617db, 0x0c4763f2, 0x0a8b3996, 0xf10a5c62, 0xa9993667);
  }
  lemma Word52(m: seq<bv32>) requires IsBlock(m) ensures Word(m, 52, 0x84badedd) {
    hide Word, IsBlock; Word50(m); Word45(m); Word37(m); Word36(m); NextWord(m, 52, 0xb9e66c34, 0x840abf27, 0x72af830a, 0x0a8b3996, 0x84badedd);
  }
  lemma Word53(m: seq<bv32>) requires IsBlock(m) ensures Word(m, 53, 0xc21462bc) {
    hide Word, IsBlock; Word51(m); Word46(m); Word38(m); Word37(m); NextWord(m, 53, 0xa9993667, 0x7a290d5d, 0x9409e33e, 0x72af830a, 0xc21462bc);
  }
  lemma Word54(m: seq<bv32>) requires IsBlock(m) ensures Word(m, 54, 0x1487472c) {
    hide Word, IsBlock; Word52(m); Word47(m); Word39(m); Word38(m); NextWord(m, 54, 0x84badedd, 0x065c43da, 0x24641522, 0x9409e33e, 0x1487472c);
  }
  lemma Word55(m: seq<bv32>) requires IsBlock(m) ensures Word(m, 55, 0xb20f7a99) {
    hide Word, IsBlock; Word53(m); Word48(m); Word40(m); Word39(m); NextWord(m, 55, 0xc21462bc, 0xfb3e89cb, 0x9f47bf94, 0x24641522, 0xb20f7a99);
  }
  lemma Word56(m: seq<bv32>) requires IsBlock(m) ensures Word(m, 56, 0xef57b9cd) {
    hide Word, IsBlock; Word54(m); Word49(m); Word41(m); Word40(m); NextWord(m, 56, 0x1487472c, 0xcc7617db, 0xf0a64f5a, 0x9f47bf94, 0xef57b9cd);
  }
  lemma Word57(m: seq<bv32>) requires IsBlock(m) ensures Word(m, 57, 0xebe6b238) {
    hide Word, IsBlock; Word55(m); Word50(m); Word42(m); Word41(m); NextWord(m, 57, 0xb20f7a99, 0xb9e66c34, 0x3e246a79, 0xf0a64f5a, 0xebe6b238);
  }
  lemma Word58(m: seq<bv32>) requires IsBlock(m) ensures Word(m, 58, 0x9fe3095e) {
    hide Word, IsBlock; Word56(m); Word51(m); Word43(m); Word42(m); NextWord(m, 58, 0xef57b9cd, 0xa9993667, 0x27333ba3, 0x3e246a79, 0x9fe3095e);
  }
  lemma Word59(m: seq<bv32>) requires IsBlock(m) ensures Word(m, 59, 0x78bc8d4b) {
    hide Word, IsBlock; Word57(m); Word52(m); Word44(m); Word43(m); NextWord(m, 59, 0xebe6b238, 0x84badedd, 0x0c4763f2, 0x27333ba3, 0x78bc8d4b);
  }
  lemma Word60(m: seq<bv32>) requires IsBlock(m) ensures Word(m, 60, 0xa43fcf15) {
    hide Word, IsBlock; Word58(m); Word53(m); Word45(m); Word44(m); NextWord(m, 60, 0x9fe3095e, 0xc21462bc, 0x840abf27, 0x0c4763f2, 0xa43fcf15);
  }
  lemma Word61(m: seq<bv32>) requires IsBlock(m) ensures Word(m, 61, 0x668b2ff8) {
    hide Word, IsBlock; Word59(m); Word54(m); Word46(m); Word45(m); NextWord(m, 61, 0x78bc8d4b, 0x1487472c, 0x7a290d5d, 0x840abf27, 0x668b2ff8);
  }
  lemma Word62(m: seq<bv32>) requires IsBlock(m) ensures Word(m, 62, 0xeeaba2cc) {
    hide Word, IsBlock; Word60(m); Word55(m); Word47(m); Word46(m); NextWord(m, 62, 0xa43fcf15, 0xb20f7a99, 0x065c43da, 0x7a290d5d, 0xeeaba2cc);
  }
  lemma Word63(m: seq<bv32>) requires IsBlock(m) ensures Word(m, 63, 0x12b1edeb) {
    hide Word, IsBlock; Word61(m); Word56(m); Word48(m); Word47(m); NextWord(m, 63, 0x668b2ff8, 0xef57b9cd, 0xfb3e89cb, 0x065c43da, 0x12b1edeb);
  }

  // ---- The rounds ----

  ghost predicate After(m: seq<bv32>, t: nat, r: Regs) { |m| == 16 && t <= 64 && Rounds(H0, m, t) == r }

  lemma Next(m: seq<bv32>, t: nat, r: Regs, w: bv32) returns (next: Regs)
    requires t < 64 && After(m, t, r) && Word(m, t, w)
    ensures After(m, t + 1, next) && next == Step(r, RoundConstant(t), w)
  {
    hide Step, RoundConstant, Schedule;
    next := Step(r, RoundConstant(t), w);
  }

  lemma After0(m: seq<bv32>) returns (r: Regs)
    requires IsBlock(m)
    ensures r == Regs(0x6a09e667, 0xbb67ae85, 0x3c6ef372, 0xa54ff53a, 0x510e527f, 0x9b05688c, 0x1f83d9ab, 0x5be0cd19) && After(m, 0, r)
  {
    r := H0;
  }

  lemma After1(m: seq<bv32>) returns (r: Regs)
    requires IsBlock(m)
    ensures r == Regs(0x5d6aebcd, 0x6a09e667, 0xbb67ae85, 0x3c6ef372, 0xfa2a4622, 0x510e527f, 0x9b05688c, 0x1f83d9ab) && After(m, 1, r)
  {
    hide Word, After, IsBlock; r := After0(m); FirstWords(m); r := Next(m, 0, r, 0x61626380);
  }
  lemma After2(m: seq<bv32>) returns (r: Regs)
    requires IsBlock(m)
    ensures r == Regs(0x5a6ad9ad, 0x5d6aebcd, 0x6a09e667, 0xbb67ae85, 0x78ce7989, 0xfa2a4622, 0x510e527f, 0x9b05688c) && After(m, 2, r)
  {
    hide Word, After, IsBlock; r := After1(m); FirstWords(m); r := Next(m, 1, r, 0);
  }
  lemma After3(m: seq<bv32>) returns (r: Regs)
    requires IsBlock(m)
    ensures r == Regs(0xc8c347a7, 0x5a6ad9ad, 0x5d6aebcd, 0x6a09e667, 0xf92939eb, 0x78ce7989, 0xfa2a4622, 0x510e527f) && After(m, 3, r)
  {
    hide Word, After, IsBlock; r := After2(m); FirstWords(m); r := Next(m, 2, r, 0);
  }
  lemma After4(m: seq<bv32>) returns (r: Regs)
    requires IsBlock(m)
    ensures r == Regs(0xd550f666, 0xc8c347a7, 0x5a6ad9ad, 0x5d6aebcd, 0x24e00850, 0xf92939eb, 0x78ce7989, 0xfa2a4622) && After(m, 4, r)
  {
    hide Word, After, IsBlock; r := After3(m); FirstWords(m); r := Next(m, 3, r, 0);
  }
  lemma After5(m: seq<bv32>) returns (r: Regs)
    requires IsBlock(m)
    ensures r == Regs(0x04409a6a, 0xd550f666, 0xc8c347a7, 0x5a6ad9ad, 0x43ada245, 0x24e00850, 0xf92939eb, 0x78ce7989) && After(m, 5, r)
  {
    hide Word, After, IsBlock; r := After4(m); FirstWords(m); r := Next(m, 4, r, 0);
  }
  lemma After6(m: seq<bv32>) returns (r: Regs)
    requires IsBlock(m)
    ensures r == Regs(0x2b4209f5, 0x04409a6a, 0xd550f666, 0xc8c347a7, 0x714260ad, 0x43ada245, 0x24e00850, 0xf92939eb) && After(m, 6, r)
  {
    hide Word, After, IsBlock; r := After5(m); FirstWords(m); r := Next(m, 5, r, 0);
  }
  lemma After7(m: seq<bv32>) returns (r: Regs)
    requires IsBlock(m)
    ensures r == Regs(0xe5030380, 0x2b4209f5, 0x04409a6a, 0xd550f666, 0x9b27a401, 0x714260ad, 0x43ada245, 0x24e00850) && After(m, 7, r)
  {
    hide Word, After, IsBlock; r := After6(m); FirstWords(m); r := Next(m, 6, r, 0);
  }
  lemma After8(m: seq<bv32>) returns (r: Regs)
    requires IsBlock(m)
    ensures r == Regs(0x85a07b5f, 0xe5030380, 0x2b4209f5, 0x04409a6a, 0x0c657a79, 0x9b27a401, 0x714260ad, 0x43ada245) && After(m, 8, r)
  {
    hide Word, After, IsBlock; r := After7(m); FirstWords(m); r := Next(m, 7, r, 0);
  }
  lemma After9(m: seq<bv32>) returns (r: Regs)
    requires IsBlock(m)
    ensures r == Regs(0x8e04ecb9, 0x85a07b5f, 0xe5030380, 0x2b4209f5, 0x32ca2d8c, 0x0c657a79, 0x9b27a401, 0x714260ad) && After(m, 9, r)
  {
    hide Word, After, IsBlock; r := After8(m); FirstWords(m); r := Next(m, 8, r, 0);
  }
  lemma After10(m: seq<bv32>) returns (r: Regs)
    requires IsBlock(m)
    ensures r == Regs(0x8c87346b, 0x8e04ecb9, 0x85a07b5f, 0xe5030380, 0x1cc92596, 0x32ca2d8c, 0x0c657a79, 0x9b27a401) && After(m, 10, r)
  {
    hide Word, After, IsBlock; r := After9(m); FirstWords(m); r := Next(m, 9, r, 0);
  }
  lemma After11(m: seq<bv32>) returns (r: Regs)
    requires IsBlock(m)
    ensures r == Regs(0x4798a3f4, 0x8c87346b, 0x8e04ecb9, 0x85a07b5f, 0x436b23e8, 0x1cc92596, 0x32ca2d8c, 0x0c657a79) && After(m, 11, r)
  {
    hide Word, After, IsBlock; r := After10(m); FirstWords(m); r := Next(m, 10, r, 0);
  }
  lemma After12(m: seq<bv32>) returns (r: Regs)
    requires IsBlock(m)
    ensures r == Regs(0xf71fc5a9, 0x4798a3f4, 0x8c87346b, 0x8e04ecb9, 0x816fd6e9, 0x436b23e8, 0x1cc92596, 0x32ca2d8c) && After(m, 12, r)
  {
    hide Word, After, IsBlock; r := After11(m); FirstWords(m); r := Next(m, 11, r, 0);
  }
  lemma After13(m: seq<bv32>) returns (r: Regs)
    requires IsBlock(m)
    ensures r == Regs(0x87912990, 0xf71fc5a9, 0x4798a3f4, 0x8c87346b, 0x1e578218, 0x816fd6e9, 0x436b23e8, 0x1cc92596) && After(m, 13, r)
  {
    hide Word, After, IsBlock; r := After12(m); FirstWords(m); r := Next(m, 12, r, 0);
  }
  lemma After14(m: seq<bv32>) returns (r: Regs)
    requires IsBlock(m)
    ensures r == Regs(0xd932eb16, 0x87912990, 0xf71fc5a9, 0x4798a3f4, 0x745a48de, 0x1e578218, 0x816fd6e9, 0x436b23e8) && After(m, 14, r)
  {
    hide Word, After, IsBlock; r := After13(m); FirstWords(m); r := Next(m, 13, r, 0);
  }
  lemma After15(m: seq<bv32>) returns (r: Regs)
    requires IsBlock(m)
    ensures r == Regs(0xc0645fde, 0xd932eb16, 0x87912990, 0xf71fc5a9, 0x0b92f20c, 0x745a48de, 0x1e578218, 0x816fd6e9) && After(m, 15, r)
  {
    hide Word, After, IsBlock; r := After14(m); FirstWords(m); r := Next(m, 14, r, 0);
  }
  lemma After16(m: seq<bv32>) returns (r: Regs)
    requires IsBlock(m)
    ensures r == Regs(0xb0fa238e, 0xc0645fde, 0xd932eb16, 0x87912990, 0x07590dcd, 0x0b92f20c, 0x745a48de, 0x1e578218) && After(m, 16, r)
  {
    hide Word, After, IsBlock; r := After15(m); FirstWords(m); r := Next(m, 15, r, 0x18);
  }
  lemma After17(m: seq<bv32>) returns (r: Regs)
    requires IsBlock(m)
    ensures r == Regs(0x21da9a9b, 0xb0fa238e, 0xc0645fde, 0xd932eb16, 0x8034229c, 0x07590dcd, 0x0b92f20c, 0x745a48de) && After(m, 17, r)
  {
    hide Word, After, IsBlock; r := After16(m); Word16(m); r := Next(m, 16, r, 0x61626380);
  }
  lemma After18(m: seq<bv32>) returns (r: Regs)
    requires IsBlock(m)
    ensures r == Regs(0xc2fbd9d1, 0x21da9a9b, 0xb0fa238e, 0xc0645fde, 0x846ee454, 0x8034229c, 0x07590dcd, 0x0b92f20c) && After(m, 18, r)
  {
    hide Word, After, IsBlock; r := After17(m); Word17(m); r := Next(m, 17, r, 0x000f0000);
  }
  lemma After19(m: seq<bv32>) returns (r: Regs)
    requires IsBlock(m)
    ensures r == Regs(0xfe777bbf, 0xc2fbd9d1, 0x21da9a9b, 0xb0fa238e, 0xcc899961, 0x846ee454, 0x8034229c, 0x07590dcd) && After(m, 19, r)
  {
    hide Word, After, IsBlock; r := After18(m); Word18(m); r := Next(m, 18, r, 0x7da86405);
  }
  lemma After20(m: seq<bv32>) returns (r: Regs)
    requires IsBlock(m)
    ensures r == Regs(0xe1f20c33, 0xfe777bbf, 0xc2fbd9d1, 0x21da9a9b, 0xb0638179, 0xcc899961, 0x846ee454, 0x8034229c) && After(m, 20, r)
  {
    hide Word, After, IsBlock; r := After19(m); Word19(m); r := Next(m, 19, r, 0x600003c6);
  }
  lemma After21(m: seq<bv32>) returns (r: Regs)
    requires IsBlock(m)
    ensures r == Regs(0x9dc68b63, 0xe1f20c33, 0xfe777bbf, 0xc2fbd9d1, 0x8ada8930, 0xb0638179, 0xcc899961, 0x846ee454) && After(m, 21, r)
  {
    hide Word, After, IsBlock; r := After20(m); Word20(m); r := Next(m, 20, r, 0x3e9d7b78);
  }
  lemma After22(m: seq<bv32>) returns (r: Regs)
    requires IsBlock(m)
    ensures r == Regs(0xc2606d6d, 0x9dc68b63, 0xe1f20c33, 0xfe777bbf, 0xe1257970, 0x8ada8930, 0xb0638179, 0xcc899961) && After(m, 22, r)
  {
    hide Word, After, IsBlock; r := After21(m); Word21(m); r := Next(m, 21, r, 0x0183fc00);
  }
  lemma After23(m: seq<bv32>) returns (r: Regs)
    requires IsBlock(m)
    ensures r == Regs(0xa7a3623f, 0xc2606d6d, 0x9dc68b63, 0xe1f20c33, 0x49f5114a, 0xe1257970, 0x8ada8930, 0xb0638179) && After(m, 23, r)
  {
    hide Word, After, IsBlock; r := After22(m); Word22(m); r := Next(m, 22, r, 0x12dcbfdb);
  }
  lemma After24(m: seq<bv32>) returns (r: Regs)
    requires IsBlock(m)
    ensures r == Regs(0xc5d53d8d, 0xa7a3623f, 0xc2606d6d, 0x9dc68b63, 0xaa47c347, 0x49f5114a, 0xe1257970, 0x8ada8930) && After(m, 24, r)
  {
    hide Word, After, IsBlock; r := After23(m); Word23(m); r := Next(m, 23, r, 0xe2e2c38e);
  }
  lemma After25(m: seq<bv32>) returns (r: Regs)
    requires IsBlock(m)
    ensures r == Regs(0x1c2c2838, 0xc5d53d8d, 0xa7a3623f, 0xc2606d6d, 0x2823ef91, 0xaa47c347, 0x49f5114a, 0xe1257970) && After(m, 25, r)
  {
    hide Word, After, IsBlock; r := After24(m); Word24(m); r := Next(m, 24, r, 0xc8215c1a);
  }
  lemma After26(m: seq<bv32>) returns (r: Regs)
    requires IsBlock(m)
    ensures r == Regs(0xcde8037d, 0x1c2c2838, 0xc5d53d8d, 0xa7a3623f, 0x14383d8e, 0x2823ef91, 0xaa47c347, 0x49f5114a) && After(m, 26, r)
  {
    hide Word, After, IsBlock; r := After25(m); Word25(m); r := Next(m, 25, r, 0xb73679a2);
  }
  lemma After27(m: seq<bv32>) returns (r: Regs)
    requires IsBlock(m)
    ensures r == Regs(0xb62ec4bc, 0xcde8037d, 0x1c2c2838, 0xc5d53d8d, 0xc74c6516, 0x14383d8e, 0x2823ef91, 0xaa47c347) && After(m, 27, r)
  {
    hide Word, After, IsBlock; r := After26(m); Word26(m); r := Next(m, 26, r, 0xe5bc3909);
  }
  lemma After28(m: seq<bv32>) returns (r: Regs)
    requires IsBlock(m)
    ensures r == Regs(0x77d37528, 0xb62ec4bc, 0xcde8037d, 0x1c2c2838, 0xedffbff8, 0xc74c6516, 0x14383d8e, 0x2823ef91) && After(m, 28, r)
  {
    hide Word, After, IsBlock; r := After27(m); Word27(m); r := Next(m, 27, r, 0x32663c5b);
  }
  lemma After29(m: seq<bv32>) returns (r: Regs)
    requires IsBlock(m)
    ensures r == Regs(0x363482c9, 0x77d37528, 0xb62ec4bc, 0xcde8037d, 0x6112a3b7, 0xedffbff8, 0xc74c6516, 0x14383d8e) && After(m, 29, r)
  {
    hide Word, After, IsBlock; r := After28(m); Word28(m); r := Next(m, 28, r, 0x9d209d67);
  }
  lemma After30(m: seq<bv32>) returns (r: Regs)
    requires IsBlock(m)
    ensures r == Regs(0xa0060b30, 0x363482c9, 0x77d37528, 0xb62ec4bc, 0xade79437, 0x6112a3b7, 0xedffbff8, 0xc74c6516) && After(m, 30, r)
  {
    hide Word, After, IsBlock; r := After29(m); Word29(m); r := Next(m, 29, r, 0xec8726cb);
  }
  lemma After31(m: seq<bv32>) returns (r: Regs)
    requires IsBlock(m)
    ensures r == Regs(0xea992a22, 0xa0060b30, 0x363482c9, 0x77d37528, 0x0109ab3a, 0xade79437, 0x6112a3b7, 0xedffbff8) && After(m, 31, r)
  {
    hide Word, After, IsBlock; r := After30(m); Word30(m); r := Next(m, 30, r, 0x702138a4);
  }
  lemma After32(m: seq<bv32>) returns (r: Regs)
    requires IsBlock(m)
    ensures r == Regs(0x73b33bf5, 0xea992a22, 0xa0060b30, 0x363482c9, 0xba591112, 0x0109ab3a, 0xade79437, 0x6112a3b7) && After(m, 32, r)
  {
    hide Word, After, IsBlock; r := After31(m); Word31(m); r := Next(m, 31, r, 0xd3b7973b);
  }
  lemma After33(m: seq<bv32>) returns (r: Regs)
    requires IsBlock(m)
    ensures r == Regs(0x98e12507, 0x73b33bf5, 0xea992a22, 0xa0060b30, 0x9cd9f5f6, 0xba591112, 0x0109ab3a, 0xade79437) && After(m, 33, r)
  {
    hide Word, After, IsBlock; r := After32(m); Word32(m); r := Next(m, 32, r, 0x93f5997f);
  }
  lemma After34(m: seq<bv32>) returns (r: Regs)
    requires IsBlock(m)
    ensures r == Regs(0xfe604df5, 0x98e12507, 0x73b33bf5, 0xea992a22, 0x59249dd3, 0x9cd9f5f6, 0xba591112, 0x0109ab3a) && After(m, 34, r)
  {
    hide Word, After, IsBlock; r := After33(m); Word33(m); r := Next(m, 33, r, 0x3b68ba73);
  }
  lemma After35(m: seq<bv32>) returns (r: Regs)
    requires IsBlock(m)
    ensures r == Regs(0xa9a7738c, 0xfe604df5, 0x98e12507, 0x73b33bf5, 0x085f3833, 0x59249dd3, 0x9cd9f5f6, 0xba591112) && After(m, 35, r)
  {
    hide Word, After, IsBlock; r := After34(m); Word34(m); r := Next(m, 34, r, 0xaff4ffc1);
  }
  lemma After36(m: seq<bv32>) returns (r: Regs)
    requires IsBlock(m)
    ensures r == Regs(0x65a0cfe4, 0xa9a7738c, 0xfe604df5, 0x98e12507, 0xf4b002d6, 0x085f3833, 0x59249dd3, 0x9cd9f5f6) && After(m, 36, r)
  {
    hide Word, After, IsBlock; r := After35(m); Word35(m); r := Next(m, 35, r, 0xf10a5c62);
  }
  lemma After37(m: seq<bv32>) returns (r: Regs)
    requires IsBlock(m)
    ensures r == Regs(0x41a65cb1, 0x65a0cfe4, 0xa9a7738c, 0xfe604df5, 0x0772a26b, 0xf4b002d6, 0x085f3833, 0x59249dd3) && After(m, 37, r)
  {
    hide Word, After, IsBlock; r := After36(m); Word36(m); r := Next(m, 36, r, 0x0a8b3996);
  }
  lemma After38(m: seq<bv32>) returns (r: Regs)
    requires IsBlock(m)
    ensures r == Regs(0x34df1604, 0x41a65cb1, 0x65a0cfe4, 0xa9a7738c, 0xa507a53d, 0x0772a26b, 0xf4b002d6, 0x085f3833) && After(m, 38, r)
  {
    hide Word, After, IsBlock; r := After37(m); Word37(m); r := Next(m, 37, r, 0x72af830a);
  }
  lemma After39(m: seq<bv32>) returns (r: Regs)
    requires IsBlock(m)
    ensures r == Regs(0x6dc57a8a, 0x34df1604, 0x41a65cb1, 0x65a0cfe4, 0xf0781bc8, 0xa507a53d, 0x0772a26b, 0xf4b002d6) && After(m, 39, r)
  {
    hide Word, After, IsBlock; r := After38(m); Word38(m); r := Next(m, 38, r, 0x9409e33e);
  }
  lemma After40(m: seq<bv32>) returns (r: Regs)
    requires IsBlock(m)
    ensures r == Regs(0x79ea687a, 0x6dc57a8a, 0x34df1604, 0x41a65cb1, 0x1efbc0a0, 0xf0781bc8, 0xa507a53d, 0x0772a26b) && After(m, 40, r)
  {
    hide Word, After, IsBlock; r := After39(m); Word39(m); r := Next(m, 39, r, 0x24641522);
  }
  lemma After41(m: seq<bv32>) returns (r: Regs)
    requires IsBlock(m)
    ensures r == Regs(0xd6670766, 0x79ea687a, 0x6dc57a8a, 0x34df1604, 0x26352d63, 0x1efbc0a0, 0xf0781bc8, 0xa507a53d) && After(m, 41, r)
  {
    hide Word, After, IsBlock; r := After40(m); Word40(m); r := Next(m, 40, r, 0x9f47bf94);
  }
  lemma After42(m: seq<bv32>) returns (r: Regs)
    requires IsBlock(m)
    ensures r == Regs(0xdf46652f, 0xd6670766, 0x79ea687a, 0x6dc57a8a, 0x838b2711, 0x26352d63, 0x1efbc0a0, 0xf0781bc8) && After(m, 42, r)
  {
    hide Word, After, IsBlock; r := After41(m); Word41(m); r := Next(m, 41, r, 0xf0a64f5a);
  }
  lemma After43(m: seq<bv32>) returns (r: Regs)
    requires IsBlock(m)
    ensures r == Regs(0x17aa0dfe, 0xdf46652f, 0xd6670766, 0x79ea687a, 0xdecd4715, 0x838b2711, 0x26352d63, 0x1efbc0a0) && After(m, 43, r)
  {
    hide Word, After, IsBlock; r := After42(m); Word42(m); r := Next(m, 42, r, 0x3e246a79);
  }
  lemma After44(m: seq<bv32>) returns (r: Regs)
    requires IsBlock(m)
    ensures r == Regs(0x9d4baf93, 0x17aa0dfe, 0xdf46652f, 0xd6670766, 0xfda24c2e, 0xdecd4715, 0x838b2711, 0x26352d63) && After(m, 44, r)
  {
    hide Word, After, IsBlock; r := After43(m); Word43(m); r := Next(m, 43, r, 0x27333ba3);
  }
  lemma After45(m: seq<bv32>) returns (r: Regs)
    requires IsBlock(m)
    ensures r == Regs(0x26628815, 0x9d4baf93, 0x17aa0dfe, 0xdf46652f, 0xa80f11f0, 0xfda24c2e, 0xdecd4715, 0x838b2711) && After(m, 45, r)
  {
    hide Word, After, IsBlock; r := After44(m); Word44(m); r := Next(m, 44, r, 0x0c4763f2);
  }
  lemma After46(m: seq<bv32>) returns (r: Regs)
    requires IsBlock(m)
    ensures r == Regs(0x72ab4b91, 0x26628815, 0x9d4baf93, 0x17aa0dfe, 0xb7755da1, 0xa80f11f0, 0xfda24c2e, 0xdecd4715) && After(m, 46, r)
  {
    hide Word, After, IsBlock; r := After45(m); Word45(m); r := Next(m, 45, r, 0x840abf27);
  }
  lemma After47(m: seq<bv32>) returns (r: Regs)
    requires IsBlock(m)
    ensures r == Regs(0xa14c14b0, 0x72ab4b91, 0x26628815, 0x9d4baf93, 0xd57b94a9, 0xb7755da1, 0xa80f11f0, 0xfda24c2e) && After(m, 47, r)
  {
    hide Word, After, IsBlock; r := After46(m); Word46(m); r := Next(m, 46, r, 0x7a290d5d);
  }
  lemma After48(m: seq<bv32>) returns (r: Regs)
    requires IsBlock(m)
    ensures r == Regs(0x4172328d, 0xa14c14b0, 0x72ab4b91, 0x26628815, 0xfecf0bc6, 0xd57b94a9, 0xb7755da1, 0xa80f11f0) && After(m, 48, r)
  {
    hide Word, After, IsBlock; r := After47(m); Word47(m); r := Next(m, 47, r, 0x065c43da);
  }
  lemma After49(m: seq<bv32>) returns (r: Regs)
    requires IsBlock(m)
    ensures r == Regs(0x05757ceb, 0x4172328d, 0xa14c14b0, 0x72ab4b91, 0xbd714038, 0xfecf0bc6, 0xd57b94a9, 0xb7755da1) && After(m, 49, r)
  {
    hide Word, After, IsBlock; r := After48(m); Word48(m); r := Next(m, 48, r, 0xfb3e89cb);
  }
  lemma After50(m: seq<bv32>) returns (r: Regs)
    requires IsBlock(m)
    ensures r == Regs(0xf11bfaa8, 0x05757ceb, 0x4172328d, 0xa14c14b0, 0x6e5c390c, 0xbd714038, 0xfecf0bc6, 0xd57b94a9) && After(m, 50, r)
  {
    hide Word, After, IsBlock; r := After49(m); Word49(m); r := Next(m, 49, r, 0xcc7617db);
  }
  lemma After51(m: seq<bv32>) returns (r: Regs)
    requires IsBlock(m)
    ensures r == Regs(0x7a0508a1, 0xf11bfaa8, 0x05757ceb, 0x4172328d, 0x52f1ccf7, 0x6e5c390c, 0xbd714038, 0xfecf0bc6) && After(m, 51, r)
  {
    hide Word, After, IsBlock; r := After50(m); Word50(m); r := Next(m, 50, r, 0xb9e66c34);
  }
  lemma After52(m: seq<bv32>) returns (r: Regs)
    requires IsBlock(m)
    ensures r == Regs(0x886e7a22, 0x7a0508a1, 0xf11bfaa8, 0x05757ceb, 0x49231c1e, 0x52f1ccf7, 0x6e5c390c, 0xbd714038) && After(m, 52, r)
  {
    hide Word, After, IsBlock; r := After51(m); Word51(m); r := Next(m, 51, r, 0xa9993667);
  }
  lemma After53(m: seq<bv32>) returns (r: Regs)
    requires IsBlock(m)
    ensures r == Regs(0x101fd28f, 0x886e7a22, 0x7a0508a1, 0xf11bfaa8, 0x529e7d00, 0x49231c1e, 0x52f1ccf7, 0x6e5c390c) && After(m, 53, r)
  {
    hide Word, After, IsBlock; r := After52(m); Word52(m); r := Next(m, 52, r, 0x84badedd);
  }
  lemma After54(m: seq<bv32>) returns (r: Regs)
    requires IsBlock(m)
    ensures r == Regs(0xf5702fdb, 0x101fd28f, 0x886e7a22, 0x7a0508a1, 0x9f4787c3, 0x529e7d00, 0x49231c1e, 0x52f1ccf7) && After(m, 54, r)
  {
    hide Word, After, IsBlock; r := After53(m); Word53(m); r := Next(m, 53, r, 0xc21462bc);
  }
  lemma After55(m: seq<bv32>) returns (r: Regs)
    requires IsBlock(m)
    ensures r == Regs(0x3ec45cdb, 0xf5702fdb, 0x101fd28f, 0x886e7a22, 0xe50e1b4f, 0x9f4787c3, 0x529e7d00, 0x49231c1e) && After(m, 55, r)
  {
    hide Word, After, IsBlock; r := After54(m); Word54(m); r := Next(m, 54, r, 0x1487472c);
  }
  lemma After56(m: seq<bv32>) returns (r: Regs)
    requires IsBlock(m)
    ensures r == Regs(0x38cc9913, 0x3ec45cdb, 0xf5702fdb, 0x101fd28f, 0x54cb266b, 0xe50e1b4f, 0x9f4787c3, 0x529e7d00) && After(m, 56, r)
  {
    hide Word, After, IsBlock; r := After55(m); Word55(m); r := Next(m, 55, r, 0xb20f7a99);
  }
  lemma After57(m: seq<bv32>) returns (r: Regs)
    requires IsBlock(m)
    ensures r == Regs(0xfcd1887b, 0x38cc9913, 0x3ec45cdb, 0xf5702fdb, 0x9b5e906c, 0x54cb266b, 0xe50e1b4f, 0x9f4787c3) && After(m, 57, r)
  {
    hide Word, After, IsBlock; r := After56(m); Word56(m); r := Next(m, 56, r, 0xef57b9cd);
  }
  lemma After58(m: seq<bv32>) returns (r: Regs)
    requires IsBlock(m)
    ensures r == Regs(0xc062d46f, 0xfcd1887b, 0x38cc9913, 0x3ec45cdb, 0x7e44008e, 0x9b5e906c, 0x54cb266b, 0xe50e1b4f) && After(m, 58, r)
  {
    hide Word, After, IsBlock; r := After57(m); Word57(m); r := Next(m, 57, r, 0xebe6b238);
  }
  lemma After59(m: seq<bv32>) returns (r: Regs)
    requires IsBlock(m)
    ensures r == Regs(0xffb70472, 0xc062d46f, 0xfcd1887b, 0x38cc9913, 0x6d83bfc6, 0x7e44008e, 0x9b5e906c, 0x54cb266b) && After(m, 59, r)
  {
    hide Word, After, IsBlock; r := After58(m); Word58(m); r := Next(m, 58, r, 0x9fe3095e);
  }
  lemma After60(m: seq<bv32>) returns (r: Regs)
    requires IsBlock(m)
    ensures r == Regs(0xb6ae8fff, 0xffb70472, 0xc062d46f, 0xfcd1887b, 0xb21bad3d, 0x6d83bfc6, 0x7e44008e, 0x9b5e906c) && After(m, 60, r)
  {
    hide Word, After, IsBlock; r := After59(m); Word59(m); r := Next(m, 59, r, 0x78bc8d4b);
  }
  lemma After61(m: seq<bv32>) returns (r: Regs)
    requires IsBlock(m)
    ensures r == Regs(0xb85e2ce9, 0xb6ae8fff, 0xffb70472, 0xc062d46f, 0x961f4894, 0xb21bad3d, 0x6d83bfc6, 0x7e44008e) && After(m, 61, r)
  {
    hide Word, After, IsBlock; r := After60(m); Word60(m); r := Next(m, 60, r, 0xa43fcf15);
  }
  lemma After62(m: seq<bv32>) returns (r: Regs)
    requires IsBlock(m)
    ensures r == Regs(0x04d24d6c, 0xb85e2ce9, 0xb6ae8fff, 0xffb70472, 0x948d25b6, 0x961f4894, 0xb21bad3d, 0x6d83bfc6) && After(m, 62, r)
  {
    hide Word, After, IsBlock; r := After61(m); Word61(m); r := Next(m, 61, r, 0x668b2ff8);
  }
  lemma After63(m: seq<bv32>) returns (r: Regs)
    requires IsBlock(m)
    ensures r == Regs(0xd39a2165, 0x04d24d6c, 0xb85e2ce9, 0xb6ae8fff, 0xfb121210, 0x948d25b6, 0x961f4894, 0xb21bad3d) && After(m, 63, r)
  {
    hide Word, After, IsBlock; r := After62(m); Word62(m); r := Next(m, 62, r, 0xeeaba2cc);
  }
  lemma After64(m: seq<bv32>) returns (r: Regs)
    requires IsBlock(m)
    ensures r == Regs(0x506e3058, 0xd39a2165, 0x04d24d6c, 0xb85e2ce9, 0x5ef50f24, 0xfb121210, 0x948d25b6, 0x961f4894) && After(m, 64, r)
  {
    hide Word, After, IsBlock; r := After63(m); Word63(m); r := Next(m, 63, r, 0x12b1edeb);
  }

  // ---- The message and its digest ----

  lemma LengthBytes()
    ensures BeBytes(24, 8) == [0, 0, 0, 0, 0, 0, 0, 0x18]
  {
    assert BeBytes(0, 1) == [0];
    assert BeBytes(0, 3) == [0, 0, 0];
    assert BeBytes(0, 5) == [0, 0, 0, 0, 0];
    assert BeBytes(0, 7) == [0, 0, 0, 0, 0, 0, 0];
  }

  lemma PaddedBlock()
    ensures var data := Pad([0x61, 0x62, 0x63]); |data| == 64 && IsBlock(BlockWords(data))
  {
    LengthBytes();
    var data := Pad([0x61, 0x62, 0x63]);
    hide BeBytes;
    assert data[..4] == [0x61, 0x62, 0x63, 0x80] && data[60..] == [0, 0, 0, 0x18];
    assert forall i :: 4 <= i < 60 ==> data[i] == 0;
    forall i | 0 <= i < 16
      ensures BlockWords(data)[i] == if i == 0 then 0x61626380 else if i == 15 then 0x18 else 0
    {
      assert BlockWords(data)[i] == BeWord(data[4 * i], data[4 * i + 1], data[4 * i + 2], data[4 * i + 3]);
      if i == 0 {
        assert data[..4][0] == data[0] && data[..4][1] == data[1] && data[..4][2] == data[2] && data[..4][3] == data[3];
      } else if i == 15 {
        assert data[60..][0] == data[60] && data[60..][3] == data[63];
      }
    }
  }

  lemma LastSum()
    ensures Add(H0, Regs(0x506e3058, 0xd39a2165, 0x04d24d6c, 0xb85e2ce9, 0x5ef50f24, 0xfb121210, 0x948d25b6, 0x961f4894))
            == Regs(0xba7816bf, 0x8f01cfea, 0x414140de, 0x5dae2223, 0xb00361a3, 0x96177a9c, 0xb410ff61, 0xf20015ad)
  {}

  lemma LastBytes()
    ensures Digest(Regs(0xba7816bf, 0x8f01cfea, 0x414140de, 0x5dae2223, 0xb00361a3, 0x96177a9c, 0xb410ff61, 0xf20015ad))
    == [0xba, 0x78, 0x16, 0xbf, 0x8f, 0x01, 0xcf, 0xea, 0x41, 0x41, 0x40, 0xde, 0x5d, 0xae, 0x22, 0x23,
       0xb0, 0x03, 0x61, 0xa3, 0x96, 0x17, 0x7a, 0x9c, 0xb4, 0x10, 0xff, 0x61, 0xf2, 0x00, 0x15, 0xad]
  {}

  /** SHA-256 of "abc". */
  lemma AbcDigest()
    ensures Sha256([0x61, 0x62, 0x63])
    == [0xba, 0x78, 0x16, 0xbf, 0x8f, 0x01, 0xcf, 0xea, 0x41, 0x41, 0x40, 0xde, 0x5d, 0xae, 0x22, 0x23,
       0xb0, 0x03, 0x61, 0xa3, 0x96, 0x17, 0x7a, 0x9c, 0xb4, 0x10, 0xff, 0x61, 0xf2, 0x00, 0x15, 0xad]
  {
    hide Pad, BlockWords, Rounds, Add, Digest;
    PaddedBlock();
    var data := Pad([0x61, 0x62, 0x63]);
    OneBlock(data);
    var r := After64(BlockWords(data));
    LastSum();
    LastBytes();
  }

  lemma OneBlock(data: seq<bv8>)
    requires |data| == 64
    ensures HashBlocks(data) == Compress(H0, BlockWords(data))
  {
    hide Compress, BlockWords;
    assert data[..0] == [] && data[0..] == data;
    assert HashBlocks([]) == H0;
  }
}
