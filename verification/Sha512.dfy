/** CSHA512: the streaming hash object and its block transformation, against the standard. */
module Sha512 {
  import opened Fips180
  import opened WordBytes

  // ---------------------------------------------------------------- the round functions as written

  function CodeCh(x: Word, y: Word, z: Word): Word { Word(z.v ^ (x.v & (y.v ^ z.v))) }
  function CodeMaj(x: Word, y: Word, z: Word): Word { Word((x.v & y.v) | (z.v & (x.v | y.v))) }
  function CodeBigSigma0(x: Word): Word {
    Word(((x.v >> 28) | (x.v << 36)) ^ ((x.v >> 34) | (x.v << 30)) ^ ((x.v >> 39) | (x.v << 25)))
  }

  function CodeBigSigma1(x: Word): Word {
    Word(((x.v >> 14) | (x.v << 50)) ^ ((x.v >> 18) | (x.v << 46)) ^ ((x.v >> 41) | (x.v << 23)))
  }

  function CodeSigma0(x: Word): Word { Word(((x.v >> 1) | (x.v << 63)) ^ ((x.v >> 8) | (x.v << 56)) ^ (x.v >> 7)) }
  function CodeSigma1(x: Word): Word { Word(((x.v >> 19) | (x.v << 45)) ^ ((x.v >> 61) | (x.v << 3)) ^ (x.v >> 6)) }

  lemma ChoiceIsStandard(x: Word, y: Word, z: Word)
    ensures CodeCh(x, y, z) == Ch(x, y, z)
  {
  }

  lemma MajorityIsStandard(x: Word, y: Word, z: Word)
    ensures CodeMaj(x, y, z) == Maj(x, y, z)
  {
  }

  lemma SigmaIsStandard(x: Word)
    ensures CodeBigSigma0(x) == BigSigma0(x) && CodeBigSigma1(x) == BigSigma1(x)
    ensures CodeSigma0(x) == SmallSigma0(x) && CodeSigma1(x) == SmallSigma1(x)
  {
  }

  /** One round. The two variables it changes become, under the renaming of the next round, the
      first and the fifth of the standard's eight. */
  method Round(a: Word, b: Word, c: Word, d: Word, e: Word, f: Word, g: Word, h: Word, k: Word, w: Word)
    returns (d': Word, h': Word)
    ensures Regs(h', a, b, c, d', e, f, g) == Step(Regs(a, b, c, d, e, f, g, h), k, w)
  {
    hide CodeCh;
    hide CodeMaj;
    hide CodeBigSigma0;
    hide CodeBigSigma1;
    hide Ch;
    hide Maj;
    hide BigSigma0;
    hide BigSigma1;
    hide Add;
    ChoiceIsStandard(e, f, g);
    MajorityIsStandard(a, b, c);
    SigmaIsStandard(e);
    SigmaIsStandard(a);
    var t1 := Add(Add(Add(Add(h, CodeBigSigma1(e)), CodeCh(e, f, g)), k), w);
    var t2 := Add(CodeBigSigma0(a), CodeMaj(a, b, c));
    d' := Add(d, t1);
    h' := Add(t1, t2);
  }

  /** What a schedule word becomes when its place is used again sixteen rounds later. */
  function Expand(w: Word, w14: Word, w9: Word, w1: Word): Word {
    Add(w, Add(Add(CodeSigma1(w14), w9), CodeSigma0(w1)))
  }

  lemma AddCommutes(x: Word, y: Word)
    ensures Add(x, y) == Add(y, x)
  {
  }

  /** Reusing sixteen places is enough for the schedule of eighty words. */
  lemma ScheduleStep(block: seq<Word>, t: nat)
    requires |block| == 16 && t >= 16
    ensures Schedule(block, t) ==
            Expand(Schedule(block, t - 16), Schedule(block, t - 2), Schedule(block, t - 7), Schedule(block, t - 15))
  {
    hide CodeSigma0;
    hide CodeSigma1;
    hide SmallSigma0;
    hide SmallSigma1;
    hide Add;
    SigmaIsStandard(Schedule(block, t - 2));
    SigmaIsStandard(Schedule(block, t - 15));
    AddCommutes(Schedule(block, t - 16),
                Add(Add(SmallSigma1(Schedule(block, t - 2)), Schedule(block, t - 7)),
                    SmallSigma0(Schedule(block, t - 15))));
  }

  lemma RoundsStep(block: seq<Word>, r: Regs, n: nat)
    requires |block| == 16
    ensures Rounds(block, r, n + 1) == Step(Rounds(block, r, n), RoundConstant(n), Schedule(block, n))
  {
  }

  lemma ScheduleStart(chunk: seq<Byte>, j: nat)
    requires |chunk| == 128 && j < 16
    ensures Schedule(BlockWords(chunk), j) == WordAt(chunk, j)
  {
  }

  /** Half of the schedule words are those for the rounds from `base` on. */
  ghost predicate HoldsEight(block: seq<Word>, base: nat, w0: Word, w1: Word, w2: Word, w3: Word,
                             w4: Word, w5: Word, w6: Word, w7: Word)
    requires |block| == 16
  {
    && w0 == Schedule(block, base + 0) && w1 == Schedule(block, base + 1)
    && w2 == Schedule(block, base + 2) && w3 == Schedule(block, base + 3)
    && w4 == Schedule(block, base + 4) && w5 == Schedule(block, base + 5)
    && w6 == Schedule(block, base + 6) && w7 == Schedule(block, base + 7)
  }

  lemma NoRounds(block: seq<Word>, r: Regs)
    requires |block| == 16
    ensures Rounds(block, r, 0) == r
  {
  }

  /** Rounds 0 to 7, on the first half of the block. */
  method FirstHalf(chunk: seq<Byte>, ghost r: Regs,
                   a0: Word, b0: Word, c0: Word, d0: Word, e0: Word, f0: Word, g0: Word, h0: Word)
    returns (a: Word, b: Word, c: Word, d: Word, e: Word, f: Word, g: Word, h: Word,
             w0: Word, w1: Word, w2: Word, w3: Word, w4: Word, w5: Word, w6: Word, w7: Word)
    requires |chunk| == 128 && Regs(a0, b0, c0, d0, e0, f0, g0, h0) == Rounds(BlockWords(chunk), r, 0)
    ensures Regs(a, b, c, d, e, f, g, h) == Rounds(BlockWords(chunk), r, 8)
    ensures HoldsEight(BlockWords(chunk), 0, w0, w1, w2, w3, w4, w5, w6, w7)
  {
    hide Schedule;
    hide Rounds;
    hide Step;
    hide WordAt;
    hide BlockWords;
    hide RoundConstant;
    ghost var block := BlockWords(chunk);
    a, b, c, d, e, f, g, h := a0, b0, c0, d0, e0, f0, g0, h0;
    w0 := WordAt(chunk, 0);
    ScheduleStart(chunk, 0);
    RoundsStep(block, r, 0);
    d, h := Round(a, b, c, d, e, f, g, h, RoundConstant(0), w0);
    w1 := WordAt(chunk, 1);
    ScheduleStart(chunk, 1);
    RoundsStep(block, r, 1);
    c, g := Round(h, a, b, c, d, e, f, g, RoundConstant(1), w1);
    w2 := WordAt(chunk, 2);
    ScheduleStart(chunk, 2);
    RoundsStep(block, r, 2);
    b, f := Round(g, h, a, b, c, d, e, f, RoundConstant(2), w2);
    w3 := WordAt(chunk, 3);
    ScheduleStart(chunk, 3);
    RoundsStep(block, r, 3);
    a, e := Round(f, g, h, a, b, c, d, e, RoundConstant(3), w3);
    w4 := WordAt(chunk, 4);
    ScheduleStart(chunk, 4);
    RoundsStep(block, r, 4);
    h, d := Round(e, f, g, h, a, b, c, d, RoundConstant(4), w4);
    w5 := WordAt(chunk, 5);
    ScheduleStart(chunk, 5);
    RoundsStep(block, r, 5);
    g, c := Round(d, e, f, g, h, a, b, c, RoundConstant(5), w5);
    w6 := WordAt(chunk, 6);
    ScheduleStart(chunk, 6);
    RoundsStep(block, r, 6);
    f, b := Round(c, d, e, f, g, h, a, b, RoundConstant(6), w6);
    w7 := WordAt(chunk, 7);
    ScheduleStart(chunk, 7);
    RoundsStep(block, r, 7);
    e, a := Round(b, c, d, e, f, g, h, a, RoundConstant(7), w7);
  }

  /** Rounds 8 to 15, on the second half. */
  method SecondHalf(chunk: seq<Byte>, ghost r: Regs,
                    a0: Word, b0: Word, c0: Word, d0: Word, e0: Word, f0: Word, g0: Word, h0: Word)
    returns (a: Word, b: Word, c: Word, d: Word, e: Word, f: Word, g: Word, h: Word,
             w8: Word, w9: Word, w10: Word, w11: Word, w12: Word, w13: Word, w14: Word, w15: Word)
    requires |chunk| == 128 && Regs(a0, b0, c0, d0, e0, f0, g0, h0) == Rounds(BlockWords(chunk), r, 8)
    ensures Regs(a, b, c, d, e, f, g, h) == Rounds(BlockWords(chunk), r, 16)
    ensures HoldsEight(BlockWords(chunk), 8, w8, w9, w10, w11, w12, w13, w14, w15)
  {
    hide Schedule;
    hide Rounds;
    hide Step;
    hide WordAt;
    hide BlockWords;
    hide RoundConstant;
    ghost var block := BlockWords(chunk);
    a, b, c, d, e, f, g, h := a0, b0, c0, d0, e0, f0, g0, h0;
    w8 := WordAt(chunk, 8);
    ScheduleStart(chunk, 8);
    RoundsStep(block, r, 8);
    d, h := Round(a, b, c, d, e, f, g, h, RoundConstant(8), w8);
    w9 := WordAt(chunk, 9);
    ScheduleStart(chunk, 9);
    RoundsStep(block, r, 9);
    c, g := Round(h, a, b, c, d, e, f, g, RoundConstant(9), w9);
    w10 := WordAt(chunk, 10);
    ScheduleStart(chunk, 10);
    RoundsStep(block, r, 10);
    b, f := Round(g, h, a, b, c, d, e, f, RoundConstant(10), w10);
    w11 := WordAt(chunk, 11);
    ScheduleStart(chunk, 11);
    RoundsStep(block, r, 11);
    a, e := Round(f, g, h, a, b, c, d, e, RoundConstant(11), w11);
    w12 := WordAt(chunk, 12);
    ScheduleStart(chunk, 12);
    RoundsStep(block, r, 12);
    h, d := Round(e, f, g, h, a, b, c, d, RoundConstant(12), w12);
    w13 := WordAt(chunk, 13);
    ScheduleStart(chunk, 13);
    RoundsStep(block, r, 13);
    g, c := Round(d, e, f, g, h, a, b, c, RoundConstant(13), w13);
    w14 := WordAt(chunk, 14);
    ScheduleStart(chunk, 14);
    RoundsStep(block, r, 14);
    f, b := Round(c, d, e, f, g, h, a, b, RoundConstant(14), w14);
    w15 := WordAt(chunk, 15);
    ScheduleStart(chunk, 15);
    RoundsStep(block, r, 15);
    e, a := Round(b, c, d, e, f, g, h, a, RoundConstant(15), w15);
  }

  /** Eight rounds from `base` on, each first renewing one of the lower eight words in its place. */
  method RenewLow(ghost block: seq<Word>, ghost r: Regs, base: nat,
                  a0: Word, b0: Word, c0: Word, d0: Word, e0: Word, f0: Word, g0: Word, h0: Word,
                  v0: Word, v1: Word, v2: Word, v3: Word, v4: Word, v5: Word, v6: Word, v7: Word,
                  v8: Word, v9: Word, v10: Word, v11: Word, v12: Word, v13: Word, v14: Word, v15: Word)
    returns (a: Word, b: Word, c: Word, d: Word, e: Word, f: Word, g: Word, h: Word,
             w0: Word, w1: Word, w2: Word, w3: Word, w4: Word, w5: Word, w6: Word, w7: Word)
    requires |block| == 16 && base >= 16
    requires Regs(a0, b0, c0, d0, e0, f0, g0, h0) == Rounds(block, r, base + 0)
    requires HoldsEight(block, base - 16, v0, v1, v2, v3, v4, v5, v6, v7)
    requires HoldsEight(block, base - 8, v8, v9, v10, v11, v12, v13, v14, v15)
    ensures Regs(a, b, c, d, e, f, g, h) == Rounds(block, r, base + 8)
    ensures HoldsEight(block, base, w0, w1, w2, w3, w4, w5, w6, w7)
  {
    hide Schedule;
    hide Rounds;
    hide Step;
    hide Expand;
    hide RoundConstant;
    a, b, c, d, e, f, g, h := a0, b0, c0, d0, e0, f0, g0, h0;
    w0, w1, w2, w3, w4, w5, w6, w7 := v0, v1, v2, v3, v4, v5, v6, v7;
    ScheduleStep(block, base + 0);
    w0 := Expand(w0, v14, v9, w1);
    RoundsStep(block, r, base + 0);
    d, h := Round(a, b, c, d, e, f, g, h, RoundConstant(base + 0), w0);
    ScheduleStep(block, base + 1);
    w1 := Expand(w1, v15, v10, w2);
    RoundsStep(block, r, base + 1);
    c, g := Round(h, a, b, c, d, e, f, g, RoundConstant(base + 1), w1);
    ScheduleStep(block, base + 2);
    w2 := Expand(w2, w0, v11, w3);
    RoundsStep(block, r, base + 2);
    b, f := Round(g, h, a, b, c, d, e, f, RoundConstant(base + 2), w2);
    ScheduleStep(block, base + 3);
    w3 := Expand(w3, w1, v12, w4);
    RoundsStep(block, r, base + 3);
    a, e := Round(f, g, h, a, b, c, d, e, RoundConstant(base + 3), w3);
    ScheduleStep(block, base + 4);
    w4 := Expand(w4, w2, v13, w5);
    RoundsStep(block, r, base + 4);
    h, d := Round(e, f, g, h, a, b, c, d, RoundConstant(base + 4), w4);
    ScheduleStep(block, base + 5);
    w5 := Expand(w5, w3, v14, w6);
    RoundsStep(block, r, base + 5);
    g, c := Round(d, e, f, g, h, a, b, c, RoundConstant(base + 5), w5);
    ScheduleStep(block, base + 6);
    w6 := Expand(w6, w4, v15, w7);
    RoundsStep(block, r, base + 6);
    f, b := Round(c, d, e, f, g, h, a, b, RoundConstant(base + 6), w6);
    ScheduleStep(block, base + 7);
    w7 := Expand(w7, w5, w0, v8);
    RoundsStep(block, r, base + 7);
    e, a := Round(b, c, d, e, f, g, h, a, RoundConstant(base + 7), w7);
  }

  /** The next eight, with the upper eight words. */
  method RenewHigh(ghost block: seq<Word>, ghost r: Regs, base: nat,
                   a0: Word, b0: Word, c0: Word, d0: Word, e0: Word, f0: Word, g0: Word, h0: Word,
                   v0: Word, v1: Word, v2: Word, v3: Word, v4: Word, v5: Word, v6: Word, v7: Word,
                   v8: Word, v9: Word, v10: Word, v11: Word, v12: Word, v13: Word, v14: Word, v15: Word)
    returns (a: Word, b: Word, c: Word, d: Word, e: Word, f: Word, g: Word, h: Word,
             w8: Word, w9: Word, w10: Word, w11: Word, w12: Word, w13: Word, w14: Word, w15: Word)
    requires |block| == 16 && base >= 16
    requires Regs(a0, b0, c0, d0, e0, f0, g0, h0) == Rounds(block, r, base + 8)
    requires HoldsEight(block, base, v0, v1, v2, v3, v4, v5, v6, v7)
    requires HoldsEight(block, base - 8, v8, v9, v10, v11, v12, v13, v14, v15)
    ensures Regs(a, b, c, d, e, f, g, h) == Rounds(block, r, base + 16)
    ensures HoldsEight(block, base + 8, w8, w9, w10, w11, w12, w13, w14, w15)
  {
    hide Schedule;
    hide Rounds;
    hide Step;
    hide Expand;
    hide RoundConstant;
    a, b, c, d, e, f, g, h := a0, b0, c0, d0, e0, f0, g0, h0;
    w8, w9, w10, w11, w12, w13, w14, w15 := v8, v9, v10, v11, v12, v13, v14, v15;
    ScheduleStep(block, base + 8);
    w8 := Expand(w8, v6, v1, w9);
    RoundsStep(block, r, base + 8);
    d, h := Round(a, b, c, d, e, f, g, h, RoundConstant(base + 8), w8);
    ScheduleStep(block, base + 9);
    w9 := Expand(w9, v7, v2, w10);
    RoundsStep(block, r, base + 9);
    c, g := Round(h, a, b, c, d, e, f, g, RoundConstant(base + 9), w9);
    ScheduleStep(block, base + 10);
    w10 := Expand(w10, w8, v3, w11);
    RoundsStep(block, r, base + 10);
    b, f := Round(g, h, a, b, c, d, e, f, RoundConstant(base + 10), w10);
    ScheduleStep(block, base + 11);
    w11 := Expand(w11, w9, v4, w12);
    RoundsStep(block, r, base + 11);
    a, e := Round(f, g, h, a, b, c, d, e, RoundConstant(base + 11), w11);
    ScheduleStep(block, base + 12);
    w12 := Expand(w12, w10, v5, w13);
    RoundsStep(block, r, base + 12);
    h, d := Round(e, f, g, h, a, b, c, d, RoundConstant(base + 12), w12);
    ScheduleStep(block, base + 13);
    w13 := Expand(w13, w11, v6, w14);
    RoundsStep(block, r, base + 13);
    g, c := Round(d, e, f, g, h, a, b, c, RoundConstant(base + 13), w13);
    ScheduleStep(block, base + 14);
    w14 := Expand(w14, w12, v7, w15);
    RoundsStep(block, r, base + 14);
    f, b := Round(c, d, e, f, g, h, a, b, RoundConstant(base + 14), w14);
    ScheduleStep(block, base + 15);
    w15 := Expand(w15, w13, w8, v0);
    RoundsStep(block, r, base + 15);
    e, a := Round(b, c, d, e, f, g, h, a, RoundConstant(base + 15), w15);
  }

  /** Sixteen more rounds from `base` on, each first renewing one schedule word in its place. */
  method MoreRounds(ghost block: seq<Word>, ghost r: Regs, base: nat,
                    a0: Word, b0: Word, c0: Word, d0: Word, e0: Word, f0: Word, g0: Word, h0: Word,
                    v0: Word, v1: Word, v2: Word, v3: Word, v4: Word, v5: Word, v6: Word, v7: Word,
                    v8: Word, v9: Word, v10: Word, v11: Word, v12: Word, v13: Word, v14: Word, v15: Word)
    returns (a: Word, b: Word, c: Word, d: Word, e: Word, f: Word, g: Word, h: Word,
             w0: Word, w1: Word, w2: Word, w3: Word, w4: Word, w5: Word, w6: Word, w7: Word,
             w8: Word, w9: Word, w10: Word, w11: Word, w12: Word, w13: Word, w14: Word, w15: Word)
    requires |block| == 16 && base >= 16
    requires Regs(a0, b0, c0, d0, e0, f0, g0, h0) == Rounds(block, r, base)
    requires HoldsEight(block, base - 16, v0, v1, v2, v3, v4, v5, v6, v7)
    requires HoldsEight(block, base - 8, v8, v9, v10, v11, v12, v13, v14, v15)
    ensures Regs(a, b, c, d, e, f, g, h) == Rounds(block, r, base + 16)
    ensures HoldsEight(block, base, w0, w1, w2, w3, w4, w5, w6, w7)
    ensures HoldsEight(block, base + 8, w8, w9, w10, w11, w12, w13, w14, w15)
  {
    hide Schedule;
    hide Rounds;
    a, b, c, d, e, f, g, h, w0, w1, w2, w3, w4, w5, w6, w7 :=
      RenewLow(block, r, base, a0, b0, c0, d0, e0, f0, g0, h0,
               v0, v1, v2, v3, v4, v5, v6, v7, v8, v9, v10, v11, v12, v13, v14, v15);
    a, b, c, d, e, f, g, h, w8, w9, w10, w11, w12, w13, w14, w15 :=
      RenewHigh(block, r, base, a, b, c, d, e, f, g, h,
                w0, w1, w2, w3, w4, w5, w6, w7, v8, v9, v10, v11, v12, v13, v14, v15);
  }

  /** The eighty rounds on one block. */
  method EightyRounds(chunk: seq<Byte>, h0: seq<Word>) returns (r: Regs)
    requires |chunk| == 128 && |h0| == 8
    ensures r == Rounds(BlockWords(chunk), RegsOf(h0), 80)
  {
    hide Rounds;
    hide Schedule;
    hide HoldsEight;
    ghost var block, r0 := BlockWords(chunk), RegsOf(h0);
    NoRounds(block, r0);
    var a, b, c, d, e, f, g, h, w0, w1, w2, w3, w4, w5, w6, w7 :=
      FirstHalf(chunk, r0, h0[0], h0[1], h0[2], h0[3], h0[4], h0[5], h0[6], h0[7]);
    var w8, w9, w10, w11, w12, w13, w14, w15;
    a, b, c, d, e, f, g, h, w8, w9, w10, w11, w12, w13, w14, w15 :=
      SecondHalf(chunk, r0, a, b, c, d, e, f, g, h);
    a, b, c, d, e, f, g, h, w0, w1, w2, w3, w4, w5, w6, w7, w8, w9, w10, w11, w12, w13, w14, w15 :=
      MoreRounds(block, r0, 16, a, b, c, d, e, f, g, h,
                 w0, w1, w2, w3, w4, w5, w6, w7, w8, w9, w10, w11, w12, w13, w14, w15);
    a, b, c, d, e, f, g, h, w0, w1, w2, w3, w4, w5, w6, w7, w8, w9, w10, w11, w12, w13, w14, w15 :=
      MoreRounds(block, r0, 32, a, b, c, d, e, f, g, h,
                 w0, w1, w2, w3, w4, w5, w6, w7, w8, w9, w10, w11, w12, w13, w14, w15);
    a, b, c, d, e, f, g, h, w0, w1, w2, w3, w4, w5, w6, w7, w8, w9, w10, w11, w12, w13, w14, w15 :=
      MoreRounds(block, r0, 48, a, b, c, d, e, f, g, h,
                 w0, w1, w2, w3, w4, w5, w6, w7, w8, w9, w10, w11, w12, w13, w14, w15);
    a, b, c, d, e, f, g, h, w0, w1, w2, w3, w4, w5, w6, w7, w8, w9, w10, w11, w12, w13, w14, w15 :=
      MoreRounds(block, r0, 64, a, b, c, d, e, f, g, h,
                 w0, w1, w2, w3, w4, w5, w6, w7, w8, w9, w10, w11, w12, w13, w14, w15);
    r := Regs(a, b, c, d, e, f, g, h);
  }

  /** Transform: one block into the state, in place. */
  method Transform(s: array<Word>, chunk: seq<Byte>)
    requires s.Length == 8 && |chunk| == 128
    modifies s
    ensures s[..] == Compress(old(s[..]), chunk)
    ensures forall j :: 0 <= j < 16 ==> NumberOf(BlockWords(chunk)[j]) == BigEndian(chunk[8 * j..8 * j + 8])
  {
    hide NumberOf;
    hide BigEndian;
    hide Add;
    hide Rounds;
    hide BlockWords;
    BlockIsBigEndian(chunk);
    var r := EightyRounds(chunk, s[..]);
    ghost var was := s[..];
    s[0], s[1], s[2], s[3] := Add(s[0], r.a), Add(s[1], r.b), Add(s[2], r.c), Add(s[3], r.d);
    s[4], s[5], s[6], s[7] := Add(s[4], r.e), Add(s[5], r.f), Add(s[6], r.g), Add(s[7], r.h);
    assert s[..] == AddRegs(was, r);
  }

  // ---------------------------------------------------------------- the hash object

  /** The whole blocks at the start of the data, and what is left. */
  function Whole(data: seq<Byte>): (r: seq<Byte>)
    ensures |r| % 128 == 0
  {
    data[..|data| - |data| % 128]
  }

  function Rest(data: seq<Byte>): (r: seq<Byte>)
    ensures |r| < 128 && Whole(data) + r == data
  {
    data[|data| - |data| % 128..]
  }

  /** The byte count of the object is 64 bits wide. */
  function Wrap64(n: nat): (r: nat)
    ensures r < TWO64
  {
    n % TWO64
  }

  lemma WholeOfWhole(w: seq<Byte>, r: seq<Byte>)
    requires |w| % 128 == 0 && |r| < 128
    ensures Whole(w + r) == w && Rest(w + r) == r
  {
  }

  lemma HashNext(h: seq<Word>, w: seq<Byte>, chunk: seq<Byte>)
    requires |h| == 8 && |w| % 128 == 0 && |chunk| == 128
    ensures HashBlocks(h, w + chunk) == Compress(HashBlocks(h, w), chunk)
  {
    assert (w + chunk)[..|w + chunk| - 128] == w;
    assert (w + chunk)[|w + chunk| - 128..] == chunk;
  }

  class CSHA512 {
    const s: array<Word>
    const buf: array<Byte>
    var bytes: nat
    /** Everything written so far. */
    ghost var msg: seq<Byte>

    ghost predicate Valid()
      reads this, s, buf
    {
      && s.Length == 8 && buf.Length == 128
      && bytes == Wrap64(|msg|)
      && s[..] == HashBlocks(InitialHash(), Whole(msg))
      && buf[..|Rest(msg)|] == Rest(msg)
    }

    constructor ()
      ensures Valid() && msg == [] && fresh(s) && fresh(buf)
    {
      hide InitialHash;
      hide HashBlocks;
      hide Whole;
      hide Rest;
      hide Wrap64;
      s := new Word[8](_ => Word(0));
      buf := new Byte[128];
      bytes := 0;
      msg := [];
      new;
      NothingWritten();
      Initialize(s);
    }

    /** Fills the buffer up and processes it. */
    method FillAndTransform(piece: seq<Byte>, bufsize: nat)
      requires Valid() && bufsize == |Rest(msg)| && bufsize + |piece| == 128
      modifies this, s, buf
      ensures Valid() && msg == old(msg) + piece && Rest(msg) == []
    {
      hide HashBlocks;
      hide Compress;
      hide InitialHash;
      hide Whole;
      hide Rest;
      hide Wrap64;
      BlockCompleted(InitialHash(), msg, piece);
      CountWraps(|msg|, |piece|);
      forall i | 0 <= i < |piece| {
        buf[bufsize + i] := piece[i];
      }
      assert buf[..] == Rest(msg) + piece && s[..] == old(s[..]);
      bytes := Wrap64(bytes + (128 - bufsize));
      Transform(s, buf[..]);
      msg := msg + piece;
    }

    /** Processes one block directly from the source. */
    method TransformChunk(chunk: seq<Byte>)
      requires Valid() && Rest(msg) == [] && |chunk| == 128
      modifies this, s
      ensures Valid() && msg == old(msg) + chunk && Rest(msg) == []
    {
      hide HashBlocks;
      hide Compress;
      hide InitialHash;
      hide Whole;
      hide Rest;
      hide Wrap64;
      BlockCompleted(InitialHash(), msg, chunk);
      CountWraps(|msg|, 128);
      assert Rest(msg) + chunk == chunk;
      Transform(s, chunk);
      bytes := Wrap64(bytes + 128);
      msg := msg + chunk;
    }

    /** Buffers what does not complete a block. */
    method Keep(piece: seq<Byte>, bufsize: nat)
      requires Valid() && bufsize == |Rest(msg)| && bufsize + |piece| < 128
      modifies this, buf
      ensures Valid() && msg == old(msg) + piece
    {
      hide HashBlocks;
      hide InitialHash;
      hide Whole;
      hide Rest;
      hide Wrap64;
      PieceKept(msg, piece);
      CountWraps(|msg|, |piece|);
      forall i | 0 <= i < |piece| {
        buf[bufsize + i] := piece[i];
      }
      assert buf[..bufsize + |piece|] == Rest(msg) + piece && s[..] == old(s[..]);
      bytes := Wrap64(bytes + |piece|);
      msg := msg + piece;
    }

    method Reset()
      requires Valid()
      modifies this, s
      ensures Valid() && msg == []
    {
      hide InitialHash;
      hide HashBlocks;
      hide Whole;
      hide Rest;
      hide Wrap64;
      NothingWritten();
      bytes := 0;
      msg := [];
      Initialize(s);
    }

    /** Appends data to the message. How a message is cut into pieces leaves no trace in the state. */
    method Write(data: seq<Byte>)
      requires Valid()
      modifies this, s, buf
      ensures Valid() && msg == old(msg) + data
    {
      hide HashBlocks;
      hide InitialHash;
      hide Whole;
      hide Rest;
      hide Wrap64;
      WrapKeepsBuffer(msg);
      var pos := 0;
      var bufsize := bytes % 128;
      if bufsize != 0 && bufsize + |data| >= 128 {
        pos := 128 - bufsize;
        FillAndTransform(data[..pos], bufsize);
        bufsize := 0;
      }
      while |data| - pos >= 128
        invariant 0 <= pos <= |data| && Valid() && msg == old(msg) + data[..pos]
        invariant bufsize == |Rest(msg)| && (bufsize == 0 || bufsize + |data| - pos < 128)
      {
        TransformChunk(data[pos..pos + 128]);
        assert data[..pos + 128] == data[..pos] + data[pos..pos + 128];
        pos := pos + 128;
      }
      if pos < |data| {
        Keep(data[pos..], bufsize);
      }
      assert data == data[..pos] + data[pos..];
    }

    /** Pads the message, processes what is left of it and returns the digest. */
    method Finalize() returns (hash: seq<Byte>)
      requires Valid()
      modifies this, s, buf
      ensures Valid() && msg == CodePadded(old(msg)) && |msg| % 128 == 0
      ensures hash == DigestOf(HashBlocks(InitialHash(), msg))
      ensures |old(msg)| < TWO61 ==> hash == Sha512(old(msg))
      ensures s[..] == HashBlocks(InitialHash(), msg)
      ensures |hash| == 64 && forall i :: 0 <= i < 8 ==> Spells(hash[8 * i..8 * i + 8], NumberOf(s[i]))
    {
      hide HashBlocks;
      hide InitialHash;
      hide DigestOf;
      hide Whole;
      hide Rest;
      hide CodePadded;
      hide Sha512;
      hide WriteBE64;
      hide NumberOf;
      hide Spells;
      ghost var m := msg;
      Pad();
      hash := WriteBE64(s[0]);
      hash := hash + WriteBE64(s[1]);
      hash := hash + WriteBE64(s[2]);
      hash := hash + WriteBE64(s[3]);
      hash := hash + WriteBE64(s[4]);
      hash := hash + WriteBE64(s[5]);
      hash := hash + WriteBE64(s[6]);
      hash := hash + WriteBE64(s[7]);
      DigestIs(s[..]);
      DigestBytes(s[..]);
      if |m| < TWO61 {
        DigestAgrees(m);
      }
    }

    /** The two writes that complete the message. */
    method Pad()
      requires Valid()
      modifies this, s, buf
      ensures Valid() && msg == CodePadded(old(msg)) && |msg| % 128 == 0 && Whole(msg) == msg
    {
      hide HashBlocks;
      hide InitialHash;
      hide Whole;
      hide Rest;
      hide Wrap64;
      hide PadZeros;
      hide CodePadded;
      hide LengthBytes;
      ghost var m := msg;
      WrapKeepsBuffer(m);
      CountInBits(|m|);
      CodePaddingShape(m);
      var pad := [0x80] + Zeros(127);
      var sizedesc := Zeros(8) + LengthBytes(Wrap64(8 * bytes));
      Write(pad[..1 + PadZeros(bytes % 128)]);
      Write(sizedesc);
    }
  }

  lemma NothingWritten()
    ensures Wrap64(0) == 0 && Whole([]) == [] == Rest([])
    ensures HashBlocks(InitialHash(), []) == InitialHash()
  {
  }

  /** A completed block moves the boundary between what is hashed and what is left. */
  lemma BlockCompleted(h: seq<Word>, msg: seq<Byte>, piece: seq<Byte>)
    requires |h| == 8 && |Rest(msg)| + |piece| == 128
    ensures Whole(msg + piece) == msg + piece && Rest(msg + piece) == []
    ensures |Rest(msg) + piece| == 128
    ensures HashBlocks(h, Whole(msg + piece)) == Compress(HashBlocks(h, Whole(msg)), Rest(msg) + piece)
  {
    var w, chunk := Whole(msg), Rest(msg) + piece;
    assert msg + piece == w + chunk;
    WholeOfWhole(w + chunk, []);
    assert w + chunk + [] == w + chunk;
    HashNext(h, w, chunk);
  }

  lemma PieceKept(msg: seq<Byte>, piece: seq<Byte>)
    requires |Rest(msg)| + |piece| < 128
    ensures Whole(msg + piece) == Whole(msg) && Rest(msg + piece) == Rest(msg) + piece
  {
    assert msg + piece == Whole(msg) + (Rest(msg) + piece);
    WholeOfWhole(Whole(msg), Rest(msg) + piece);
  }

  lemma CountWraps(m: nat, n: nat)
    ensures Wrap64(Wrap64(m) + n) == Wrap64(m + n)
  {
    var q, r := (m % TWO64 + n) / TWO64, (m % TWO64 + n) % TWO64;
    assert m + n == TWO64 * (m / TWO64 + q) + r;
  }

  /** The number of buffered bytes shows through the byte count, although that wraps around. */
  lemma WrapKeepsBuffer(msg: seq<Byte>)
    ensures Wrap64(|msg|) % 128 == |Rest(msg)|
  {
    var n := |msg|;
    var q, r := n / TWO64, n % TWO64;
    assert n == 128 * (0x200_0000_0000_0000 * q + r / 128) + r % 128;
  }

  method Initialize(s: array<Word>)
    requires s.Length == 8
    modifies s
    ensures s[..] == InitialHash()
  {
    hide InitialWord;
    s[0], s[1], s[2], s[3] := InitialWord(0), InitialWord(1), InitialWord(2), InitialWord(3);
    s[4], s[5], s[6], s[7] := InitialWord(4), InitialWord(5), InitialWord(6), InitialWord(7);
  }

  // ---------------------------------------------------------------- padding

  const TWO61: nat := 0x2000_0000_0000_0000

  /** The number of zero bytes after the byte 0x80, when r bytes are in the buffer. */
  function PadZeros(r: nat): (k: nat)
    ensures k < 128
  {
    (239 - r) % 128
  }

  /** The message as Finalize completes it: the length is written with 64 bits. */
  function CodePadded(msg: seq<Byte>): seq<Byte> {
    msg + [0x80] + Zeros(PadZeros(|Rest(msg)|)) + (Zeros(8) + LengthBytes(Wrap64(8 * |msg|)))
  }

  lemma Wrapped(x: nat, k: nat, d: nat)
    requires x == 0x1_0000_0000_0000_0000 * k + d && d < 0x1_0000_0000_0000_0000
    ensures Wrap64(x) == d
  {
  }

  lemma CountInBits(n: nat)
    ensures Wrap64(8 * Wrap64(n)) == Wrap64(8 * n)
  {
    var q := n / 0x1_0000_0000_0000_0000;
    var r := n - 0x1_0000_0000_0000_0000 * q;
    var a := 8 * r / 0x1_0000_0000_0000_0000;
    var d := 8 * r - 0x1_0000_0000_0000_0000 * a;
    Wrapped(n, q, r);
    Wrapped(8 * r, a, d);
    Wrapped(8 * n, 8 * q + a, d);
  }

  lemma CodePaddingShape(msg: seq<Byte>)
    ensures var pad := [0x80] + Zeros(127);
            var k := PadZeros(|Rest(msg)|);
            && CodePadded(msg) == msg + pad[..1 + k] + (Zeros(8) + LengthBytes(Wrap64(8 * |msg|)))
            && |CodePadded(msg)| % 128 == 0 && Whole(CodePadded(msg)) == CodePadded(msg)
  {
    hide WriteBE64;
    hide Wrap64;
    var k := PadZeros(|Rest(msg)|);
    PadsToBlock(msg);
    hide PadZeros;
    hide Whole;
    hide Rest;
    assert ([0x80] + Zeros(127))[..1 + k] == [0x80] + Zeros(k);
    assert |CodePadded(msg)| == |msg| + 17 + k;
    assert CodePadded(msg) + [] == CodePadded(msg);
    WholeOfWhole(CodePadded(msg), []);
  }

  lemma PadsToBlock(msg: seq<Byte>)
    ensures (|msg| + 17 + PadZeros(|Rest(msg)|)) % 128 == 0
  {
    assert |msg| == |Whole(msg)| + |Rest(msg)|;
  }

  lemma ZeroWord(x: nat)
    requires x < TWO64
    ensures LengthBytes(x) == Zeros(8) <==> x == 0
  {
    if WriteBE64(Word(x as bv64)) == Zeros(8) {
      WordRoundTrip(Word(x as bv64));
      WordRoundTrip(Word(0));
      assert WriteBE64(Word(0)) == Zeros(8);
      assert x as bv64 == 0;
      assert (x as bv64) as nat == x;
    }
  }

  /** The padding is the standard's exactly for messages of less than 2^61 bytes: for longer ones the
      64-bit length field is short of the standard's 128 bits. */
  lemma PaddingAgrees(msg: seq<Byte>)
    requires 8 * |msg| < TWO64 * TWO64
    ensures CodePadded(msg) == Padded(msg) <==> |msg| < TWO61
  {
    hide CodePadded;
    hide Padded;
    hide LengthBytes;
    hide Zeros;
    hide Rest;
    hide PadZeros;
    hide Wrap64;
    CodeForm(msg);
    StandardForm(msg);
    LongForms(msg + [0x80] + Zeros(PadZeros(|Rest(msg)|)), 8 * |msg| / TWO64, LengthBytes(Wrap64(8 * |msg|)));
    HighPart(|msg|);
  }

  lemma LongForms(start: seq<Byte>, high: nat, low: seq<Byte>)
    requires high < TWO64
    ensures start + (Zeros(8) + low) == start + (LengthBytes(high) + low) <==> high == 0
  {
    hide LengthBytes;
    hide Zeros;
    ZeroWord(high);
    SuffixEqual(start, Zeros(8), LengthBytes(high), low);
  }

  lemma CodeForm(msg: seq<Byte>)
    ensures CodePadded(msg) == msg + [0x80] + Zeros(PadZeros(|Rest(msg)|))
                               + (Zeros(8) + LengthBytes(Wrap64(8 * |msg|)))
  {
  }

  lemma StandardForm(msg: seq<Byte>)
    requires 8 * |msg| < TWO64 * TWO64
    ensures Padded(msg) == msg + [0x80] + Zeros(PadZeros(|Rest(msg)|))
                           + (LengthBytes(8 * |msg| / TWO64) + LengthBytes(Wrap64(8 * |msg|)))
  {
    ZeroBytesOf(msg);
    hide LengthBytes;
    hide Zeros;
    hide ZeroBits;
    hide PadZeros;
    hide Rest;
  }

  lemma ZeroBytesOf(msg: seq<Byte>)
    ensures (ZeroBits(8 * |msg|) - 7) / 8 == PadZeros(|Rest(msg)|)
    ensures 8 * |msg| % TWO64 == Wrap64(8 * |msg|)
  {
    ZeroBytes(|msg|);
    assert |Rest(msg)| == |msg| % 128;
  }

  lemma HighPart(n: nat)
    requires 8 * n < TWO64 * TWO64
    ensures 8 * n / TWO64 < TWO64 && (8 * n / TWO64 == 0 <==> n < TWO61)
  {
  }

  lemma SuffixEqual(start: seq<Byte>, a: seq<Byte>, b: seq<Byte>, low: seq<Byte>)
    requires |a| == |b|
    ensures start + (a + low) == start + (b + low) <==> a == b
  {
    if start + (a + low) == start + (b + low) {
      forall i | 0 <= i < |a|
        ensures a[i] == b[i]
      {
        assert (start + (a + low))[|start| + i] == a[i];
        assert (start + (b + low))[|start| + i] == b[i];
      }
    }
  }

  lemma DigestAgrees(msg: seq<Byte>)
    requires |msg| < TWO61
    ensures 8 * |msg| < TWO64 * TWO64
    ensures |CodePadded(msg)| % 128 == 0
    ensures Sha512(msg) == DigestOf(HashBlocks(InitialHash(), CodePadded(msg)))
  {
    hide WriteBE64;
    hide HashBlocks;
    hide DigestOf;
    PaddingAgrees(msg);
    PaddedIsWhole(msg);
  }

  // ---------------------------------------------------------------- any way of cutting a message

  ghost function Concat(pieces: seq<seq<Byte>>): seq<Byte> {
    if pieces == [] then [] else Concat(pieces[..|pieces| - 1]) + pieces[|pieces| - 1]
  }

  lemma DigestIs(s: seq<Word>)
    requires |s| == 8
    ensures DigestOf(s) == WriteBE64(s[0]) + WriteBE64(s[1]) + WriteBE64(s[2]) + WriteBE64(s[3])
                           + WriteBE64(s[4]) + WriteBE64(s[5]) + WriteBE64(s[6]) + WriteBE64(s[7])
  {
    hide WriteBE64;
  }

  lemma DigestOfPadded(msg: seq<Byte>)
    requires |msg| < TWO61
    ensures |Padded(msg)| % 128 == 0 && CodePadded(msg) == Padded(msg)
  {
    hide Padded;
    hide CodePadded;
    PaddingAgrees(msg);
    PaddedIsWhole(msg);
  }

  /** The digest of a message written in any pieces is the standard's digest of the message: the state after the
      blocks of the padded message, byte by byte. */
  method HashPieces(pieces: seq<seq<Byte>>) returns (hash: seq<Byte>)
    ensures |Concat(pieces)| < TWO61 ==> hash == Sha512(Concat(pieces))
    ensures |hash| == 64
    ensures |Concat(pieces)| < TWO61 ==> forall i :: 0 <= i < 8 ==>
              && |Padded(Concat(pieces))| % 128 == 0
              && Spells(hash[8 * i..8 * i + 8], NumberOf(HashBlocks(InitialHash(), Padded(Concat(pieces)))[i]))
  {
    hide NumberOf;
    hide Spells;
    hide Padded;
    hide CodePadded;
    hide Sha512;
    hide HashBlocks;
    hide InitialHash;
    hide Whole;
    hide Rest;
    hide Wrap64;
    var h := new CSHA512();
    for i := 0 to |pieces|
      invariant h.Valid() && h.msg == Concat(pieces[..i]) && fresh(h) && fresh(h.s) && fresh(h.buf)
    {
      h.Write(pieces[i]);
      assert pieces[..i + 1][..i] == pieces[..i];
    }
    assert pieces[..|pieces|] == pieces;
    hash := h.Finalize();
    if |Concat(pieces)| < TWO61 {
      DigestOfPadded(Concat(pieces));
    }
  }
}
