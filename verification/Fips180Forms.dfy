/**
 SHA-256 in other terms: the message schedule as a window that slides, the rounds as two sequences that feed
 each other, and the padding by what it has to satisfy.
 */
module Fips180Forms {
  import opened BitMath
  import opened Fips180

  // ----- the schedule as a sliding window -----

  /** Drops the oldest of the sixteen words and appends the next. */
  function Slide(w: Block): Block {
    w[1..] + [Plus(Plus(Plus(w[0], SmallSigma0(w[1])), w[9]), SmallSigma1(w[14]))]
  }

  function Window(m: Block, t: nat): Block {
    if t == 0 then m else Slide(Window(m, t - 1))
  }

  lemma {:induction false} WindowIsSchedule(m: Block, t: nat)
    requires t <= 48
    ensures forall i :: 0 <= i < 16 ==> Window(m, t)[i] == Schedule(m, t + i)
  {
    hide Plus, SmallSigma0, SmallSigma1, Schedule;
    if t == 0 {
      FirstWords(m);
    } else {
      WindowIsSchedule(m, t - 1);
      var w := Window(m, t - 1);
      ScheduleNext(m, t + 15, w[0], w[1], w[9], w[14]);
    }
  }

  lemma FirstWords(m: Block)
    ensures forall i :: 0 <= i < 16 ==> Schedule(m, i) == m[i]
  {
  }

  lemma ScheduleNext(m: Block, t: nat, w16: Word, w15: Word, w7: Word, w2: Word)
    requires 16 <= t < 64
    requires w16 == Schedule(m, t - 16) && w15 == Schedule(m, t - 15) && w7 == Schedule(m, t - 7)
    requires w2 == Schedule(m, t - 2)
    ensures Schedule(m, t) == Plus(Plus(Plus(w16, SmallSigma0(w15)), w7), SmallSigma1(w2))
  {
    hide Plus, SmallSigma0, SmallSigma1;
    Reorder(w16, SmallSigma0(w15), w7, SmallSigma1(w2));
  }

  lemma PlusAssoc(a: Word, b: Word, c: Word)
    ensures Plus(Plus(a, b), c) == Plus(a, Plus(b, c))
  {
    calc {
      Plus(Plus(a, b), c);
      Plus(a + b, c);
      a + (b + c);
      Plus(a, b + c);
    }
  }

  lemma PlusComm(a: Word, b: Word)
    ensures Plus(a, b) == Plus(b, a)
  {
  }

  lemma Reorder(a: Word, b: Word, c: Word, d: Word)
    ensures Plus(Plus(Plus(a, b), c), d) == Plus(Plus(Plus(d, c), b), a)
  {
    hide Plus;
    PlusComm(Plus(Plus(a, b), c), d);
    PlusComm(Plus(a, b), c);
    PlusComm(a, b);
    PlusAssoc(d, c, Plus(b, a));
    PlusAssoc(Plus(d, c), b, a);
  }

  // ----- the rounds as two sequences -----

  /** Term t of the upper sequence; the terms -4 to -1 are the state before the first round. */
  function Upper(s: Digest, m: Block, t: int): Word
    requires -4 <= t < 64
    decreases t + 4, 1
  {
    if t < 0 then s[-1 - t]
    else Plus(Fed(s, m, t), Plus(BigSigma0(Upper(s, m, t - 1)),
                                 Maj(Upper(s, m, t - 1), Upper(s, m, t - 2), Upper(s, m, t - 3))))
  }

  /** Term t of the lower sequence. */
  function Lower(s: Digest, m: Block, t: int): Word
    requires -4 <= t < 64
    decreases t + 4, 1
  {
    if t < 0 then s[3 - t] else Plus(Upper(s, m, t - 4), Fed(s, m, t))
  }

  /** What round t feeds into both. */
  function Fed(s: Digest, m: Block, t: int): Word
    requires 0 <= t < 64
    decreases t + 4, 0
  {
    Plus(Plus(Lower(s, m, t - 4), Plus(BigSigma1(Lower(s, m, t - 1)),
                                       Ch(Lower(s, m, t - 1), Lower(s, m, t - 2), Lower(s, m, t - 3)))),
         Plus(RoundConstant(t), Schedule(m, t)))
  }

  /** The working variables are the last four terms of each. */
  lemma {:induction false} RoundsAreSequences(s: Digest, m: Block, t: nat)
    requires t <= 64
    ensures Rounds(s, m, t) ==
            Vars(Upper(s, m, t - 1), Upper(s, m, t - 2), Upper(s, m, t - 3), Upper(s, m, t - 4),
                 Lower(s, m, t - 1), Lower(s, m, t - 2), Lower(s, m, t - 3), Lower(s, m, t - 4))
  {
    hide Plus, BigSigma0, BigSigma1, Ch, Maj, RoundConstant, Schedule, Fed;
    if t > 0 {
      RoundsAreSequences(s, m, t - 1);
      FedIs(s, m, t - 1);
    }
  }

  /** The feed with its five summands in the standard's order. */
  lemma FedIs(s: Digest, m: Block, t: nat)
    requires t < 64
    ensures Fed(s, m, t) ==
            Plus(Plus(Plus(Plus(Lower(s, m, t - 4), BigSigma1(Lower(s, m, t - 1))),
                           Ch(Lower(s, m, t - 1), Lower(s, m, t - 2), Lower(s, m, t - 3))), RoundConstant(t)),
                 Schedule(m, t))
  {
    hide Plus, BigSigma1, Ch, RoundConstant, Schedule, Upper, Lower;
    Regroup(Lower(s, m, t - 4), BigSigma1(Lower(s, m, t - 1)),
            Ch(Lower(s, m, t - 1), Lower(s, m, t - 2), Lower(s, m, t - 3)), RoundConstant(t), Schedule(m, t));
  }

  lemma Regroup(a: Word, b: Word, c: Word, d: Word, e: Word)
    ensures Plus(Plus(a, Plus(b, c)), Plus(d, e)) == Plus(Plus(Plus(Plus(a, b), c), d), e)
  {
    hide Plus;
    PlusAssoc(a, b, c);
    PlusAssoc(Plus(Plus(a, b), c), d, e);
  }

  /** The next hash value adds the last four terms of each to the one before. */
  lemma CompressIsSum(s: Digest, m: Block)
    ensures Compress(s, m) ==
            [Plus(s[0], Upper(s, m, 63)), Plus(s[1], Upper(s, m, 62)), Plus(s[2], Upper(s, m, 61)),
             Plus(s[3], Upper(s, m, 60)), Plus(s[4], Lower(s, m, 63)), Plus(s[5], Lower(s, m, 62)),
             Plus(s[6], Lower(s, m, 61)), Plus(s[7], Lower(s, m, 60))]
  {
    hide Plus, Rounds, Upper, Lower;
    RoundsAreSequences(s, m, 64);
  }

  // ----- the padding -----

  /** The number whose binary digits are b, the most significant first. */
  function BinaryValue(b: Bits): nat {
    if b == [] then 0 else 2 * BinaryValue(b[..|b| - 1]) + if b[|b| - 1] then 1 else 0
  }

  /** The message, a one, zeros, and the length of the message in 64 bits: as few blocks as that takes. */
  predicate IsPadding(m: Bits, p: Bits) {
    && |p| % 512 == 0 && |m| + 65 <= |p| < |m| + 65 + 512
    && p[..|m|] == m && p[|m|]
    && (forall j :: |m| < j < |p| - 64 ==> !p[j])
    && BinaryValue(p[|p| - 64..]) == |m|
  }

  /** Exactly one padding satisfies that. */
  lemma PaddingExactly(m: Bits, p: Bits)
    requires |m| < 0x1_0000_0000_0000_0000
    ensures IsPadding(m, p) <==> p == PadBits(m)
  {
    hide IsPadding, PadBits;
    PaddingIs(m);
    if IsPadding(m, p) {
      OnePadding(m, p, PadBits(m));
    }
  }

  lemma PaddingIs(m: Bits)
    requires |m| < 0x1_0000_0000_0000_0000
    ensures IsPadding(m, PadBits(m))
  {
    hide LengthBlock, BinaryValue;
    var p := PadBits(m);
    assert p[|p| - 64..] == LengthBlock(|m|);
    LengthValue(|m|);
  }

  lemma OnePadding(m: Bits, p: Bits, q: Bits)
    requires IsPadding(m, p) && IsPadding(m, q)
    ensures p == q
  {
    hide BinaryValue;
    var front := |p| - 64;
    BinaryInjective(p[front..], q[front..]);
    assert forall j :: |m| < j < front ==> !p[j] && !q[j];
    assert forall j :: 0 <= j < |m| ==> p[j] == p[..|m|][j] && q[j] == q[..|m|][j];
    assert p[..front] == q[..front];
    assert p == p[..front] + p[front..] && q == q[..front] + q[front..];
  }

  lemma {:induction false} BinaryInjective(a: Bits, b: Bits)
    requires |a| == |b| && BinaryValue(a) == BinaryValue(b)
    ensures a == b
  {
    if a != [] {
      BinaryInjective(a[..|a| - 1], b[..|b| - 1]);
      assert a == a[..|a| - 1] + [a[|a| - 1]] && b == b[..|b| - 1] + [b[|b| - 1]];
    }
  }

  lemma LengthValue(l: nat)
    requires l < 0x1_0000_0000_0000_0000
    ensures BinaryValue(LengthBlock(l)) == l
  {
    hide Shr, Pow2;
    Pow2Values();
    LengthPrefix(l, 64);
    assert LengthBlock(l)[..64] == LengthBlock(l);
    ShrZero(l);
  }

  lemma ShrZero(l: nat)
    ensures Shr(l, 0) == l
  {
  }

  lemma {:induction false} LengthPrefix(l: nat, k: nat)
    requires k <= 64 && l < Pow2(64)
    ensures BinaryValue(LengthBlock(l)[..k]) == Shr(l, 64 - k)
  {
    hide Shr, Pow2;
    if k == 0 {
      ShrAll(l);
    } else {
      LengthPrefix(l, k - 1);
      assert LengthBlock(l)[..k][..k - 1] == LengthBlock(l)[..k - 1];
      assert LengthBlock(l)[..k][k - 1] == (Shr(l, 64 - k) % 2 == 1);
      ShrHalf(l, 64 - k);
    }
  }

  lemma ShrAll(l: nat)
    requires l < Pow2(64)
    ensures Shr(l, 64) == 0
  {
    hide Pow2;
    SmallMod(l, Pow2(64));
  }

  lemma ShrHalf(l: nat, s: nat)
    ensures Shr(l, s + 1) == Shr(l, s) / 2
  {
    hide Pow2;
    Pow2Next(s);
    DivDiv(l, Pow2(s), 2);
    assert Pow2(s) * 2 == Pow2(s + 1);
  }
}
