/** Bech32 as BIP 173 defines it: the polymod, the checksum, and what the checksum detects. */
module Bech32 {
  import opened Wrappers
  import opened Bytes

  // ----- the polymod step -----

  function Bit(top: bv32, i: bv3): bv32
    requires i < 5
  {
    (top >> i) & 1
  }

  function Pick(bit: bv32, generator: bv32): bv32 {
    if bit != 0 then generator else 0
  }

  function Xor5(a: bv32, b: bv32, c: bv32, d: bv32, e: bv32): bv32 {
    Xor(Xor(Xor(Xor(a, b), c), d), e)
  }

  function Generator(i: bv3): bv32
    requires i < 5
  {
    if i == 0 then 0x3b6a57b2
    else if i == 1 then 0x26508e6d
    else if i == 2 then 0x1ea119fa
    else if i == 3 then 0x3d4233dd
    else 0x2a1462b3
  }

  function Reduction(top: bv32): bv32 {
    Xor5(Pick(Bit(top, 0), Generator(0)), Pick(Bit(top, 1), Generator(1)), Pick(Bit(top, 2), Generator(2)),
         Pick(Bit(top, 3), Generator(3)), Pick(Bit(top, 4), Generator(4)))
  }

  function Xor(a: bv32, b: bv32): bv32 {
    a ^ b
  }

  function Low(chk: bv32): bv32 {
    (chk & 0x1ff_ffff) << 5
  }

  function Top(chk: bv32): bv32 {
    chk >> 25
  }

  /** A step without its input symbol. */
  function Shifted(chk: bv32): bv32 {
    Xor(Low(chk), Reduction(Top(chk)))
  }

  lemma ShiftDistributes(a: bv32, b: bv32, i: bv3)
    requires i < 5
    ensures ((a ^ b) >> i) & 1 == ((a >> i) & 1) ^ ((b >> i) & 1)
  {
  }

  lemma BitLinear(a: bv32, b: bv32, i: bv3)
    requires i < 5
    ensures Bit(Xor(a, b), i) == Xor(Bit(a, i), Bit(b, i))
  {
    ShiftDistributes(a, b, i);
  }

  lemma BitBound(a: bv32, i: bv3)
    requires i < 5
    ensures Bit(a, i) == 0 || Bit(a, i) == 1
  {
  }

  lemma PickLinear(x: bv32, y: bv32, g: bv32)
    requires (x == 0 || x == 1) && (y == 0 || y == 1)
    ensures Pick(Xor(x, y), g) == Xor(Pick(x, g), Pick(y, g))
  {
    hide Xor;
    XorSelf(x, y);
    XorSelf(y, x);
    XorSelf(g, g);
    if x == 0 {
      XorSelf(Pick(y, g), 0);
    } else if y == 0 {
      XorSelf(Pick(x, g), 0);
    }
  }

  lemma PickBitLinear(a: bv32, b: bv32, i: bv3, g: bv32)
    requires i < 5
    ensures Pick(Bit(Xor(a, b), i), g) == Xor(Pick(Bit(a, i), g), Pick(Bit(b, i), g))
  {
    hide Bit, Pick, Xor;
    BitLinear(a, b, i);
    BitBound(a, i);
    BitBound(b, i);
    PickLinear(Bit(a, i), Bit(b, i), g);
  }

  lemma XorAssoc(a: bv32, b: bv32, c: bv32)
    ensures Xor(Xor(a, b), c) == Xor(a, Xor(b, c))
  {
  }

  lemma XorComm(a: bv32, b: bv32)
    ensures Xor(a, b) == Xor(b, a)
  {
  }

  lemma Swap4(a: bv32, b: bv32, c: bv32, d: bv32)
    ensures Xor(Xor(a, b), Xor(c, d)) == Xor(Xor(a, c), Xor(b, d))
  {
    hide Xor;
    XorAssoc(a, b, Xor(c, d));
    XorAssoc(b, c, d);
    XorComm(b, c);
    XorAssoc(c, b, d);
    XorAssoc(a, c, Xor(b, d));
  }

  lemma PairUp(a: bv32, b: bv32, c: bv32, d: bv32, e: bv32, a': bv32, b': bv32, c': bv32, d': bv32, e': bv32)
    ensures Xor5(Xor(a, a'), Xor(b, b'), Xor(c, c'), Xor(d, d'), Xor(e, e'))
        == Xor(Xor5(a, b, c, d, e), Xor5(a', b', c', d', e'))
  {
    hide Xor;
    Swap4(a, a', b, b');
    Swap4(Xor(a, b), Xor(a', b'), c, c');
    Swap4(Xor(Xor(a, b), c), Xor(Xor(a', b'), c'), d, d');
    Swap4(Xor(Xor(Xor(a, b), c), d), Xor(Xor(Xor(a', b'), c'), d'), e, e');
  }

  lemma ReductionLinear(a: bv32, b: bv32)
    ensures Reduction(Xor(a, b)) == Xor(Reduction(a), Reduction(b))
  {
    hide Pick, Bit, Xor, Xor5, Generator;
    PickBitLinear(a, b, 0, Generator(0));
    PickBitLinear(a, b, 1, Generator(1));
    PickBitLinear(a, b, 2, Generator(2));
    PickBitLinear(a, b, 3, Generator(3));
    PickBitLinear(a, b, 4, Generator(4));
    PairUp(Pick(Bit(a, 0), Generator(0)), Pick(Bit(a, 1), Generator(1)), Pick(Bit(a, 2), Generator(2)),
           Pick(Bit(a, 3), Generator(3)), Pick(Bit(a, 4), Generator(4)),
           Pick(Bit(b, 0), Generator(0)), Pick(Bit(b, 1), Generator(1)), Pick(Bit(b, 2), Generator(2)),
           Pick(Bit(b, 3), Generator(3)), Pick(Bit(b, 4), Generator(4)));
  }

  lemma LowLinear(a: bv32, b: bv32)
    ensures Low(Xor(a, b)) == Xor(Low(a), Low(b)) && Top(Xor(a, b)) == Xor(Top(a), Top(b))
  {
  }

  lemma ShiftedLinear(a: bv32, b: bv32)
    ensures Shifted(Xor(a, b)) == Xor(Shifted(a), Shifted(b))
  {
    hide Low, Top, Reduction, Xor;
    LowLinear(a, b);
    ReductionLinear(Top(a), Top(b));
    Swap4(Low(a), Low(b), Reduction(Top(a)), Reduction(Top(b)));
  }

  /** Only zero is shifted to zero, and 30 bits stay 30 bits. */
  lemma ShiftedInjective(a: bv32)
    requires a < 0x4000_0000
    ensures Shifted(a) == 0 ==> a == 0
    ensures Shifted(a) < 0x4000_0000
  {
  }

  lemma XorSelf(a: bv32, b: bv32)
    ensures Xor(a, a) == 0 && Xor(a, 0) == a && Xor(0, a) == a
    ensures Xor(a, b) == 0 <==> a == b
  {
  }

  // ----- the polymod -----

  function Symbol(v: byte): bv32 {
    v as bv32
  }

  function Step(chk: bv32, v: byte): bv32 {
    Xor(Shifted(chk), Symbol(v))
  }

  function PolymodFrom(chk: bv32, values: seq<byte>): bv32 {
    if values == [] then chk else Step(PolymodFrom(chk, values[..|values| - 1]), values[|values| - 1])
  }

  function Polymod(values: seq<byte>): bv32 {
    PolymodFrom(1, values)
  }

  /** The generators picked so far by the inner loop. */
  function Picked(top: bv32, i: bv3): bv32
    requires i <= 5
  {
    if i == 0 then 0 else Xor(Picked(top, i - 1), Pick(Bit(top, i - 1), Generator(i - 1)))
  }

  lemma AllPicked(top: bv32)
    ensures Picked(top, 5) == Reduction(top)
  {
    hide Xor, Pick, Bit, Generator;
    assert Picked(top, 0) == 0;
    XorSelf(Pick(Bit(top, 0), Generator(0)), 0);
    assert Picked(top, 1) == Pick(Bit(top, 0), Generator(0));
    assert Picked(top, 3) == Xor(Picked(top, 2), Pick(Bit(top, 2), Generator(2)));
    assert Picked(top, 4) == Xor(Picked(top, 3), Pick(Bit(top, 3), Generator(3)));
  }

  method Bech32Polymod(values: seq<byte>) returns (chk: bv32)
    ensures chk == Polymod(values)
  {
    hide Xor, Shifted, Low, Top, Pick, Symbol;
    chk := 1;
    for k := 0 to |values|
      invariant chk == Polymod(values[..k])
    {
      chk := PolymodRound(chk, values[k]);
      assert values[..k + 1][..k] == values[..k];
    }
    assert values[..|values|] == values;
  }

  method PolymodRound(before: bv32, v: byte) returns (chk: bv32)
    ensures chk == Step(before, v)
  {
    hide Xor, Low, Top, Pick, Bit, Generator, Symbol, Reduction;
    var top := Top(before);
    chk := Xor(Low(before), Symbol(v));
    XorSelf(chk, 0);
    var i: bv3 := 0;
    while i < 5
      invariant i <= 5
      invariant chk == Xor(Xor(Low(before), Symbol(v)), Picked(top, i))
      decreases 5 - i
    {
      PickOrKeep(chk, Bit(top, i), Generator(i));
      XorAssoc(Xor(Low(before), Symbol(v)), Picked(top, i), Pick(Bit(top, i), Generator(i)));
      if Bit(top, i) != 0 {
        chk := Xor(chk, Generator(i));
      }
      i := i + 1;
    }
    AllPicked(top);
    XorAssoc(Low(before), Symbol(v), Reduction(top));
    XorComm(Symbol(v), Reduction(top));
    XorAssoc(Low(before), Reduction(top), Symbol(v));
  }

  lemma PickOrKeep(chk: bv32, bit: bv32, g: bv32)
    ensures Xor(chk, Pick(bit, g)) == if bit != 0 then Xor(chk, g) else chk
  {
    XorSelf(chk, 0);
  }

  lemma {:induction false} PolymodConcat(chk: bv32, a: seq<byte>, b: seq<byte>)
    ensures PolymodFrom(chk, a + b) == PolymodFrom(PolymodFrom(chk, a), b)
  {
    hide Step;
    if b == [] {
      assert a + b == a;
    } else {
      PolymodConcat(chk, a, b[..|b| - 1]);
      assert (a + b)[..|a + b| - 1] == a + b[..|b| - 1];
    }
  }

  lemma StepBound(chk: bv32, v: byte)
    requires chk < 0x4000_0000
    ensures Step(chk, v) < 0x4000_0000
  {
    hide Shifted;
    ShiftedInjective(chk);
  }

  lemma {:induction false} PolymodBound(chk: bv32, values: seq<byte>)
    requires chk < 0x4000_0000
    ensures PolymodFrom(chk, values) < 0x4000_0000
  {
    hide Step;
    if values != [] {
      PolymodBound(chk, values[..|values| - 1]);
      StepBound(PolymodFrom(chk, values[..|values| - 1]), values[|values| - 1]);
    }
  }

  // ----- the checksum -----

  function HighBits(b: byte): byte {
    b >> 5
  }

  function LowBits(b: byte): byte {
    b & 31
  }

  /** The two parts of a character are the quotient and the remainder by 32. */
  lemma HrpParts(b: byte)
    ensures ByteValue(HighBits(b)) == ByteValue(b) / 32 && ByteValue(LowBits(b)) == ByteValue(b) % 32
  {
  }

  function HrpExpand(hrp: seq<byte>): seq<byte> {
    seq(|hrp|, i requires 0 <= i < |hrp| => HighBits(hrp[i]))
    + [0]
    + seq(|hrp|, i requires 0 <= i < |hrp| => LowBits(hrp[i]))
  }

  method Bech32HrpExpand(hrp: seq<byte>) returns (out: seq<byte>)
    ensures out == HrpExpand(hrp)
  {
    out := [];
    for i := 0 to |hrp|
      invariant out == HrpExpand(hrp)[..i]
    {
      out := out + [HighBits(hrp[i])];
    }
    out := out + [0];
    for i := 0 to |hrp|
      invariant out == HrpExpand(hrp)[..|hrp| + 1 + i]
    {
      out := out + [LowBits(hrp[i])];
    }
  }

  /** The five bits from position s up. */
  function Digit(pm: bv32, s: bv5): byte {
    ((pm >> s) & 31) as byte
  }

  /** The six symbols of a 30-bit number, the highest first. */
  function Digits(pm: bv32): (c: seq<byte>)
    ensures |c| == 6
  {
    [Digit(pm, 25), Digit(pm, 20), Digit(pm, 15), Digit(pm, 10), Digit(pm, 5), Digit(pm, 0)]
  }

  const ZEROS: seq<byte> := [0, 0, 0, 0, 0, 0]

  function Checksum(hrp: seq<byte>, data: seq<byte>): (c: seq<byte>)
    ensures |c| == 6
  {
    Digits(Xor(Polymod(HrpExpand(hrp) + data + ZEROS), 1))
  }

  /** The bits above position s. */
  function Prefix(pm: bv32, s: bv5): bv32 {
    pm >> s
  }

  function LowFive(x: bv32): bv32 {
    x & 31
  }

  function Thirty(x: bv32): bool {
    x < 0x4000_0000
  }

  lemma DigitValue(pm: bv32, s: bv5)
    ensures Digit(pm, s) < 32 && Symbol(Digit(pm, s)) == LowFive(Prefix(pm, s))
  {
  }

  function Up(x: bv32): bv32 {
    x << 5
  }

  lemma ShiftSmall(x: bv32)
    requires x < 0x200_0000
    ensures Shifted(x) == Up(x)
  {
  }

  lemma SplitDigit(x: bv32)
    requires Thirty(x)
    ensures Prefix(x, 5) < 0x200_0000 && Xor(Up(Prefix(x, 5)), LowFive(x)) == x
  {
  }

  /** One more digit of the number, read into a polymod that differs from z by the digits so far. */
  lemma DigitStep(z: bv32, x: bv32, v: byte)
    requires Thirty(x) && Symbol(v) == LowFive(x)
    ensures Step(Xor(z, Prefix(x, 5)), v) == Xor(Shifted(z), x)
  {
    hide Shifted, Xor, Symbol;
    hide Prefix, LowFive, Up, Thirty;
    SplitDigit(x);
    ShiftSmall(Prefix(x, 5));
    ShiftedLinear(z, Prefix(x, 5));
    XorAssoc(Shifted(z), Up(Prefix(x, 5)), LowFive(x));
  }

  function Shifted6(z: bv32): bv32 {
    Shifted(Shifted(Shifted(Shifted(Shifted(Shifted(z))))))
  }

  lemma PrefixOnward(x: bv32, s: bv5)
    requires s <= 20
    ensures Prefix(Prefix(x, s), 5) == Prefix(x, s + 5)
  {
  }

  lemma PrefixAll(x: bv32)
    ensures Prefix(x, 0) == x
  {
  }

  lemma PrefixBound(x: bv32, s: bv5)
    requires Thirty(x)
    ensures Thirty(Prefix(x, s)) && (s == 25 ==> Prefix(Prefix(x, s), 5) == 0)
  {
  }

  function Step6(z: bv32, d: seq<byte>): bv32
    requires |d| == 6
  {
    Step(Step(Step(Step(Step(Step(z, d[0]), d[1]), d[2]), d[3]), d[4]), d[5])
  }

  /** Six symbols read after z end in z shifted on, plus the number they spell. */
  lemma DigitsRead(z: bv32, pm: bv32)
    requires Thirty(pm)
    ensures PolymodFrom(z, Digits(pm)) == Xor(Shifted6(z), pm)
  {
    hide Shifted, Shifted6, Xor, Symbol, Digit, Step, Step6, PolymodFrom, Prefix, LowFive, Thirty;
    PrefixOnward(pm, 20);
    PrefixOnward(pm, 15);
    PrefixOnward(pm, 10);
    PrefixOnward(pm, 5);
    PrefixAll(pm);
    PrefixBound(pm, 25);
    PrefixBound(pm, 20);
    PrefixBound(pm, 15);
    PrefixBound(pm, 10);
    PrefixBound(pm, 5);
    DigitValue(pm, 25);
    DigitValue(pm, 20);
    DigitValue(pm, 15);
    DigitValue(pm, 10);
    DigitValue(pm, 5);
    DigitValue(pm, 0);
    SixRead(z, Digits(pm), Prefix(pm, 25), Prefix(pm, 20), Prefix(pm, 15), Prefix(pm, 10), Prefix(pm, 5), pm);
    SixSteps(z, Digits(pm));
  }

  lemma SixRead(z: bv32, d: seq<byte>, x0: bv32, x1: bv32, x2: bv32, x3: bv32, x4: bv32, x5: bv32)
    requires |d| == 6
    requires Thirty(x0) && Thirty(x1) && Thirty(x2) && Thirty(x3) && Thirty(x4) && Thirty(x5)
    requires Prefix(x0, 5) == 0 && Prefix(x1, 5) == x0 && Prefix(x2, 5) == x1
    requires Prefix(x3, 5) == x2 && Prefix(x4, 5) == x3 && Prefix(x5, 5) == x4
    requires Symbol(d[0]) == LowFive(x0) && Symbol(d[1]) == LowFive(x1) && Symbol(d[2]) == LowFive(x2)
    requires Symbol(d[3]) == LowFive(x3) && Symbol(d[4]) == LowFive(x4) && Symbol(d[5]) == LowFive(x5)
    ensures Step6(z, d) == Xor(Shifted6(z), x5)
  {
    hide Shifted, Xor, Symbol, Step, Prefix, LowFive, Thirty;
    XorSelf(z, 0);
    DigitStep(z, x0, d[0]);
    DigitStep(Shifted(z), x1, d[1]);
    DigitStep(Shifted(Shifted(z)), x2, d[2]);
    DigitStep(Shifted(Shifted(Shifted(z))), x3, d[3]);
    DigitStep(Shifted(Shifted(Shifted(Shifted(z)))), x4, d[4]);
    DigitStep(Shifted(Shifted(Shifted(Shifted(Shifted(z))))), x5, d[5]);
  }

  lemma PolymodNext(z: bv32, d: seq<byte>, k: nat)
    requires k < |d|
    ensures PolymodFrom(z, d[..k + 1]) == Step(PolymodFrom(z, d[..k]), d[k])
  {
    hide Step;
    assert d[..k + 1][..k] == d[..k];
  }

  lemma SixSteps(z: bv32, d: seq<byte>)
    requires |d| == 6
    ensures PolymodFrom(z, d) == Step6(z, d)
  {
    PolymodStart(z, d);
    hide Step, PolymodFrom;
    PolymodNext(z, d, 0);
    PolymodNext(z, d, 1);
    PolymodNext(z, d, 2);
    PolymodNext(z, d, 3);
    PolymodNext(z, d, 4);
    PolymodNext(z, d, 5);
    assert d[..6] == d;
  }

  lemma PolymodStart(z: bv32, d: seq<byte>)
    ensures PolymodFrom(z, d[..0]) == z
  {
  }

  lemma ZeroStep(z: bv32)
    ensures Step(z, 0) == Shifted(z)
  {
    hide Shifted;
  }

  /** BIP 173: every word with its checksum has polymod 1, whatever the data and its length. */
  lemma ChecksumVerifies(hrp: seq<byte>, data: seq<byte>)
    ensures Polymod(HrpExpand(hrp) + data + Checksum(hrp, data)) == 1
  {
    hide Shifted, Xor, Symbol, Digit, Step, HrpExpand;
    var word := HrpExpand(hrp) + data;
    var z := Polymod(word);
    PolymodConcat(1, word, ZEROS);
    SixSteps(z, ZEROS);
    ZeroStep(z);
    ZeroStep(Shifted(z));
    ZeroStep(Shifted(Shifted(z)));
    ZeroStep(Shifted(Shifted(Shifted(z))));
    ZeroStep(Shifted(Shifted(Shifted(Shifted(z)))));
    ZeroStep(Shifted(Shifted(Shifted(Shifted(Shifted(z))))));
    var r := Polymod(word + ZEROS);
    PolymodBound(1, word + ZEROS);
    FlipLowest(r);
    PolymodConcat(1, word, Checksum(hrp, data));
    DigitsRead(z, Xor(r, 1));
    XorAssoc(r, r, 1);
    XorSelf(r, 1);
    XorSelf(1, 1);
  }

  lemma FlipLowest(r: bv32)
    requires r < 0x4000_0000
    ensures Xor(r, 1) < 0x4000_0000
  {
  }

  // ----- what the checksum detects -----

  /** Two words of equal symbols from two states differ as the states shifted on do. */
  lemma {:induction false} DifferenceSurvives(a: bv32, b: bv32, values: seq<byte>)
    requires a < 0x4000_0000 && b < 0x4000_0000
    ensures PolymodFrom(a, values) == PolymodFrom(b, values) ==> a == b
  {
    hide Step, Shifted, Xor;
    if values != [] {
      var front, last := values[..|values| - 1], values[|values| - 1];
      DifferenceSurvives(a, b, front);
      PolymodBound(a, front);
      PolymodBound(b, front);
      StepInjective(PolymodFrom(a, front), PolymodFrom(b, front), last);
    }
  }

  lemma StepInjective(a: bv32, b: bv32, v: byte)
    requires a < 0x4000_0000 && b < 0x4000_0000
    ensures Step(a, v) == Step(b, v) ==> a == b
  {
    hide Shifted, Xor, Symbol;
    ShiftedLinear(a, b);
    XorBound(a, b);
    ShiftedInjective(Xor(a, b));
    XorSelf(a, b);
    XorCancel(Shifted(a), Shifted(b), Symbol(v));
    XorSelf(Shifted(a), Shifted(b));
  }

  lemma XorBound(a: bv32, b: bv32)
    requires a < 0x4000_0000 && b < 0x4000_0000
    ensures Xor(a, b) < 0x4000_0000
  {
  }

  lemma XorCancel(a: bv32, b: bv32, c: bv32)
    ensures Xor(a, c) == Xor(b, c) ==> a == b
    ensures Xor(c, a) == Xor(c, b) ==> a == b
  {
  }

  lemma SymbolInjective(v: byte, w: byte)
    requires Symbol(v) == Symbol(w)
    ensures v == w
  {
  }

  /** Replacing any one symbol always changes the polymod, at any length. */
  lemma SingleChangeDetected(values: seq<byte>, k: nat, v: byte)
    requires k < |values| && v != values[k]
    ensures Polymod(values[k := v]) != Polymod(values)
  {
    hide Shifted, Xor, Symbol;
    var front, tail := values[..k], values[k + 1..];
    var c := Polymod(front);
    PolymodBound(1, front);
    StepBound(c, v);
    StepBound(c, values[k]);
    assert values == front + [values[k]] + tail && values[k := v] == front + [v] + tail;
    PolymodConcat(1, front, [v]);
    PolymodConcat(1, front, [values[k]]);
    PolymodConcat(1, front + [v], tail);
    PolymodConcat(1, front + [values[k]], tail);
    assert [v][..0] == [values[k]][..0] == [];
    assert PolymodFrom(c, []) == c;
    DifferenceSurvives(Step(c, v), Step(c, values[k]), tail);
    XorCancel(Symbol(v), Symbol(values[k]), Shifted(c));
    if Symbol(v) == Symbol(values[k]) {
      SymbolInjective(v, values[k]);
    }
  }

  /** So no one-symbol corruption of an encoded word verifies. */
  lemma CorruptionRejected(hrp: seq<byte>, data: seq<byte>, k: nat, v: byte)
    requires var word := HrpExpand(hrp) + data + Checksum(hrp, data); k < |word| && v != word[k]
    ensures Polymod((HrpExpand(hrp) + data + Checksum(hrp, data))[k := v]) != 1
  {
    hide Checksum, HrpExpand, Polymod;
    ChecksumVerifies(hrp, data);
    SingleChangeDetected(HrpExpand(hrp) + data + Checksum(hrp, data), k, v);
  }

  // ----- bursts -----

  function Or5(x: bv32, v: bv32): bv32 {
    (x << 5) | v
  }

  /** A number with one more digit. */
  function Appended(x: bv32, v: byte): bv32 {
    Or5(x, Symbol(v))
  }

  lemma Or5Thirty(x: bv32, v: bv32)
    requires x < 0x200_0000 && v < 32
    ensures Thirty(Or5(x, v))
  {
  }

  lemma Or5Prefix(x: bv32, v: bv32)
    requires x < 0x200_0000 && v < 32
    ensures Prefix(Or5(x, v), 5) == x
  {
  }

  lemma Or5Low(x: bv32, v: bv32)
    requires x < 0x200_0000 && v < 32
    ensures LowFive(Or5(x, v)) == v
  {
  }

  lemma SymbolBound(v: byte)
    requires v < 32
    ensures Symbol(v) < 32
  {
  }

  lemma AppendedDigits(x: bv32, v: byte)
    requires x < 0x200_0000 && v < 32
    ensures Thirty(Appended(x, v)) && Prefix(Appended(x, v), 5) == x && LowFive(Appended(x, v)) == Symbol(v)
  {
    hide Symbol, Or5, Thirty, Prefix, LowFive;
    SymbolBound(v);
    Or5Thirty(x, Symbol(v));
    Or5Prefix(x, Symbol(v));
    Or5Low(x, Symbol(v));
  }

  lemma AppendedBound(x: bv32, v: byte, bound: bv32)
    requires x < bound && bound <= 0x200_0000 && v < 32
    ensures Appended(x, v) < bound << 5
  {
  }

  function Spelt(d: seq<byte>, k: nat): bv32
    requires k <= |d|
  {
    if k == 0 then 0 else Appended(Spelt(d, k - 1), d[k - 1])
  }

  predicate Symbols5(d: seq<byte>) {
    forall i :: 0 <= i < |d| ==> d[i] < 32
  }

  lemma SpeltBounds(d: seq<byte>)
    requires |d| == 6 && Symbols5(d)
    ensures Spelt(d, 0) == 0 && Spelt(d, 1) < 0x20 && Spelt(d, 2) < 0x400 && Spelt(d, 3) < 0x8000
    ensures Spelt(d, 4) < 0x10_0000 && Spelt(d, 5) < 0x200_0000
  {
    hide Appended;
    AppendedBound(0, d[0], 1);
    AppendedBound(Spelt(d, 1), d[1], 0x20);
    AppendedBound(Spelt(d, 2), d[2], 0x400);
    AppendedBound(Spelt(d, 3), d[3], 0x8000);
    AppendedBound(Spelt(d, 4), d[4], 0x10_0000);
  }

  lemma SpeltDigit(d: seq<byte>, k: nat)
    requires |d| == 6 && Symbols5(d) && k < 6
    ensures Thirty(Spelt(d, k + 1)) && Prefix(Spelt(d, k + 1), 5) == Spelt(d, k)
        && LowFive(Spelt(d, k + 1)) == Symbol(d[k])
  {
    hide Appended, Thirty, Prefix, LowFive, Symbol;
    SpeltBounds(d);
    AppendedDigits(Spelt(d, k), d[k]);
  }

  lemma WindowRead(z: bv32, d: seq<byte>)
    requires |d| == 6 && Symbols5(d)
    ensures PolymodFrom(z, d) == Xor(Shifted6(z), Spelt(d, 6))
  {
    assert Spelt(d, 0) == 0;
    hide Spelt, Symbol, Thirty, Prefix, LowFive, Xor, Shifted6, Step6, Step, PolymodFrom;
    SpeltDigit(d, 0);
    SpeltDigit(d, 1);
    SpeltDigit(d, 2);
    SpeltDigit(d, 3);
    SpeltDigit(d, 4);
    SpeltDigit(d, 5);
    SixRead(z, d, Spelt(d, 1), Spelt(d, 2), Spelt(d, 3), Spelt(d, 4), Spelt(d, 5), Spelt(d, 6));
    SixSteps(z, d);
  }

  lemma {:induction false} SpeltInjective(d: seq<byte>, e: seq<byte>, k: nat)
    requires |d| == |e| == 6 && Symbols5(d) && Symbols5(e) && k <= 6 && Spelt(d, k) == Spelt(e, k)
    ensures d[..k] == e[..k]
  {
    hide Symbol, Prefix, LowFive, Thirty;
    if k > 0 {
      SpeltDigit(d, k - 1);
      SpeltDigit(e, k - 1);
      SymbolInjective(d[k - 1], e[k - 1]);
      SpeltInjective(d, e, k - 1);
      assert d[..k] == d[..k - 1] + [d[k - 1]] && e[..k] == e[..k - 1] + [e[k - 1]];
    }
  }

  /** Any change within six consecutive symbols changes the polymod, at any length. */
  lemma BurstDetected(before: seq<byte>, d: seq<byte>, e: seq<byte>, after: seq<byte>)
    requires |d| == |e| == 6 && Symbols5(d) && Symbols5(e) && d != e
    ensures Polymod(before + d + after) != Polymod(before + e + after)
  {
    hide Xor, Spelt, PolymodFrom, Shifted6;
    var c := PolymodFrom(1, before);
    PolymodConcat(1, before + d, after);
    PolymodConcat(1, before + e, after);
    PolymodConcat(1, before, d);
    PolymodConcat(1, before, e);
    PolymodBound(1, before + d);
    PolymodBound(1, before + e);
    DifferenceSurvives(PolymodFrom(c, d), PolymodFrom(c, e), after);
    WindowRead(c, d);
    WindowRead(c, e);
    XorCancel(Spelt(d, 6), Spelt(e, 6), Shifted6(c));
    assert d[..6] == d && e[..6] == e;
    if Spelt(d, 6) == Spelt(e, 6) {
      SpeltInjective(d, e, 6);
    }
  }

  // ----- the text -----

  const CHARSET: string := "qpzry9x8gf2tvdw0s3jn54khce6mua7l"

  function CharByte(c: char): byte {
    LowByte(c as nat)
  }

  function HrpBytes(hrp: string): seq<byte> {
    seq(|hrp|, i requires 0 <= i < |hrp| => CharByte(hrp[i]))
  }

  function CharOf(v: byte): char
    requires v < 32
  {
    ByteBelow32(v);
    CHARSET[ByteValue(v)]
  }

  lemma ByteBelow32(v: byte)
    requires v < 32
    ensures ByteValue(v) < 32
  {
  }

  function Text(symbols: seq<byte>): (t: string)
    requires Symbols5(symbols)
    ensures |t| == |symbols|
  {
    seq(|symbols|, i requires 0 <= i < |symbols| => CharOf(symbols[i]))
  }

  lemma ChecksumSymbols(hrp: seq<byte>, data: seq<byte>)
    ensures Symbols5(Checksum(hrp, data))
  {
    var pm := Xor(Polymod(HrpExpand(hrp) + data + ZEROS), 1);
    hide Digit, Xor, HrpExpand, Polymod;
    DigitValue(pm, 25);
    DigitValue(pm, 20);
    DigitValue(pm, 15);
    DigitValue(pm, 10);
    DigitValue(pm, 5);
    DigitValue(pm, 0);
  }

  function Encoded(hrp: string, data: seq<byte>): string
    requires Symbols5(data)
  {
    ChecksumSymbols(HrpBytes(hrp), data);
    hrp + "1" + Text(data + Checksum(HrpBytes(hrp), data))
  }

  method Bech32Encode(hrp: string, data: seq<byte>) returns (out: string)
    requires Symbols5(data)
    ensures out == Encoded(hrp, data)
  {
    hide Xor, HrpExpand, Polymod, CharOf, CHARSET, Digit;
    var expanded := Bech32HrpExpand(HrpBytes(hrp));
    var values := expanded + data + ZEROS;
    var polymod := Bech32Polymod(values);
    polymod := Xor(polymod, 1);
    var checksum := Digits(polymod);
    ChecksumSymbols(HrpBytes(hrp), data);
    out := hrp + "1";
    for i := 0 to |data|
      invariant out == hrp + "1" + Text(data)[..i]
    {
      out := out + [CharOf(data[i])];
    }
    for i := 0 to |checksum|
      invariant out == hrp + "1" + Text(data) + Text(checksum)[..i]
    {
      out := out + [CharOf(checksum[i])];
    }
    assert Text(data) + Text(checksum) == Text(data + checksum);
  }

  // ----- reading the text back -----

  function PositionFrom(c: char, k: nat): (p: Option<nat>)
    requires k <= 32
    ensures p.Some? ==> p.value < 32
    decreases 32 - k
  {
    if k == 32 then None else if CHARSET[k] == c then Some(k) else PositionFrom(c, k + 1)
  }

  lemma CharsetDistinct(i: nat, j: nat)
    requires i < j < 32
    ensures CHARSET[i] != CHARSET[j]
  {
  }

  lemma NoSeparator(i: nat)
    requires i < 32
    ensures CHARSET[i] != '1'
  {
  }

  lemma {:induction false} PositionFound(v: nat, k: nat)
    requires k <= v < 32
    ensures PositionFrom(CHARSET[v], k) == Some(v)
    decreases v - k
  {
    hide CHARSET;
    if k < v {
      CharsetDistinct(k, v);
      PositionFound(v, k + 1);
    }
  }

  function ReadSymbols(text: string): Option<seq<byte>> {
    if text == "" then Some([])
    else
      match (ReadSymbols(text[..|text| - 1]), PositionFrom(text[|text| - 1], 0))
      case (Some(symbols), Some(v)) => Some(symbols + [LowByte(v)])
      case _ => None
  }

  lemma CharRead(v: byte)
    requires v < 32
    ensures PositionFrom(CharOf(v), 0) == Some(ByteValue(v)) && LowByte(ByteValue(v)) == v && CharOf(v) != '1'
  {
    hide CHARSET, PositionFrom, ByteValue, LowByte, CharOf;
    CharIs(v);
    PositionFound(ByteValue(v), 0);
    NoSeparator(ByteValue(v));
    ByteValueInjective(LowByte(ByteValue(v)), v);
  }

  lemma CharIs(v: byte)
    requires v < 32
    ensures ByteValue(v) < 32 && CharOf(v) == CHARSET[ByteValue(v)]
  {
    hide CHARSET, ByteValue;
    ByteBelow32(v);
  }

  lemma {:induction false} TextRead(symbols: seq<byte>)
    requires Symbols5(symbols)
    ensures ReadSymbols(Text(symbols)) == Some(symbols)
  {
    hide CharOf, PositionFrom, LowByte, ByteValue;
    if symbols != [] {
      var front, last := symbols[..|symbols| - 1], symbols[|symbols| - 1];
      TextRead(front);
      CharRead(last);
      assert Text(symbols)[..|symbols| - 1] == Text(front);
      assert symbols == front + [last] && Text(symbols)[|symbols| - 1] == CharOf(last);
    }
  }

  function LastSeparator(text: string): (p: Option<nat>)
    ensures p.Some? ==> p.value < |text|
  {
    if text == "" then None
    else if text[|text| - 1] == '1' then Some(|text| - 1)
    else LastSeparator(text[..|text| - 1])
  }

  lemma {:induction false} SeparatorFound(hrp: string, symbols: seq<byte>)
    requires Symbols5(symbols)
    ensures LastSeparator(hrp + "1" + Text(symbols)) == Some(|hrp|)
  {
    hide CharOf;
    var text := hrp + "1" + Text(symbols);
    if symbols != [] {
      var front := symbols[..|symbols| - 1];
      SeparatorFound(hrp, front);
      CharRead(symbols[|symbols| - 1]);
      assert text[..|text| - 1] == hrp + "1" + Text(front);
    }
  }

  /** A reader: splits at the last separator, looks the characters up, checks the polymod, drops the checksum. */
  function Decoded(text: string): Option<(string, seq<byte>)> {
    match LastSeparator(text)
    case None => None
    case Some(p) =>
      match ReadSymbols(text[p + 1..])
      case None => None
      case Some(symbols) =>
        if |symbols| < 6 || Polymod(HrpExpand(HrpBytes(text[..p])) + symbols) != 1 then None
        else Some((text[..p], symbols[..|symbols| - 6]))
  }

  /** Every encoding reads back as its prefix and data. */
  lemma EncodedDecodes(hrp: string, data: seq<byte>)
    requires Symbols5(data)
    ensures Decoded(Encoded(hrp, data)) == Some((hrp, data))
  {
    hide Polymod, HrpExpand, Checksum, CharOf, HrpBytes, LastSeparator, ReadSymbols, Text;
    var checksum := Checksum(HrpBytes(hrp), data);
    ChecksumSymbols(HrpBytes(hrp), data);
    var symbols := data + checksum;
    SeparatorFound(hrp, symbols);
    TextRead(symbols);
    var text := hrp + "1" + Text(symbols);
    assert text[..|hrp|] == hrp && text[|hrp| + 1..] == Text(symbols);
    ChecksumVerifies(HrpBytes(hrp), data);
    assert HrpExpand(HrpBytes(hrp)) + symbols == HrpExpand(HrpBytes(hrp)) + data + checksum;
  }
}
