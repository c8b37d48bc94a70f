/**
 What the polymod computes: the remainder of a polynomial over the field of 32 elements, as BIP 173
 defines it by its generator x^6 + 29 x^5 + 22 x^4 + 20 x^3 + 21 x^2 + 29 x + 18.
 */
module Bech32Field {
  import opened Bech32
  import opened Bytes

  // ----- the field with x^5 = x^3 + 1 -----

  type Element = bv5

  function Sum(a: Element, b: Element): Element { a ^ b }

  function Double(a: Element): Element {
    Sum(a << 1, if a & 16 != 0 then 9 else 0)
  }

  function Part(a: Element, bit: bool): Element {
    if bit then a else 0
  }

  function Product(a: Element, b: Element): Element {
    Sum(Sum(Sum(Sum(Part(b, a & 1 != 0), Part(Double(b), a & 2 != 0)), Part(Double(Double(b)), a & 4 != 0)),
            Part(Double(Double(Double(b))), a & 8 != 0)), Part(Double(Double(Double(Double(b)))), a & 16 != 0))
  }

  /** The coefficients of a remainder, the highest power first. */
  datatype Remainder = Remainder(r5: Element, r4: Element, r3: Element, r2: Element, r1: Element, r0: Element)

  /** Multiplies by x, adds the next coefficient and reduces by the generator. */
  function Next(r: Remainder, v: Element): Remainder {
    Remainder(Sum(r.r4, Product(r.r5, 29)), Sum(r.r3, Product(r.r5, 22)), Sum(r.r2, Product(r.r5, 20)),
              Sum(r.r1, Product(r.r5, 21)), Sum(r.r0, Product(r.r5, 29)), Sum(v, Product(r.r5, 18)))
  }

  function ElementOf(v: byte): Element {
    (v & 31) as bv5
  }

  /** The symbol of a word from position s up. */
  function SymbolAt(x: bv32, s: bv5): Element {
    ((x >> s) & 31) as bv5
  }

  function RemainderOf(x: bv32): Remainder {
    Remainder(SymbolAt(x, 25), SymbolAt(x, 20), SymbolAt(x, 15), SymbolAt(x, 10), SymbolAt(x, 5), SymbolAt(x, 0))
  }

  // ----- one step -----

  lemma SymbolXorWord(w: bv32, x: bv32, y: bv32, s: bv5)
    requires w == x ^ y
    ensures SymbolAt(w, s) == SymbolAt(x, s) ^ SymbolAt(y, s)
  {
  }

  lemma SymbolXor(x: bv32, y: bv32, s: bv5)
    ensures SymbolAt(Xor(x, y), s) == Sum(SymbolAt(x, s), SymbolAt(y, s))
  {
    hide SymbolAt;
    SymbolXorWord(Xor(x, y), x, y, s);
  }

  lemma PickSymbol(bit: bv32, g: bv32, s: bv5)
    ensures SymbolAt(Pick(bit, g), s) == Part(SymbolAt(g, s), bit != 0)
  {
    ZeroSymbol(s);
    hide SymbolAt;
  }

  lemma ZeroSymbol(s: bv5)
    ensures SymbolAt(0, s) == 0
  {
  }

  lemma SymbolXor5(a: bv32, b: bv32, c: bv32, d: bv32, e: bv32, s: bv5)
    ensures SymbolAt(Xor5(a, b, c, d, e), s) ==
            Sum(Sum(Sum(Sum(SymbolAt(a, s), SymbolAt(b, s)), SymbolAt(c, s)), SymbolAt(d, s)), SymbolAt(e, s))
  {
    hide SymbolAt, Xor, Sum;
    SymbolXor(a, b, s);
    SymbolXor(Xor(a, b), c, s);
    SymbolXor(Xor(Xor(a, b), c), d, s);
    SymbolXor(Xor(Xor(Xor(a, b), c), d), e, s);
  }

  lemma TopBits(top: bv32)
    requires top < 32
    ensures (Bit(top, 0) != 0 <==> SymbolAt(top, 0) & 1 != 0) && (Bit(top, 1) != 0 <==> SymbolAt(top, 0) & 2 != 0)
    ensures (Bit(top, 2) != 0 <==> SymbolAt(top, 0) & 4 != 0) && (Bit(top, 3) != 0 <==> SymbolAt(top, 0) & 8 != 0)
    ensures Bit(top, 4) != 0 <==> SymbolAt(top, 0) & 16 != 0
  {
  }

  /** The generators hold a coefficient g and its doubles at this position. */
  predicate Doubles(s: bv5, g: Element) {
    && SymbolAt(Generator(0), s) == g && SymbolAt(Generator(1), s) == Double(g)
    && SymbolAt(Generator(2), s) == Double(Double(g)) && SymbolAt(Generator(3), s) == Double(Double(Double(g)))
    && SymbolAt(Generator(4), s) == Double(Double(Double(Double(g))))
  }

  lemma ReductionAt(top: bv32, s: bv5, g: Element)
    requires top < 32 && Doubles(s, g)
    ensures SymbolAt(Reduction(top), s) == Product(SymbolAt(top, 0), g)
  {
    hide SymbolAt, Xor5, Sum, Part, Pick, Bit, Generator, Double;
    TopBits(top);
    SymbolXor5(Pick(Bit(top, 0), Generator(0)), Pick(Bit(top, 1), Generator(1)), Pick(Bit(top, 2), Generator(2)),
               Pick(Bit(top, 3), Generator(3)), Pick(Bit(top, 4), Generator(4)), s);
    PickSymbol(Bit(top, 0), Generator(0), s);
    PickSymbol(Bit(top, 1), Generator(1), s);
    PickSymbol(Bit(top, 2), Generator(2), s);
    PickSymbol(Bit(top, 3), Generator(3), s);
    PickSymbol(Bit(top, 4), Generator(4), s);
  }

  lemma AllDouble()
    ensures Doubles(25, 29) && Doubles(20, 22) && Doubles(15, 20) && Doubles(10, 21) && Doubles(5, 29) && Doubles(0, 18)
  {
  }

  /** What a step adds is the generator times the coefficient that leaves. */
  lemma ReductionIsProduct(top: bv32)
    requires top < 32
    ensures SymbolAt(Reduction(top), 25) == Product(SymbolAt(top, 0), 29)
    ensures SymbolAt(Reduction(top), 20) == Product(SymbolAt(top, 0), 22)
    ensures SymbolAt(Reduction(top), 15) == Product(SymbolAt(top, 0), 20)
    ensures SymbolAt(Reduction(top), 10) == Product(SymbolAt(top, 0), 21)
    ensures SymbolAt(Reduction(top), 5) == Product(SymbolAt(top, 0), 29)
    ensures SymbolAt(Reduction(top), 0) == Product(SymbolAt(top, 0), 18)
  {
    hide Reduction, SymbolAt, Product, Doubles;
    AllDouble();
    ReductionAt(top, 25, 29);
    ReductionAt(top, 20, 22);
    ReductionAt(top, 15, 20);
    ReductionAt(top, 10, 21);
    ReductionAt(top, 5, 29);
    ReductionAt(top, 0, 18);
  }

  lemma LowSymbols(x: bv32)
    ensures SymbolAt(Low(x), 25) == SymbolAt(x, 20) && SymbolAt(Low(x), 20) == SymbolAt(x, 15)
    ensures SymbolAt(Low(x), 15) == SymbolAt(x, 10) && SymbolAt(Low(x), 10) == SymbolAt(x, 5)
    ensures SymbolAt(Low(x), 5) == SymbolAt(x, 0) && SymbolAt(Low(x), 0) == 0
  {
  }

  lemma TopSymbol(x: bv32)
    requires Thirty(x)
    ensures Top(x) < 32 && SymbolAt(Top(x), 0) == SymbolAt(x, 25)
  {
  }

  lemma InputSymbol(v: byte)
    requires v < 32
    ensures SymbolAt(Symbol(v), 25) == 0 && SymbolAt(Symbol(v), 20) == 0 && SymbolAt(Symbol(v), 15) == 0
    ensures SymbolAt(Symbol(v), 10) == 0 && SymbolAt(Symbol(v), 5) == 0 && SymbolAt(Symbol(v), 0) == ElementOf(v)
  {
  }

  lemma SumZero(a: Element, b: Element)
    ensures Sum(a, 0) == a && Sum(0, a) == a && Sum(a, b) == Sum(b, a)
  {
  }

  lemma StepSymbol(x: bv32, v: byte, s: bv5)
    ensures SymbolAt(Step(x, v), s) ==
            Sum(Sum(SymbolAt(Low(x), s), SymbolAt(Reduction(Top(x)), s)), SymbolAt(Symbol(v), s))
  {
    hide SymbolAt, Low, Top, Reduction, Xor, Symbol, Sum;
    SymbolXor(Shifted(x), Symbol(v), s);
    SymbolXor(Low(x), Reduction(Top(x)), s);
  }

  lemma StepIsNext(x: bv32, v: byte)
    requires Thirty(x) && v < 32
    ensures RemainderOf(Step(x, v)) == Next(RemainderOf(x), ElementOf(v))
  {
    hide SymbolAt, Low, Top, Reduction, Symbol, Sum, Product, Step, ElementOf, Thirty;
    StepSymbol(x, v, 25);
    StepSymbol(x, v, 20);
    StepSymbol(x, v, 15);
    StepSymbol(x, v, 10);
    StepSymbol(x, v, 5);
    StepSymbol(x, v, 0);
    LowSymbols(x);
    TopSymbol(x);
    ReductionIsProduct(Top(x));
    InputSymbol(v);
    var r := RemainderOf(x);
    SumZero(Sum(r.r4, Product(r.r5, 29)), 0);
    SumZero(Sum(r.r3, Product(r.r5, 22)), 0);
    SumZero(Sum(r.r2, Product(r.r5, 20)), 0);
    SumZero(Sum(r.r1, Product(r.r5, 21)), 0);
    SumZero(Sum(r.r0, Product(r.r5, 29)), 0);
    SumZero(Product(r.r5, 18), ElementOf(v));
  }

  // ----- the polymod -----

  /** The remainder of x^n plus the polynomial with these n coefficients, the highest first. */
  function RemainderFrom(r: Remainder, values: seq<byte>): Remainder {
    if values == [] then r
    else Next(RemainderFrom(r, values[..|values| - 1]), ElementOf(values[|values| - 1]))
  }

  lemma {:induction false} PolymodIsRemainder(chk: bv32, values: seq<byte>)
    requires Thirty(chk) && Symbols5(values)
    ensures Thirty(PolymodFrom(chk, values))
    ensures RemainderOf(PolymodFrom(chk, values)) == RemainderFrom(RemainderOf(chk), values)
  {
    hide Step, RemainderOf, Next;
    PolymodBound(chk, values);
    if values != [] {
      PolymodIsRemainder(chk, values[..|values| - 1]);
      StepIsNext(PolymodFrom(chk, values[..|values| - 1]), values[|values| - 1]);
    }
  }

  /** The polymod of some symbols is the remainder of x^n plus the polynomial they spell. */
  lemma PolymodOfSymbols(values: seq<byte>)
    requires Symbols5(values)
    ensures RemainderOf(Polymod(values)) == RemainderFrom(Remainder(0, 0, 0, 0, 0, 1), values)
  {
    assert RemainderOf(1) == Remainder(0, 0, 0, 0, 0, 1);
    hide RemainderOf, RemainderFrom, PolymodFrom;
    PolymodIsRemainder(1, values);
  }
}
