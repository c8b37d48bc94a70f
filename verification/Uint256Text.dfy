/** Printing and parsing of 256-bit integers in decimal, octal and hexadecimal. */
module Uint256Text {
  import opened BitMath
  import opened Uint256
  import opened Wrappers

  datatype BaseField = Dec | Oct | Hex

  function BaseOf(field: BaseField): (b: nat)
    ensures 2 <= b <= 16
  {
    match field
    case Dec => 10
    case Oct => 8
    case Hex => 16
  }

  // ----- digits -----

  function DigitChar(v: nat, upper: bool): (c: char)
    requires v < 16
    ensures DigitVal(c) == v && c != '_'
  {
    if v < 10 then '0' + v as char
    else (if upper then 'A' else 'a') + (v - 10) as char
  }

  /** The value of a digit character, -1 when it is none. */
  function DigitVal(c: char): (v: int)
    ensures -1 <= v < 16
  {
    if '0' <= c <= '9' then c as int - '0' as int
    else if 'a' <= c <= 'f' then 10 + (c as int - 'a' as int)
    else if 'A' <= c <= 'F' then 10 + (c as int - 'A' as int)
    else -1
  }

  /** The sixteen digits in their order, in either case. */
  lemma DigitsAscend(c: char, d: char)
    ensures c < d && ('0' <= c <= '9' || 'a' <= c <= 'f') && ('0' <= d <= '9' || 'a' <= d <= 'f') ==>
            0 <= DigitVal(c) < DigitVal(d) < 16
    ensures 'A' <= c <= 'F' ==> DigitVal(c) == DigitVal((c as int + 32) as char)
    ensures !('0' <= c <= '9' || 'a' <= c <= 'f' || 'A' <= c <= 'F') ==> DigitVal(c) == -1
  {
  }

  /** All digits but the last. */
  function Rest(n: nat, base: nat): (q: nat)
    requires base > 0
  {
    n / base
  }

  function LastDigit(n: nat, base: nat): (r: nat)
    requires base > 0
    ensures r < base
  {
    n % base
  }

  lemma RestSmaller(n: nat, base: nat)
    requires base >= 2 && n >= base
    ensures Rest(n, base) < n
  {
    DivisionIdentity(n, base);
    MulLe(2, base, Rest(n, base));
  }

  /** The positional notation of n without leading zeros. */
  function Render(n: nat, base: nat, upper: bool): (s: string)
    requires 2 <= base <= 16
    ensures s != []
    decreases n
  {
    if n < base then [DigitChar(n, upper)]
    else
      RestSmaller(n, base);
      Render(Rest(n, base), base, upper) + [DigitChar(LastDigit(n, base), upper)]
  }

  /** The k low digits of n, leading zeros included. */
  function Pad(n: nat, base: nat, k: nat, upper: bool): (s: string)
    requires 2 <= base <= 16
    ensures |s| == k
    decreases k
  {
    if k == 0 then [] else Pad(Rest(n, base), base, k - 1, upper) + [DigitChar(LastDigit(n, base), upper)]
  }

  function Power(b: nat, k: nat): (p: nat)
    requires b > 0
    ensures p > 0
  {
    if k == 0 then 1 else b * Power(b, k - 1)
  }

  lemma {:induction false} PowerAdd(b: nat, i: nat, j: nat)
    requires b > 0
    ensures Power(b, i + j) == Power(b, i) * Power(b, j)
  {
    if i > 0 {
      PowerAdd(b, i - 1, j);
      MulAssoc(b, Power(b, i - 1), Power(b, j));
    }
  }

  lemma ChunkBases()
    ensures Power(10, 19) == 10000000000000000000
    ensures Power(8, 21) == 0x8000_0000_0000_0000
  {
    assert Power(10, 4) == 10000;
    assert Power(10, 8) == 100000000 by { PowerAdd(10, 4, 4); }
    assert Power(10, 16) == 10000000000000000 by { PowerAdd(10, 8, 8); }
    assert Power(10, 3) == 1000;
    PowerAdd(10, 16, 3);
    assert Power(8, 5) == 0x8000;
    assert Power(8, 10) == 0x4000_0000 by { PowerAdd(8, 5, 5); }
    assert Power(8, 20) == 0x1000_0000_0000_0000 by { PowerAdd(8, 10, 10); }
  }

  /** Appending k digits to a number multiplies it by base^k. */
  lemma {:induction false} RenderConcat(n: nat, m: nat, c: nat, base: nat, k: nat, upper: bool)
    requires 2 <= base <= 16 && m > 0 && c < Power(base, k) && n == m * Power(base, k) + c
    ensures Render(n, base, upper) == Render(m, base, upper) + Pad(c, base, k, upper)
    decreases k
  {
    if k == 0 {
      assert n == m && Pad(c, base, 0, upper) == [];
    } else {
      var p := Power(base, k - 1);
      assert Power(base, k) == base * p;
      PadStep(c, base, k, upper);
      hide Power, Pad, DigitChar, Render, Rest, LastDigit;
      DigitSplit(m, c, base, p, Power(base, k), n);
      RenderConcat(Rest(n, base), m, Rest(c, base), base, k - 1, upper);
      RenderStep(n, base, upper);
      ConcatAssoc(Render(m, base, upper), Pad(Rest(c, base), base, k - 1, upper), [DigitChar(LastDigit(c, base),
          upper)]);
    }
  }

  lemma ConcatAssoc(a: string, b: string, c: string)
    ensures a + (b + c) == (a + b) + c
  {
  }

  lemma PadStep(c: nat, base: nat, k: nat, upper: bool)
    requires 2 <= base <= 16 && k > 0
    ensures Pad(c, base, k, upper) == Pad(Rest(c, base), base, k - 1, upper) + [DigitChar(LastDigit(c, base), upper)]
  {
  }

  lemma RenderStep(n: nat, base: nat, upper: bool)
    requires 2 <= base <= 16 && n >= base
    ensures Render(n, base, upper) == Render(Rest(n, base), base, upper) + [DigitChar(LastDigit(n, base), upper)]
  {
  }

  lemma DigitSplit(m: nat, c: nat, base: nat, p: nat, bp: nat, n: nat)
    requires base >= 2 && m > 0 && p > 0 && bp == base * p && c < bp && n == m * bp + c
    ensures Rest(n, base) == m * p + Rest(c, base) && LastDigit(n, base) == LastDigit(c, base)
    ensures Rest(c, base) < p
    ensures n >= base
  {
    MulAssoc(m, p, base);
    DivModShift(c, m * p, base);
    QuotientBound(c, base, p);
    MulLe(1, m, bp);
    MulLe(1, p, base);
  }

  lemma QuotientBound(c: nat, base: nat, p: nat)
    requires base > 0 && c < base * p
    ensures c / base < p
  {
    DivisionIdentity(c, base);
    if c / base >= p {
      MulLe(p, c / base, base);
      assert false;
    }
  }

  /** A number of exactly k digits needs no padding. */
  lemma {:induction false} PadIsRender(v: nat, base: nat, k: nat, upper: bool)
    requires 2 <= base <= 16 && k > 0 && v < Power(base, k)
    requires k == 1 || Power(base, k - 1) <= v
    ensures Pad(v, base, k, upper) == Render(v, base, upper)
    decreases k
  {
    if k == 1 {
      assert Power(base, 1) == base;
      assert Pad(Rest(v, base), base, 0, upper) == [];
      SmallMod(v, base);
    } else {
      DigitBounds(v, base, Power(base, k - 1), Power(base, k - 2));
      PadIsRender(Rest(v, base), base, k - 1, upper);
    }
  }

  lemma DigitBounds(v: nat, base: nat, p: nat, q: nat)
    requires base >= 2 && q > 0 && p == base * q && p <= v < base * p
    ensures q <= Rest(v, base) < p && v >= base
  {
    DivisionIdentity(v, base);
    if v / base >= p {
      MulLe(p, v / base, base);
      assert false;
    }
    if v / base < q {
      MulLe(v / base + 1, q, base);
      assert false;
    }
    MulLe(1, q, base);
  }

  // ----- parsing -----

  /** The number a digit string stands for; underscores separate digits and any other character is an error. */
  function ParseNat(s: string, base: nat): (r: Option<nat>)
  {
    if s == [] then Some(0)
    else
      var head := ParseNat(s[..|s| - 1], base);
      var c := s[|s| - 1];
      if head.None? then None
      else if c == '_' then head
      else if DigitVal(c) < 0 || DigitVal(c) >= base then None
      else Some(head.value * base + DigitVal(c))
  }

  lemma ParseSnoc(s: string, c: char, base: nat)
    ensures ParseNat(s + [c], base)
         == if ParseNat(s, base).None? then None
            else if c == '_' then ParseNat(s, base)
            else if DigitVal(c) < 0 || DigitVal(c) >= base then None
            else Some(ParseNat(s, base).value * base + DigitVal(c))
  {
    assert (s + [c])[..|s|] == s;
  }

  lemma {:induction false} ParsePrefix(s: string, i: nat, base: nat)
    requires i <= |s| && base >= 1 && ParseNat(s, base).Some?
    ensures ParseNat(s[..i], base).Some? && ParseNat(s[..i], base).value <= ParseNat(s, base).value
  {
    if i < |s| {
      ParsePrefix(s[..|s| - 1], i, base);
      assert s[..|s| - 1][..i] == s[..i];
      var x := ParseNat(s[..|s| - 1], base).value;
      MulLe(1, base, x);
    } else {
      assert s[..i] == s;
    }
  }

  /** Reading back the positional notation of n gives n. */
  lemma {:induction false} ParseRender(n: nat, base: nat, upper: bool)
    requires 2 <= base <= 16
    ensures ParseNat(Render(n, base, upper), base) == Some(n)
  {
    if n < base {
      ParseSnoc([], DigitChar(n, upper), base);
      assert [] + [DigitChar(n, upper)] == [DigitChar(n, upper)];
    } else {
      RestSmaller(n, base);
      ParseRender(Rest(n, base), base, upper);
      ParseSnoc(Render(Rest(n, base), base, upper), DigitChar(LastDigit(n, base), upper), base);
      DivisionIdentity(n, base);
    }
  }

  lemma {:induction false} ParseNeeds(s: string, i: nat, base: nat)
    requires i < |s| && s[i] != '_' && (DigitVal(s[i]) < 0 || DigitVal(s[i]) >= base)
    ensures ParseNat(s, base).None?
  {
    if i < |s| - 1 {
      ParseNeeds(s[..|s| - 1], i, base);
    }
  }

  /** Accumulates the digits in 256-bit arithmetic. */
  method ParseBase(s: string, base: nat) returns (x: U256, ok: bool)
    requires 2 <= base <= 16
    ensures ok <==> s != [] && ParseNat(s, base).Some?
    ensures ok ==> Value(x) == ParseNat(s, base).value % MODULUS
    ensures !ok ==> Value(x) == 0
  {
    hide Value;
    ok := false;
    x := FromLimb(0);
    if s == [] {
      return;
    }
    for i := 0 to |s|
      invariant ParseNat(s[..i], base).Some?
      invariant Value(x) == ParseNat(s[..i], base).value % MODULUS
    {
      assert s[..i + 1] == s[..i] + [s[i]];
      ParseSnoc(s[..i], s[i], base);
      if s[i] != '_' {
        var v := DigitVal(s[i]);
        if v < 0 || v >= base {
          ParseNeeds(s, i, base);
          return FromLimb(0), false;
        }
        var scaled := Mul(x, FromLimb(base));
        x := Add(scaled, FromLimb(v));
        HornerMod(ParseNat(s[..i], base).value, base, v, MODULUS);
      }
    }
    assert s[..|s|] == s;
    ok := true;
  }

  lemma HornerMod(n: nat, b: nat, v: nat, m: nat)
    requires m > 0
    ensures (((n % m) * b) % m + v) % m == (n * b + v) % m
  {
    ModTimes(n, b, m);
    DivisionIdentity(n * b, m);
    DivModShift((n * b) % m + v, (n * b) / m, m);
  }

  /** The digits of a token and the base they are read in: decimal mode accepts 0x and a plus sign. */
  function InputForm(token: string, field: BaseField): (form: (string, nat))
    ensures 2 <= form.1 <= 16
  {
    if field == Dec && |token| >= 2 && token[0] == '0' && (token[1] == 'x' || token[1] == 'X') then (token[2..], 16)
    else if field == Dec && token != "" && token[0] == '+' then (token[1..], 10)
    else (token, BaseOf(field))
  }

  /** Stream input of one token. */
  method Read(token: string, field: BaseField) returns (r: Option<U256>)
    ensures var (digits, base) := InputForm(token, field);
            && (r.Some? <==> digits != "" && ParseNat(digits, base).Some?)
            && (r.Some? ==> Value(r.value) == ParseNat(digits, base).value % MODULUS)
  {
    hide Value, ParseNat;
    var base, sv := BaseOf(field), token;
    if base == 10 && |sv| >= 2 && sv[0] == '0' && (sv[1] == 'x' || sv[1] == 'X') {
      base := 16;
      sv := sv[2..];
    } else if base == 10 && |sv| >= 1 && sv[0] == '+' {
      sv := sv[1..];
    }
    if sv == [] {
      return None;
    }
    var parsed, ok := ParseBase(sv, base);
    if !ok {
      return None;
    }
    return Some(parsed);
  }

  /** A token that is a number as it stands is read as it stands. */
  lemma PlainToken(token: string, field: BaseField)
    requires token != "" && ParseNat(token, BaseOf(field)).Some? && DigitVal(token[0]) >= 0
    ensures InputForm(token, field) == (token, BaseOf(field))
  {
    if field == Dec && |token| >= 2 && (token[1] == 'x' || token[1] == 'X') {
      ParseNeeds(token, 1, 10);
    }
  }

  // ----- printing -----

  /**
   Splits x into base-c pieces, least significant first. The ghost sequence ts holds the
   number still to be split before each piece.
   */
  method SplitChunks(x: U256, c: Limb) returns (pieces: seq<Limb>, ghost ts: seq<nat>)
    requires c >= 0x8000_0000_0000_0000
    ensures |pieces| <= 5
    ensures |ts| == |pieces| + 1 && ts[0] == Value(x) && ts[|pieces|] == 0
    ensures forall k :: 0 <= k < |pieces| ==> ts[k] > 0 && ts[k] == ts[k + 1] * c + pieces[k] && pieces[k] < c
  {
    hide Value, Pow2;
    ChunkRoom();
    pieces := [];
    ts := [Value(x)];
    var t := x;
    while t != ZERO
      invariant |pieces| <= 5
      invariant |ts| == |pieces| + 1 && ts[0] == Value(x) && ts[|pieces|] == Value(t)
      invariant forall k :: 0 <= k < |pieces| ==> ts[k] > 0 && ts[k] == ts[k + 1] * c + pieces[k] && pieces[k] < c
      invariant Value(t) * Pow2(63 * |pieces|) <= Value(x)
      decreases Value(t)
    {
      NonZeroValue(t);
      var q, rem := DivModU64(t, c);
      SmallerChunk(Value(t), Value(q), rem, c, |pieces|, Value(x));
      t := q;
      pieces := pieces + [rem];
      ts := ts + [Value(q)];
    }
    ZeroValue();
  }

  lemma NonZeroValue(t: U256)
    requires t != ZERO
    ensures Value(t) > 0
  {
    if Value(t) == 0 {
      ValueInjective(t, ZERO);
    }
  }

  lemma ZeroValue()
    ensures Value(ZERO) == 0
  {
  }

  lemma ChunkRoom()
    ensures Pow2(0) == 1 && Pow2(63 * 5) >= MODULUS
  {
    LimbWeightIsPow2(4);
    LimbWeightValues();
    Pow2Monotone(256, 63 * 5);
  }

  lemma SmallerChunk(t: nat, q: nat, rem: nat, c: nat, k: nat, x: nat)
    requires t > 0 && t == q * c + rem && c >= 0x8000_0000_0000_0000
    requires t * Pow2(63 * k) <= x < MODULUS && k <= 5
    ensures q < t && q * Pow2(63 * (k + 1)) <= x && k < 5
  {
    var p := Pow2(63 * k);
    ChunkRoom();
    Pow2Values();
    Pow2Add(63, 63 * k);
    hide Pow2;
    MulLe(2, c, q);
    MulLe(1, t, p);
    MulLe(0x8000_0000_0000_0000, c, q);
    MulLe(q * 0x8000_0000_0000_0000, t, p);
    MulAssoc(q, 0x8000_0000_0000_0000, p);
  }

  /** buf[top], ..., buf[0] */
  method EmitDown(buf: seq<char>, top: nat) returns (s: string)
    requires top < |buf|
    ensures |s| == top + 1 && forall j :: 0 <= j <= top ==> s[j] == buf[top - j]
  {
    s := [];
    var i := top as int;
    while i >= 0
      invariant -1 <= i <= top
      invariant |s| == top - i && forall j :: 0 <= j < |s| ==> s[j] == buf[top - j]
    {
      s := s + [buf[i]];
      i := i - 1;
    }
  }

  /** rs[i] is v with its i low octal digits removed, and buf[i] the digit removed next. */
  ghost predicate OctalDigits(v: nat, rs: seq<nat>, buf: seq<char>)
  {
    && |rs| == |buf| + 1 && rs[0] == v
    && (forall i :: 0 <= i < |buf| ==> rs[i + 1] == Rest(rs[i], 8))
    && (forall i :: 0 <= i < |buf| ==> buf[i] == DigitChar(LastDigit(rs[i], 8), false))
  }

  lemma {:induction false} OctalSuffix(v: nat, rs: seq<nat>, buf: seq<char>, i: nat, n: nat, s: string)
    requires OctalDigits(v, rs, buf) && i <= n <= |buf|
    requires |s| == n - i && forall j :: 0 <= j < |s| ==> s[j] == buf[n - 1 - j]
    ensures s == Pad(rs[i], 8, n - i, false)
    decreases n - i
  {
    hide Rest, LastDigit, DigitChar;
    if i < n {
      OctalSuffix(v, rs, buf, i + 1, n, s[..|s| - 1]);
      PadStep(rs[i], 8, n - i, false);
      assert s == s[..|s| - 1] + [s[|s| - 1]];
    }
  }

  lemma {:induction false} OctalZero(v: nat, rs: seq<nat>, buf: seq<char>, i: nat)
    requires OctalDigits(v, rs, buf) && i <= |buf|
    ensures rs[i] == v / Power(8, i)
    ensures rs[i] == 0 <==> v < Power(8, i)
  {
    if i > 0 {
      OctalZero(v, rs, buf, i - 1);
      DivDiv(v, Power(8, i - 1), 8);
    }
    DivisionIdentity(v, Power(8, i));
    if v < Power(8, i) {
      SmallMod(v, Power(8, i));
    }
  }

  /** The 21 octal digits of one chunk, least significant first. */
  method OctalBuffer(v: Limb) returns (buf: seq<char>, ghost rs: seq<nat>)
    ensures |buf| == 21 && OctalDigits(v, rs, buf)
  {
    buf := seq(21, _ => '0');
    rs := [v as nat];
    var rem: nat := v;
    for i := 0 to 21
      invariant |buf| == 21 && |rs| == i + 1 && rs[0] == v && rs[i] == rem
      invariant forall k :: 0 <= k < i ==> rs[k + 1] == Rest(rs[k], 8)
      invariant forall k :: 0 <= k < i ==> buf[k] == DigitChar(LastDigit(rs[k], 8), false)
    {
      AndMask(rem, 3);
      Pow2Values();
      buf := buf[i := '0' + BitAnd(rem, 7) as char];
      rem := rem / 8;
      rs := rs + [rem];
    }
  }

  /** The most significant chunk: leading zeros are skipped. */
  method TopOctalChunk(v: Limb) returns (s: string)
    requires v < 0x8000_0000_0000_0000
    ensures s == Render(v, 8, false)
  {
    var buf, rs := OctalBuffer(v);
    ChunkBases();
    OctalZero(v, rs, buf, 21);
    hide Power, Render, Pad;
    var i := 20;
    while i > 0 && buf[i] == '0'
      invariant 0 <= i <= 20
      invariant rs[i + 1] == 0
    {
      assert LastDigit(rs[i], 8) == 0 && Rest(rs[i], 8) == 0;
      i := i - 1;
    }
    s := EmitDown(buf, i);
    OctalSuffix(v, rs, buf, 0, i + 1, s);
    OctalZero(v, rs, buf, i + 1);
    OctalZero(v, rs, buf, i);
    if i > 0 {
      assert rs[i] != 0;
    }
    PadIsRender(v, 8, i + 1, false);
  }

  method LowerOctalChunk(v: Limb) returns (s: string)
    ensures s == Pad(v, 8, 21, false)
  {
    var buf, rs := OctalBuffer(v);
    s := EmitDown(buf, 20);
    OctalSuffix(v, rs, buf, 0, 21, s);
  }

  method PrintOct(x: U256, showbase: bool) returns (s: string)
    ensures s == (if showbase && Value(x) > 0 then "0" else "") + Render(Value(x), 8, false)
  {
    hide Value, Render, Pad;
    if x == ZERO {
      ZeroValue();
      RenderZero(8);
      return "0";
    }
    NonZeroValue(x);
    ChunkBases();
    var cs, ts := SplitChunks(x, 0x8000_0000_0000_0000);
    var prefix := if showbase then "0" else "";
    s := prefix;
    var k := |cs| - 1;
    while k >= 0
      invariant -1 <= k < |cs|
      invariant k == |cs| - 1 ==> s == prefix
      invariant k < |cs| - 1 ==> s == prefix + Render(ts[k + 1], 8, false)
    {
      var piece;
      if k == |cs| - 1 {
        piece := TopOctalChunk(cs[k]);
      } else {
        piece := LowerOctalChunk(cs[k]);
        RenderConcat(ts[k], ts[k + 1], cs[k], 8, 21, false);
        ConcatAssoc(prefix, Render(ts[k + 1], 8, false), piece);
      }
      s := s + piece;
      k := k - 1;
    }
  }

  lemma RenderZero(base: nat)
    requires 2 <= base <= 16
    ensures Render(0, base, false) == "0" && Render(0, base, true) == "0"
  {
  }

  /** std::setw with a fill character */
  function PadLeft(s: string, width: nat, fill: char): string {
    if |s| >= width then s else seq(width - |s|, _ => fill) + s
  }

  lemma {:induction false} PadLeftIsPad(v: nat, k: nat)
    requires v < Power(10, k) && k > 0
    ensures |Render(v, 10, false)| <= k
    ensures PadLeft(Render(v, 10, false), k, '0') == Pad(v, 10, k, false)
    decreases k
  {
    PadStep(v, 10, k, false);
    if v < 10 {
      PadZero(k - 1);
    } else {
      assert Power(10, k) == 10 * Power(10, k - 1);
      assert Power(10, 0) == 1;
      QuotientBound(v, 10, Power(10, k - 1));
      PadLeftIsPad(Rest(v, 10), k - 1);
    }
  }

  lemma {:induction false} PadZero(k: nat)
    ensures Pad(0, 10, k, false) == seq(k, _ => '0')
  {
    if k > 0 {
      PadStep(0, 10, k, false);
      PadZero(k - 1);
    }
  }

  method PrintDec(x: U256) returns (s: string)
    ensures s == Render(Value(x), 10, false)
  {
    hide Value, Render, Pad, PadLeft;
    if x == ZERO {
      ZeroValue();
      RenderZero(10);
      return "0";
    }
    NonZeroValue(x);
    ChunkBases();
    var ps, ts := SplitChunks(x, 10000000000000000000);
    s := "";
    var i := |ps| - 1;
    while i >= 0
      invariant -1 <= i < |ps|
      invariant i == |ps| - 1 ==> s == ""
      invariant i < |ps| - 1 ==> s == Render(ts[i + 1], 10, false)
    {
      if i == |ps| - 1 {
        s := s + Render(ps[i], 10, false);
      } else {
        s := s + PadLeft(Render(ps[i], 10, false), 19, '0');
        PadLeftIsPad(ps[i], 19);
        RenderConcat(ts[i], ts[i + 1], ps[i], 10, 19, false);
      }
      i := i - 1;
    }
  }

  /** The hexadecimal digits above bit position k. */
  function HexHead(x: U256, k: nat): nat {
    Shr(Value(x), k)
  }

  /** Taking in one more hexadecimal digit. */
  lemma HexStep(x: U256, i: nat, nib: nat)
    requires i < 4 && nib < 16
    ensures HexHead(x, 64 * i + 4 * nib)
         == HexHead(x, 64 * i + 4 * nib + 4) * 16 + Shr(x[i], 4 * nib) % 16
  {
    hide Value;
    var k := 64 * i + 4 * nib;
    NibbleOfLimb(x, i, 4 * nib);
    Pow2Values();
    Pow2Add(k, 4);
    DivDiv(Value(x), Pow2(k), 16);
  }

  lemma RenderAppend(n: nat, m: nat, v: nat, upper: bool)
    requires v < 16 && n == m * 16 + v
    ensures m > 0 ==> Render(n, 16, upper) == Render(m, 16, upper) + [DigitChar(v, upper)]
    ensures m == 0 ==> Render(n, 16, upper) == [DigitChar(v, upper)]
  {
    if m > 0 {
      DivModUnique(n, 16, m, v);
      RenderStep(n, 16, upper);
    }
  }

  method HexNibble(limb: Limb, nib: nat) returns (v: nat)
    requires nib < 16
    ensures v == Shr(limb, 4 * nib) % 16
  {
    var shifted := Shr(limb, 4 * nib);
    AndMask(shifted, 4);
    Pow2Values();
    v := BitAnd(shifted, 15);
  }

  /** What has been printed once the digits of head are done; leading zeros are skipped until the last digit. */
  ghost predicate HexPrinted(s: string, prefix: string, started: bool, head: nat, last: bool, upper: bool) {
    if started then s == prefix + Render(head, 16, upper) && (head > 0 || last)
    else s == prefix && head == 0 && !last
  }

  /** The effect of one digit on what has been printed. */
  lemma HexPrintedStep(s: string, prefix: string, started: bool, m: nat, v: nat, n: nat, last: bool, upper: bool)
    requires HexPrinted(s, prefix, started, m, false, upper)
    requires v < 16 && n == m * 16 + v
    ensures started || v != 0 || last ==> HexPrinted(s + [DigitChar(v, upper)], prefix, true, n, last, upper)
    ensures !(started || v != 0 || last) ==> HexPrinted(s, prefix, false, n, last, upper)
  {
    hide Render, DigitChar;
    RenderAppend(n, m, v, upper);
    ConcatAssoc(prefix, Render(m, 16, upper), [DigitChar(v, upper)]);
  }

  method PrintHex(x: U256, showbase: bool, upper: bool) returns (s: string)
    ensures s == (if showbase then (if upper then "0X" else "0x") else "") + Render(Value(x), 16, upper)
  {
    hide Value, Render, DigitChar, Pow2, HexHead, HexPrinted, Shr;
    HexEnds(x);
    var prefix := if showbase then (if upper then "0X" else "0x") else "";
    s := prefix;
    var started := false;
    HexStart(prefix, upper);
    var i := 3;
    while i >= 0
      invariant -1 <= i <= 3
      invariant HexPrinted(s, prefix, started, HexHead(x, 64 * (i + 1)), i == -1, upper)
    {
      var nib := 15;
      while nib >= 0
        invariant -1 <= nib <= 15
        invariant HexPrinted(s, prefix, started, HexHead(x, 64 * i + 4 * (nib + 1)), i == 0 && nib == -1, upper)
      {
        var v := HexNibble(x[i], nib);
        HexStep(x, i, nib);
        HexPrintedStep(s, prefix, started, HexHead(x, 64 * i + 4 * nib + 4), v, HexHead(x, 64 * i + 4 * nib),
                       i == 0 && nib == 0, upper);
        if started || v != 0 || (i == 0 && nib == 0) {
          started := true;
          s := s + [DigitChar(v, upper)];
        }
        nib := nib - 1;
      }
      i := i - 1;
    }
    HexFinished(s, prefix, started, Value(x), upper);
  }

  lemma HexEnds(x: U256)
    ensures HexHead(x, 256) == 0 && HexHead(x, 0) == Value(x)
  {
    BigShift(Value(x), 256);
    assert Pow2(0) == 1;
  }

  lemma HexStart(prefix: string, upper: bool)
    ensures HexPrinted(prefix, prefix, false, 0, false, upper)
  {
  }

  lemma HexFinished(s: string, prefix: string, started: bool, head: nat, upper: bool)
    requires HexPrinted(s, prefix, started, head, true, upper)
    ensures s == prefix + Render(head, 16, upper)
  {
  }

  // ----- the stream operators together -----

  /** Stream output in the stream's base. */
  method Print(x: U256, field: BaseField, showbase: bool, upper: bool) returns (s: string)
    ensures s == Prefix(Value(x), field, showbase, upper) + Render(Value(x), BaseOf(field), upper && field == Hex)
  {
    match field
    case Hex => s := PrintHex(x, showbase, upper);
    case Oct => s := PrintOct(x, showbase);
    case Dec => s := PrintDec(x);
  }

  function Prefix(n: nat, field: BaseField, showbase: bool, upper: bool): string {
    if !showbase then ""
    else match field
      case Hex => if upper then "0X" else "0x"
      case Oct => if n > 0 then "0" else ""
      case Dec => ""
  }

  /** A leading zero does not change what an octal string stands for. */
  lemma {:induction false} ParseLeadingZero(s: string, base: nat)
    requires base >= 2
    ensures ParseNat("0" + s, base) == ParseNat(s, base)
  {
    hide ParseNat, DigitVal;
    if s == [] {
      ParseZero(base);
      assert "0" + s == "0";
    } else {
      var t, c := s[..|s| - 1], s[|s| - 1];
      ParseLeadingZero(t, base);
      ParseSnoc(t, c, base);
      ParseSnoc("0" + t, c, base);
      assert s == t + [c];
      ConcatAssoc("0", t, [c]);
    }
  }

  lemma ParseZero(base: nat)
    requires base >= 2
    ensures ParseNat("0", base) == ParseNat("", base)
  {
    ParseSnoc([], '0', base);
    assert "0" == [] + ['0'];
  }

  lemma RenderFirstDigit(n: nat, base: nat, upper: bool)
    requires 2 <= base <= 16
    ensures DigitVal(Render(n, base, upper)[0]) >= 0
    decreases n
  {
    if n >= base {
      RestSmaller(n, base);
      RenderFirstDigit(Rest(n, base), base, upper);
    }
  }

  /** What was printed parses to the value: no partial result of the parse overflows. */
  lemma PrintedParses(n: nat, field: BaseField, showbase: bool, upper: bool, s: string)
    requires n < MODULUS
    requires s == Prefix(n, field, showbase, upper) + Render(n, BaseOf(field), upper && field == Hex)
    ensures field == Hex && showbase ==> ParseNat(s, 16).None?
    ensures !(field == Hex && showbase) ==> ParseNat(s, BaseOf(field)) == Some(n)
    ensures !(field == Hex && showbase) ==>
        forall i :: 0 <= i <= |s| ==>
            ParseNat(s[..i], BaseOf(field)).Some? && ParseNat(s[..i], BaseOf(field)).value < MODULUS
  {
    var digits := Render(n, BaseOf(field), upper && field == Hex);
    ParseRender(n, BaseOf(field), upper && field == Hex);
    if field == Hex && showbase {
      ParseNeeds(s, 1, 16);
    } else {
      assert "" + digits == digits;
      ParseLeadingZero(digits, BaseOf(field));
      forall i | 0 <= i <= |s|
        ensures ParseNat(s[..i], BaseOf(field)).Some? && ParseNat(s[..i], BaseOf(field)).value < MODULUS
      {
        ParsePrefix(s, i, BaseOf(field));
      }
    }
  }

  /**
   Printing and reading back under the same flags returns the value for every 256-bit
   number, except for hexadecimal with showbase, which is never read back.
   */
  method PrintThenRead(x: U256, field: BaseField, showbase: bool, upper: bool) returns (r: Option<U256>)
    ensures r.Some? <==> !(field == Hex && showbase)
    ensures r.Some? ==> r.value == x
  {
    hide Value, Render;
    var s := Print(x, field, showbase, upper);
    PrintedParses(Value(x), field, showbase, upper, s);
    RenderFirstDigit(Value(x), BaseOf(field), upper && field == Hex);
    if !(field == Hex && showbase) {
      PlainToken(s, field);
    }
    r := Read(s, field);
    if r.Some? {
      SmallMod(Value(x), MODULUS);
      ValueInjective(r.value, x);
    }
  }

  /** Hexadecimal with showbase does read back in decimal mode. */
  method PrintHexThenReadDec(x: U256, upper: bool) returns (r: Option<U256>)
    ensures r == Some(x)
  {
    hide Value, Render, ParseNat;
    var s := Print(x, Hex, true, upper);
    var digits := Render(Value(x), 16, upper);
    assert s[2..] == digits;
    RenderFirstDigit(Value(x), 16, upper);
    ParseRender(Value(x), 16, upper);
    r := Read(s, Dec);
    SmallMod(Value(x), MODULUS);
    ValueInjective(r.value, x);
  }
}
