/** From BIP 173: its alphabet, and its shortest valid string. */
module Bech32Example {
  import opened Bytes
  import opened Bech32

  lemma Alphabet(v: nat)
    requires v < 32
    ensures LowByte(v) < 32 && CharOf(LowByte(v)) == "qpzry9x8gf2tvdw0s3jn54khce6mua7l"[v]
  {
    hide LowByte;
    SmallByte(v);
  }

  lemma SmallByte(v: nat)
    requires v < 32
    ensures LowByte(v) < 32 && ByteValue(LowByte(v)) == v
  {
  }

  /** What the checksum of the prefix a without data is computed from. */
  const VALUES: seq<byte> := [3, 0, 1, 0, 0, 0, 0, 0, 0]

  lemma ExampleValues()
    ensures HrpExpand(HrpBytes("a")) + [] + ZEROS == VALUES
  {
    assert CharByte('a') == 97;
  }

  lemma Onward(k: nat, chk: bv32, v: byte, next: bv32)
    requires k < |VALUES| && PolymodFrom(1, VALUES[..k]) == chk && VALUES[k] == v && Step(chk, v) == next
    ensures PolymodFrom(1, VALUES[..k + 1]) == next
  {
    hide Step;
    assert VALUES[..k + 1][..k] == VALUES[..k];
  }

  lemma Read3()
    ensures PolymodFrom(1, VALUES[..3]) == 0x8c01
  {
    assert VALUES[..0] == [];
    hide PolymodFrom;
    Onward(0, 0x1, 3, 0x23);
    Onward(1, 0x23, 0, 0x460);
    Onward(2, 0x460, 1, 0x8c01);
  }

  lemma Read6()
    ensures PolymodFrom(1, VALUES[..6]) == 0x3d6ad7b2
  {
    Read3();
    hide PolymodFrom;
    Onward(3, 0x8c01, 0, 0x118020);
    Onward(4, 0x118020, 0, 0x2300400);
    Onward(5, 0x2300400, 0, 0x3d6ad7b2);
  }

  lemma Read9()
    ensures PolymodFrom(1, VALUES[..9]) == 0x15ccfe9e
  {
    Read6();
    hide PolymodFrom;
    Onward(6, 0x3d6ad7b2, 0, 0x2fd30b9);
    Onward(7, 0x2fd30b9, 0, 0x24cc4092);
    Onward(8, 0x24cc4092, 0, 0x15ccfe9e);
  }

  lemma ShortestExample()
    ensures Symbols5([]) && Encoded("a", []) == "a12uel5l"
  {
    hide HrpExpand, HrpBytes, CharOf, Text;
    ExampleChecksum();
    ExampleText();
    assert "a" + "1" + "2uel5l" == "a12uel5l";
  }

  lemma ExampleChecksum()
    ensures Checksum(HrpBytes("a"), []) == [10, 28, 25, 31, 20, 31]
  {
    hide HrpExpand, HrpBytes, PolymodFrom;
    ExampleValues();
    Read9();
    assert VALUES[..9] == VALUES;
    assert Xor(0x15ccfe9e, 1) == 0x15ccfe9f;
  }

  lemma ExampleText()
    ensures Symbols5([10, 28, 25, 31, 20, 31]) && Text([] + [10, 28, 25, 31, 20, 31]) == "2uel5l"
  {
  }
}
