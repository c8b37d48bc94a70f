/** Decoding a coinbase transaction, legacy or with the marker and flag of BIP 144. */
module CoinbaseTx {
  import opened BitMath
  import opened Bytes
  import opened Regroup

  datatype TxOutput = TxOutput(value: nat, script: seq<byte>)

  datatype TxInput = TxInput(prevoutHash: seq<byte>, prevoutIndex: nat, scriptSig: seq<byte>, sequence: nat)

  datatype Tx = Tx(version: nat, marker: bool, input: TxInput, outputs: seq<TxOutput>, locktime: nat)

  datatype DecodeError = UnexpectedEnd | WrongInputCount | ReserveFailed | TrailingBytes

  /** A value read, and the position after it. */
  datatype Read<+T> = Got(value: T, next: nat) | Failed(error: DecodeError) {
    predicate IsFailure() {
      Failed?
    }

    function PropagateFailure<U>(): Read<U>
      requires IsFailure()
    {
      Failed(error)
    }

    function Extract(): Read<T>
      requires !IsFailure()
    {
      this
    }
  }

  // ----- what each field reads as -----

  function ReadLe(b: seq<byte>, pos: nat, k: nat): (r: Read<nat>)
    requires pos <= |b|
    ensures r.Got? ==> pos + k == r.next <= |b|
  {
    if |b| - pos < k then Failed(UnexpectedEnd) else Got(LeValue(b[pos..pos + k]), pos + k)
  }

  function ReadCompact(b: seq<byte>, pos: nat): (r: Read<nat>)
    requires pos <= |b|
    ensures r.Got? ==> pos < r.next <= |b|
  {
    var first :- ReadLe(b, pos, 1);
    if first.value < 0xfd then first
    else if first.value == 0xfd then ReadLe(b, first.next, 2)
    else if first.value == 0xfe then ReadLe(b, first.next, 4)
    else ReadLe(b, first.next, 8)
  }

  /** A first byte below 253 is the number itself; 253 + j announces the number in 2^(j + 1) bytes. */
  lemma CompactExtent(b: seq<byte>, pos: nat)
    requires pos < |b|
    ensures ByteValue(b[pos]) < 253 ==> ReadCompact(b, pos) == Got(ByteValue(b[pos]), pos + 1)
    ensures ByteValue(b[pos]) >= 253 ==>
            var next := pos + 1 + Pow2(ByteValue(b[pos]) - 252);
            ReadCompact(b, pos) == if next <= |b| then Got(LeValue(b[pos + 1..next]), next) else Failed(UnexpectedEnd)
  {
    hide LeValue, ByteValue;
    OneByte(b, pos);
    assert Pow2(1) == 2 && Pow2(2) == 4 && Pow2(3) == 8;
  }

  function ReadBlob(b: seq<byte>, pos: nat, count: nat): (r: Read<seq<byte>>)
    requires pos <= |b|
    ensures r.Got? ==> pos + count == r.next <= |b|
  {
    if |b| - pos < count then Failed(UnexpectedEnd) else Got(b[pos..pos + count], pos + count)
  }

  /** Bytes preceded by their number. */
  function ReadSized(b: seq<byte>, pos: nat): (r: Read<seq<byte>>)
    requires pos <= |b|
    ensures r.Got? ==> pos < r.next <= |b|
  {
    var size :- ReadCompact(b, pos);
    ReadBlob(b, size.next, size.value)
  }

  predicate HasMarker(b: seq<byte>, pos: nat)
    requires pos <= |b|
  {
    |b| - pos >= 2 && b[pos] == 0 && b[pos + 1] == 1
  }

  function ReadInput(b: seq<byte>, pos: nat): (r: Read<TxInput>)
    requires pos <= |b|
    ensures r.Got? ==> pos < r.next <= |b|
  {
    var count :- ReadCompact(b, pos);
    if count.value != 1 then Failed(WrongInputCount)
    else
      var hash :- ReadBlob(b, count.next, 32);
      var index :- ReadLe(b, hash.next, 4);
      var script :- ReadSized(b, index.next);
      var sequence :- ReadLe(b, script.next, 4);
      Got(TxInput(hash.value, index.value, script.value, sequence.value), sequence.next)
  }

  function ReadOutput(b: seq<byte>, pos: nat): (r: Read<TxOutput>)
    requires pos <= |b|
    ensures r.Got? ==> pos < r.next <= |b|
  {
    var value :- ReadLe(b, pos, 8);
    var script :- ReadSized(b, value.next);
    Got(TxOutput(value.value, script.value), script.next)
  }

  /** The first outputs of a list, in order. */
  function ReadOutputs(b: seq<byte>, pos: nat, count: nat): (r: Read<seq<TxOutput>>)
    requires pos <= |b|
    ensures r.Got? ==> pos + count <= r.next <= |b|
    decreases count
  {
    if count == 0 then Got([], pos)
    else
      var front :- ReadOutputs(b, pos, count - 1);
      var last :- ReadOutput(b, front.next);
      Got(front.value + [last.value], last.next)
  }

  /** Skips witness items. */
  function SkipItems(b: seq<byte>, pos: nat, count: nat): (r: Read<()>)
    requires pos <= |b|
    ensures r.Got? ==> pos + count <= r.next <= |b|
    decreases count
  {
    if count == 0 then Got((), pos)
    else
      var front :- SkipItems(b, pos, count - 1);
      var item :- ReadSized(b, front.next);
      Got((), item.next)
  }

  function SkipWitness(b: seq<byte>, pos: nat): (r: Read<()>)
    requires pos <= |b|
    ensures r.Got? ==> pos < r.next <= |b|
  {
    var count :- ReadCompact(b, pos);
    SkipItems(b, count.next, count.value)
  }

  /**
   Everything after the input. The outputs are refused unread when there is no room to reserve for
   their claimed number.
   */
  function ReadTail(b: seq<byte>, pos: nat, marker: bool, room: nat): (r: Read<(seq<TxOutput>, nat)>)
    requires pos <= |b|
    ensures r.Got? ==> r.next == |b|
  {
    var count :- ReadCompact(b, pos);
    if count.value > room then Failed(ReserveFailed)
    else
      var outputs :- ReadOutputs(b, count.next, count.value);
      var skipped :- if marker then SkipWitness(b, outputs.next) else Got((), outputs.next);
      var locktime :- ReadLe(b, skipped.next, 4);
      if locktime.next != |b| then Failed(TrailingBytes) else Got((outputs.value, locktime.value), locktime.next)
  }

  /** Where the input starts. */
  function InputStart(marker: bool): nat {
    if marker then 6 else 4
  }

  /** The transaction that the whole of the bytes reads as, where room outputs can be reserved for. */
  function Decode(b: seq<byte>, room: nat): (r: Read<Tx>)
    ensures r.Got? ==> r.next == |b|
  {
    var version :- ReadLe(b, 0, 4);
    var marker := HasMarker(b, 4);
    var input :- ReadInput(b, InputStart(marker));
    var tail :- ReadTail(b, input.next, marker, room);
    Got(Tx(version.value, marker, input.value, tail.value.0, tail.value.1), tail.next)
  }

  /** The version opens a transaction and the lock time closes it; a marker and flag stand in between or not. */
  lemma Ends(b: seq<byte>, room: nat)
    requires Decode(b, room).Got?
    ensures |b| >= 8
    ensures var tx := Decode(b, room).value;
            && tx.version == LeValue(b[..4]) && tx.locktime == LeValue(b[|b| - 4..])
            && (tx.marker <==> |b| >= 6 && b[4] == 0 && b[5] == 1)
  {
    hide ReadCompact, ReadInput, ReadOutputs, SkipWitness, LeValue;
    var input := ReadInput(b, InputStart(HasMarker(b, 4)));
    TailEnds(b, input.next, HasMarker(b, 4), room);
  }

  lemma TailEnds(b: seq<byte>, pos: nat, marker: bool, room: nat)
    requires pos <= |b| && ReadTail(b, pos, marker, room).Got?
    ensures |b| >= 4 && ReadTail(b, pos, marker, room).value.1 == LeValue(b[|b| - 4..])
  {
    hide ReadCompact, ReadOutputs, SkipWitness, LeValue;
    assert b[|b| - 4..|b|] == b[|b| - 4..];
  }

  // ----- scripts -----

  datatype Description = Description(scriptType: string, address: string)

  /** describe_script_pubkey */
  function ScriptType(script: seq<byte>): string {
    if |script| == 22 && script[0] == 0 && script[1] == 0x14 then "P2WPKH"
    else if |script| == 34 && script[0] == 0 && script[1] == 0x20 then "P2WSH"
    else if |script| == 25 && script[0] == 0x76 && script[1] == 0xa9 && script[2] == 0x14
            && script[23] == 0x88 && script[24] == 0xac then "P2PKH"
    else if |script| > 0 && script[0] == 0x6a then "OP_RETURN"
    else "unknown"
  }

  /** OP_DUP OP_HASH160 <hash> OP_EQUALVERIFY OP_CHECKSIG */
  function PayToKeyHash(hash: seq<byte>): seq<byte> {
    [0x76, 0xa9, 0x14] + hash + [0x88, 0xac]
  }

  /** OP_0 <program> */
  function WitnessScript(program: seq<byte>): seq<byte>
    requires |program| < 76
  {
    [0, LowByte(|program|)] + program
  }

  ghost predicate IsKeyHashScript(script: seq<byte>) {
    exists hash: seq<byte> :: |hash| == 20 && script == PayToKeyHash(hash)
  }

  ghost predicate IsWitnessScript(script: seq<byte>, size: nat)
    requires size < 76
  {
    exists program: seq<byte> :: |program| == size && script == WitnessScript(program)
  }

  ghost predicate IsDataScript(script: seq<byte>) {
    exists data: seq<byte> :: script == [0x6a] + data
  }

  lemma KeyHashExactly(script: seq<byte>)
    ensures IsKeyHashScript(script) <==>
            |script| == 25 && script[0] == 0x76 && script[1] == 0xa9 && script[2] == 0x14
            && script[23] == 0x88 && script[24] == 0xac
  {
    if |script| == 25 && script[0] == 0x76 && script[1] == 0xa9 && script[2] == 0x14
       && script[23] == 0x88 && script[24] == 0xac {
      assert script == PayToKeyHash(script[3..23]);
    }
  }

  lemma WitnessExactly(script: seq<byte>, size: nat)
    requires size < 76
    ensures IsWitnessScript(script, size) <==> |script| == size + 2 && script[0] == 0 && script[1] == LowByte(size)
  {
    hide LowByte;
    if |script| == size + 2 && script[0] == 0 && script[1] == LowByte(size) {
      assert script == WitnessScript(script[2..]);
    }
  }

  lemma KnownWitnessExactly(script: seq<byte>)
    ensures IsWitnessScript(script, 20) <==> |script| == 22 && script[0] == 0 && script[1] == 0x14
    ensures IsWitnessScript(script, 32) <==> |script| == 34 && script[0] == 0 && script[1] == 0x20
  {
    assert LowByte(20) == 0x14 && LowByte(32) == 0x20;
    hide LowByte, IsWitnessScript;
    WitnessExactly(script, 20);
    WitnessExactly(script, 32);
  }

  lemma DataExactly(script: seq<byte>)
    ensures IsDataScript(script) <==> |script| > 0 && script[0] == 0x6a
  {
    if |script| > 0 && script[0] == 0x6a {
      assert script == [0x6a] + script[1..];
    }
  }

  /** Each name is given to the scripts of its template, and the last one to all the others. */
  lemma ScriptTypeExactly(script: seq<byte>)
    ensures ScriptType(script) == "P2PKH" <==> IsKeyHashScript(script)
    ensures ScriptType(script) == "P2WPKH" <==> IsWitnessScript(script, 20)
    ensures ScriptType(script) == "P2WSH" <==> IsWitnessScript(script, 32)
    ensures ScriptType(script) == "OP_RETURN" <==> IsDataScript(script)
    ensures ScriptType(script) == "unknown" <==>
            !IsKeyHashScript(script) && !IsWitnessScript(script, 20) && !IsWitnessScript(script, 32)
            && !IsDataScript(script)
  {
    hide IsKeyHashScript, IsWitnessScript, IsDataScript;
    KeyHashExactly(script);
    KnownWitnessExactly(script);
    DataExactly(script);
  }

  /** An output is described by its script type, and a witness program of version 0 by its address. */
  predicate Describes(d: Description, script: seq<byte>) {
    && d.scriptType == ScriptType(script)
    && if d.scriptType == "P2WPKH" || d.scriptType == "P2WSH" then |script| >= 2 && AddressOf(d.address, script[2..])
       else d.address == ""
  }

  method Describe(script: seq<byte>) returns (d: Description)
    ensures Describes(d, script)
  {
    hide AddressOf;
    var scriptType := ScriptType(script);
    var address := "";
    if scriptType == "P2WPKH" {
      address := DecodeP2wpkhAddress(script);
    } else if scriptType == "P2WSH" {
      address := DecodeP2wshAddress(script);
    }
    d := Description(scriptType, address);
  }

  // ----- the reader -----

  class ByteReader {
    const bytes: seq<byte>
    var pos: nat

    ghost predicate Valid()
      reads this
    {
      pos <= |bytes|
    }

    constructor (b: seq<byte>)
      ensures Valid() && bytes == b && pos == 0
    {
      bytes, pos := b, 0;
    }

    function Remaining(): nat
      requires Valid()
      reads this
    {
      |bytes| - pos
    }

    method ReadU8() returns (r: Read<nat>)
      requires Valid()
      modifies this
      ensures Valid() && r == ReadLe(bytes, old(pos), 1) && (r.Got? ==> pos == r.next)
    {
      if Remaining() < 1 {
        return Failed(UnexpectedEnd);
      }
      OneByte(bytes, pos);
      r := Got(ByteValue(bytes[pos]), pos + 1);
      pos := pos + 1;
    }

    method ReadU32Le() returns (r: Read<nat>)
      requires Valid()
      modifies this
      ensures Valid() && r == ReadLe(bytes, old(pos), 4) && (r.Got? ==> pos == r.next)
    {
      if Remaining() < 4 {
        return Failed(UnexpectedEnd);
      }
      JoinLeValue(bytes[pos..pos + 4]);
      r := Got(JoinLe(bytes[pos..pos + 4]), pos + 4);
      pos := pos + 4;
    }

    method ReadU64Le() returns (r: Read<nat>)
      requires Valid()
      modifies this
      ensures Valid() && r == ReadLe(bytes, old(pos), 8) && (r.Got? ==> pos == r.next)
    {
      hide ByteValue, Pow2, BitOr, LeValue;
      if Remaining() < 8 {
        return Failed(UnexpectedEnd);
      }
      var value := 0;
      for i := 0 to 8
        invariant value == JoinLe(bytes[pos..pos + i])
      {
        assert bytes[pos..pos + i + 1][..i] == bytes[pos..pos + i];
        value := BitOr(value, ByteValue(bytes[pos + i]) * Pow2(8 * i));
      }
      JoinLeValue(bytes[pos..pos + 8]);
      pos := pos + 8;
      r := Got(value, pos);
    }

    method ReadCompactSize() returns (r: Read<nat>)
      requires Valid()
      modifies this
      ensures Valid() && r == ReadCompact(bytes, old(pos)) && (r.Got? ==> pos == r.next)
    {
      hide LeValue;
      var first := ReadU8();
      if first.Failed? || first.value < 0xfd {
        return first;
      }
      if first.value == 0xfd {
        if Remaining() < 2 {
          return Failed(UnexpectedEnd);
        }
        JoinLeValue(bytes[pos..pos + 2]);
        r := Got(JoinLe(bytes[pos..pos + 2]), pos + 2);
        pos := pos + 2;
        return;
      }
      if first.value == 0xfe {
        r := ReadU32Le();
        return;
      }
      r := ReadU64Le();
    }

    method ReadBytes(count: nat) returns (r: Read<seq<byte>>)
      requires Valid()
      modifies this
      ensures Valid() && r == ReadBlob(bytes, old(pos), count) && (r.Got? ==> pos == r.next)
    {
      if Remaining() < count {
        return Failed(UnexpectedEnd);
      }
      r := Got(bytes[pos..pos + count], pos + count);
      pos := pos + count;
    }
  }

  lemma OneByte(b: seq<byte>, pos: nat)
    requires pos < |b|
    ensures LeValue(b[pos..pos + 1]) == ByteValue(b[pos])
  {
    hide ByteValue;
    assert b[pos..pos + 1][1..] == [];
    assert LeValue([]) == 0;
  }

  /** Reads the whole transaction. Each loop ends because every element takes input, whatever number was claimed. */
  method DecodeCoinbase(txBytes: seq<byte>, room: nat) returns (r: Read<Tx>, descriptions: seq<Description>)
    ensures r == Decode(txBytes, room)
    ensures r.Got? ==>
        |descriptions| == |r.value.outputs|
        && forall i :: 0 <= i < |descriptions| ==> Describes(descriptions[i], r.value.outputs[i].script)
  {
    hide LeValue, ReadInput, ReadTail, Describes;
    descriptions := [];
    var reader := new ByteReader(txBytes);
    var version := reader.ReadU32Le();
    if version.Failed? {
      return Failed(version.error), [];
    }
    var marker := reader.Remaining() >= 2 && txBytes[reader.pos] == 0 && txBytes[reader.pos + 1] == 1;
    if marker {
      var zero := reader.ReadU8();
      var one := reader.ReadU8();
    }
    var input := DecodeInput(reader);
    if input.Failed? {
      return Failed(input.error), [];
    }
    var tail;
    tail, descriptions := DecodeTail(reader, marker, room);
    if tail.Failed? {
      return Failed(tail.error), [];
    }
    r := Got(Tx(version.value, marker, input.value, tail.value.0, tail.value.1), reader.pos);
  }

  method DecodeTail(reader: ByteReader, marker: bool, room: nat)
    returns (r: Read<(seq<TxOutput>, nat)>, descriptions: seq<Description>)
    requires reader.Valid()
    modifies reader
    ensures reader.Valid() && r == ReadTail(reader.bytes, old(reader.pos), marker, room)
    ensures r.Got? ==> reader.pos == r.next
    ensures r.Got? ==>
        |descriptions| == |r.value.0|
        && forall i :: 0 <= i < |descriptions| ==> Describes(descriptions[i], r.value.0[i].script)
  {
    hide ReadLe, ReadCompact, ReadBlob, SkipItems, ReadOutputs, Describes;
    descriptions := [];
    var outputCount := reader.ReadCompactSize();
    if outputCount.Failed? {
      return Failed(outputCount.error), [];
    }
    if outputCount.value > room {
      return Failed(ReserveFailed), [];
    }
    var outputs;
    outputs, descriptions := DecodeOutputs(reader, outputCount.value);
    if outputs.Failed? {
      return Failed(outputs.error), [];
    }
    if marker {
      var itemCount := reader.ReadCompactSize();
      if itemCount.Failed? {
        return Failed(itemCount.error), [];
      }
      var items := DecodeItems(reader, itemCount.value);
      if items.Failed? {
        return Failed(items.error), [];
      }
    }
    var locktime := reader.ReadU32Le();
    if locktime.Failed? {
      return Failed(locktime.error), [];
    }
    if reader.Remaining() != 0 {
      return Failed(TrailingBytes), [];
    }
    r := Got((outputs.value, locktime.value), reader.pos);
  }

  method DecodeInput(reader: ByteReader) returns (r: Read<TxInput>)
    requires reader.Valid()
    modifies reader
    ensures reader.Valid() && r == ReadInput(reader.bytes, old(reader.pos)) && (r.Got? ==> reader.pos == r.next)
  {
    hide ReadLe, ReadCompact, ReadBlob;
    var inputCount := reader.ReadCompactSize();
    if inputCount.Failed? {
      return Failed(inputCount.error);
    }
    if inputCount.value != 1 {
      return Failed(WrongInputCount);
    }
    var hash := reader.ReadBytes(32);
    if hash.Failed? {
      return Failed(hash.error);
    }
    var index := reader.ReadU32Le();
    if index.Failed? {
      return Failed(index.error);
    }
    var size := reader.ReadCompactSize();
    if size.Failed? {
      return Failed(size.error);
    }
    var script := reader.ReadBytes(size.value);
    if script.Failed? {
      return Failed(script.error);
    }
    var sequence := reader.ReadU32Le();
    if sequence.Failed? {
      return Failed(sequence.error);
    }
    r := Got(TxInput(hash.value, index.value, script.value, sequence.value), reader.pos);
  }

  method DecodeOutputs(reader: ByteReader, count: nat) returns (r: Read<seq<TxOutput>>, descriptions: seq<Description>)
    requires reader.Valid()
    modifies reader
    ensures reader.Valid() && r == ReadOutputs(reader.bytes, old(reader.pos), count)
    ensures r.Got? ==> reader.pos == r.next
    ensures r.Got? ==>
        |descriptions| == |r.value| && forall i :: 0 <= i < |r.value| ==> Describes(descriptions[i], r.value[i].script)
  {
    hide ReadLe, ReadCompact, ReadBlob, Describes;
    descriptions := [];
    var outputs: seq<TxOutput>, i := [], 0;
    while i < count
      invariant reader.Valid() && i <= count
      invariant ReadOutputs(reader.bytes, old(reader.pos), i) == Got(outputs, reader.pos)
      invariant |descriptions| == |outputs|
      invariant forall k :: 0 <= k < |outputs| ==> Describes(descriptions[k], outputs[k].script)
      decreases reader.Remaining()
    {
      OutputsStop(reader.bytes, old(reader.pos), i + 1, count);
      var value := reader.ReadU64Le();
      if value.Failed? {
        return Failed(value.error), [];
      }
      var size := reader.ReadCompactSize();
      if size.Failed? {
        return Failed(size.error), [];
      }
      var script := reader.ReadBytes(size.value);
      if script.Failed? {
        return Failed(script.error), [];
      }
      var described := Describe(script.value);
      descriptions := descriptions + [described];
      outputs := outputs + [TxOutput(value.value, script.value)];
      i := i + 1;
    }
    r := Got(outputs, reader.pos);
  }

  method DecodeItems(reader: ByteReader, count: nat) returns (r: Read<()>)
    requires reader.Valid()
    modifies reader
    ensures reader.Valid() && r == SkipItems(reader.bytes, old(reader.pos), count) && (r.Got? ==> reader.pos == r.next)
  {
    hide ReadLe, ReadCompact, ReadBlob;
    var i := 0;
    while i < count
      invariant reader.Valid() && i <= count
      invariant SkipItems(reader.bytes, old(reader.pos), i) == Got((), reader.pos)
      decreases reader.Remaining()
    {
      ItemsStop(reader.bytes, old(reader.pos), i + 1, count);
      var size := reader.ReadCompactSize();
      if size.Failed? {
        return Failed(size.error);
      }
      var item := reader.ReadBytes(size.value);
      if item.Failed? {
        return Failed(item.error);
      }
      i := i + 1;
    }
    r := Got((), reader.pos);
  }

  /** A failure among the first outputs is the failure of the list. */
  lemma {:induction false} OutputsStop(b: seq<byte>, pos: nat, i: nat, count: nat)
    requires pos <= |b| && i <= count
    ensures ReadOutputs(b, pos, i).Failed? ==> ReadOutputs(b, pos, count) == ReadOutputs(b, pos, i)
    decreases count
  {
    hide ReadOutput;
    if i < count {
      OutputsStop(b, pos, i, count - 1);
    }
  }

  lemma {:induction false} ItemsStop(b: seq<byte>, pos: nat, i: nat, count: nat)
    requires pos <= |b| && i <= count
    ensures SkipItems(b, pos, i).Failed? ==> SkipItems(b, pos, count) == SkipItems(b, pos, i)
    decreases count
  {
    hide ReadSized;
    if i < count {
      ItemsStop(b, pos, i, count - 1);
    }
  }

  // ----- serialising -----

  function CompactSize(n: nat): seq<byte> {
    if n < 0xfd then LeBytes(n, 1)
    else if n <= 0xffff then [0xfd] + LeBytes(n, 2)
    else if n <= 0xffff_ffff then [0xfe] + LeBytes(n, 4)
    else [0xff] + LeBytes(n, 8)
  }

  function Sized(bytes: seq<byte>): seq<byte> {
    CompactSize(|bytes|) + bytes
  }

  /** The input after its count. */
  function InputBody(i: TxInput): seq<byte> {
    i.prevoutHash + (LeBytes(i.prevoutIndex, 4) + (Sized(i.scriptSig) + LeBytes(i.sequence, 4)))
  }

  function SerializedInput(i: TxInput): seq<byte> {
    CompactSize(1) + InputBody(i)
  }

  function SerializedOutput(o: TxOutput): seq<byte> {
    LeBytes(o.value, 8) + Sized(o.script)
  }

  function SerializedOutputs(outputs: seq<TxOutput>): seq<byte> {
    if outputs == [] then []
    else SerializedOutputs(outputs[..|outputs| - 1]) + SerializedOutput(outputs[|outputs| - 1])
  }

  function SerializedItems(items: seq<seq<byte>>): seq<byte> {
    if items == [] then [] else SerializedItems(items[..|items| - 1]) + Sized(items[|items| - 1])
  }

  function MarkerBytes(marker: bool): seq<byte> {
    if marker then [0, 1] else []
  }

  function WitnessBytes(marker: bool, items: seq<seq<byte>>): seq<byte> {
    if marker then CompactSize(|items|) + SerializedItems(items) else []
  }

  /** Everything after the input. */
  function TailBytes(tx: Tx, witnessItems: seq<seq<byte>>): seq<byte> {
    CompactSize(|tx.outputs|)
    + (SerializedOutputs(tx.outputs) + (WitnessBytes(tx.marker, witnessItems) + LeBytes(tx.locktime, 4)))
  }

  /** BIP 144: the marker and flag follow the version, and the witness items precede the lock time. */
  function Serialized(tx: Tx, witnessItems: seq<seq<byte>>): seq<byte> {
    LeBytes(tx.version, 4) + (MarkerBytes(tx.marker) + (SerializedInput(tx.input) + TailBytes(tx, witnessItems)))
  }

  predicate Fits(bytes: seq<byte>) {
    |bytes| < 0x1_0000_0000_0000_0000
  }

  predicate OutputFits(o: TxOutput) {
    o.value < 0x1_0000_0000_0000_0000 && Fits(o.script)
  }

  /** Every number fits its field. */
  ghost predicate TxFits(tx: Tx, witnessItems: seq<seq<byte>>) {
    && tx.version < 0x1_0000_0000 && tx.locktime < 0x1_0000_0000
    && InputFits(tx.input)
    && |tx.outputs| < 0x1_0000_0000_0000_0000 && (forall k :: 0 <= k < |tx.outputs| ==> OutputFits(tx.outputs[k]))
    && |witnessItems| < 0x1_0000_0000_0000_0000 && (forall k :: 0 <= k < |witnessItems| ==> Fits(witnessItems[k]))
  }

  // ----- the round trip -----

  /** The part stands in the bytes at the position. */
  predicate At(b: seq<byte>, pos: nat, part: seq<byte>) {
    pos + |part| <= |b| && b[pos..pos + |part|] == part
  }

  lemma AtSplit(b: seq<byte>, pos: nat, x: seq<byte>, y: seq<byte>)
    requires At(b, pos, x + y)
    ensures At(b, pos, x) && At(b, pos + |x|, y)
  {
    var part := b[pos..pos + |x + y|];
    assert part[..|x|] == x && part[|x|..] == y;
  }

  lemma ReadLeAt(b: seq<byte>, pos: nat, n: nat, k: nat, bound: nat)
    requires At(b, pos, LeBytes(n, k)) && n < bound && bound == Pow2(8 * k)
    ensures ReadLe(b, pos, k) == Got(n, pos + k)
  {
    hide LeValue, Pow2;
    LeRoundTrip(n, k);
    SmallMod(n, bound);
  }

  lemma ReadCompactAt(b: seq<byte>, pos: nat, n: nat)
    requires n < 0x1_0000_0000_0000_0000 && At(b, pos, CompactSize(n))
    ensures ReadCompact(b, pos) == Got(n, pos + |CompactSize(n)|)
  {
    Pow2Values();
    hide LeValue, Pow2;
    if n < 0xfd {
      ReadLeAt(b, pos, n, 1, 0x100);
    } else if n <= 0xffff {
      AtSplit(b, pos, [0xfd], LeBytes(n, 2));
      PrefixByte(b, pos, 0xfd);
      ReadLeAt(b, pos + 1, n, 2, 0x1_0000);
    } else if n <= 0xffff_ffff {
      AtSplit(b, pos, [0xfe], LeBytes(n, 4));
      PrefixByte(b, pos, 0xfe);
      ReadLeAt(b, pos + 1, n, 4, 0x1_0000_0000);
    } else {
      AtSplit(b, pos, [0xff], LeBytes(n, 8));
      PrefixByte(b, pos, 0xff);
      ReadLeAt(b, pos + 1, n, 8, 0x1_0000_0000_0000_0000);
    }
  }

  lemma PrefixByte(b: seq<byte>, pos: nat, x: byte)
    requires At(b, pos, [x])
    ensures ReadLe(b, pos, 1) == Got(ByteValue(x), pos + 1)
  {
    hide LeValue;
    assert b[pos..pos + 1][0] == x;
    OneByte(b, pos);
  }

  lemma ReadSizedAt(b: seq<byte>, pos: nat, bytes: seq<byte>)
    requires Fits(bytes) && At(b, pos, Sized(bytes))
    ensures ReadSized(b, pos) == Got(bytes, pos + |Sized(bytes)|)
    ensures ReadCompact(b, pos) == Got(|bytes|, pos + |CompactSize(|bytes|)|)
  {
    hide CompactSize, ReadCompact;
    AtSplit(b, pos, CompactSize(|bytes|), bytes);
    ReadCompactAt(b, pos, |bytes|);
  }

  predicate InputFits(i: TxInput) {
    |i.prevoutHash| == 32 && i.prevoutIndex < 0x1_0000_0000 && Fits(i.scriptSig) && i.sequence < 0x1_0000_0000
  }

  /** The count may stand in any of its forms. */
  lemma ReadInputBody(b: seq<byte>, pos: nat, next: nat, i: TxInput)
    requires InputFits(i) && pos <= |b| && ReadCompact(b, pos) == Got(1, next) && At(b, next, InputBody(i))
    ensures ReadInput(b, pos) == Got(i, next + |InputBody(i)|)
    ensures ReadCompact(b, next + 36) == Got(|i.scriptSig|, next + 36 + |CompactSize(|i.scriptSig|)|)
  {
    hide CompactSize, ReadCompact, ReadLe, Sized, At, Pow2, LeBytes;
    FieldBounds();
    var tail3 := Sized(i.scriptSig) + LeBytes(i.sequence, 4);
    var tail2 := LeBytes(i.prevoutIndex, 4) + tail3;
    AtSplit(b, next, i.prevoutHash, tail2);
    ReadBlobAt(b, next, i.prevoutHash);
    AtSplit(b, next + 32, LeBytes(i.prevoutIndex, 4), tail3);
    ReadLeAt(b, next + 32, i.prevoutIndex, 4, 0x1_0000_0000);
    AtSplit(b, next + 36, Sized(i.scriptSig), LeBytes(i.sequence, 4));
    ReadSizedAt(b, next + 36, i.scriptSig);
    ReadLeAt(b, next + 36 + |Sized(i.scriptSig)|, i.sequence, 4, 0x1_0000_0000);
  }

  lemma ReadInputAt(b: seq<byte>, pos: nat, i: TxInput)
    requires InputFits(i) && At(b, pos, SerializedInput(i))
    ensures ReadInput(b, pos) == Got(i, pos + |SerializedInput(i)|)
  {
    hide CompactSize, ReadCompact, InputBody, ReadInput, InputFits;
    AtSplit(b, pos, CompactSize(1), InputBody(i));
    ReadCompactAt(b, pos, 1);
    ReadInputBody(b, pos, pos + |CompactSize(1)|, i);
  }

  lemma ReadBlobAt(b: seq<byte>, pos: nat, bytes: seq<byte>)
    requires At(b, pos, bytes)
    ensures ReadBlob(b, pos, |bytes|) == Got(bytes, pos + |bytes|)
  {
  }

  lemma ReadOutputAt(b: seq<byte>, pos: nat, o: TxOutput)
    requires OutputFits(o) && At(b, pos, SerializedOutput(o))
    ensures ReadOutput(b, pos) == Got(o, pos + |SerializedOutput(o)|)
  {
    Pow2Values();
    hide ReadLe, ReadSized, Sized, At, Pow2;
    AtSplit(b, pos, LeBytes(o.value, 8), Sized(o.script));
    ReadLeAt(b, pos, o.value, 8, 0x1_0000_0000_0000_0000);
    ReadSizedAt(b, pos + 8, o.script);
  }

  lemma {:induction false} ReadOutputsAt(b: seq<byte>, pos: nat, outputs: seq<TxOutput>)
    requires At(b, pos, SerializedOutputs(outputs)) && forall k :: 0 <= k < |outputs| ==> OutputFits(outputs[k])
    ensures ReadOutputs(b, pos, |outputs|) == Got(outputs, pos + |SerializedOutputs(outputs)|)
  {
    hide ReadOutput, SerializedOutput, OutputFits;
    if outputs != [] {
      var front, last := outputs[..|outputs| - 1], outputs[|outputs| - 1];
      AtSplit(b, pos, SerializedOutputs(front), SerializedOutput(last));
      ReadOutputsAt(b, pos, front);
      ReadOutputAt(b, pos + |SerializedOutputs(front)|, last);
      assert front + [last] == outputs;
    }
  }

  lemma {:induction false} SkipItemsAt(b: seq<byte>, pos: nat, items: seq<seq<byte>>)
    requires At(b, pos, SerializedItems(items)) && forall k :: 0 <= k < |items| ==> Fits(items[k])
    ensures SkipItems(b, pos, |items|) == Got((), pos + |SerializedItems(items)|)
  {
    hide ReadSized, Sized, Fits;
    if items != [] {
      var front, last := items[..|items| - 1], items[|items| - 1];
      AtSplit(b, pos, SerializedItems(front), Sized(last));
      SkipItemsAt(b, pos, front);
      ReadSizedAt(b, pos + |SerializedItems(front)|, last);
    }
  }

  lemma MarkerAt(b: seq<byte>, pos: nat, marker: bool)
    requires At(b, pos, MarkerBytes(marker)) && (!marker ==> pos < |b| && b[pos] != 0)
    ensures HasMarker(b, pos) == marker
  {
    if marker {
      assert b[pos..pos + 2][0] == 0 && b[pos..pos + 2][1] == 1;
    }
  }

  lemma FirstByte(b: seq<byte>, pos: nat, i: TxInput)
    requires At(b, pos, SerializedInput(i))
    ensures pos < |b| && b[pos] == 1
  {
    hide InputBody;
    OneCompact();
    assert b[pos..pos + |SerializedInput(i)|][0] == 1;
  }

  lemma OneCompact()
    ensures CompactSize(1) == [1]
  {
    assert Shr(1, 0) == 1;
  }

  lemma WitnessAt(b: seq<byte>, pos: nat, marker: bool, items: seq<seq<byte>>)
    requires At(b, pos, WitnessBytes(marker, items))
    requires |items| < 0x1_0000_0000_0000_0000 && forall k :: 0 <= k < |items| ==> Fits(items[k])
    ensures marker ==> SkipWitness(b, pos) == Got((), pos + |WitnessBytes(marker, items)|)
  {
    hide CompactSize, ReadCompact, SkipItems, SerializedItems, Fits;
    if marker {
      AtSplit(b, pos, CompactSize(|items|), SerializedItems(items));
      ReadCompactAt(b, pos, |items|);
      SkipItemsAt(b, pos + |CompactSize(|items|)|, items);
    }
  }

  /** The tail reads back wherever it stands at the end of the bytes. */
  lemma TailAt(b: seq<byte>, pos: nat, tx: Tx, witnessItems: seq<seq<byte>>, room: nat)
    requires TxFits(tx, witnessItems) && |tx.outputs| <= room
    requires At(b, pos, TailBytes(tx, witnessItems)) && pos + |TailBytes(tx, witnessItems)| == |b|
    ensures ReadTail(b, pos, tx.marker, room) == Got((tx.outputs, tx.locktime), |b|)
  {
    hide CompactSize, SerializedOutputs, WitnessBytes, At, Pow2, LeBytes, Fits, InputFits, OutputFits, ReadLe,
         ReadCompact, ReadOutputs, SkipWitness;
    FieldBounds();
    var tail5 := WitnessBytes(tx.marker, witnessItems) + LeBytes(tx.locktime, 4);
    AtSplit(b, pos, CompactSize(|tx.outputs|), SerializedOutputs(tx.outputs) + tail5);
    ReadCompactAt(b, pos, |tx.outputs|);
    var p3 := pos + |CompactSize(|tx.outputs|)|;
    AtSplit(b, p3, SerializedOutputs(tx.outputs), tail5);
    ReadOutputsAt(b, p3, tx.outputs);
    var p4 := p3 + |SerializedOutputs(tx.outputs)|;
    AtSplit(b, p4, WitnessBytes(tx.marker, witnessItems), LeBytes(tx.locktime, 4));
    WitnessAt(b, p4, tx.marker, witnessItems);
    WitnessLength(tx.marker, witnessItems);
    ReadLeAt(b, p4 + |WitnessBytes(tx.marker, witnessItems)|, tx.locktime, 4, 0x1_0000_0000);
  }

  /** The parts stand in a serialised transaction one after the other. */
  lemma PartsAt(tx: Tx, witnessItems: seq<seq<byte>>)
    ensures var b, p1 := Serialized(tx, witnessItems), InputStart(tx.marker);
            && At(b, 0, LeBytes(tx.version, 4))
            && At(b, 4, MarkerBytes(tx.marker))
            && At(b, p1, SerializedInput(tx.input))
            && HasMarker(b, 4) == tx.marker
            && At(b, p1 + |SerializedInput(tx.input)|, TailBytes(tx, witnessItems))
            && p1 + |SerializedInput(tx.input)| + |TailBytes(tx, witnessItems)| == |b|
  {
    hide SerializedInput, TailBytes, MarkerBytes, At, LeBytes, HasMarker;
    var b := Serialized(tx, witnessItems);
    AtWhole(b);
    var rest2 := SerializedInput(tx.input) + TailBytes(tx, witnessItems);
    AtSplit(b, 0, LeBytes(tx.version, 4), MarkerBytes(tx.marker) + rest2);
    AtSplit(b, 4, MarkerBytes(tx.marker), rest2);
    MarkerLength(tx.marker);
    AtSplit(b, InputStart(tx.marker), SerializedInput(tx.input), TailBytes(tx, witnessItems));
    FirstByte(b, InputStart(tx.marker), tx.input);
    MarkerAt(b, 4, tx.marker);
  }

  /** Decoding a serialised transaction gives back its fields and takes the whole input; the witness is skipped. */
  lemma SerializedDecodes(tx: Tx, witnessItems: seq<seq<byte>>, room: nat)
    requires TxFits(tx, witnessItems) && |tx.outputs| <= room
    ensures Decode(Serialized(tx, witnessItems), room) == Got(tx, |Serialized(tx, witnessItems)|)
  {
    hide SerializedInput, TailBytes, MarkerBytes, At, Pow2, LeBytes, InputFits, Fits, OutputFits, ReadLe, ReadInput,
         ReadTail, HasMarker, Serialized;
    FieldBounds();
    var b := Serialized(tx, witnessItems);
    PartsAt(tx, witnessItems);
    ReadLeAt(b, 0, tx.version, 4, 0x1_0000_0000);
    ReadInputAt(b, InputStart(tx.marker), tx.input);
    TailAt(b, InputStart(tx.marker) + |SerializedInput(tx.input)|, tx, witnessItems, room);
  }

  lemma FieldBounds()
    ensures Pow2(32) == 0x1_0000_0000
  {
    Pow2Values();
  }

  lemma AtWhole(b: seq<byte>)
    ensures At(b, 0, b)
  {
  }

  lemma MarkerLength(marker: bool)
    ensures |MarkerBytes(marker)| == if marker then 2 else 0
  {
  }

  lemma WitnessLength(marker: bool, items: seq<seq<byte>>)
    ensures !marker ==> |WitnessBytes(marker, items)| == 0
  {
  }

  // ----- bytes that do not decode -----

  lemma ReadsOn(b: seq<byte>, more: seq<byte>, pos: nat, k: nat)
    requires pos <= |b|
    ensures ReadLe(b, pos, k).Got? ==> ReadLe(b + more, pos, k) == ReadLe(b, pos, k)
    ensures ReadBlob(b, pos, k).Got? ==> ReadBlob(b + more, pos, k) == ReadBlob(b, pos, k)
  {
    hide LeValue;
    assert pos + k <= |b| ==> (b + more)[pos..pos + k] == b[pos..pos + k];
  }

  lemma CompactReadsOn(b: seq<byte>, more: seq<byte>, pos: nat)
    requires pos <= |b|
    ensures ReadCompact(b, pos).Got? ==> ReadCompact(b + more, pos) == ReadCompact(b, pos)
  {
    hide ReadLe;
    ReadsOn(b, more, pos, 1);
    if ReadLe(b, pos, 1).Got? {
      var next := ReadLe(b, pos, 1).next;
      ReadsOn(b, more, next, 2);
      ReadsOn(b, more, next, 4);
      ReadsOn(b, more, next, 8);
    }
  }

  lemma SizedReadsOn(b: seq<byte>, more: seq<byte>, pos: nat)
    requires pos <= |b|
    ensures ReadSized(b, pos).Got? ==> ReadSized(b + more, pos) == ReadSized(b, pos)
  {
    hide ReadCompact, ReadBlob;
    CompactReadsOn(b, more, pos);
    if ReadCompact(b, pos).Got? {
      ReadsOn(b, more, ReadCompact(b, pos).next, ReadCompact(b, pos).value);
    }
  }

  lemma InputReadsOn(b: seq<byte>, more: seq<byte>, pos: nat)
    requires pos <= |b|
    ensures ReadInput(b, pos).Got? ==>
        ReadInput(b + more, pos) == ReadInput(b, pos) && ReadInput(b, pos).next >= pos + 33
  {
    hide ReadCompact, ReadBlob, ReadLe, ReadSized;
    if ReadInput(b, pos).Got? {
      CompactReadsOn(b, more, pos);
      var p1 := ReadCompact(b, pos).next;
      ReadsOn(b, more, p1, 32);
      ReadsOn(b, more, p1 + 32, 4);
      SizedReadsOn(b, more, p1 + 36);
      ReadsOn(b, more, ReadSized(b, p1 + 36).next, 4);
    }
  }

  lemma OutputReadsOn(b: seq<byte>, more: seq<byte>, pos: nat)
    requires pos <= |b|
    ensures ReadOutput(b, pos).Got? ==> ReadOutput(b + more, pos) == ReadOutput(b, pos)
  {
    hide ReadLe, ReadSized;
    ReadsOn(b, more, pos, 8);
    if ReadLe(b, pos, 8).Got? {
      SizedReadsOn(b, more, pos + 8);
    }
  }

  lemma {:induction false} OutputsReadOn(b: seq<byte>, more: seq<byte>, pos: nat, count: nat)
    requires pos <= |b|
    ensures ReadOutputs(b, pos, count).Got? ==> ReadOutputs(b + more, pos, count) == ReadOutputs(b, pos, count)
    decreases count
  {
    hide ReadOutput;
    if count > 0 {
      OutputsReadOn(b, more, pos, count - 1);
      if ReadOutputs(b, pos, count - 1).Got? {
        OutputReadsOn(b, more, ReadOutputs(b, pos, count - 1).next);
      }
    }
  }

  lemma {:induction false} ItemsReadOn(b: seq<byte>, more: seq<byte>, pos: nat, count: nat)
    requires pos <= |b|
    ensures SkipItems(b, pos, count).Got? ==> SkipItems(b + more, pos, count) == SkipItems(b, pos, count)
    decreases count
  {
    hide ReadSized;
    if count > 0 {
      ItemsReadOn(b, more, pos, count - 1);
      if SkipItems(b, pos, count - 1).Got? {
        SizedReadsOn(b, more, SkipItems(b, pos, count - 1).next);
      }
    }
  }

  lemma WitnessReadsOn(b: seq<byte>, more: seq<byte>, pos: nat)
    requires pos <= |b|
    ensures SkipWitness(b, pos).Got? ==> SkipWitness(b + more, pos) == SkipWitness(b, pos)
  {
    hide ReadCompact, SkipItems;
    CompactReadsOn(b, more, pos);
    if ReadCompact(b, pos).Got? {
      ItemsReadOn(b, more, ReadCompact(b, pos).next, ReadCompact(b, pos).value);
    }
  }

  /** Bytes added to a transaction that decodes are found at its end, whatever they are. */
  lemma ExtensionRejected(b: seq<byte>, more: seq<byte>, room: nat)
    requires Decode(b, room).Got? && more != []
    ensures Decode(b + more, room) == Failed(TrailingBytes)
  {
    hide ReadLe, ReadCompact, ReadInput, ReadOutputs, SkipWitness;
    ReadsOn(b, more, 0, 4);
    var marker := HasMarker(b, 4);
    var p1 := if marker then 6 else 4;
    InputReadsOn(b, more, p1);
    assert HasMarker(b + more, 4) == marker;
    var p2 := ReadInput(b, p1).next;
    CompactReadsOn(b, more, p2);
    var count := ReadCompact(b, p2);
    OutputsReadOn(b, more, count.next, count.value);
    var p3 := ReadOutputs(b, count.next, count.value).next;
    WitnessReadsOn(b, more, p3);
    ReadsOn(b, more, if marker then SkipWitness(b, p3).next else p3, 4);
  }

  /** A transaction cut short never decodes. */
  lemma TruncationRejected(b: seq<byte>, n: nat, room: nat)
    requires Decode(b, room).Got? && n < |b|
    ensures Decode(b[..n], room).Failed?
  {
    hide Decode;
    assert b == b[..n] + b[n..];
    if Decode(b[..n], room).Got? {
      ExtensionRejected(b[..n], b[n..], room);
    }
  }

  /** A count is never larger than the bytes left allow: nine for an output, one for a witness item. */
  lemma {:induction false} CountIsPaidFor(b: seq<byte>, pos: nat, count: nat)
    requires pos <= |b|
    ensures ReadOutputs(b, pos, count).Got? ==> pos + 9 * count <= |b| && |ReadOutputs(b, pos, count).value| == count
    ensures SkipItems(b, pos, count).Got? ==> pos + count <= |b|
    ensures ReadOutputs(b, pos, count).Got? ==> ReadOutputs(b, pos, count).next >= pos + 9 * count
    decreases count
  {
    hide ReadSized, LeValue;
    if count > 0 {
      CountIsPaidFor(b, pos, count - 1);
    }
  }
}
