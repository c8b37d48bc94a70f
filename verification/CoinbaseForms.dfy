/** Which byte strings are the serialisation of what they decode to. */
module CoinbaseForms {
  import opened BitMath
  import opened Bytes
  import opened CoinbaseTx

  // ----- shortest forms -----

  /** The CompactSize read here is in its shortest form. */
  predicate Shortest(b: seq<byte>, pos: nat)
    requires pos <= |b|
  {
    match ReadCompact(b, pos)
    case Failed(_) => true
    case Got(n, next) => next - pos == |CompactSize(n)|
  }

  predicate ShortestInput(b: seq<byte>, pos: nat)
    requires pos <= |b| && ReadInput(b, pos).Got?
  {
    Shortest(b, pos) && Shortest(b, ReadCompact(b, pos).next + 36)
  }

  predicate ShortestOutputs(b: seq<byte>, pos: nat, count: nat)
    requires pos <= |b| && ReadOutputs(b, pos, count).Got?
    decreases count
  {
    count == 0
    || (ShortestOutputs(b, pos, count - 1) && Shortest(b, ReadOutputs(b, pos, count - 1).next + 8))
  }

  predicate ShortestItems(b: seq<byte>, pos: nat, count: nat)
    requires pos <= |b| && SkipItems(b, pos, count).Got?
    decreases count
  {
    count == 0
    || (ShortestItems(b, pos, count - 1) && Shortest(b, SkipItems(b, pos, count - 1).next))
  }

  predicate ShortestWitness(b: seq<byte>, pos: nat)
    requires pos <= |b| && SkipWitness(b, pos).Got?
  {
    Shortest(b, pos) && ShortestItems(b, ReadCompact(b, pos).next, ReadCompact(b, pos).value)
  }

  predicate ShortestTail(b: seq<byte>, pos: nat, marker: bool, room: nat)
    requires pos <= |b| && ReadTail(b, pos, marker, room).Got?
  {
    var count := ReadCompact(b, pos);
    && Shortest(b, pos) && ShortestOutputs(b, count.next, count.value)
    && (marker ==> ShortestWitness(b, ReadOutputs(b, count.next, count.value).next))
  }

  /** Every CompactSize that decoding reads is in its shortest form. */
  predicate ShortestForms(b: seq<byte>, room: nat)
    requires Decode(b, room).Got?
  {
    var marker := HasMarker(b, 4);
    && ShortestInput(b, InputStart(marker))
    && ShortestTail(b, ReadInput(b, InputStart(marker)).next, marker, room)
  }

  // ----- what is read stands there -----

  lemma AtJoin(b: seq<byte>, pos: nat, x: seq<byte>, y: seq<byte>)
    requires At(b, pos, x) && At(b, pos + |x|, y)
    ensures At(b, pos, x + y)
  {
  }

  lemma LeBack(b: seq<byte>, pos: nat, k: nat, bound: nat)
    requires pos <= |b| && ReadLe(b, pos, k).Got? && bound == Pow2(8 * k)
    ensures At(b, pos, LeBytes(ReadLe(b, pos, k).value, k)) && ReadLe(b, pos, k).value < bound
  {
    hide LeValue, LeBytes, Pow2;
    LeBytesInverse(b[pos..pos + k]);
    LeValueBound(b[pos..pos + k]);
  }

  lemma BlobBack(b: seq<byte>, pos: nat, count: nat)
    requires pos <= |b| && ReadBlob(b, pos, count).Got?
    ensures At(b, pos, ReadBlob(b, pos, count).value) && |ReadBlob(b, pos, count).value| == count
  {
  }

  lemma CompactBounds(b: seq<byte>, pos: nat)
    requires pos <= |b| && ReadCompact(b, pos).Got?
    ensures ReadCompact(b, pos).value < 0x1_0000_0000_0000_0000
  {
    Pow2Values();
    hide LeValue, LeBytes, Pow2, ReadLe, At;
    var first := ReadLe(b, pos, 1);
    LeBack(b, pos, 1, 0x100);
    if first.value == 0xfd {
      LeBack(b, first.next, 2, 0x1_0000);
    } else if first.value == 0xfe {
      LeBack(b, first.next, 4, 0x1_0000_0000);
    } else if first.value == 0xff {
      LeBack(b, first.next, 8, 0x1_0000_0000_0000_0000);
    }
  }

  lemma PrefixBack(b: seq<byte>, pos: nat, x: byte)
    requires pos < |b| && ReadLe(b, pos, 1).value == ByteValue(x)
    ensures At(b, pos, [x])
  {
    hide LeValue;
    OneByte(b, pos);
    ByteValueInjective(b[pos], x);
  }

  /** The bytes read are the CompactSize of the number exactly when they are as few. */
  lemma CompactBack(b: seq<byte>, pos: nat)
    requires pos <= |b| && ReadCompact(b, pos).Got?
    ensures var r := ReadCompact(b, pos);
            Shortest(b, pos) <==> At(b, pos, CompactSize(r.value)) && r.next == pos + |CompactSize(r.value)|
  {
    if Shortest(b, pos) {
      ShortestBack(b, pos);
    }
  }

  lemma ShortestBack(b: seq<byte>, pos: nat)
    requires pos <= |b| && ReadCompact(b, pos).Got? && Shortest(b, pos)
    ensures At(b, pos, CompactSize(ReadCompact(b, pos).value))
  {
    Pow2Values();
    hide LeValue, LeBytes, Pow2, ReadLe, At;
    CompactBounds(b, pos);
    ReadLeNext(b, pos, 1);
    var first := ReadLe(b, pos, 1);
    LeBack(b, pos, 1, 0x100);
    if first.value == 0xfd {
      ReadLeNext(b, first.next, 2);
      LeBack(b, first.next, 2, 0x1_0000);
      PrefixBack(b, pos, 0xfd);
      AtJoin(b, pos, [0xfd], LeBytes(ReadLe(b, first.next, 2).value, 2));
    } else if first.value == 0xfe {
      ReadLeNext(b, first.next, 4);
      LeBack(b, first.next, 4, 0x1_0000_0000);
      PrefixBack(b, pos, 0xfe);
      AtJoin(b, pos, [0xfe], LeBytes(ReadLe(b, first.next, 4).value, 4));
    } else if first.value == 0xff {
      ReadLeNext(b, first.next, 8);
      LeBack(b, first.next, 8, 0x1_0000_0000_0000_0000);
      PrefixBack(b, pos, 0xff);
      AtJoin(b, pos, [0xff], LeBytes(ReadLe(b, first.next, 8).value, 8));
    }
  }

  lemma ReadLeNext(b: seq<byte>, pos: nat, k: nat)
    requires pos <= |b| && ReadLe(b, pos, k).Got?
    ensures ReadLe(b, pos, k).next == pos + k <= |b|
  {
    hide LeValue;
  }

  lemma SizedBack(b: seq<byte>, pos: nat)
    requires pos <= |b| && ReadSized(b, pos).Got?
    ensures Fits(ReadSized(b, pos).value)
    ensures Shortest(b, pos) ==>
        At(b, pos, Sized(ReadSized(b, pos).value)) && ReadSized(b, pos).next == pos + |Sized(ReadSized(b, pos).value)|
  {
    hide CompactSize, ReadCompact, ReadBlob, At, Shortest;
    var size := ReadCompact(b, pos);
    CompactBounds(b, pos);
    BlobBack(b, size.next, size.value);
    CompactBack(b, pos);
    if Shortest(b, pos) {
      AtJoin(b, pos, CompactSize(size.value), ReadBlob(b, size.next, size.value).value);
    }
  }

  lemma InputBack(b: seq<byte>, pos: nat)
    requires pos <= |b| && ReadInput(b, pos).Got?
    ensures InputFits(ReadInput(b, pos).value)
    ensures ShortestInput(b, pos) ==>
        At(b, pos, SerializedInput(ReadInput(b, pos).value))
        && ReadInput(b, pos).next == pos + |SerializedInput(ReadInput(b, pos).value)|
  {
    hide CompactSize, ReadCompact, ReadBlob, ReadLe, ReadSized, Sized, At, Shortest, Pow2, LeBytes;
    FieldBounds();
    var i, p1 := ReadInput(b, pos).value, ReadCompact(b, pos).next;
    InputSteps(b, pos);
    BlobBack(b, p1, 32);
    LeBack(b, p1 + 32, 4, 0x1_0000_0000);
    SizedBack(b, p1 + 36);
    var p4 := ReadSized(b, p1 + 36).next;
    LeBack(b, p4, 4, 0x1_0000_0000);
    if ShortestInput(b, pos) {
      CompactBack(b, pos);
      SizedSame(b, p1 + 36);
      AtJoin(b, p1 + 36, Sized(i.scriptSig), LeBytes(i.sequence, 4));
      AtJoin(b, p1 + 32, LeBytes(i.prevoutIndex, 4), Sized(i.scriptSig) + LeBytes(i.sequence, 4));
      AtJoin(b, p1, i.prevoutHash, LeBytes(i.prevoutIndex, 4) + (Sized(i.scriptSig) + LeBytes(i.sequence, 4)));
      AtJoin(b, pos, CompactSize(1), InputBody(i));
    }
  }

  lemma SizedSame(b: seq<byte>, pos: nat)
    requires pos <= |b| && ReadSized(b, pos).Got?
    ensures ReadCompact(b, pos).Got?
  {
    hide ReadCompact, ReadBlob;
  }

  lemma InputSteps(b: seq<byte>, pos: nat)
    requires pos <= |b| && ReadInput(b, pos).Got?
    ensures ReadCompact(b, pos).Got? && ReadCompact(b, pos).value == 1
    ensures var p1 := ReadCompact(b, pos).next;
            && ReadBlob(b, p1, 32).Got? && ReadBlob(b, p1, 32).next == p1 + 32 <= |b|
            && ReadLe(b, p1 + 32, 4).Got? && ReadLe(b, p1 + 32, 4).next == p1 + 36 <= |b|
            && ReadSized(b, p1 + 36).Got? && ReadSized(b, p1 + 36).next <= |b|
            && ReadLe(b, ReadSized(b, p1 + 36).next, 4).Got?
  {
    hide ReadCompact, ReadSized, LeValue;
  }

  lemma OutputBack(b: seq<byte>, pos: nat)
    requires pos <= |b| && ReadOutput(b, pos).Got?
    ensures OutputFits(ReadOutput(b, pos).value) && pos + 8 <= |b|
    ensures Shortest(b, pos + 8) ==>
        At(b, pos, SerializedOutput(ReadOutput(b, pos).value))
        && ReadOutput(b, pos).next == pos + |SerializedOutput(ReadOutput(b, pos).value)|
  {
    Pow2Values();
    hide ReadLe, ReadSized, Sized, At, Shortest, Pow2, LeBytes;
    var o := ReadOutput(b, pos).value;
    ReadLeNext(b, pos, 8);
    LeBack(b, pos, 8, 0x1_0000_0000_0000_0000);
    SizedBack(b, pos + 8);
    if Shortest(b, pos + 8) {
      AtJoin(b, pos, LeBytes(o.value, 8), Sized(o.script));
    }
  }

  lemma {:induction false} OutputsBack(b: seq<byte>, pos: nat, count: nat)
    requires pos <= |b| && ReadOutputs(b, pos, count).Got?
    ensures |ReadOutputs(b, pos, count).value| == count
    ensures forall k :: 0 <= k < count ==> OutputFits(ReadOutputs(b, pos, count).value[k])
    ensures ShortestOutputs(b, pos, count) ==>
        At(b, pos, SerializedOutputs(ReadOutputs(b, pos, count).value))
        && ReadOutputs(b, pos, count).next == pos + |SerializedOutputs(ReadOutputs(b, pos, count).value)|
    decreases count
  {
    hide ReadOutput, SerializedOutput, OutputFits, Shortest;
    if count > 0 {
      OutputsBack(b, pos, count - 1);
      var front := ReadOutputs(b, pos, count - 1);
      OutputBack(b, front.next);
      var all := ReadOutputs(b, pos, count).value;
      assert all == front.value + [all[count - 1]] && all[..count - 1] == front.value;
      if ShortestOutputs(b, pos, count) {
        AtJoin(b, pos, SerializedOutputs(front.value), SerializedOutput(all[count - 1]));
      }
    }
  }

  /** The witness items that decoding skips. */
  function ItemsOf(b: seq<byte>, pos: nat, count: nat): (items: seq<seq<byte>>)
    requires pos <= |b| && SkipItems(b, pos, count).Got?
    ensures |items| == count
    decreases count
  {
    if count == 0 then []
    else ItemsOf(b, pos, count - 1) + [ReadSized(b, SkipItems(b, pos, count - 1).next).value]
  }

  lemma {:induction false} ItemsBack(b: seq<byte>, pos: nat, count: nat)
    requires pos <= |b| && SkipItems(b, pos, count).Got?
    ensures forall k :: 0 <= k < count ==> Fits(ItemsOf(b, pos, count)[k])
    ensures ShortestItems(b, pos, count) ==>
        At(b, pos, SerializedItems(ItemsOf(b, pos, count)))
        && SkipItems(b, pos, count).next == pos + |SerializedItems(ItemsOf(b, pos, count))|
    decreases count
  {
    hide ReadSized, Sized, Fits, Shortest;
    if count > 0 {
      ItemsBack(b, pos, count - 1);
      var front, at := ItemsOf(b, pos, count - 1), SkipItems(b, pos, count - 1).next;
      SizedBack(b, at);
      var all := ItemsOf(b, pos, count);
      assert all[..count - 1] == front && all[count - 1] == ReadSized(b, at).value;
      if ShortestItems(b, pos, count) {
        AtJoin(b, pos, SerializedItems(front), Sized(all[count - 1]));
      }
    }
  }

  function WitnessOf(b: seq<byte>, pos: nat, marker: bool): seq<seq<byte>>
    requires pos <= |b| && (marker ==> SkipWitness(b, pos).Got?)
  {
    if marker then ItemsOf(b, ReadCompact(b, pos).next, ReadCompact(b, pos).value) else []
  }

  lemma WitnessBack(b: seq<byte>, pos: nat, marker: bool)
    requires pos <= |b| && (marker ==> SkipWitness(b, pos).Got?)
    ensures var items := WitnessOf(b, pos, marker);
            && |items| < 0x1_0000_0000_0000_0000 && (forall k :: 0 <= k < |items| ==> Fits(items[k]))
            && ((marker ==> ShortestWitness(b, pos)) ==>
                  && At(b, pos, WitnessBytes(marker, items))
                  && (if marker then SkipWitness(b, pos).next else pos) == pos + |WitnessBytes(marker, items)|)
  {
    hide CompactSize, ReadCompact, SkipItems, SerializedItems, Fits, ItemsOf, ShortestItems, Shortest;
    if marker {
      var count := ReadCompact(b, pos);
      CompactBounds(b, pos);
      ItemsBack(b, count.next, count.value);
      CompactBack(b, pos);
      if ShortestWitness(b, pos) {
        AtJoin(b, pos, CompactSize(count.value), SerializedItems(ItemsOf(b, count.next, count.value)));
      }
    }
  }

  /** Where the witness of a tail starts. */
  function WitnessStart(b: seq<byte>, pos: nat): nat
    requires pos <= |b| && ReadCompact(b, pos).Got?
  {
    var count := ReadCompact(b, pos);
    var outputs := ReadOutputs(b, count.next, count.value);
    if outputs.Got? then outputs.next else 0
  }

  lemma TailSteps(b: seq<byte>, pos: nat, marker: bool, room: nat)
    requires pos <= |b| && ReadTail(b, pos, marker, room).Got?
    ensures ReadCompact(b, pos).Got? && ReadCompact(b, pos).value <= room
    ensures var count := ReadCompact(b, pos);
            && ReadOutputs(b, count.next, count.value).Got?
            && ReadTail(b, pos, marker, room).value.0 == ReadOutputs(b, count.next, count.value).value
    ensures var p4 := WitnessStart(b, pos);
            && p4 <= |b| && (marker ==> SkipWitness(b, p4).Got?)
            && var p5 := if marker then SkipWitness(b, p4).next else p4;
               && p5 + 4 == |b| && ReadLe(b, p5, 4).Got?
               && ReadTail(b, pos, marker, room).value.1 == ReadLe(b, p5, 4).value
  {
    hide ReadCompact, ReadOutputs, SkipWitness, LeValue;
  }

  lemma TailBack(b: seq<byte>, pos: nat, tx: Tx, room: nat)
    requires pos <= |b| && ReadTail(b, pos, tx.marker, room).Got?
    requires ReadTail(b, pos, tx.marker, room).value == (tx.outputs, tx.locktime)
    ensures tx.locktime < 0x1_0000_0000 && |tx.outputs| < 0x1_0000_0000_0000_0000 && |tx.outputs| <= room
    ensures forall k :: 0 <= k < |tx.outputs| ==> OutputFits(tx.outputs[k])
    ensures ReadCompact(b, pos).Got? && WitnessStart(b, pos) <= |b|
    ensures tx.marker ==> SkipWitness(b, WitnessStart(b, pos)).Got?
    ensures var items := WitnessOf(b, WitnessStart(b, pos), tx.marker);
            && |items| < 0x1_0000_0000_0000_0000 && (forall k :: 0 <= k < |items| ==> Fits(items[k]))
            && (ShortestTail(b, pos, tx.marker, room) ==>
                  At(b, pos, TailBytes(tx, items)) && pos + |TailBytes(tx, items)| == |b|)
  {
    hide CompactSize, ReadCompact, ReadOutputs, SkipWitness, ReadLe, ReadTail, SerializedOutputs, WitnessBytes, LeBytes,
         At, Fits, OutputFits, Pow2, Shortest, ShortestOutputs, ShortestWitness, WitnessOf;
    FieldBounds();
    TailSteps(b, pos, tx.marker, room);
    var count := ReadCompact(b, pos);
    CompactBounds(b, pos);
    CompactBack(b, pos);
    OutputsBack(b, count.next, count.value);
    var p4 := WitnessStart(b, pos);
    WitnessBack(b, p4, tx.marker);
    var items := WitnessOf(b, p4, tx.marker);
    var p5 := if tx.marker then SkipWitness(b, p4).next else p4;
    LeBack(b, p5, 4, 0x1_0000_0000);
    if ShortestTail(b, pos, tx.marker, room) {
      LockLength(tx.locktime);
      var lock := LeBytes(tx.locktime, 4);
      AtJoin(b, p4, WitnessBytes(tx.marker, items), lock);
      AtJoin(b, count.next, SerializedOutputs(tx.outputs), WitnessBytes(tx.marker, items) + lock);
      AtJoin(b, pos, CompactSize(count.value), SerializedOutputs(tx.outputs) + (WitnessBytes(tx.marker, items) + lock));
    }
  }

  lemma LockLength(n: nat)
    ensures |LeBytes(n, 4)| == 4
  {
  }

  lemma DecodeSteps(b: seq<byte>, room: nat)
    requires Decode(b, room).Got?
    ensures ReadLe(b, 0, 4).Got? && 4 <= |b|
    ensures var tx, p1 := Decode(b, room).value, InputStart(HasMarker(b, 4));
            && tx.version == ReadLe(b, 0, 4).value && tx.marker == HasMarker(b, 4)
            && p1 <= |b| && ReadInput(b, p1).Got? && tx.input == ReadInput(b, p1).value
            && ReadTail(b, ReadInput(b, p1).next, tx.marker, room).Got?
            && ReadTail(b, ReadInput(b, p1).next, tx.marker, room).value == (tx.outputs, tx.locktime)
    ensures At(b, 4, MarkerBytes(HasMarker(b, 4))) && |MarkerBytes(HasMarker(b, 4))| == InputStart(HasMarker(b, 4)) - 4
  {
    hide LeValue, ReadInput, ReadTail;
  }

  /** Where the tail starts. */
  function TailStart(b: seq<byte>, room: nat): (pos: nat)
    requires Decode(b, room).Got?
    ensures pos <= |b|
  {
    DecodeSteps(b, room);
    ReadInput(b, InputStart(HasMarker(b, 4))).next
  }

  /** The witness items of a transaction that decodes, none without a marker. */
  function DecodedWitness(b: seq<byte>, room: nat): seq<seq<byte>>
    requires Decode(b, room).Got?
  {
    DecodeSteps(b, room);
    TailBack(b, TailStart(b, room), Decode(b, room).value, room);
    WitnessOf(b, WitnessStart(b, TailStart(b, room)), Decode(b, room).value.marker)
  }

  /** What decodes fits its fields, and with shortest forms it is its own serialisation. */
  lemma DecodedBack(b: seq<byte>, room: nat)
    requires Decode(b, room).Got?
    ensures var tx := Decode(b, room).value;
            && TxFits(tx, DecodedWitness(b, room)) && |tx.outputs| <= room
            && (ShortestForms(b, room) ==> Serialized(tx, DecodedWitness(b, room)) == b)
  {
    hide ReadLe, ReadInput, ReadTail, HasMarker, MarkerBytes, SerializedInput, TailBytes, LeBytes, At, Fits, InputFits,
         OutputFits, ShortestInput, ShortestTail, Decode, Pow2, WitnessOf, WitnessStart, InputStart;
    FieldBounds();
    DecodeSteps(b, room);
    var tx, p1 := Decode(b, room).value, InputStart(HasMarker(b, 4));
    var items := DecodedWitness(b, room);
    var p2 := ReadInput(b, p1).next;
    LeBack(b, 0, 4, 0x1_0000_0000);
    InputBack(b, p1);
    TailBack(b, p2, tx, room);
    if ShortestForms(b, room) {
      AtJoin(b, p1, SerializedInput(tx.input), TailBytes(tx, items));
      LockLength(tx.version);
      AtJoin(b, 4, MarkerBytes(tx.marker), SerializedInput(tx.input) + TailBytes(tx, items));
      AtJoin(b, 0, LeBytes(tx.version, 4), MarkerBytes(tx.marker) + (SerializedInput(tx.input) + TailBytes(tx, items)));
      AtAll(b, Serialized(tx, items));
    }
  }

  lemma AtAll(b: seq<byte>, part: seq<byte>)
    requires At(b, 0, part) && |part| == |b|
    ensures part == b
  {
  }

  // ----- what is serialised has shortest forms -----

  lemma InputForms(b: seq<byte>, pos: nat, i: TxInput)
    requires InputFits(i) && At(b, pos, SerializedInput(i))
    ensures ReadInput(b, pos) == Got(i, pos + |SerializedInput(i)|) && ShortestInput(b, pos)
  {
    hide CompactSize, ReadCompact, InputBody, ReadInput, InputFits;
    AtSplit(b, pos, CompactSize(1), InputBody(i));
    ReadCompactAt(b, pos, 1);
    ReadInputBody(b, pos, pos + |CompactSize(1)|, i);
  }

  lemma OutputForms(b: seq<byte>, pos: nat, o: TxOutput)
    requires OutputFits(o) && At(b, pos, SerializedOutput(o))
    ensures pos + 8 <= |b| && Shortest(b, pos + 8)
  {
    hide ReadCompact, Sized, CompactSize, LeBytes;
    AtSplit(b, pos, LeBytes(o.value, 8), Sized(o.script));
    ReadSizedAt(b, pos + 8, o.script);
  }

  lemma {:induction false} OutputsForms(b: seq<byte>, pos: nat, outputs: seq<TxOutput>)
    requires At(b, pos, SerializedOutputs(outputs)) && forall k :: 0 <= k < |outputs| ==> OutputFits(outputs[k])
    ensures ReadOutputs(b, pos, |outputs|).Got? && ShortestOutputs(b, pos, |outputs|)
  {
    hide ReadOutputs, SerializedOutput, OutputFits, Shortest;
    ReadOutputsAt(b, pos, outputs);
    if outputs != [] {
      var front, last := outputs[..|outputs| - 1], outputs[|outputs| - 1];
      AtSplit(b, pos, SerializedOutputs(front), SerializedOutput(last));
      ReadOutputsAt(b, pos, front);
      OutputsForms(b, pos, front);
      OutputForms(b, pos + |SerializedOutputs(front)|, last);
    }
  }

  lemma {:induction false} ItemsForms(b: seq<byte>, pos: nat, items: seq<seq<byte>>)
    requires At(b, pos, SerializedItems(items)) && forall k :: 0 <= k < |items| ==> Fits(items[k])
    ensures SkipItems(b, pos, |items|).Got? && ShortestItems(b, pos, |items|)
  {
    hide SkipItems, ReadCompact, CompactSize, Sized, Fits;
    SkipItemsAt(b, pos, items);
    if items != [] {
      var front, last := items[..|items| - 1], items[|items| - 1];
      AtSplit(b, pos, SerializedItems(front), Sized(last));
      SkipItemsAt(b, pos, front);
      ItemsForms(b, pos, front);
      ReadSizedAt(b, pos + |SerializedItems(front)|, last);
    }
  }

  lemma WitnessForms(b: seq<byte>, pos: nat, items: seq<seq<byte>>)
    requires At(b, pos, WitnessBytes(true, items))
    requires |items| < 0x1_0000_0000_0000_0000 && forall k :: 0 <= k < |items| ==> Fits(items[k])
    ensures SkipWitness(b, pos).Got? && ShortestWitness(b, pos)
  {
    hide CompactSize, ReadCompact, SkipItems, SerializedItems, Fits, ShortestItems;
    AtSplit(b, pos, CompactSize(|items|), SerializedItems(items));
    ReadCompactAt(b, pos, |items|);
    SkipItemsAt(b, pos + |CompactSize(|items|)|, items);
    ItemsForms(b, pos + |CompactSize(|items|)|, items);
  }

  lemma TailForms(b: seq<byte>, pos: nat, tx: Tx, items: seq<seq<byte>>, room: nat)
    requires TxFits(tx, items) && |tx.outputs| <= room
    requires At(b, pos, TailBytes(tx, items)) && pos + |TailBytes(tx, items)| == |b|
    ensures ReadTail(b, pos, tx.marker, room).Got? && ShortestTail(b, pos, tx.marker, room)
  {
    hide CompactSize, SerializedOutputs, WitnessBytes, At, LeBytes, Fits, InputFits, OutputFits, ReadCompact,
         ReadOutputs, ReadTail, SkipWitness, ShortestOutputs, ShortestWitness;
    TailAt(b, pos, tx, items, room);
    var rest := WitnessBytes(tx.marker, items) + LeBytes(tx.locktime, 4);
    AtSplit(b, pos, CompactSize(|tx.outputs|), SerializedOutputs(tx.outputs) + rest);
    ReadCompactAt(b, pos, |tx.outputs|);
    var p3 := pos + |CompactSize(|tx.outputs|)|;
    AtSplit(b, p3, SerializedOutputs(tx.outputs), rest);
    ReadOutputsAt(b, p3, tx.outputs);
    OutputsForms(b, p3, tx.outputs);
    var p4 := p3 + |SerializedOutputs(tx.outputs)|;
    AtSplit(b, p4, WitnessBytes(tx.marker, items), LeBytes(tx.locktime, 4));
    if tx.marker {
      WitnessForms(b, p4, items);
    }
  }

  lemma SerializedForms(tx: Tx, items: seq<seq<byte>>, room: nat)
    requires TxFits(tx, items) && |tx.outputs| <= room
    ensures Decode(Serialized(tx, items), room).Got? && ShortestForms(Serialized(tx, items), room)
  {
    hide Decode, SerializedInput, TailBytes, MarkerBytes, At, LeBytes, InputFits, Fits, OutputFits, ReadInput, ReadTail,
         HasMarker, Serialized, ShortestInput, ShortestTail;
    var b, p1 := Serialized(tx, items), InputStart(tx.marker);
    SerializedDecodes(tx, items, room);
    PartsAt(tx, items);
    InputForms(b, p1, tx.input);
    TailForms(b, p1 + |SerializedInput(tx.input)|, tx, items, room);
  }

  // ----- canonical transactions -----

  lemma {:induction false} ItemsWithin(items: seq<seq<byte>>)
    ensures |items| <= |SerializedItems(items)|
    ensures forall k :: 0 <= k < |items| ==> |items[k]| < |SerializedItems(items)|
  {
    if items != [] {
      var front, last := items[..|items| - 1], items[|items| - 1];
      ItemsWithin(front);
      assert |Sized(last)| > |last|;
      assert forall k :: 0 <= k < |front| ==> items[k] == front[k];
    }
  }

  /** Without a marker the witness items do not show; with one they are shorter than the whole. */
  lemma WitnessWithin(tx: Tx, items: seq<seq<byte>>)
    ensures var shown := if tx.marker then items else [];
            && Serialized(tx, items) == Serialized(tx, shown)
            && |shown| <= |Serialized(tx, items)|
            && forall k :: 0 <= k < |shown| ==> |shown[k]| <= |Serialized(tx, items)|
  {
    hide CompactSize, SerializedOutputs, SerializedInput, SerializedItems, LeBytes;
    ItemsWithin(items);
  }

  /**
   Which bytes are canonical: a transaction that decodes is the serialisation of what it decodes
   to, for some witness, if and only if every CompactSize in it is in its shortest form.
   */
  lemma CanonicalExactly(b: seq<byte>, room: nat)
    requires Fits(b) && Decode(b, room).Got?
    ensures (exists items :: Serialized(Decode(b, room).value, items) == b) <==> ShortestForms(b, room)
  {
    hide Serialized, Decode, ShortestForms, DecodedWitness, OutputFits, InputFits;
    DecodedBack(b, room);
    var tx := Decode(b, room).value;
    forall items | Serialized(tx, items) == b
      ensures ShortestForms(b, room)
    {
      WitnessWithin(tx, items);
      SerializedForms(tx, if tx.marker then items else [], room);
    }
  }

  // ----- longer forms -----

  /** A legacy transaction with the input count in three bytes. */
  function LongForm(tx: Tx): seq<byte> {
    LeBytes(tx.version, 4) + ([0xfd, 0x01, 0x00] + (InputBody(tx.input) + TailBytes(tx, [])))
  }

  lemma LongCount(b: seq<byte>, pos: nat)
    requires At(b, pos, [0xfd, 0x01, 0x00])
    ensures ReadCompact(b, pos) == Got(1, pos + 3)
  {
    var part := b[pos..pos + 3];
    assert part[0] == b[pos] && part[1] == b[pos + 1] && part[2] == b[pos + 2];
    OneByte(b, pos);
    OneByte(b, pos + 1);
    OneByte(b, pos + 2);
    assert b[pos + 1..pos + 3] == b[pos + 1..pos + 2] + b[pos + 2..pos + 3];
    LeValueConcat(b[pos + 1..pos + 2], b[pos + 2..pos + 3]);
  }

  /**
   Every legacy transaction also decodes from bytes that are not its serialisation: the input count
   in three bytes instead of one.
   */
  lemma LongFormDecodes(tx: Tx, room: nat)
    requires TxFits(tx, []) && !tx.marker && |tx.outputs| <= room
    ensures Decode(LongForm(tx), room) == Got(tx, |LongForm(tx)|)
    ensures forall items :: Serialized(tx, items) != LongForm(tx)
  {
    hide InputBody, TailBytes, At, LeBytes, InputFits, Fits, OutputFits, ReadInput, ReadTail, ReadLe, ReadCompact, Pow2,
         LeValue;
    FieldBounds();
    var b := LongForm(tx);
    AtWhole(b);
    LockLength(tx.version);
    var rest := InputBody(tx.input) + TailBytes(tx, []);
    AtSplit(b, 0, LeBytes(tx.version, 4), [0xfd, 0x01, 0x00] + rest);
    AtSplit(b, 4, [0xfd, 0x01, 0x00], rest);
    AtSplit(b, 7, InputBody(tx.input), TailBytes(tx, []));
    ReadLeAt(b, 0, tx.version, 4, 0x1_0000_0000);
    LongCount(b, 4);
    ReadInputBody(b, 4, 7, tx.input);
    TailAt(b, 7 + |InputBody(tx.input)|, tx, [], room);
    forall items ensures Serialized(tx, items) != LongForm(tx) {
      ShorterBytes(tx, items);
    }
  }

  lemma ShorterBytes(tx: Tx, items: seq<seq<byte>>)
    requires !tx.marker
    ensures |Serialized(tx, items)| == |LongForm(tx)| - 2
  {
    hide InputBody, SerializedOutputs, LeBytes;
    OneCompact();
  }
}
