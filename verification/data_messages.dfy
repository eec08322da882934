/** The binary data message of the envelope streamer: a fixed-size header, the
    envelope metadata block written by the envelope serializer, then every item's
    payload bytes concatenated in item order. Item sizes travel in the metadata,
    not in the payload section. */
module DataMessages {
  import opened Outcomes
  import opened Primitives
  import opened Dictionaries
  import opened EnvelopeConvert

  // ---------------------------------------------------------------- collaborators

  datatype MessageHeader = MessageHeader(messageFormatVersion: int32, envelopeBytes: int64, contentLength: int64)

  /** MessageHeader's byte layout, supplied from outside: its fixed size, the version tag
      of the data schema, and how a header is written and read back. */
  datatype HeaderFormat = HeaderFormat(
    fixedSize: nat,
    schema2DataFormat: int32,
    write: MessageHeader -> seq<uint8>,
    read: seq<uint8> -> MessageHeader)

  /** Every header is written as exactly FixedSize bytes. */
  ghost predicate HeaderHasFixedSize(hf: HeaderFormat) {
    forall h :: |hf.write(h)| == hf.fixedSize
  }

  /** ... and reads back as itself. */
  ghost predicate HeaderRoundTrips(hf: HeaderFormat) {
    HeaderHasFixedSize(hf) && forall h :: hf.read(hf.write(h)) == h
  }

  datatype ItemContract = ItemContract(contractName: string, contentSize: int32, attributes: seq<ItemAttributeContract>)

  datatype EnvelopeContract = EnvelopeContract(
    envelopeId: string,
    envelopeAttributes: seq<EnvelopeAttributeContract>,
    items: seq<ItemContract>,
    deliverOnUtc: Option<Instant>)

  /** The envelope serializer; `deserialize` yields None where it would throw. */
  datatype EnvelopeSerializer = EnvelopeSerializer(
    serialize: EnvelopeContract -> seq<uint8>,
    deserialize: seq<uint8> -> Option<EnvelopeContract>)

  ghost predicate EnvelopeSerializerRoundTrips(es: EnvelopeSerializer) {
    forall c :: es.deserialize(es.serialize(c)) == Some(c)
  }

  /** An item's content: a typed instance, or the raw bytes of a payload whose
      contract name could not be resolved. */
  datatype ItemContent<Obj> = Instance(obj: Obj) | RawBytes(bytes: seq<uint8>)

  /** The data serializer: contract names of runtime types `Ty`, payloads `Obj`. */
  datatype DataSerializer<!Ty, !Obj> = DataSerializer(
    contractNameByType: Ty -> Option<string>,
    contractTypeByName: string -> Option<Ty>,
    serialize: ItemContent<Obj> -> seq<uint8>,
    deserialize: (seq<uint8>, Ty) -> Option<Obj>)

  datatype MessageItem<Ty, Obj> = MessageItem(mappedType: Option<Ty>, content: ItemContent<Obj>, attributes: Dictionary<AttrValue>)

  datatype MessageEnvelope<Ty, Obj> = MessageEnvelope(
    envelopeId: string,
    attributes: Dictionary<AttrValue>,
    items: seq<MessageItem<Ty, Obj>>,
    deliverOn: Option<Instant>)

  // ---------------------------------------------------------------- writing

  /** `TryGetContractNameByType`, failing as SaveDataMessage does; an item without a
      mapped type has no name either. */
  function ContractName<Ty, Obj>(ds: DataSerializer<Ty, Obj>, t: Option<Ty>): (r: Result<string>)
    ensures r.Ok? <==> t.Some? && ds.contractNameByType(t.value).Some?
    ensures r.Ok? ==> r.value == ds.contractNameByType(t.value).value
    ensures r.Err? ==> r.error == UnmappedContractType
  {
    match t
    case None => Err(UnmappedContractType)
    case Some(ty) =>
      match ds.contractNameByType(ty)
      case None => Err(UnmappedContractType)
      case Some(name) => Ok(name)
  }

  /** The serializations of `items`, concatenated in order. */
  function Serialized<Ty, Obj>(ds: DataSerializer<Ty, Obj>, items: seq<MessageItem<Ty, Obj>>): seq<uint8>
    decreases |items|
  {
    if |items| == 0 then [] else ds.serialize(items[0].content) + Serialized(ds, items[1..])
  }

  /** The sum of the content sizes the item contracts declare. */
  function SumSizes(cs: seq<ItemContract>): int
    decreases |cs|
  {
    if |cs| == 0 then 0 else cs[0].contentSize + SumSizes(cs[1..])
  }

  lemma SumSizesCons(cs: seq<ItemContract>, i: nat)
    requires 1 <= i <= |cs|
    ensures SumSizes(cs[..i]) == cs[0].contentSize + SumSizes(cs[1..][..i - 1])
  {
    assert cs[..i][1..] == cs[1..][..i - 1];
  }

  datatype SavedItems = SavedItems(contracts: seq<ItemContract>, content: seq<uint8>)

  /** An item contract as SaveDataMessage records it for `item`. */
  ghost predicate DescribesItem<Ty, Obj>(ds: DataSerializer<Ty, Obj>, c: ItemContract, item: MessageItem<Ty, Obj>) {
    && ContractName(ds, item.mappedType) == Ok(c.contractName)
    && c.contentSize == |ds.serialize(item.content)|
    && c.attributes == []
    && item.attributes == []
  }

  /** The item loop of SaveDataMessage, from `position` bytes of content on: names each
      item, appends its serialization to the content stream, and records the number of
      bytes that added as the item's content size. */
  function SaveItems<Ty, Obj>(ds: DataSerializer<Ty, Obj>, items: seq<MessageItem<Ty, Obj>>, position: nat): (r: Result<SavedItems>)
    requires position <= Int32Max
    ensures r.Ok? <==>
      && (forall i :: 0 <= i < |items| ==> ContractName(ds, items[i].mappedType).Ok? && items[i].attributes == [])
      && position + |Serialized(ds, items)| <= Int32Max
    ensures r.Ok? ==> |r.value.contracts| == |items|
    ensures r.Ok? ==> forall i :: 0 <= i < |items| ==> DescribesItem(ds, r.value.contracts[i], items[i])
    ensures r.Ok? ==> r.value.content == Serialized(ds, items)
    ensures r.Ok? ==> SumSizes(r.value.contracts) == |r.value.content|
    ensures r.Err? ==> r.error in {UnmappedContractType, StreamTooLong, ItemAttributesNotImplemented}
    decreases |items|
  {
    if |items| == 0 then Ok(SavedItems([], []))
    else
      var item := items[0];
      var name :- ContractName(ds, item.mappedType);
      var bytes := ds.serialize(item.content);
      if position + |bytes| > Int32Max then Err(StreamTooLong)
      else
        var attributes :- ItemAttributesToContract(item.attributes);
        var rest :- SaveItems(ds, items[1..], position + |bytes|);
        var contracts := [ItemContract(name, |bytes|, attributes)] + rest.contracts;
        assert contracts[1..] == rest.contracts;
        assert forall i :: 1 <= i < |items| ==> items[i] == items[1..][i - 1];
        Ok(SavedItems(contracts, bytes + rest.content))
  }

  /** The error the item loop of SaveDataMessage raises on `item` when its serialization
      starts `position` bytes into the content stream, in the order the loop checks:
      the contract name, then the growth of the stream, then the item's attributes;
      None when the item is saved. */
  function ItemSaveError<Ty, Obj>(ds: DataSerializer<Ty, Obj>, item: MessageItem<Ty, Obj>, position: int): Option<Error> {
    if ContractName(ds, item.mappedType).Err? then Some(UnmappedContractType)
    else if position + |ds.serialize(item.content)| > Int32Max then Some(StreamTooLong)
    else if item.attributes != [] then Some(ItemAttributesNotImplemented)
    else None
  }

  lemma SerializedPrefixCons<Ty, Obj>(ds: DataSerializer<Ty, Obj>, items: seq<MessageItem<Ty, Obj>>, j: nat)
    requires 1 <= j <= |items|
    ensures Serialized(ds, items[..j]) == ds.serialize(items[0].content) + Serialized(ds, items[1..][..j - 1])
  {
    assert items[..j][1..] == items[1..][..j - 1];
  }

  /** Item k + 1 of a loop over `items` meets the same conditions as item k of the loop
      over the items after the first, started where the first item's bytes end. */
  lemma ItemSaveErrorShift<Ty, Obj>(ds: DataSerializer<Ty, Obj>, items: seq<MessageItem<Ty, Obj>>, position: int, k: nat)
    requires k + 1 < |items|
    ensures ItemSaveError(ds, items[k + 1], position + |Serialized(ds, items[..k + 1])|)
         == ItemSaveError(ds, items[1..][k], position + |ds.serialize(items[0].content)| + |Serialized(ds, items[1..][..k])|)
  {
    SerializedPrefixCons(ds, items, k + 1);
    assert items[k + 1] == items[1..][k];
  }

  /** The error the item loop stops with, item by item in order and with no output
      built; None when every item is saved. The reference SaveItems is checked against. */
  function FirstSaveError<Ty, Obj>(ds: DataSerializer<Ty, Obj>, items: seq<MessageItem<Ty, Obj>>, position: int): Option<Error>
    decreases |items|
  {
    if |items| == 0 then None
    else if ItemSaveError(ds, items[0], position).Some? then ItemSaveError(ds, items[0], position)
    else FirstSaveError(ds, items[1..], position + |ds.serialize(items[0].content)|)
  }

  /** SaveItems fails exactly when the reference finds an error, and with that error. */
  lemma {:induction false} SaveItemsError<Ty, Obj>(ds: DataSerializer<Ty, Obj>, items: seq<MessageItem<Ty, Obj>>, position: nat)
    requires position <= Int32Max
    ensures SaveItems(ds, items, position).Err? <==> FirstSaveError(ds, items, position).Some?
    ensures SaveItems(ds, items, position).Err? ==> FirstSaveError(ds, items, position) == Some(SaveItems(ds, items, position).error)
    decreases |items|
  {
    if |items| > 0 && ItemSaveError(ds, items[0], position).None? {
      var bytes := ds.serialize(items[0].content);
      assert position + |bytes| <= Int32Max;
      SaveItemsError(ds, items[1..], position + |bytes|);
      assert SaveItems(ds, items, position).Err? <==> SaveItems(ds, items[1..], position + |bytes|).Err?;
    }
  }

  /** The index of the item the reference stops at: the first item with an error,
      or |items| when there is none. */
  function FirstSaveIndex<Ty, Obj>(ds: DataSerializer<Ty, Obj>, items: seq<MessageItem<Ty, Obj>>, position: int): (n: nat)
    ensures n <= |items|
    decreases |items|
  {
    if |items| == 0 || ItemSaveError(ds, items[0], position).Some? then 0
    else 1 + FirstSaveIndex(ds, items[1..], position + |ds.serialize(items[0].content)|)
  }

  /** The reference's error is the error of the item at FirstSaveIndex, at the offset
      the bytes of the items before it bring the stream to. */
  lemma {:induction false} FirstSaveErrorAt<Ty, Obj>(ds: DataSerializer<Ty, Obj>, items: seq<MessageItem<Ty, Obj>>, position: int)
    requires FirstSaveError(ds, items, position).Some?
    ensures FirstSaveIndex(ds, items, position) < |items|
    ensures var i := FirstSaveIndex(ds, items, position);
      ItemSaveError(ds, items[i], position + |Serialized(ds, items[..i])|) == FirstSaveError(ds, items, position)
    decreases |items|
  {
    assert items[..0] == [];
    if ItemSaveError(ds, items[0], position).None? {
      var k := FirstSaveIndex(ds, items[1..], position + |ds.serialize(items[0].content)|);
      FirstSaveErrorAt(ds, items[1..], position + |ds.serialize(items[0].content)|);
      ItemSaveErrorShift(ds, items, position, k);
    }
  }

  /** Every item before FirstSaveIndex is saved without error. */
  lemma {:induction false} BeforeFirstSaveIndex<Ty, Obj>(ds: DataSerializer<Ty, Obj>, items: seq<MessageItem<Ty, Obj>>, position: int, j: nat)
    requires j < FirstSaveIndex(ds, items, position)
    ensures j < |items|
    ensures ItemSaveError(ds, items[j], position + |Serialized(ds, items[..j])|).None?
    decreases j
  {
    assert items[..0] == [];
    if j > 0 {
      BeforeFirstSaveIndex(ds, items[1..], position + |ds.serialize(items[0].content)|, j - 1);
      ItemSaveErrorShift(ds, items, position, j - 1);
    }
  }

  /** A failed item loop fails on its first item with an error, and with that item's
      error: every earlier item is saved, and the one at `i` raises exactly the error
      SaveItems returns, at the offset the earlier items' bytes bring the stream to. */
  lemma SaveItemsFirstError<Ty, Obj>(ds: DataSerializer<Ty, Obj>, items: seq<MessageItem<Ty, Obj>>, position: nat)
    returns (i: nat)
    requires position <= Int32Max
    requires SaveItems(ds, items, position).Err?
    ensures i < |items|
    ensures ItemSaveError(ds, items[i], position + |Serialized(ds, items[..i])|) == Some(SaveItems(ds, items, position).error)
    ensures forall j :: 0 <= j < i ==> ItemSaveError(ds, items[j], position + |Serialized(ds, items[..j])|).None?
  {
    SaveItemsError(ds, items, position);
    FirstSaveErrorAt(ds, items, position);
    i := FirstSaveIndex(ds, items, position);
    forall j | 0 <= j < i
      ensures ItemSaveError(ds, items[j], position + |Serialized(ds, items[..j])|).None?
    {
      BeforeFirstSaveIndex(ds, items, position, j);
    }
  }

  /** `SaveDataMessage`: header, metadata block, content, in that order. */
  function SaveDataMessage<Ty, Obj>(hf: HeaderFormat, es: EnvelopeSerializer, ds: DataSerializer<Ty, Obj>,
                                    ts: TimestampFormat, e: MessageEnvelope<Ty, Obj>): (r: Result<seq<uint8>>)
    requires HeaderHasFixedSize(hf)
    ensures r.Ok? <==>
      && SaveItems(ds, e.items, 0).Ok?
      && EnvelopeAttributesToContract(ts, e.attributes).Ok?
      && hf.fixedSize + |es.serialize(SavedContract(ds, ts, e))| + |Serialized(ds, e.items)| <= Int32Max
    ensures (exists i :: 0 <= i < |e.items| && ContractName(ds, e.items[i].mappedType).Err?) ==> r.Err?
    ensures r.Err? ==>
      r.error == (if SaveItems(ds, e.items, 0).Err? then SaveItems(ds, e.items, 0).error
                  else if EnvelopeAttributesToContract(ts, e.attributes).Err? then EnvelopeAttributesToContract(ts, e.attributes).error
                  else StreamTooLong)
    ensures r.Ok? ==>
      var meta := es.serialize(SavedContract(ds, ts, e));
      var start := hf.fixedSize + |meta|;
      && |r.value| == start + |Serialized(ds, e.items)|
      && r.value[..hf.fixedSize] == hf.write(MessageHeader(hf.schema2DataFormat, |meta|, 0))
      && r.value[hf.fixedSize..start] == meta
      && r.value[start..] == Serialized(ds, e.items)
  {
    var saved :- SaveItems(ds, e.items, 0);
    var attributes :- EnvelopeAttributesToContract(ts, e.attributes);
    var contract := EnvelopeContract(e.envelopeId, attributes, saved.contracts, e.deliverOn);
    var meta := es.serialize(contract);
    if hf.fixedSize + |meta| + |saved.content| > Int32Max then Err(StreamTooLong)
    else
      var header := hf.write(MessageHeader(hf.schema2DataFormat, |meta|, 0));
      var message := header + meta + saved.content;
      assert message[..hf.fixedSize] == header;
      assert message[hf.fixedSize..hf.fixedSize + |meta|] == meta;
      Ok(message)
  }

  /** The metadata record SaveDataMessage hands to the envelope serializer. */
  function SavedContract<Ty, Obj>(ds: DataSerializer<Ty, Obj>, ts: TimestampFormat, e: MessageEnvelope<Ty, Obj>): EnvelopeContract
    requires SaveItems(ds, e.items, 0).Ok? && EnvelopeAttributesToContract(ts, e.attributes).Ok?
  {
    EnvelopeContract(e.envelopeId, EnvelopeAttributesToContract(ts, e.attributes).value,
                     SaveItems(ds, e.items, 0).value.contracts, e.deliverOn)
  }

  // ---------------------------------------------------------------- reading

  datatype Framing = Framing(contract: EnvelopeContract, contentStart: nat)

  /** The EnvelopeBytes bytes after the header, cast to int, lie inside the buffer. */
  predicate MetadataInBuffer(hf: HeaderFormat, buffer: seq<uint8>)
    requires |buffer| >= hf.fixedSize
  {
    var n := ToInt32(hf.read(buffer[..hf.fixedSize]).envelopeBytes);
    0 <= n && hf.fixedSize + n <= |buffer|
  }

  /** The metadata block the header points at. */
  function MetadataBytes(hf: HeaderFormat, buffer: seq<uint8>): seq<uint8>
    requires |buffer| >= hf.fixedSize && MetadataInBuffer(hf, buffer)
  {
    buffer[hf.fixedSize..hf.fixedSize + ToInt32(hf.read(buffer[..hf.fixedSize]).envelopeBytes)]
  }

  /** The first half of ReadDataMessage: reads the header, checks its version, and
      deserializes the EnvelopeBytes bytes after it. */
  function ReadFraming(hf: HeaderFormat, es: EnvelopeSerializer, buffer: seq<uint8>): (r: Result<Framing>)
    ensures |buffer| < hf.fixedSize ==> r == Err(TruncatedHeader)
    ensures |buffer| >= hf.fixedSize && hf.read(buffer[..hf.fixedSize]).messageFormatVersion != hf.schema2DataFormat ==>
      r == Err(UnexpectedMessageFormat)
    ensures |buffer| >= hf.fixedSize && hf.read(buffer[..hf.fixedSize]).messageFormatVersion == hf.schema2DataFormat ==>
      if !MetadataInBuffer(hf, buffer) then r == Err(RangeOutsideBuffer)
      else (r.Ok? <==> es.deserialize(MetadataBytes(hf, buffer)).Some?) && (r.Err? ==> r.error == MalformedEnvelope)
    ensures r.Ok? ==>
      var header := hf.read(buffer[..hf.fixedSize]);
      && header.messageFormatVersion == hf.schema2DataFormat
      && r.value.contentStart == hf.fixedSize + ToInt32(header.envelopeBytes)
      && hf.fixedSize <= r.value.contentStart <= |buffer|
      && es.deserialize(buffer[hf.fixedSize..r.value.contentStart]) == Some(r.value.contract)
  {
    if |buffer| < hf.fixedSize then Err(TruncatedHeader)
    else
      var header := hf.read(buffer[..hf.fixedSize]);
      if header.messageFormatVersion != hf.schema2DataFormat then Err(UnexpectedMessageFormat)
      else
        var envelopeBytes := ToInt32(header.envelopeBytes);
        if envelopeBytes < 0 || hf.fixedSize + envelopeBytes > |buffer| then Err(RangeOutsideBuffer)
        else
          match es.deserialize(buffer[hf.fixedSize..hf.fixedSize + envelopeBytes])
          case None => Err(MalformedEnvelope)
          case Some(contract) => Ok(Framing(contract, hf.fixedSize + envelopeBytes))
  }

  /** What reading `item` from the contract `c` at byte offset `index` means: its
      attributes are the contract's, its bytes lie inside the buffer, and it is either
      the deserialized instance of the resolved type or, when the name does not
      resolve, the raw bytes themselves. */
  ghost predicate ItemReadAt<Ty, Obj>(ds: DataSerializer<Ty, Obj>, buffer: seq<uint8>, c: ItemContract, index: int,
                                      item: MessageItem<Ty, Obj>) {
    && 0 <= index
    && 0 <= c.contentSize
    && index + c.contentSize <= |buffer|
    && ItemAttributesFromContract(c.attributes) == Ok(item.attributes)
    && item.mappedType == ds.contractTypeByName(c.contractName)
    && match item.mappedType
       case None => item.content == RawBytes(buffer[index..index + c.contentSize])
       case Some(t) => item.content.Instance? && ds.deserialize(buffer[index..index + c.contentSize], t) == Some(item.content.obj)
  }

  /** One iteration of the item loop of ReadDataMessage, at byte offset `index`. */
  function ReadItem<Ty, Obj>(ds: DataSerializer<Ty, Obj>, buffer: seq<uint8>, c: ItemContract, index: int): (r: Result<MessageItem<Ty, Obj>>)
    ensures r.Ok? ==> ItemReadAt(ds, buffer, c, index, r.value)
    ensures r.Ok? <==>
      && ItemAttributesFromContract(c.attributes).Ok?
      && 0 <= index && 0 <= c.contentSize && index + c.contentSize <= |buffer|
      && (ds.contractTypeByName(c.contractName).Some? ==>
            ds.deserialize(buffer[index..index + c.contentSize], ds.contractTypeByName(c.contractName).value).Some?)
    ensures r.Err? ==> r.error in {UnknownAttributeType, NullAttributeKey, RangeOutsideBuffer, MalformedPayload}
  {
    var attributes :- ItemAttributesFromContract(c.attributes);
    if index < 0 || c.contentSize < 0 || index + c.contentSize > |buffer| then Err(RangeOutsideBuffer)
    else
      var slice := buffer[index..index + c.contentSize];
      match ds.contractTypeByName(c.contractName)
      case None => Ok(MessageItem(None, RawBytes(slice), attributes))
      case Some(t) =>
        match ds.deserialize(slice, t)
        case None => Err(MalformedPayload)
        case Some(obj) => Ok(MessageItem(Some(t), Instance(obj), attributes))
  }

  /** Which error a failed ReadItem returns, in the order the item loop checks: the
      attribute conversion's own error first, then a content range outside the buffer,
      and otherwise a payload the resolved type does not deserialize. */
  lemma ReadItemError<Ty, Obj>(ds: DataSerializer<Ty, Obj>, buffer: seq<uint8>, c: ItemContract, index: int)
    requires ReadItem(ds, buffer, c, index).Err?
    ensures ReadItem(ds, buffer, c, index).error ==
              (if ItemAttributesFromContract(c.attributes).Err? then ItemAttributesFromContract(c.attributes).error
               else if index < 0 || c.contentSize < 0 || index + c.contentSize > |buffer| then RangeOutsideBuffer
               else MalformedPayload)
  {
  }

  /** Every item of `items` is what ReadItem reads from its contract, the first at
      `index` and each later one right after the bytes its predecessor declared. */
  ghost predicate ReadInSequence<Ty, Obj>(ds: DataSerializer<Ty, Obj>, buffer: seq<uint8>, cs: seq<ItemContract>,
                                          index: int, items: seq<MessageItem<Ty, Obj>>)
    decreases |cs|
  {
    && |items| == |cs|
    && (|cs| > 0 ==>
          && ItemReadAt(ds, buffer, cs[0], index, items[0])
          && ReadInSequence(ds, buffer, cs[1..], index + cs[0].contentSize, items[1..]))
  }

  /** Read in sequence, item i lies at `index` plus the content sizes declared before it. */
  lemma {:induction false} ReadInSequenceAt<Ty, Obj>(ds: DataSerializer<Ty, Obj>, buffer: seq<uint8>, cs: seq<ItemContract>,
                                                     index: int, items: seq<MessageItem<Ty, Obj>>, i: nat)
    requires ReadInSequence(ds, buffer, cs, index, items) && i < |cs|
    ensures i < |items| && ItemReadAt(ds, buffer, cs[i], index + SumSizes(cs[..i]), items[i])
    decreases i
  {
    if i == 0 {
      assert cs[..0] == [];
    } else {
      SumSizesCons(cs, i);
      ReadInSequenceAt(ds, buffer, cs[1..], index + cs[0].contentSize, items[1..], i - 1);
      assert cs[1..][i - 1] == cs[i] && items[1..][i - 1] == items[i];
    }
  }

  /** The item loop of ReadDataMessage from offset `index`: item i is read at `index`
      plus the sizes of the items before it, whether or not their names resolved. */
  function ReadItems<Ty, Obj>(ds: DataSerializer<Ty, Obj>, buffer: seq<uint8>, cs: seq<ItemContract>, index: int)
    : (r: Result<seq<MessageItem<Ty, Obj>>>)
    ensures r.Ok? ==> |r.value| == |cs|
    decreases |cs|
  {
    if |cs| == 0 then Ok([])
    else
      var item :- ReadItem(ds, buffer, cs[0], index);
      var rest :- ReadItems(ds, buffer, cs[1..], index + cs[0].contentSize);
      assert ([item] + rest)[1..] == rest;
      Ok([item] + rest)
  }

  /** A successful item loop reads its items in sequence: each from its own contract,
      right after the bytes the previous contract declared. */
  lemma {:induction false} ReadItemsInSequence<Ty, Obj>(ds: DataSerializer<Ty, Obj>, buffer: seq<uint8>, cs: seq<ItemContract>, index: int)
    requires ReadItems(ds, buffer, cs, index).Ok?
    ensures ReadInSequence(ds, buffer, cs, index, ReadItems(ds, buffer, cs, index).value)
    decreases |cs|
  {
    if |cs| > 0 {
      var items := ReadItems(ds, buffer, cs, index).value;
      var next := index + cs[0].contentSize;
      assert ReadItem(ds, buffer, cs[0], index) == Ok(items[0]);
      assert ReadItems(ds, buffer, cs[1..], next) == Ok(items[1..]);
      ReadItemsInSequence(ds, buffer, cs[1..], next);
    }
  }

  // The item loop's control flow, over an arbitrary `read` step: item i is read at the
  // loop's start plus the content sizes declared before it, and the first failing read
  // ends the loop.

  function WalkItems<T>(read: (ItemContract, int) -> Result<T>, cs: seq<ItemContract>, index: int): Result<seq<T>>
    decreases |cs|
  {
    if |cs| == 0 then Ok([])
    else
      var item :- read(cs[0], index);
      var rest :- WalkItems(read, cs[1..], index + cs[0].contentSize);
      Ok([item] + rest)
  }

  /** Step i of a walk started at `index`: step i + 1 is step i of the walk started
      after the first item's bytes. */
  function WalkStep<T>(read: (ItemContract, int) -> Result<T>, cs: seq<ItemContract>, index: int, i: nat): Result<T>
    requires i < |cs|
    decreases i
  {
    if i == 0 then read(cs[0], index) else WalkStep(read, cs[1..], index + cs[0].contentSize, i - 1)
  }

  /** Step i reads item i at `index` plus the content sizes declared before it. */
  lemma {:induction false} WalkStepOffset<T>(read: (ItemContract, int) -> Result<T>, cs: seq<ItemContract>, index: int, i: nat)
    requires i < |cs|
    ensures WalkStep(read, cs, index, i) == read(cs[i], index + SumSizes(cs[..i]))
    decreases i
  {
    if i == 0 {
      assert cs[..0] == [];
    } else {
      WalkStepOffset(read, cs[1..], index + cs[0].contentSize, i - 1);
      SumSizesCons(cs, i);
      assert cs[1..][i - 1] == cs[i];
    }
  }

  /** Unfolds the walk and its steps once: step 0 is the first read, step i + 1 is step i
      of the rest. */
  lemma WalkUnfold<T>(read: (ItemContract, int) -> Result<T>, cs: seq<ItemContract>, index: int)
    requires |cs| > 0
    ensures WalkStep(read, cs, index, 0) == read(cs[0], index)
    ensures forall i :: 1 <= i < |cs| ==>
      WalkStep(read, cs, index, i) == WalkStep(read, cs[1..], index + cs[0].contentSize, i - 1)
    ensures WalkItems(read, cs, index).Ok? <==>
      read(cs[0], index).Ok? && WalkItems(read, cs[1..], index + cs[0].contentSize).Ok?
    ensures read(cs[0], index).Err? ==> WalkItems(read, cs, index) == Err(read(cs[0], index).error)
    ensures read(cs[0], index).Ok? && WalkItems(read, cs[1..], index + cs[0].contentSize).Err? ==>
      WalkItems(read, cs, index) == Err(WalkItems(read, cs[1..], index + cs[0].contentSize).error)
  {
  }

  lemma {:induction false} WalkSucceeds<T>(read: (ItemContract, int) -> Result<T>, cs: seq<ItemContract>, index: int)
    ensures WalkItems(read, cs, index).Ok? ==> forall i :: 0 <= i < |cs| ==> WalkStep(read, cs, index, i).Ok?
    ensures (forall i :: 0 <= i < |cs| ==> WalkStep(read, cs, index, i).Ok?) ==> WalkItems(read, cs, index).Ok?
    decreases |cs|
  {
    if |cs| > 0 {
      var next := index + cs[0].contentSize;
      WalkSucceeds(read, cs[1..], next);
      WalkUnfold(read, cs, index);
      if WalkItems(read, cs, index).Ok? {
        forall i | 0 <= i < |cs| ensures WalkStep(read, cs, index, i).Ok? {
          if i > 0 {
            assert WalkStep(read, cs[1..], next, i - 1).Ok?;
          }
        }
      }
      if forall i :: 0 <= i < |cs| ==> WalkStep(read, cs, index, i).Ok? {
        assert WalkStep(read, cs, index, 0).Ok?;
        forall k | 0 <= k < |cs| - 1 ensures WalkStep(read, cs[1..], next, k).Ok? {
          assert WalkStep(read, cs, index, k + 1).Ok?;
        }
        assert WalkItems(read, cs, index).Ok?;
      }
    }
  }

  /** The walk fails at step `i`, with that step's error, after every earlier step read. */
  lemma {:induction false} WalkFirstError<T>(read: (ItemContract, int) -> Result<T>, cs: seq<ItemContract>, index: int) returns (i: nat)
    requires WalkItems(read, cs, index).Err?
    ensures i < |cs| && WalkStep(read, cs, index, i) == Err(WalkItems(read, cs, index).error)
    ensures forall j :: 0 <= j < i ==> WalkStep(read, cs, index, j).Ok?
    decreases |cs|
  {
    var next := index + cs[0].contentSize;
    WalkUnfold(read, cs, index);
    if read(cs[0], index).Ok? {
      var k := WalkFirstError(read, cs[1..], next);
      i := k + 1;
      forall j | 0 <= j < i ensures WalkStep(read, cs, index, j).Ok? {
        if j > 0 {
          assert WalkStep(read, cs[1..], next, j - 1).Ok?;
        }
      }
    } else {
      i := 0;
    }
  }

  /** The walk fails at the item at `i`, read at its offset, after every earlier item read. */
  lemma WalkFirstErrorAt<T>(read: (ItemContract, int) -> Result<T>, cs: seq<ItemContract>, index: int) returns (i: nat)
    requires WalkItems(read, cs, index).Err?
    ensures i < |cs| && read(cs[i], index + SumSizes(cs[..i])) == Err(WalkItems(read, cs, index).error)
    ensures forall j :: 0 <= j < i ==> read(cs[j], index + SumSizes(cs[..j])).Ok?
  {
    i := WalkFirstError(read, cs, index);
    WalkStepOffset(read, cs, index, i);
    forall j | 0 <= j < i ensures read(cs[j], index + SumSizes(cs[..j])).Ok? {
      WalkStepOffset(read, cs, index, j);
    }
  }

  /** A walk whose every item reads at its offset succeeds. */
  lemma WalkAllRead<T>(read: (ItemContract, int) -> Result<T>, cs: seq<ItemContract>, index: int)
    requires forall i :: 0 <= i < |cs| ==> read(cs[i], index + SumSizes(cs[..i])).Ok?
    ensures WalkItems(read, cs, index).Ok?
  {
    if WalkItems(read, cs, index).Err? {
      var k := WalkFirstErrorAt(read, cs, index);
      assert false;
    }
  }

  /** When the walk succeeds, every step reads at its offset. */
  lemma WalkEachReads<T>(read: (ItemContract, int) -> Result<T>, cs: seq<ItemContract>, index: int)
    requires WalkItems(read, cs, index).Ok?
    ensures forall i :: 0 <= i < |cs| ==> read(cs[i], index + SumSizes(cs[..i])).Ok?
  {
    WalkSucceeds(read, cs, index);
    forall i | 0 <= i < |cs| ensures read(cs[i], index + SumSizes(cs[..i])).Ok? {
      WalkStepOffset(read, cs, index, i);
    }
  }

  /** ReadItems is the walk whose step is ReadItem. */
  lemma {:induction false} ReadItemsIsWalk<Ty, Obj>(ds: DataSerializer<Ty, Obj>, buffer: seq<uint8>, cs: seq<ItemContract>, index: int)
    ensures ReadItems(ds, buffer, cs, index) == WalkItems((c, at) => ReadItem(ds, buffer, c, at), cs, index)
    decreases |cs|
  {
    if |cs| > 0 {
      ReadItemsIsWalk(ds, buffer, cs[1..], index + cs[0].contentSize);
    }
  }

  /** When the item loop succeeds, every item reads at its offset. */
  lemma ReadItemsEachReads<Ty, Obj>(ds: DataSerializer<Ty, Obj>, buffer: seq<uint8>, cs: seq<ItemContract>, index: int)
    requires ReadItems(ds, buffer, cs, index).Ok?
    ensures forall i :: 0 <= i < |cs| ==> ReadItem(ds, buffer, cs[i], index + SumSizes(cs[..i])).Ok?
  {
    forall i | 0 <= i < |cs| ensures ReadItem(ds, buffer, cs[i], index + SumSizes(cs[..i])).Ok? {
      ReadItemsReadsAt(ds, buffer, cs, index, i);
    }
  }

  /** One item of a successful item loop: it reads at its offset. */
  lemma ReadItemsReadsAt<Ty, Obj>(ds: DataSerializer<Ty, Obj>, buffer: seq<uint8>, cs: seq<ItemContract>, index: int, i: int)
    requires ReadItems(ds, buffer, cs, index).Ok? && 0 <= i < |cs|
    ensures ReadItem(ds, buffer, cs[i], index + SumSizes(cs[..i])).Ok?
  {
    var read := (c, at) => ReadItem(ds, buffer, c, at);
    ReadItemsIsWalk(ds, buffer, cs, index);
    WalkEachReads(read, cs, index);
    assert read(cs[i], index + SumSizes(cs[..i])).Ok?;
  }

  /** When every item reads at its offset, the item loop succeeds. */
  lemma ReadItemsAllRead<Ty, Obj>(ds: DataSerializer<Ty, Obj>, buffer: seq<uint8>, cs: seq<ItemContract>, index: int)
    requires forall i :: 0 <= i < |cs| ==> ReadItem(ds, buffer, cs[i], index + SumSizes(cs[..i])).Ok?
    ensures ReadItems(ds, buffer, cs, index).Ok?
  {
    var read := (c, at) => ReadItem(ds, buffer, c, at);
    ReadItemsIsWalk(ds, buffer, cs, index);
    forall i | 0 <= i < |cs| ensures read(cs[i], index + SumSizes(cs[..i])).Ok? {
      assert ReadItem(ds, buffer, cs[i], index + SumSizes(cs[..i])).Ok?;
    }
    WalkAllRead(read, cs, index);
  }

  /** A failing item loop fails with the error of the first item that does not read. */
  lemma ReadItemsFirstError<Ty, Obj>(ds: DataSerializer<Ty, Obj>, buffer: seq<uint8>, cs: seq<ItemContract>, index: int)
    requires ReadItems(ds, buffer, cs, index).Err?
    ensures exists i ::
      && 0 <= i < |cs|
      && ReadItem(ds, buffer, cs[i], index + SumSizes(cs[..i])) == Err(ReadItems(ds, buffer, cs, index).error)
      && forall j :: 0 <= j < i ==> ReadItem(ds, buffer, cs[j], index + SumSizes(cs[..j])).Ok?
  {
    var read := (c, at) => ReadItem(ds, buffer, c, at);
    ReadItemsIsWalk(ds, buffer, cs, index);
    var k := WalkFirstErrorAt(read, cs, index);
    forall j | 0 <= j < k ensures ReadItem(ds, buffer, cs[j], index + SumSizes(cs[..j])).Ok? {
      assert read(cs[j], index + SumSizes(cs[..j])).Ok?;
    }
    assert ReadItem(ds, buffer, cs[k], index + SumSizes(cs[..k])) == Err(ReadItems(ds, buffer, cs, index).error);
  }

  /** One step of the item loop: the first item read, then the rest from the offset after it. */
  lemma ReadItemsCons<Ty, Obj>(ds: DataSerializer<Ty, Obj>, buffer: seq<uint8>, cs: seq<ItemContract>, index: int,
                               next: int, items: seq<MessageItem<Ty, Obj>>)
    requires |cs| > 0 && |items| > 0 && next == index + cs[0].contentSize
    requires ReadItem(ds, buffer, cs[0], index) == Ok(items[0])
    requires ReadItems(ds, buffer, cs[1..], next) == Ok(items[1..])
    ensures ReadItems(ds, buffer, cs, index) == Ok(items)
  {
    assert items == [items[0]] + items[1..];
  }

  /** `ReadDataMessage`. */
  function ReadDataMessage<Ty, Obj>(hf: HeaderFormat, es: EnvelopeSerializer, ds: DataSerializer<Ty, Obj>,
                                    ts: TimestampFormat, buffer: seq<uint8>): (r: Result<MessageEnvelope<Ty, Obj>>)
    ensures ReadFraming(hf, es, buffer).Err? ==> r == Err(ReadFraming(hf, es, buffer).error)
    ensures ReadFraming(hf, es, buffer).Ok? ==>
      var framing := ReadFraming(hf, es, buffer).value;
      var items := ReadItems(ds, buffer, framing.contract.items, framing.contentStart);
      var attributes := EnvelopeAttributesFromContract(ts, framing.contract.envelopeAttributes);
      && (r.Ok? <==> items.Ok? && attributes.Ok?)
      && (items.Err? ==> r == Err(items.error))
      && (items.Ok? && attributes.Err? ==> r == Err(attributes.error))
    ensures r.Ok? ==>
      var framing := ReadFraming(hf, es, buffer).value;
      && ReadItems(ds, buffer, framing.contract.items, framing.contentStart) == Ok(r.value.items)
      && EnvelopeAttributesFromContract(ts, framing.contract.envelopeAttributes) == Ok(r.value.attributes)
      && r.value.envelopeId == framing.contract.envelopeId
      && r.value.deliverOn == framing.contract.deliverOnUtc
  {
    var framing :- ReadFraming(hf, es, buffer);
    var items :- ReadItems(ds, buffer, framing.contract.items, framing.contentStart);
    var attributes :- EnvelopeAttributesFromContract(ts, framing.contract.envelopeAttributes);
    Ok(MessageEnvelope(framing.contract.envelopeId, attributes, items, framing.contract.deliverOnUtc))
  }

  // ---------------------------------------------------------------- properties

  /** A buffer whose header carries any version other than the data schema is rejected,
      whatever the envelope and data serializers would do with the rest. */
  lemma WrongVersionIsRejected<Ty, Obj>(hf: HeaderFormat, es: EnvelopeSerializer, ds: DataSerializer<Ty, Obj>,
                                        ts: TimestampFormat, buffer: seq<uint8>)
    requires |buffer| >= hf.fixedSize
    requires hf.read(buffer[..hf.fixedSize]).messageFormatVersion != hf.schema2DataFormat
    ensures ReadDataMessage(hf, es, ds, ts, buffer) == Err(UnexpectedMessageFormat)
  {
  }

  /** An item the writing serializer `ds` names, whose name the reading serializer
      `reader` resolves back to the same type and whose bytes `reader` reads back,
      carrying no item attributes (which the writer cannot encode). */
  ghost predicate ItemReadsBack<Ty, Obj>(ds: DataSerializer<Ty, Obj>, reader: DataSerializer<Ty, Obj>, item: MessageItem<Ty, Obj>) {
    && item.mappedType.Some?
    && ds.contractNameByType(item.mappedType.value).Some?
    && reader.contractTypeByName(ds.contractNameByType(item.mappedType.value).value) == item.mappedType
    && item.content.Instance?
    && reader.deserialize(ds.serialize(item.content), item.mappedType.value) == Some(item.content.obj)
    && item.attributes == []
  }

  /** An item that round-trips through one data serializer. */
  ghost predicate ItemRoundTrips<Ty, Obj>(ds: DataSerializer<Ty, Obj>, item: MessageItem<Ty, Obj>) {
    ItemReadsBack(ds, ds, item)
  }

  /** What `reader` decodes from the bytes `ds` saved for `item`: the item itself when
      it reads back, or, when `reader` does not resolve the saved contract name, the
      untyped serialized bytes. */
  ghost predicate ReadsBackAs<Ty, Obj>(ds: DataSerializer<Ty, Obj>, reader: DataSerializer<Ty, Obj>,
                                       item: MessageItem<Ty, Obj>, decoded: MessageItem<Ty, Obj>) {
    || (ItemReadsBack(ds, reader, item) && decoded == item)
    || (&& ContractName(ds, item.mappedType).Ok?
        && reader.contractTypeByName(ContractName(ds, item.mappedType).value).None?
        && item.attributes == []
        && decoded == MessageItem(None, RawBytes(ds.serialize(item.content)), []))
  }

  /** The item at position `i` of the content section starts at the sum of the sizes before it. */
  lemma {:induction false} SerializedAt<Ty, Obj>(ds: DataSerializer<Ty, Obj>, cs: seq<ItemContract>, items: seq<MessageItem<Ty, Obj>>, i: nat)
    requires |cs| == |items| && i < |items|
    requires forall j :: 0 <= j < |items| ==> cs[j].contentSize == |ds.serialize(items[j].content)|
    ensures 0 <= SumSizes(cs[..i])
    ensures SumSizes(cs[..i]) + cs[i].contentSize <= |Serialized(ds, items)|
    ensures Serialized(ds, items)[SumSizes(cs[..i])..SumSizes(cs[..i]) + cs[i].contentSize] == ds.serialize(items[i].content)
    decreases i
  {
    var head := ds.serialize(items[0].content);
    assert Serialized(ds, items) == head + Serialized(ds, items[1..]);
    if i == 0 {
      assert cs[..0] == [];
    } else {
      SumSizesCons(cs, i);
      SerializedAt(ds, cs[1..], items[1..], i - 1);
      assert items[1..][i - 1] == items[i];
    }
  }

  /** An item's saved bytes read back as what the reading serializer makes of them. */
  lemma ReadSavedItem<Ty, Obj>(ds: DataSerializer<Ty, Obj>, reader: DataSerializer<Ty, Obj>, buffer: seq<uint8>,
                               c: ItemContract, item: MessageItem<Ty, Obj>, decoded: MessageItem<Ty, Obj>, index: nat)
    requires DescribesItem(ds, c, item) && ReadsBackAs(ds, reader, item, decoded)
    requires index + c.contentSize <= |buffer|
    requires buffer[index..index + c.contentSize] == ds.serialize(item.content)
    ensures ReadItem(reader, buffer, c, index) == Ok(decoded)
  {
  }

  /** A slice of the buffer that holds `head + tail` holds `head`, then `tail`. */
  lemma SplitSlice(buffer: seq<uint8>, index: nat, head: seq<uint8>, tail: seq<uint8>)
    requires index + |head| + |tail| <= |buffer|
    requires buffer[index..index + |head| + |tail|] == head + tail
    ensures buffer[index..index + |head|] == head
    ensures buffer[index + |head|..index + |head| + |tail|] == tail
  {
    assert buffer[index..index + |head|] == buffer[index..index + |head| + |tail|][..|head|];
    assert buffer[index + |head|..index + |head| + |tail|] == buffer[index..index + |head| + |tail|][|head|..];
  }

  /** The first step of reading a saved content section: the first item reads back
      from its bytes, and the bytes after it are the rest of the section. */
  lemma ReadSavedHead<Ty, Obj>(ds: DataSerializer<Ty, Obj>, reader: DataSerializer<Ty, Obj>, buffer: seq<uint8>,
                               c: ItemContract, item: MessageItem<Ty, Obj>, decoded: MessageItem<Ty, Obj>,
                               tail: seq<uint8>, index: nat)
    requires DescribesItem(ds, c, item) && ReadsBackAs(ds, reader, item, decoded)
    requires index + |ds.serialize(item.content)| + |tail| <= |buffer|
    requires buffer[index..index + |ds.serialize(item.content)| + |tail|] == ds.serialize(item.content) + tail
    ensures ReadItem(reader, buffer, c, index) == Ok(decoded)
    ensures buffer[index + |ds.serialize(item.content)|..index + |ds.serialize(item.content)| + |tail|] == tail
  {
    SplitSlice(buffer, index, ds.serialize(item.content), tail);
    ReadSavedItem(ds, reader, buffer, c, item, decoded, index);
  }

  /** Reading the content section `ds` wrote for `items` with `reader` gives, item by
      item, what `reader` makes of each. */
  lemma {:induction false} ReadSavedItems<Ty, Obj>(ds: DataSerializer<Ty, Obj>, reader: DataSerializer<Ty, Obj>, buffer: seq<uint8>,
                                                   cs: seq<ItemContract>, items: seq<MessageItem<Ty, Obj>>,
                                                   decoded: seq<MessageItem<Ty, Obj>>, index: nat)
    requires |cs| == |items| == |decoded|
    requires forall i :: 0 <= i < |items| ==> DescribesItem(ds, cs[i], items[i]) && ReadsBackAs(ds, reader, items[i], decoded[i])
    requires index + |Serialized(ds, items)| <= |buffer|
    requires buffer[index..index + |Serialized(ds, items)|] == Serialized(ds, items)
    ensures ReadItems(reader, buffer, cs, index) == Ok(decoded)
    decreases |items|
  {
    if |items| > 0 {
      var head := ds.serialize(items[0].content);
      var tail := Serialized(ds, items[1..]);
      assert Serialized(ds, items) == head + tail;
      ReadSavedHead(ds, reader, buffer, cs[0], items[0], decoded[0], tail, index);
      forall i | 0 <= i < |items| - 1
        ensures DescribesItem(ds, cs[1..][i], items[1..][i]) && ReadsBackAs(ds, reader, items[1..][i], decoded[1..][i])
      {
        assert cs[1..][i] == cs[i + 1] && items[1..][i] == items[i + 1] && decoded[1..][i] == decoded[i + 1];
      }
      ReadSavedItems(ds, reader, buffer, cs[1..], items[1..], decoded[1..], index + |head|);
      ReadItemsCons(reader, buffer, cs, index, index + |head|, decoded);
    }
  }

  /** Where a saved data message puts things: the reader finds the saved metadata
      record after the header, and the content section from there to the end. */
  lemma SavedLayout<Ty, Obj>(hf: HeaderFormat, es: EnvelopeSerializer, ds: DataSerializer<Ty, Obj>,
                             ts: TimestampFormat, e: MessageEnvelope<Ty, Obj>)
    requires HeaderRoundTrips(hf) && EnvelopeSerializerRoundTrips(es)
    requires SaveDataMessage(hf, es, ds, ts, e).Ok?
    ensures var buffer := SaveDataMessage(hf, es, ds, ts, e).value;
      var start := hf.fixedSize + |es.serialize(SavedContract(ds, ts, e))|;
      && ReadFraming(hf, es, buffer) == Ok(Framing(SavedContract(ds, ts, e), start))
      && start + |Serialized(ds, e.items)| == |buffer|
      && buffer[start..] == Serialized(ds, e.items)
  {
    var contract := SavedContract(ds, ts, e);
    var meta := es.serialize(contract);
    var header := MessageHeader(hf.schema2DataFormat, |meta|, 0);
    assert hf.read(hf.write(header)) == header;
    assert es.deserialize(meta) == Some(contract);
  }

  /** Reading a saved data message with the serializer `reader` gives the original
      envelope, with integer attributes widened to longs and each item what `reader`
      makes of its saved bytes, for envelopes whose attributes hold no Sender entry. */
  lemma DataMessageReadBack<Ty, Obj>(hf: HeaderFormat, es: EnvelopeSerializer, ds: DataSerializer<Ty, Obj>,
                                     reader: DataSerializer<Ty, Obj>, ts: TimestampFormat,
                                     e: MessageEnvelope<Ty, Obj>, decoded: seq<MessageItem<Ty, Obj>>)
    requires HeaderRoundTrips(hf) && EnvelopeSerializerRoundTrips(es) && ParseInvertsFormat(ts)
    requires DistinctKeys(e.attributes) && forall i :: 0 <= i < |e.attributes| ==> RoundTrips(e.attributes[i])
    requires |decoded| == |e.items|
    requires forall i :: 0 <= i < |e.items| ==> ReadsBackAs(ds, reader, e.items[i], decoded[i])
    requires SaveDataMessage(hf, es, ds, ts, e).Ok?
    ensures ReadDataMessage(hf, es, reader, ts, SaveDataMessage(hf, es, ds, ts, e).value)
            == Ok(e.(attributes := WidenAll(e.attributes), items := decoded))
  {
    var buffer := SaveDataMessage(hf, es, ds, ts, e).value;
    var saved := SaveItems(ds, e.items, 0).value;
    var start := hf.fixedSize + |es.serialize(SavedContract(ds, ts, e))|;
    SavedLayout(hf, es, ds, ts, e);
    assert buffer[start..start + |Serialized(ds, e.items)|] == Serialized(ds, e.items);
    ReadSavedItems(ds, reader, buffer, saved.contracts, e.items, decoded, start);
    EnvelopeAttributesRoundTrip(ts, e.attributes);
  }

  /** Reading back a saved data message gives the original envelope, with integer
      attributes widened to longs, for envelopes whose items round-trip through the data
      serializer and whose attributes hold no Sender entry. */
  lemma DataMessageRoundTrip<Ty, Obj>(hf: HeaderFormat, es: EnvelopeSerializer, ds: DataSerializer<Ty, Obj>,
                                      ts: TimestampFormat, e: MessageEnvelope<Ty, Obj>)
    requires HeaderRoundTrips(hf) && EnvelopeSerializerRoundTrips(es) && ParseInvertsFormat(ts)
    requires DistinctKeys(e.attributes) && forall i :: 0 <= i < |e.attributes| ==> RoundTrips(e.attributes[i])
    requires forall i :: 0 <= i < |e.items| ==> ItemRoundTrips(ds, e.items[i])
    requires SaveDataMessage(hf, es, ds, ts, e).Ok?
    ensures ReadDataMessage(hf, es, ds, ts, SaveDataMessage(hf, es, ds, ts, e).value)
            == Ok(e.(attributes := WidenAll(e.attributes)))
  {
    DataMessageReadBack(hf, es, ds, ds, ts, e, e.items);
    assert e.(attributes := WidenAll(e.attributes), items := e.items) == e.(attributes := WidenAll(e.attributes));
  }

  /** A slice of the buffer's suffix is the corresponding slice of the buffer. */
  lemma SliceOfSuffix(buffer: seq<uint8>, start: nat, suffix: seq<uint8>, offset: nat, size: nat)
    requires start + |suffix| == |buffer| && buffer[start..] == suffix
    requires offset + size <= |suffix|
    ensures buffer[start + offset..start + offset + size] == suffix[offset..offset + size]
  {
    assert buffer[start + offset..start + offset + size] == buffer[start..][offset..offset + size];
  }

  /** The items of a decoded data message are read in sequence from the content
      section the framing points at. */
  lemma DecodedInSequence<Ty, Obj>(hf: HeaderFormat, es: EnvelopeSerializer, ds: DataSerializer<Ty, Obj>,
                                   ts: TimestampFormat, buffer: seq<uint8>, framing: Framing)
    requires ReadFraming(hf, es, buffer) == Ok(framing)
    requires ReadDataMessage(hf, es, ds, ts, buffer).Ok?
    ensures ReadInSequence(ds, buffer, framing.contract.items, framing.contentStart,
                           ReadDataMessage(hf, es, ds, ts, buffer).value.items)
  {
    ReadItemsInSequence(ds, buffer, framing.contract.items, framing.contentStart);
  }

  /** How ReadDataMessage walks the content section: one decoded item per item
      contract, in order, item i read from the bytes at FixedSize + EnvelopeBytes plus
      the content sizes declared before it, whether or not earlier names resolved. */
  lemma DecodedItemsAtOffsets<Ty, Obj>(hf: HeaderFormat, es: EnvelopeSerializer, ds: DataSerializer<Ty, Obj>,
                                       ts: TimestampFormat, buffer: seq<uint8>, i: nat)
    requires ReadDataMessage(hf, es, ds, ts, buffer).Ok?
    ensures ReadFraming(hf, es, buffer).Ok?
    ensures var framing := ReadFraming(hf, es, buffer).value;
      var cs := framing.contract.items;
      var items := ReadDataMessage(hf, es, ds, ts, buffer).value.items;
      && framing.contentStart == hf.fixedSize + ToInt32(hf.read(buffer[..hf.fixedSize]).envelopeBytes)
      && |items| == |cs|
      && (i < |cs| ==> ItemReadAt(ds, buffer, cs[i], framing.contentStart + SumSizes(cs[..i]), items[i]))
  {
    var framing := ReadFraming(hf, es, buffer).value;
    DecodedInSequence(hf, es, ds, ts, buffer, framing);
    ReadInSequenceItem(ds, buffer, framing.contract.items, framing.contentStart, ReadDataMessage(hf, es, ds, ts, buffer).value.items, i);
  }

  /** Read in sequence: one item per contract, and item i, if there is one, at its offset.
      ReadInSequenceAt behind the `i < |cs|` guard, stated apart so that the proof of
      DecodedItemsAtOffsets does not carry ReadDataMessage's contract into it. */
  lemma ReadInSequenceItem<Ty, Obj>(ds: DataSerializer<Ty, Obj>, buffer: seq<uint8>, cs: seq<ItemContract>,
                                    index: int, items: seq<MessageItem<Ty, Obj>>, i: nat)
    requires ReadInSequence(ds, buffer, cs, index, items)
    ensures |items| == |cs|
    ensures i < |cs| ==> ItemReadAt(ds, buffer, cs[i], index + SumSizes(cs[..i]), items[i])
  {
    if i < |cs| {
      ReadInSequenceAt(ds, buffer, cs, index, items, i);
    }
  }

  /** An item read from a contract whose name does not resolve and which carries no
      attributes is exactly its bytes. */
  lemma UnresolvedItemRead<Ty, Obj>(reader: DataSerializer<Ty, Obj>, buffer: seq<uint8>, c: ItemContract, index: int,
                                    item: MessageItem<Ty, Obj>, bytes: seq<uint8>)
    requires ItemReadAt(reader, buffer, c, index, item)
    requires reader.contractTypeByName(c.contractName).None? && c.attributes == []
    requires buffer[index..index + c.contentSize] == bytes
    ensures item == MessageItem(None, RawBytes(bytes), [])
  {
  }

  /** The content section holds the serialized items; an item the reader cannot
      resolve is decoded as its own serialized bytes. */
  lemma {:induction false} UnresolvedItemInContent<Ty, Obj>(ds: DataSerializer<Ty, Obj>, reader: DataSerializer<Ty, Obj>, buffer: seq<uint8>,
                                         cs: seq<ItemContract>, start: nat, items: seq<MessageItem<Ty, Obj>>,
                                         decoded: seq<MessageItem<Ty, Obj>>, i: nat)
    requires ReadInSequence(reader, buffer, cs, start, decoded)
    requires |cs| == |items|
    requires forall j :: 0 <= j < |items| ==> DescribesItem(ds, cs[j], items[j])
    requires start + |Serialized(ds, items)| == |buffer|
    requires buffer[start..] == Serialized(ds, items)
    requires i < |items| && reader.contractTypeByName(cs[i].contractName).None?
    ensures i < |decoded| && decoded[i] == MessageItem(None, RawBytes(ds.serialize(items[i].content)), [])
  {
    var bytes := ds.serialize(items[i].content);
    ReadInSequenceAt(reader, buffer, cs, start, decoded, i);
    assert cs[i].attributes == [] by {
      assert DescribesItem(ds, cs[i], items[i]);
    }
    var offset := SumSizes(cs[..i]);
    assert buffer[start + offset..start + offset + cs[i].contentSize] == bytes by {
      SerializedAt(ds, cs, items, i);
      SliceOfSuffix(buffer, start, Serialized(ds, items), offset, cs[i].contentSize);
    }
    UnresolvedItemRead(reader, buffer, cs[i], start + offset, decoded[i], bytes);
  }

  /** An item whose contract name the reading side cannot resolve comes back untyped,
      holding exactly the bytes the writing side serialized, while every other item and
      the attributes read back as they were written. */
  lemma UnresolvedItemKeepsBytes<Ty, Obj>(hf: HeaderFormat, es: EnvelopeSerializer, ds: DataSerializer<Ty, Obj>,
                                          reader: DataSerializer<Ty, Obj>, ts: TimestampFormat,
                                          e: MessageEnvelope<Ty, Obj>, i: nat)
    requires HeaderRoundTrips(hf) && EnvelopeSerializerRoundTrips(es) && ParseInvertsFormat(ts)
    requires DistinctKeys(e.attributes) && forall j :: 0 <= j < |e.attributes| ==> RoundTrips(e.attributes[j])
    requires SaveDataMessage(hf, es, ds, ts, e).Ok?
    requires i < |e.items|
    requires ContractName(ds, e.items[i].mappedType).Ok?
    requires reader.contractTypeByName(ContractName(ds, e.items[i].mappedType).value).None?
    requires forall j :: 0 <= j < |e.items| && j != i ==> ItemReadsBack(ds, reader, e.items[j])
    ensures ReadDataMessage(hf, es, reader, ts, SaveDataMessage(hf, es, ds, ts, e).value).Ok?
    ensures var d := ReadDataMessage(hf, es, reader, ts, SaveDataMessage(hf, es, ds, ts, e).value).value;
      && d.attributes == WidenAll(e.attributes)
      && |d.items| == |e.items|
      && d.items[i] == MessageItem(None, RawBytes(ds.serialize(e.items[i].content)), [])
      && forall j :: 0 <= j < |e.items| && j != i ==> d.items[j] == e.items[j]
  {
    var raw := MessageItem(None, RawBytes(ds.serialize(e.items[i].content)), []);
    var decoded := e.items[i := raw];
    assert e.items[i].attributes == [];
    forall j | 0 <= j < |e.items| ensures ReadsBackAs(ds, reader, e.items[j], decoded[j]) {
    }
    DataMessageReadBack(hf, es, ds, reader, ts, e, decoded);
  }
}
