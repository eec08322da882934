/** The attribute converter: maps attribute dictionaries to and from the tagged
    attribute records carried in the envelope metadata, at envelope scope (four
    tags) and at item scope (the two custom tags). */
module EnvelopeConvert {
  import opened Outcomes
  import opened Primitives
  import opened Dictionaries

  /** A DateTimeOffset: a tick count and an offset from UTC. */
  datatype Instant = Instant(ticks: int, offsetMinutes: int)

  /** The runtime value stored in an attribute dictionary (an `object` in .NET). */
  datatype AttrValue =
    | Null
    | Str(text: string)
    | Long(int64: int64)
    | Int(int32: int32)
    | Short(int16: int16)
    | Timestamp(instant: Instant)
    | OtherValue(typeName: string)   // any other runtime type: double, Guid, ...

  /** `DateTimeOffset.ToString("o")` and `DateTimeOffset.Parse`, supplied from outside;
      `parse` yields None where .NET throws a FormatException. */
  datatype TimestampFormat = TimestampFormat(format: Instant -> string, parse: string -> Option<Instant>)

  /** The round-trip ("o") format is read back by the parser. */
  ghost predicate ParseInvertsFormat(ts: TimestampFormat) {
    forall t :: ts.parse(ts.format(t)) == Some(t)
  }

  /** The two well-known keys of an envelope's attribute dictionary. */
  const CreatedUtcKey: string := "CreatedUtc"
  const SenderKey: string := "Sender"

  /** Envelope-scope tag; an enum value outside the four named ones is `UndefinedEnvelopeType`. */
  datatype EnvelopeAttributeType = CreatedUtc | Sender | CustomString | CustomNumber | UndefinedEnvelopeType(code: int)

  datatype EnvelopeAttributeContract = EnvelopeAttributeContract(
    kind: EnvelopeAttributeType,
    customName: Option<string>,
    stringValue: Option<string>,
    numberValue: int64)

  /** Item-scope tag: only the two custom kinds are named. */
  datatype ItemAttributeType = ItemCustomString | ItemCustomNumber | UndefinedItemType(code: int)

  datatype ItemAttributeContract = ItemAttributeContract(
    kind: ItemAttributeType,
    customName: Option<string>,
    stringValue: Option<string>,
    numberValue: int64)

  /** A possibly-null .NET string boxed as an attribute value. */
  function BoxString(s: Option<string>): (v: AttrValue)
    ensures v.Null? <==> s.None?
    ensures s.Some? ==> v == Str(s.value)
  {
    match s
    case None => Null
    case Some(text) => Str(text)
  }

  // ---------------------------------------------------------------- reading

  /** One iteration of the envelope-scope reader's switch: the entry it assigns. */
  function ReadEnvelopeAttribute(ts: TimestampFormat, c: EnvelopeAttributeContract): (r: Result<Entry<AttrValue>>)
    ensures c.kind.CreatedUtc? ==>
      if c.stringValue.Some? && ts.parse(c.stringValue.value).Some?
      then r == Ok(Entry(CreatedUtcKey, Timestamp(ts.parse(c.stringValue.value).value)))
      else r == Err(MalformedTimestamp)
    ensures c.kind.Sender? ==> r == Ok(Entry(SenderKey, BoxString(c.customName)))
    ensures c.kind.CustomString? ==>
      if c.customName.Some? then r == Ok(Entry(c.customName.value, BoxString(c.stringValue))) else r == Err(NullAttributeKey)
    ensures c.kind.CustomNumber? ==>
      if c.customName.Some? then r == Ok(Entry(c.customName.value, Long(c.numberValue))) else r == Err(NullAttributeKey)
    ensures c.kind.UndefinedEnvelopeType? ==> r == Err(UnknownAttributeType)
  {
    match c.kind
    case CreatedUtc =>
      if c.stringValue.None? then Err(MalformedTimestamp)
      else (
        match ts.parse(c.stringValue.value)
        case None => Err(MalformedTimestamp)
        case Some(t) => Ok(Entry(CreatedUtcKey, Timestamp(t))))
    case Sender => Ok(Entry(SenderKey, BoxString(c.customName)))
    case CustomString =>
      if c.customName.None? then Err(NullAttributeKey) else Ok(Entry(c.customName.value, BoxString(c.stringValue)))
    case CustomNumber =>
      if c.customName.None? then Err(NullAttributeKey) else Ok(Entry(c.customName.value, Long(c.numberValue)))
    case UndefinedEnvelopeType(_) => Err(UnknownAttributeType)
  }

  /** `AttributesFromContract` over envelope attribute contracts: the contracts are
      read in order, each assigned into the dictionary built from those before it,
      and the first contract that cannot be read aborts the whole conversion. */
  function EnvelopeAttributesFromContract(ts: TimestampFormat, cs: seq<EnvelopeAttributeContract>): (r: Result<Dictionary<AttrValue>>)
    ensures r.Ok? <==> forall i :: 0 <= i < |cs| ==> ReadEnvelopeAttribute(ts, cs[i]).Ok?
    ensures r.Err? ==> exists i :: 0 <= i < |cs| && ReadEnvelopeAttribute(ts, cs[i]) == Err(r.error)
                                   && forall j :: 0 <= j < i ==> ReadEnvelopeAttribute(ts, cs[j]).Ok?
    ensures r.Ok? ==> DistinctKeys(r.value)
    decreases |cs|
  {
    if |cs| == 0 then Ok([])
    else
      var init := cs[..|cs| - 1];
      assert forall i :: 0 <= i < |init| ==> init[i] == cs[i];
      var d :- EnvelopeAttributesFromContract(ts, init);
      var e :- ReadEnvelopeAttribute(ts, cs[|cs| - 1]);
      Ok(Assign(d, e.key, e.value))
  }

  /** Converting the contracts is reading each of them and then assigning the entries
      in order; so the keys are exactly those the contracts name, and each holds the
      value of the last contract naming it. */
  lemma {:induction false} EnvelopeAttributesLastWins(ts: TimestampFormat, cs: seq<EnvelopeAttributeContract>, es: seq<Entry<AttrValue>>)
    requires |es| == |cs|
    requires forall i :: 0 <= i < |cs| ==> ReadEnvelopeAttribute(ts, cs[i]) == Ok(es[i])
    ensures EnvelopeAttributesFromContract(ts, cs) == Ok(BuildDictionary(es))
    ensures KeysOf(EnvelopeAttributesFromContract(ts, cs).value) == KeysOf(es)
    ensures forall k :: Lookup(EnvelopeAttributesFromContract(ts, cs).value, k) == LastValue(es, k)
    decreases |cs|
  {
    if |cs| > 0 {
      var n := |cs| - 1;
      assert forall i :: 0 <= i < n ==> cs[..n][i] == cs[i] && es[..n][i] == es[i];
      EnvelopeAttributesLastWins(ts, cs[..n], es[..n]);
    }
  }

  /** One iteration of the item-scope reader's switch. */
  function ReadItemAttribute(c: ItemAttributeContract): (r: Result<Entry<AttrValue>>)
    ensures c.kind.ItemCustomString? ==>
      if c.customName.Some? then r == Ok(Entry(c.customName.value, BoxString(c.stringValue))) else r == Err(NullAttributeKey)
    ensures c.kind.ItemCustomNumber? ==>
      if c.customName.Some? then r == Ok(Entry(c.customName.value, Long(c.numberValue))) else r == Err(NullAttributeKey)
    ensures c.kind.UndefinedItemType? ==> r == Err(UnknownAttributeType)
  {
    match c.kind
    case ItemCustomString =>
      if c.customName.None? then Err(NullAttributeKey) else Ok(Entry(c.customName.value, BoxString(c.stringValue)))
    case ItemCustomNumber =>
      if c.customName.None? then Err(NullAttributeKey) else Ok(Entry(c.customName.value, Long(c.numberValue)))
    case UndefinedItemType(_) => Err(UnknownAttributeType)
  }

  /** `AttributesFromContract` over item attribute contracts, the same loop. */
  function ItemAttributesFromContract(cs: seq<ItemAttributeContract>): (r: Result<Dictionary<AttrValue>>)
    ensures r.Ok? <==> forall i :: 0 <= i < |cs| ==> ReadItemAttribute(cs[i]).Ok?
    ensures r.Err? ==> exists i :: 0 <= i < |cs| && ReadItemAttribute(cs[i]) == Err(r.error)
                                   && forall j :: 0 <= j < i ==> ReadItemAttribute(cs[j]).Ok?
    ensures r.Ok? ==> DistinctKeys(r.value)
    decreases |cs|
  {
    if |cs| == 0 then Ok([])
    else
      var init := cs[..|cs| - 1];
      assert forall i :: 0 <= i < |init| ==> init[i] == cs[i];
      var d :- ItemAttributesFromContract(init);
      var e :- ReadItemAttribute(cs[|cs| - 1]);
      Ok(Assign(d, e.key, e.value))
  }

  /** The item-scope conversion also reads, then assigns in order. */
  lemma {:induction false} ItemAttributesLastWins(cs: seq<ItemAttributeContract>, es: seq<Entry<AttrValue>>)
    requires |es| == |cs|
    requires forall i :: 0 <= i < |cs| ==> ReadItemAttribute(cs[i]) == Ok(es[i])
    ensures ItemAttributesFromContract(cs) == Ok(BuildDictionary(es))
    ensures KeysOf(ItemAttributesFromContract(cs).value) == KeysOf(es)
    ensures forall k :: Lookup(ItemAttributesFromContract(cs).value, k) == LastValue(es, k)
    decreases |cs|
  {
    if |cs| > 0 {
      var n := |cs| - 1;
      assert forall i :: 0 <= i < n ==> cs[..n][i] == cs[i] && es[..n][i] == es[i];
      ItemAttributesLastWins(cs[..n], es[..n]);
    }
  }

  // ---------------------------------------------------------------- writing

  /** One iteration of `EnvelopeAttributesToContract`: the contract written for one entry. */
  function WriteEnvelopeAttribute(ts: TimestampFormat, e: Entry<AttrValue>): (r: Result<EnvelopeAttributeContract>)
    ensures e.key == CreatedUtcKey ==> (r.Ok? <==> e.value.Timestamp?)
    ensures e.key == SenderKey ==> (r.Ok? <==> e.value.Str? || e.value.Null?)
    ensures e.key != CreatedUtcKey && e.key != SenderKey ==>
      (r.Ok? <==> e.value.Str? || e.value.Long? || e.value.Int? || e.value.Short?)
    ensures r.Ok? && e.key == CreatedUtcKey ==>
      r.value == EnvelopeAttributeContract(CreatedUtc, None, Some(ts.format(e.value.instant)), 0)
    ensures r.Ok? && e.key == SenderKey ==>
      r.value == EnvelopeAttributeContract(Sender, None, if e.value.Str? then Some(e.value.text) else None, 0)
    ensures r.Ok? && e.key != CreatedUtcKey && e.key != SenderKey && e.value.Str? ==>
      r.value == EnvelopeAttributeContract(CustomString, Some(e.key), Some(e.value.text), 0)
    ensures r.Ok? && e.key != CreatedUtcKey && e.key != SenderKey && !e.value.Str? ==>
      r.value == EnvelopeAttributeContract(CustomNumber, Some(e.key), None, Widen(e.value).int64)
    ensures r.Err? ==>
      r.error == (if e.key == CreatedUtcKey && e.value.Null? then NullTimestamp
                  else if e.key in {CreatedUtcKey, SenderKey} then InvalidCast
                  else UnsupportedAttributeValue)
  {
    if e.key == CreatedUtcKey then
      match e.value
      case Timestamp(t) => Ok(EnvelopeAttributeContract(CreatedUtc, None, Some(ts.format(t)), 0))
      case Null => Err(NullTimestamp)
      case _ => Err(InvalidCast)
    else if e.key == SenderKey then
      match e.value
      case Str(s) => Ok(EnvelopeAttributeContract(Sender, None, Some(s), 0))
      case Null => Ok(EnvelopeAttributeContract(Sender, None, None, 0))
      case _ => Err(InvalidCast)
    else
      match e.value
      case Str(s) => Ok(EnvelopeAttributeContract(CustomString, Some(e.key), Some(s), 0))
      case Long(n) => Ok(EnvelopeAttributeContract(CustomNumber, Some(e.key), None, n))
      case Int(n) => Ok(EnvelopeAttributeContract(CustomNumber, Some(e.key), None, n))
      case Short(n) => Ok(EnvelopeAttributeContract(CustomNumber, Some(e.key), None, n))
      case _ => Err(UnsupportedAttributeValue)
  }

  /** `EnvelopeAttributesToContract`: one contract per entry, in enumeration order. */
  function EnvelopeAttributesToContract(ts: TimestampFormat, d: Dictionary<AttrValue>): (r: Result<seq<EnvelopeAttributeContract>>)
    ensures r.Ok? <==> forall i :: 0 <= i < |d| ==> WriteEnvelopeAttribute(ts, d[i]).Ok?
    ensures r.Ok? ==> |r.value| == |d| && forall i :: 0 <= i < |d| ==> r.value[i] == WriteEnvelopeAttribute(ts, d[i]).value
    ensures r.Err? ==> exists i :: 0 <= i < |d| && WriteEnvelopeAttribute(ts, d[i]) == Err(r.error)
                                   && forall j :: 0 <= j < i ==> WriteEnvelopeAttribute(ts, d[j]).Ok?
  {
    Traverse(d, e => WriteEnvelopeAttribute(ts, e))
  }

  /** `ItemAttributesToContract`: writing item attributes is not implemented, so only
      the empty collection converts. */
  function ItemAttributesToContract(d: Dictionary<AttrValue>): (r: Result<seq<ItemAttributeContract>>)
    ensures r.Ok? <==> |d| == 0
    ensures r.Ok? ==> r.value == []
    ensures r.Err? ==> r.error == ItemAttributesNotImplemented
  {
    if |d| == 0 then Ok([]) else Err(ItemAttributesNotImplemented)
  }

  // ---------------------------------------------------------------- round trip

  /** The value read back for a written integer: every integer returns as a long. */
  function Widen(v: AttrValue): (w: AttrValue)
    ensures v.Int? ==> w == Long(v.int32)
    ensures v.Short? ==> w == Long(v.int16)
    ensures !v.Int? && !v.Short? ==> w == v
  {
    match v
    case Int(n) => Long(n)
    case Short(n) => Long(n)
    case _ => v
  }

  function WidenAll(d: Dictionary<AttrValue>): (r: Dictionary<AttrValue>)
    ensures |r| == |d|
    ensures forall i :: 0 <= i < |d| ==> r[i] == Entry(d[i].key, Widen(d[i].value))
  {
    seq(|d|, i requires 0 <= i < |d| => Entry(d[i].key, Widen(d[i].value)))
  }

  /** An entry the converter writes and reads back to the same value, up to widening:
      never the Sender key, a timestamp under CreatedUtc, a string or an integer elsewhere. */
  predicate RoundTrips(e: Entry<AttrValue>) {
    && e.key != SenderKey
    && (e.key == CreatedUtcKey ==> e.value.Timestamp?)
    && (e.key != CreatedUtcKey ==> e.value.Str? || e.value.Long? || e.value.Int? || e.value.Short?)
  }

  lemma EntryRoundTrip(ts: TimestampFormat, e: Entry<AttrValue>)
    requires ParseInvertsFormat(ts)
    requires RoundTrips(e)
    ensures WriteEnvelopeAttribute(ts, e).Ok?
    ensures ReadEnvelopeAttribute(ts, WriteEnvelopeAttribute(ts, e).value) == Ok(Entry(e.key, Widen(e.value)))
  {
  }

  /** Reading back what the writer produced gives the original dictionary, with
      integers widened to longs, when it has no Sender entry. */
  lemma {:induction false} EnvelopeAttributesRoundTrip(ts: TimestampFormat, d: Dictionary<AttrValue>)
    requires ParseInvertsFormat(ts)
    requires DistinctKeys(d)
    requires forall i :: 0 <= i < |d| ==> RoundTrips(d[i])
    ensures EnvelopeAttributesToContract(ts, d).Ok?
    ensures EnvelopeAttributesFromContract(ts, EnvelopeAttributesToContract(ts, d).value) == Ok(WidenAll(d))
  {
    forall i | 0 <= i < |d| ensures WriteEnvelopeAttribute(ts, d[i]).Ok? {
      EntryRoundTrip(ts, d[i]);
    }
    var cs := EnvelopeAttributesToContract(ts, d).value;
    var w := WidenAll(d);
    forall i | 0 <= i < |cs| ensures ReadEnvelopeAttribute(ts, cs[i]) == Ok(w[i]) {
      EntryRoundTrip(ts, d[i]);
    }
    EnvelopeAttributesLastWins(ts, cs, w);
    assert DistinctKeys(w) by {
      forall i, j | 0 <= i < j < |w| ensures w[i].key != w[j].key {
        assert w[i].key == d[i].key && w[j].key == d[j].key;
      }
    }
    BuildDistinctIsIdentity(w);
  }

  /** The reader takes the Sender value from CustomName, which the writer leaves
      null: whatever string is written under Sender, it reads back as null. */
  lemma SenderReadsBackAsNull(ts: TimestampFormat, v: AttrValue)
    requires v.Str? || v.Null?
    ensures WriteEnvelopeAttribute(ts, Entry(SenderKey, v)).Ok?
    ensures ReadEnvelopeAttribute(ts, WriteEnvelopeAttribute(ts, Entry(SenderKey, v)).value) == Ok(Entry(SenderKey, Null))
  {
  }

  /** Consequently a dictionary holding a Sender string does not round-trip. */
  lemma SenderDoesNotRoundTrip(ts: TimestampFormat, sender: string)
    ensures var d := [Entry(SenderKey, Str(sender))];
      EnvelopeAttributesToContract(ts, d).Ok? &&
      EnvelopeAttributesFromContract(ts, EnvelopeAttributesToContract(ts, d).value) == Ok([Entry(SenderKey, Null)])
  {
    SenderReadsBackAsNull(ts, Str(sender));
  }

  /** The item-scope writer's only output, the empty contract list, reads back as the
      empty dictionary it came from. */
  lemma ItemAttributesRoundTrip(d: Dictionary<AttrValue>)
    requires ItemAttributesToContract(d).Ok?
    ensures ItemAttributesFromContract(ItemAttributesToContract(d).value) == Ok(d)
  {
  }
}
