# Envelope codec of Lokad.Cqrs, in Dafny

This project models the envelope codec of the Lokad.Cqrs messaging transport. The codec has two cooperating parts.

- **The attribute converter** (`EnvelopeConvert`) maps an envelope's or an item's attribute dictionary to the tagged attribute records of the envelope metadata, and back.
  - Envelope-scope tags are `CreatedUtc`, `Sender`, `CustomString` and `CustomNumber`.
  - Item scope accepts only the two custom tags.
  - Writing item attributes is not implemented in Lokad.Cqrs, so only an empty item dictionary converts.
- **The envelope streamer** has two wire formats.
  - The claim-check *reference message* (`ReferenceMessages`) is UTF-16LE text. It starts with the signature `[cqrs-ref-r1]`, followed by three CRLF-separated fields. A buffer is treated as a reference exactly when it starts with the signature bytes.
  - The binary *data message* (`DataMessages`) is laid out as header, metadata block, content section.
    - The header has a fixed size.
    - The metadata block is written by the envelope serializer.
    - The content section holds every item's payload, concatenated in item order.
    - Each item's size is recorded in the metadata. The reader walks the content section with an offset, and keeps items whose contract name does not resolve as raw byte slices.

Supporting modules:

- `Outcomes`: `Option`, `Result` and the error kinds. Each error kind stands for an exception the .NET code throws. `Traverse` models a `foreach` loop that stops at the first exception.
- `Primitives`: the .NET integer widths, and the unchecked `(int)` cast of a `long`.
- `Dictionaries`: a `Dictionary<string, object>` that is only ever added to. It is modelled as its entries in enumeration order: a new key is appended, and an existing key is overwritten in place.
- `Utf16`: `Encoding.Unicode` over 16-bit code units, two bytes each, low byte first.

## Collaborators as parameters

The collaborators are values of function type passed in as parameters. The properties they must satisfy for a round trip are stated as `requires` predicates.

- **The data serializer** (`DataSerializer`) supplies:
  - `TryGetContractNameByType` and `TryGetContractTypeByName`, with `None` for `false`;
  - `Serialize`;
  - `Deserialize`, with `None` where it throws.
- **The envelope serializer** (`EnvelopeSerializer`): round trips are assumed through `EnvelopeSerializerRoundTrips`.
- **The `MessageHeader` layout** (`HeaderFormat`) is:
  - a fixed size;
  - the data-schema version tag;
  - a `write` and `read` pair, assumed to be inverse (`HeaderRoundTrips`).
- **`DateTimeOffset` "o" formatting and parsing** (`TimestampFormat`): parsing is assumed to invert formatting (`ParseInvertsFormat`).

## Behaviour worth knowing

- **The `Sender` attribute does not round-trip.**
  - The writer puts the sender in `StringValue` (EnvelopeConvert.cs lines 100-105).
  - The reader takes the value stored under the `Sender` key from `CustomName` (lines 26-27), which the writer leaves null.
  - So a written sender string reads back as null. The model does exactly that (`SenderReadsBackAsNull`, `SenderDoesNotRoundTrip`), and the round-trip lemmas exclude the `Sender` key.
  - A client that stores a sender on an envelope and sends it as a data message therefore receives the envelope with the `Sender` attribute set to null.
- **Integers come back as longs.** `int` and `short` custom attributes are written as 64-bit numbers and read back as `long`. The round trip therefore holds up to `Widen`.

## Model

| member | source | states |
|---|---|---|
| EnvelopeConvert.ReadEnvelopeAttribute | Framework/Lokad.Cqrs.Portable/Core.Envelope/EnvelopeConvert.cs:21-37 | per tag: CreatedUtc stores the parsed StringValue under the CreatedUtc key (malformed or null fails); Sender stores CustomName under the Sender key; CustomString/CustomNumber store StringValue/NumberValue under CustomName (null name fails); any other tag fails |
| EnvelopeConvert.EnvelopeAttributesFromContract | Framework/Lokad.Cqrs.Portable/Core.Envelope/EnvelopeConvert.cs:15-40 | succeeds exactly when every contract reads; otherwise fails with the error of the first contract that does not; the resulting dictionary never holds a key twice |
| EnvelopeConvert.EnvelopeAttributesLastWins | Framework/Lokad.Cqrs.Portable/Core.Envelope/EnvelopeConvert.cs:17-39 | the envelope-scope dictionary is the in-order assignment of the entries read: its keys are exactly the keys that appear, and each holds the value of the last contract naming it |
| EnvelopeConvert.ReadItemAttribute | Framework/Lokad.Cqrs.Portable/Core.Envelope/EnvelopeConvert.cs:48-57 | item scope accepts only CustomString and CustomNumber, storing under CustomName; any other tag fails |
| EnvelopeConvert.ItemAttributesFromContract | Framework/Lokad.Cqrs.Portable/Core.Envelope/EnvelopeConvert.cs:42-61 | succeeds exactly when every item contract reads, else fails with the first failing contract's error; keys are distinct |
| EnvelopeConvert.ItemAttributesLastWins | Framework/Lokad.Cqrs.Portable/Core.Envelope/EnvelopeConvert.cs:44-60 | the item-scope dictionary is the in-order assignment: keys exactly those that appear, later contracts overwrite earlier ones |
| EnvelopeConvert.ItemAttributesToContract | Framework/Lokad.Cqrs.Portable/Core.Envelope/EnvelopeConvert.cs:63-81 | succeeds exactly when the collection is empty, and then gives the empty array; any non-empty collection fails with NotImplementedException |
| EnvelopeConvert.WriteEnvelopeAttribute | Framework/Lokad.Cqrs.Portable/Core.Envelope/EnvelopeConvert.cs:91-131 | key CreatedUtc writes tag CreatedUtc with the timestamp's "o" text in StringValue; a null value fails with NullReferenceException and any other non-timestamp with InvalidCast. Key Sender writes tag Sender with the string, or null, in StringValue and no CustomName; any other value fails with InvalidCast. Any other key writes CustomString with CustomName = key and StringValue = the string, or CustomNumber with CustomName = key and NumberValue = the 16/32/64-bit integer widened to 64 bits; any other value fails as not supported |
| EnvelopeConvert.EnvelopeAttributesToContract | Framework/Lokad.Cqrs.Portable/Core.Envelope/EnvelopeConvert.cs:83-136 | exactly one contract per entry, in enumeration order, each the one written for its entry; fails exactly when some entry cannot be written, with the error of the first such entry, every earlier entry having been written |
| EnvelopeConvert.EntryRoundTrip | Framework/Lokad.Cqrs.Portable/Core.Envelope/EnvelopeConvert.cs:93-125 | a CreatedUtc timestamp or a custom string/integer entry is written and read back as itself, integers widened to long |
| EnvelopeConvert.EnvelopeAttributesRoundTrip | Framework/Lokad.Cqrs.Portable/Core.Envelope/EnvelopeConvert.cs:15-136 | reading back the contracts written for a dictionary without a Sender entry gives the same dictionary, integers widened to long |
| EnvelopeConvert.SenderReadsBackAsNull | Framework/Lokad.Cqrs.Portable/Core.Envelope/EnvelopeConvert.cs:26-27 | a Sender entry is written successfully but reads back as null, whatever string it held |
| EnvelopeConvert.SenderDoesNotRoundTrip | Framework/Lokad.Cqrs.Portable/Core.Envelope/EnvelopeConvert.cs:100-105 | the dictionary holding only Sender = s reads back as Sender = null |
| EnvelopeConvert.ItemAttributesRoundTrip | Framework/Lokad.Cqrs.Portable/Core.Envelope/EnvelopeConvert.cs:63-81 | whatever the item writer accepts reads back as the dictionary it came from |
| Dictionaries.Assign | Framework/Lokad.Cqrs.Portable/Core.Envelope/EnvelopeConvert.cs:24-33 | `dict[k] = v`: afterwards k maps to v, every other key keeps its value, the key set gains k, distinct keys stay distinct; a new key is appended after the existing entries |
| Dictionaries.AssignInPlace | Framework/Lokad.Cqrs.Portable/Core.Envelope/EnvelopeConvert.cs:24-33 | `dict[k] = v` on a key already present keeps the entry count and replaces that key's entry in its position, every other entry unchanged |
| Dictionaries.BuildDictionary | Framework/Lokad.Cqrs.Portable/Core.Envelope/EnvelopeConvert.cs:17-39 | assigning entries in order yields distinct keys, exactly the keys of the entries, and for every key the value of the last entry with that key |
| Dictionaries.BuildDistinctIsIdentity | Framework/Lokad.Cqrs.Portable/Core.Envelope/EnvelopeConvert.cs:17-39 | assigning entries whose keys are already distinct rebuilds exactly those entries in the same order |
| Outcomes.Traverse | Framework/Lokad.Cqrs.Portable/Core.Envelope/EnvelopeConvert.cs:89-133 | a loop that stops at the first exception: succeeds exactly when every element does, with the elements' results in order; otherwise the error is that of the first element that fails |
| Utf16.DecodeEncode | Framework/Lokad.Cqrs.Portable/Core.Envelope/EnvelopeStreamer.cs:40 | decoding the UTF-16LE bytes of a text gives the text back |
| Utf16.EncodeLayout | Framework/Lokad.Cqrs.Portable/Core.Envelope/EnvelopeStreamer.cs:40 | `Encoding.Unicode.GetBytes`: code unit i becomes byte 2i (its low byte) followed by byte 2i+1 (its high byte) |
| Utf16.EncodeAppend | Framework/Lokad.Cqrs.Portable/Core.Envelope/EnvelopeStreamer.cs:40 | encoding a concatenation gives the encodings concatenated |
| Utf16.DecodeLayout | Framework/Lokad.Cqrs.Portable/Core.Envelope/EnvelopeStreamer.cs:97 | `Encoding.Unicode.GetString`: unit i of the text is byte 2i plus 256 times byte 2i+1, for every complete pair |
| Utf16.DecodeOddByte | Framework/Lokad.Cqrs.Portable/Core.Envelope/EnvelopeStreamer.cs:97 | a trailing odd byte decodes to one replacement character U+FFFD |
| ReferenceMessages.BytesStart | Framework/Lokad.Cqrs.Portable/Core.Envelope/EnvelopeStreamer.cs:106-118 | true exactly when the buffer is at least as long as the signature and its first bytes equal the signature |
| ReferenceMessages.MatchesFrom | Framework/Lokad.Cqrs.Portable/Core.Envelope/EnvelopeStreamer.cs:111-115 | the comparison loop from index i succeeds exactly when the remaining signature bytes match |
| ReferenceMessages.SaveReferenceMessage | Framework/Lokad.Cqrs.Portable/Core.Envelope/EnvelopeStreamer.cs:30-41 | the message decodes to signature, CRLF, id, CRLF, container, CRLF, reference; it always starts with the signature bytes; two bytes per code unit |
| ReferenceMessages.SplitFrom | Framework/Lokad.Cqrs.Portable/Core.Envelope/EnvelopeStreamer.cs:98 | splitting on CRLF yields at least one segment, and joining the segments with CRLF restores the text |
| ReferenceMessages.RemoveEmpty | Framework/Lokad.Cqrs.Portable/Core.Envelope/EnvelopeStreamer.cs:98 | no empty segment remains; segments that are all non-empty are kept unchanged |
| ReferenceMessages.RemoveEmptyKeepsNonEmpty | Framework/Lokad.Cqrs.Portable/Core.Envelope/EnvelopeStreamer.cs:98 | a segment survives RemoveEmptyEntries exactly when it was among the split segments and is non-empty |
| ReferenceMessages.RemoveEmptyAppend | Framework/Lokad.Cqrs.Portable/Core.Envelope/EnvelopeStreamer.cs:98 | RemoveEmptyEntries works segment by segment: filtering a concatenation gives the filtered parts concatenated, so the order of the kept segments is their order in the split |
| ReferenceMessages.RemoveEmptySingle | Framework/Lokad.Cqrs.Portable/Core.Envelope/EnvelopeStreamer.cs:98 | a single segment is kept exactly when it is non-empty, so each non-empty segment is kept once and each empty one dropped |
| ReferenceMessages.SplitFromSegmentsNoCrlf | Framework/Lokad.Cqrs.Portable/Core.Envelope/EnvelopeStreamer.cs:98 | no segment the split produces contains a CR immediately followed by LF, so every separator is cut |
| ReferenceMessages.SplitLinesSegments | Framework/Lokad.Cqrs.Portable/Core.Envelope/EnvelopeStreamer.cs:98 | the segments left after RemoveEmptyEntries are non-empty and contain no CRLF |
| ReferenceMessages.SplitJoin | Framework/Lokad.Cqrs.Portable/Core.Envelope/EnvelopeStreamer.cs:98 | segments free of CRLF joined with CRLF split back into the same segments |
| ReferenceMessages.SplitLinesJoin | Framework/Lokad.Cqrs.Portable/Core.Envelope/EnvelopeStreamer.cs:98 | non-empty fields free of CRLF, joined with CRLF, split with RemoveEmptyEntries back into the same fields |
| ReferenceMessages.TryReadAsReference | Framework/Lokad.Cqrs.Portable/Core.Envelope/EnvelopeStreamer.cs:93-104 | returns false, without error, exactly when the buffer does not start with the signature; with the signature it fails exactly when the decoded text has fewer than four non-empty CRLF-separated segments, and otherwise returns segments 1-3 as id, container and reference |
| ReferenceMessages.SavedReferenceLines | Framework/Lokad.Cqrs.Portable/Core.Envelope/EnvelopeStreamer.cs:95-98 | a saved reference whose fields hold no CRLF starts with the signature and splits into signature, id, container, reference |
| ReferenceMessages.ReferenceRoundTrip | Framework/Lokad.Cqrs.Portable/Core.Envelope/EnvelopeStreamer.cs:93-104 | reading a saved reference whose fields are non-empty and hold no CRLF returns true with the same three fields |
| ReferenceMessages.EmptyFieldIsMalformed | Framework/Lokad.Cqrs.Portable/Core.Envelope/EnvelopeStreamer.cs:98-99 | a saved reference with an empty id loses that segment and fails to read |
| ReferenceMessages.ShortBufferIsNotReference | Framework/Lokad.Cqrs.Portable/Core.Envelope/EnvelopeStreamer.cs:106-109 | any buffer shorter than the signature, the empty one included, returns false without error |
| DataMessages.ContractName | Framework/Lokad.Cqrs.Portable/Core.Envelope/EnvelopeStreamer.cs:55-60 | an item's contract name is the serializer's name for its type; a type without one fails |
| DataMessages.SaveItems | Framework/Lokad.Cqrs.Portable/Core.Envelope/EnvelopeStreamer.cs:50-68 | succeeds exactly when every item has a contract name and no attributes and the content fits a stream; one contract per item, each with the item's name and content size equal to its serialization's length; the content is the in-order concatenation, so the sizes sum to its length |
| DataMessages.SaveDataMessage | Framework/Lokad.Cqrs.Portable/Core.Envelope/EnvelopeStreamer.cs:44-91 | succeeds exactly when the item loop and the envelope-attribute conversion succeed and the whole message fits a stream; a failure is the item loop's error first, then the attribute converter's, and otherwise the final stream's length; any item whose type has no contract name makes it fail; on success the buffer is a FixedSize header with the data-schema version, EnvelopeBytes = metadata length and ContentLength 0, then the metadata block, then the content |
| DataMessages.FirstSaveErrorAt | Framework/Lokad.Cqrs.Portable/Core.Envelope/EnvelopeStreamer.cs:50-68 | the reference's error is the error of the item at the index where it stops, at the offset the earlier items' bytes bring the stream to |
| DataMessages.BeforeFirstSaveIndex | Framework/Lokad.Cqrs.Portable/Core.Envelope/EnvelopeStreamer.cs:50-68 | every item before the one the reference stops at is saved without error |
| DataMessages.SaveItemsFirstError | Framework/Lokad.Cqrs.Portable/Core.Envelope/EnvelopeStreamer.cs:50-68 | a failed item loop fails with the error of its first failing item: the name check (line 56), then the stream growth, then item attributes (line 64), checked at the offset the earlier items' bytes bring the stream to; every earlier item was saved |
| DataMessages.ReadFraming | Framework/Lokad.Cqrs.Portable/Core.Envelope/EnvelopeStreamer.cs:121-135 | a short buffer or a header version other than the data schema fails before the envelope serializer runs; with the data-schema version, an EnvelopeBytes (cast to int) that is negative or runs past the buffer fails as out of range, and otherwise framing succeeds exactly when the envelope serializer accepts those bytes after the header, with the content starting right after them |
| DataMessages.ReadItem | Framework/Lokad.Cqrs.Portable/Core.Envelope/EnvelopeStreamer.cs:142-162 | one item: succeeds exactly when its attributes convert, the bytes [index, index + ContentSize) lie inside the buffer and, for a resolved name, deserialize; the item is those bytes deserialized to the resolved type or, when the name does not resolve, that exact slice with no type |
| DataMessages.ReadItemError | Framework/Lokad.Cqrs.Portable/Core.Envelope/EnvelopeStreamer.cs:143-158 | a failed item read fails with the attribute converter's error (line 143) first, then out of range for a slice outside the buffer (lines 147, 158), and otherwise with the deserializer's failure (line 149) |
| DataMessages.ReadItems | Framework/Lokad.Cqrs.Portable/Core.Envelope/EnvelopeStreamer.cs:138-163 | the item loop yields one item per contract |
| DataMessages.ReadItemsInSequence | Framework/Lokad.Cqrs.Portable/Core.Envelope/EnvelopeStreamer.cs:140-162 | a successful item loop reads its items in order, each from its own contract and right after the bytes its predecessor declared (line 162) |
| DataMessages.WalkStepOffset | Framework/Lokad.Cqrs.Portable/Core.Envelope/EnvelopeStreamer.cs:140-162 | step i of the walk reads contract i at the start offset plus the content sizes declared before it |
| DataMessages.ReadItemsEachReads | Framework/Lokad.Cqrs.Portable/Core.Envelope/EnvelopeStreamer.cs:138-163 | when the item loop succeeds, every item contract reads at its offset |
| DataMessages.ReadItemsAllRead | Framework/Lokad.Cqrs.Portable/Core.Envelope/EnvelopeStreamer.cs:138-163 | when every item contract reads at its offset, the item loop succeeds |
| DataMessages.ReadItemsFirstError | Framework/Lokad.Cqrs.Portable/Core.Envelope/EnvelopeStreamer.cs:138-163 | a failing item loop fails with the error of the first item that does not read at its offset, every earlier item having read |
| DataMessages.ReadInSequenceAt | Framework/Lokad.Cqrs.Portable/Core.Envelope/EnvelopeStreamer.cs:140-162 | item i is read at the start offset plus the content sizes of the items before it, whether or not their names resolved |
| DataMessages.ReadDataMessage | Framework/Lokad.Cqrs.Portable/Core.Envelope/EnvelopeStreamer.cs:121-167 | succeeds exactly when the framing, the item loop and the envelope-attribute conversion all succeed; otherwise the result is the first failing stage's error, framing first, then items, then attributes; on success items come from the item loop, attributes from the converter, id and delivery time from the metadata |
| DataMessages.DecodedItemsAtOffsets | Framework/Lokad.Cqrs.Portable/Core.Envelope/EnvelopeStreamer.cs:135-163 | a decoded message has as many items as the metadata, in order, and for every index i, item i is read from offset FixedSize + EnvelopeBytes + the earlier ContentSizes with length ContentSize |
| DataMessages.WrongVersionIsRejected | Framework/Lokad.Cqrs.Portable/Core.Envelope/EnvelopeStreamer.cs:123-127 | a header with any version other than the data schema is rejected, whatever the serializers would do |
| DataMessages.SerializedAt | Framework/Lokad.Cqrs.Portable/Core.Envelope/EnvelopeStreamer.cs:50-68 | in the content section, item i's serialization lies at the sum of the earlier sizes |
| DataMessages.SavedLayout | Framework/Lokad.Cqrs.Portable/Core.Envelope/EnvelopeStreamer.cs:75-88 | the reader finds the saved metadata after the header and the content from there to the end of the buffer |
| DataMessages.ReadSavedItems | Framework/Lokad.Cqrs.Portable/Core.Envelope/EnvelopeStreamer.cs:138-163 | reading a content section saved by one data serializer with another gives, item by item, the item itself when the reader resolves its name and reads its bytes back, and the untyped serialized bytes when the reader does not resolve its name |
| DataMessages.DataMessageReadBack | Framework/Lokad.Cqrs.Portable/Core.Envelope/EnvelopeStreamer.cs:121-167 | reading a saved data message with any data serializer gives the original envelope with integer attributes widened and each item replaced by what that serializer makes of its saved bytes, when no Sender attribute is present |
| DataMessages.DataMessageRoundTrip | Framework/Lokad.Cqrs.Portable/Core.Envelope/EnvelopeStreamer.cs:121-167 | reading a saved data message gives the original envelope, integer attributes widened, when items round-trip through the data serializer and no Sender attribute is present |
| DataMessages.UnresolvedItemInContent | Framework/Lokad.Cqrs.Portable/Core.Envelope/EnvelopeStreamer.cs:154-162 | an item the reader cannot resolve is decoded, with no type, as exactly its serialized bytes |
| DataMessages.UnresolvedItemKeepsBytes | Framework/Lokad.Cqrs.Portable/Core.Envelope/EnvelopeStreamer.cs:154-160 | when the reading side cannot resolve one item's contract name but reads every other item back, decoding succeeds; that item comes back untyped holding the bytes the writing side serialized, every other item and the attributes (integers widened) come back as written |
| Primitives.ToInt32 | Framework/Lokad.Cqrs.Portable/Core.Envelope/EnvelopeStreamer.cs:131 | `(int)` of a long keeps the low 32 bits: congruent modulo 2^32, identity in range |

## Left out

- Feature.DirectoryDispatch/DispatchDirectoryModule.cs: container registration, assembly scanning and transaction scopes, with no pure logic to model.
- Feature.AzureConsumer/Events/MessageAcked.cs: an immutable two-field event with no behaviour.
- Serializer internals of `IDataSerializer` and `IEnvelopeSerializer`: foreign code. The model makes them parameters, with the round-trip properties they must have stated as preconditions.
- The `MessageHeader` byte layout and `FixedSize` value: not part of this model. The header is a fixed-size `write`/`read` pair assumed to be inverse.
- The `EnvelopeAttributes` key constants: not part of this model. The keys are taken to be "CreatedUtc" and "Sender", and only their being distinct matters.
- `DateTimeOffset.Parse` and `ToString("o")`: abstract `format`/`parse` functions, with parse assumed to invert format.
- `Encoding.Unicode` on lone surrogates: not modelled. Reference fields are sequences of code units. The only decoder edge case modelled is a trailing odd byte, which becomes one replacement unit.
- `MemoryStream` position mechanics and `Buffer.BlockCopy`: modelled as slicing and concatenation. Their exceptions become the `Result` error kinds.
- ReferenceMessages.ReferenceRoundTrip: stated for fields that are non-empty and hold no CR immediately followed by LF. An empty field is dropped by the split, and a CRLF inside a field would split it. `EmptyFieldIsMalformed` shows the first case. A lone CR or LF is harmless.
- DataMessages.DataMessageRoundTrip: stated only for items with no attributes, because the writer cannot encode item attributes. It also excludes envelopes with a Sender attribute, because that attribute does not round-trip.
- DataMessages.UnresolvedItemKeepsBytes and DataMessages.DataMessageReadBack: stated for envelopes without a Sender attribute, whose attributes otherwise round-trip. A Sender attribute would still decode, but as null.
- DataMessages.ContractName: an item with no mapped type is treated as unmapped and fails with UnmappedContractType. The source hands the null type to `TryGetContractNameByType` (EnvelopeStreamer.cs:56), and what happens there, a `false` or an exception from the serializer's lookup, is up to the serializer.
- DataMessages.SaveItems: the data serializer's `Serialize` (EnvelopeStreamer.cs:62) is a total function and is assumed never to throw. Its "succeeds exactly when" therefore does not cover an exception escaping from `Serialize`.
- DataMessages.SaveDataMessage: `Serialize` and the envelope serializer's `SerializeEnvelope` (EnvelopeStreamer.cs:80) are assumed never to throw. The success condition and the error order therefore do not cover an exception escaping from either.
- DataMessages.SaveDataMessage: the MemoryStream limit is modelled as a single bound of int.MaxValue bytes on the content stream and on the whole message. The actual growth policy of MemoryStream is not modelled.
