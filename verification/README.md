# pygridgain: a verified model

pygridgain is a thin client for GridGain and Apache Ignite. This project models the parts of it where a mistake would
corrupt data or lose a request, and proves what those parts promise:

* **The binary object codec.** Tagged values (null, numbers, booleans, strings, UUIDs, decimals, arrays, collections,
  maps, complex objects) are written into a seekable stream, with complex objects back-patching their header and footer,
  and read back in two phases: `parse` walks the bytes and builds a layout, then the layout is laid over the bytes in
  front of the cursor and interpreted. `Encode` (the bytes of a value), `ClientBytes` (the same after its decimals are
  normalised) and `Observed` are the specification; the writer and reader are methods on a mutable stream that refine
  it. SQL and ordinary responses are built from the same parsers.
* **The caches of a complex object.** The saved bytes and the hash code, over every run of assignments and writes.
* **Framing and multiplexing.** Reassembly of frames from arbitrary chunks, the blocking receive loop, and the pairing of
  replies with requests in every interleaving.
* **Exact arithmetic.** Python's `^`, `&` and `>>` on unbounded integers, the hashes that exist once in Python and once in
  C, the FNV schema identifier, the decimal codec, the `BigDecimal` hash, and the partition of a key.
* **Client state machines.** The affinity table and its refreshes (synchronous and asynchronous), the registry of classes
  under the asynchronous lock, transactions, and the handshake with its version negotiation.

Where a law turns out to hold only for some inputs, it is stated as an equivalence: it holds if and only if a condition
on the inputs holds, and a lemma gives an input on the other side. The main ones:

* a value, written by this client or sent by a server, is read back as an equal one exactly if it is *clean*: no NUL
  inside a string, no code unit from 0x8000 up, no byte below 0 in a byte array, no integer its field cannot hold, no
  unhashable or repeated map key, and every decimal held by the decimal context without rounding and of a scale whose
  power of ten can be computed (`Exactness.RoundTripExactly`). Equality is Python's `==`, so 100 and 1E+2, 0.00 and -0
  are equal (`Decimals.NumberIsEquality`); a client normalises its decimals before it writes them, a server sends
  coefficient and scale as they are;
* a decimal that the writer accepts comes back as its normalised number exactly if its scale is in range; a number that a
  server wrote comes back exactly if moreover at most `prec` of its digits are significant
  (`Exactness.WrittenDecimalExactly`, `Exactness.ServerDecimalExactly`). Other numbers become a nearest one that the
  context holds (`Rounding.FixIsNearest`) or overflow, exactly above the largest (`Rounding.FixOverflowsExactly`); under
  the default context 1E-1000000 can be written and not be read (`Decimals.SubnormalIsUnreadable`);
* a client that has met one footer style refuses every object of the other (`FooterStyles.OtherStyleIsRefused`);
* an object without schema fields has schema identifier 0, which the registry lookup takes for "no schema", so it can
  never be read (`Exactness.EmptySchemaUnreadable`); and as the first thing written to an empty stream it cannot be
  written either, because hashing an empty view leaves that view exported (`Writer.FromPython`);
* the saved bytes of an object go stale exactly if its version or the client's footer style has changed
  (`GenericObjects.EmitsFreshExactly`); the bytes its cached hash was taken of are those of another footer style too
  exactly if no field holds an object (`HashStyles.HashedBytesExactly`, `HashStyles.HashGoesStale`);
* a frame with an empty payload is held back until another byte arrives (`Framing.DeliveredExactly`);
* once the query counter has saturated, requests share identifier 0, and a request under an identifier in flight leaves
  the earlier future unresolved for ever (`Multiplexing.ForgottenExactly`, `Multiplexing.IdentifiersDistinct`); a reply
  resolves the last request under its identifier and nothing else (`Multiplexing.MessageResolvesExactly`);
* the decimal hash differs from Java's exactly if the coefficient is at least 2^63 - 1 and its top 32-bit word is 1, which
  happens first at 2^64 (`DecimalHash.DecimalHashcode`, `DecimalHash.TwoTo64LosesItsTopWord`);
* a partition count that is not a power of two gives a partition in range only for small hashes, and the lookup fails for
  the others (`Partitions.OtherCountsInRangeExactly`, `Affinity.PartitionFailsExactly`);
* if a reply's listings split the partitions, the computed count is theirs exactly if no node with partitions is listed
  again (`Affinity.ReplyCountExactly`);
* registering a cache again empties its affinity mapping, and a refresh of only the empty caches stamps the whole table
  (`AffinityRefresh.RegisteredIsDue`, `AffinityRefresh.StampStaysTrueExactly`); in the asynchronous client a key is routed
  with a count and owners that agree exactly if nothing was put into the table for its cache while it was hashed, or what
  was put there last has the same count (`AsyncAffinity.RoutesConsistentlyExactly`, `AsyncAffinity.TornRouting`);
* starts and ends of transactions pair throughout a run exactly if no start is nested (`Transactions.PairedExactly`);
  nested ones can end each other (`Transactions.NestedEndHitsTheOther`);
* the handshake declares character counts, so its length is right exactly for ASCII text and a time zone that is not the
  empty string (`Handshake.DeclaredLengthExactly`);
* a client that has fallen below protocol 1.7.0 cannot be asked back up (`Negotiation.NoWayBackUp`), and negotiation
  with any server that answers each version in one way ends within eight turns or never (`Negotiation.EndsExactly`).

Two places where the code differs from its own description: `register_cache` means to skip caches that are already
registered but tests the wrong dictionary, and `decimal_hashcode` says that it translates Java's `BigDecimal.hashCode()`
but drops a most significant word that is 1. The model follows the code.

## How it is laid out

| file | contents |
|---|---|
| `bytes.dfy`, `bits.dfy` | fixed-width little-endian integers; bitwise operators on unbounded integers |
| `hashing.dfy`, `decimals.dfy`, `rounding.dfy`, `decimal_codec.dfy`, `decimal_hash.dfy`, `partitions.dfy` | exact arithmetic |
| `values.dfy`, `wire_format.dfy` | values and their bytes; the same with every offset written out |
| `layouts.dfy`, `interpret.dfy` | phase one; phase two |
| `round_trip.dfy`, `footer_style.dfy`, `exactness.dfy`, `footers.dfy` | the laws that join them |
| `binary_stream.dfy`, `writer.dfy`, `reader.dfy`, `same_client.dfy` | the imperative codec |
| `generic_object.dfy`, `hash_style.dfy` | caches of complex objects |
| `responses.dfy`, `structures.dfy`, `sql_responses.dfy`, `affinity_reply.dfy` | whole responses |
| `multiplexing.dfy`, `framing.dfy`, `sync_receive.dfy`, `requests.dfy` | the wire |
| `affinity.dfy`, `affinity_refresh.dfy`, `async_affinity.dfy`, `async_registry.dfy` | routing and shared tables |
| `transactions.dfy`, `protocols.dfy`, `handshake.dfy`, `negotiation.dfy` | sessions |

The decimal context that is current while values are written and read is the constant `Decimals.CONTEXT`. It has no
definition, so everything is proved for every context of the default rounding and traps.

`dafny verify dfyconfig.toml` checks everything. Proofs hide definitions they do not need (`hide`), which keeps each of
them small.

## Model

| member | source | states |
|---|---|---|
| `Bytes.WrapIdentity` | pygridgain/datatypes/primitive_objects.py:72-80 | a ctypes integer field returns the assigned integer exactly if it fits the field's signed width |
| `Bits.AndMask` | pygridgain/client.py:298-301 | masking any integer, negative ones too, with 2^k - 1 is its remainder modulo 2^k |
| `Hashing.IntOverflowWraps` | pygridgain/utils.py:73-77 | the and/xor trick of `int_overflow` is 32-bit two's complement wrap-around for every integer |
| `Hashing.PyBytesHash` | pygridgain/utils.py:93-121 | the Python loop over bytes gives the base-31 polynomial of the signed bytes wrapped once at the end |
| `Hashing.CBytesHash` | cext/cutils.c:114-142 | the C loop over bytes, wrapping at every step, gives the same value on every byte string |
| `Hashing.PyStringHash` | pygridgain/utils.py:93-121 | the Python loop over code points gives the wrapped base-31 polynomial, in signed 32-bit range |
| `Hashing.CStringHashLower` | cext/cutils.c:89-112 | the C loop with per-character lowering gives the Python hash of the lowered name |
| `Hashing.HashesAreWeightedSums` | pygridgain/utils.py:93-121 | the hash of a name is x[0] * 31^(n-1) + ... + x[n-1] in 32 bits, that of bytes takes them signed and adds 31^n |
| `Hashing.OctetIsByte` | pygridgain/utils.py:158-176 | shifting and masking a field identifier, negative ones too, takes its four little-endian bytes |
| `Hashing.Fnv1aStep` | pygridgain/utils.py:158-176 | FNV-1a starts from 0x811c9dc5 and mixes each octet with the 32-bit prime 0x01000193 |
| `Hashing.PySchemaId` | pygridgain/utils.py:158-176 | the Python schema identifier is FNV-1a over the field identifiers' bytes, wrapped; 0 for no fields |
| `Hashing.CSchemaId` | cext/cutils.c:144-192 | the 32-bit C loop gives the same schema identifier for every list of field names |
| `DecimalCodec.LengthIsMinimal` | pygridgain/datatypes/standard.py:183-203 | the chosen byte length leaves the top bit free, and no shorter one does |
| `DecimalCodec.EncodeMagnitude` | pygridgain/datatypes/standard.py:183-203 | the base-256 loop and the sign fix-up emit exactly the sign and the coefficient's digits, most significant first |
| `DecimalCodec.MagnitudeRoundTrip` | pygridgain/datatypes/standard.py:165-174 | the sign bit and the integer that the reader takes from the bytes are those the writer put there |
| `Decimals.NormalFormIsTheNumber` | pygridgain/datatypes/standard.py:184 | two decimals are the same number exactly if their normal forms are equal |
| `Decimals.NumberIsEquality` | tests/common/test_datatypes.py:152-156 | decimals have one representative exactly if they are equal in Python: trailing zeros and the sign of a zero do not matter |
| `Decimals.FixKeepsExactly` | pygridgain/datatypes/standard.py:184 | rounding in a context keeps a number exactly if it has at most `prec` significant digits and its magnitude is in range |
| `Decimals.FixFits` | pygridgain/datatypes/standard.py:184 | what rounding returns is in normal form and held by the context, rounding again changes nothing, and the sign is kept |
| `Rounding.HalfEvenIsNearest` | pygridgain/datatypes/standard.py:184 | the rounded quotient is off by at most half the divisor, and even if by just half |
| `Rounding.RoundedDigits` | pygridgain/datatypes/standard.py:184 | a number that the context cannot hold becomes a nearest multiple of the power of ten that leaves it `prec` digits, or of the smallest subnormal; at a tie the last kept digit is even |
| `Rounding.FixIsNearest` | pygridgain/datatypes/standard.py:184 | no number that the context holds is nearer to the given one than the result |
| `Rounding.FixOverflowsExactly` | pygridgain/datatypes/standard.py:184 | rounding overflows exactly from half a unit in the last place above the largest number held |
| `Decimals.ReadIsFix` | pygridgain/datatypes/standard.py:175-180 | if the power of ten can be computed, division and negation are one rounding of the number that sign, integer and scale mean, with the sign of a zero dropped |
| `Decimals.ServerNumberExactly` | pygridgain/datatypes/standard.py:175-180 | division by the power of ten and negation give a number equal to the one that sign, integer and scale mean exactly if the power can be computed and the context holds the number |
| `Decimals.NormalisedNumberExactly` | pygridgain/datatypes/standard.py:175-180 | on the digits of a normalised number they give it back, but for the sign of a zero, exactly if the power can be computed |
| `Decimals.TooPreciseIsRounded` | pygridgain/datatypes/standard.py:184 | in every context 10^prec + 1 is written, and read, as 10^prec |
| `Decimals.TinyScaleIsUnreadable` | pygridgain/datatypes/standard.py:176 | under the default context every integer with scale -2000000 is refused |
| `Decimals.SubnormalIsUnreadable` | pygridgain/datatypes/standard.py:176 | under the default context 1E-1000000 is written and refused when read |
| `DecimalHash.Magnitude` | pygridgain/utils.py:201-209 | the word loop ends and collects, in signed 32-bit fields, the words of the magnitude down to a remainder of 0 or 1 |
| `DecimalHash.InflatedHash` | pygridgain/utils.py:201-213 | the masked loop over the collected words is the base-31 value modulo 2^32 |
| `DecimalHash.DecimalHashcode` | pygridgain/utils.py:179-215 | the result is Java's `BigDecimal` hash of the normalised number exactly unless the coefficient is at least 2^63 - 1 with a top word of 1; then it is that hash without the top word; there is none if normalising overflows |
| `DecimalHash.WordsSpell` | pygridgain/utils.py:203-213 | the words of a coefficient are its digits in base 2^32, without leading zeros |
| `DecimalHash.JavaHashSpelled` | pygridgain/utils.py:179-215 | Java's hash is 31 times the weighted sum of the words, with the sign of the number, plus its scale, in 32 bits |
| `DecimalHash.TwoTo64LosesItsTopWord` | pygridgain/utils.py:203-209 | the first coefficient with another hash than Java's is 2^64 |
| `DecimalHash.CompactIsWordHash` | pygridgain/utils.py:191-196 | the compact branch is the word formula for at most two words |
| `DecimalHash.LoopDropsOne` | pygridgain/utils.py:203-209 | the loop collects all 32-bit words except a most significant word that is 1 |
| `DecimalHash.InflatedHashExactly` | pygridgain/utils.py:201-213 | the loop on its own, whatever it starts on, hashes all the words exactly if the top word is not 1 |
| `Partitions.PowerOfTwoTest` | pygridgain/client.py:298-300 | `parts & (parts - 1) == 0` holds exactly for powers of two |
| `Partitions.PartitionInRange` | pygridgain/client.py:298-305 | for every hash and 2^k partitions the result is in range: the low k bits of the spread hash |
| `Partitions.PartitionDependsOnLow32` | pygridgain/client.py:298-305 | two hashes equal modulo 2^32 give the same partition, for up to 2^32 partitions |
| `Partitions.WrappedHashRoutesAlike` | pygridgain/utils.py:268-270 | an untruncated hash and its 32-bit wrapped form give the same partition |
| `Partitions.OtherCountsInRangeExactly` | pygridgain/client.py:302-305 | otherwise the assertion on the range holds exactly for hashes from -parts*(parts-1) up to below parts^2 |
| `Partitions.WideHashesAreJavaHashes` | pygridgain/datatypes/primitive_objects.py:131-132 | the hashes of longs, dates and doubles agree with Java's 32-bit hash modulo 2^32 |
| `Partitions.UuidHashIsJavaHash` | pygridgain/datatypes/standard.py:229-234 | the hash of a UUID agrees with Java's modulo 2^32 |
| `Partitions.WideHashesRouteLikeJava` | pygridgain/utils.py:218-225 | so keys of these types go to the partition the server computes |
| `Values.FlagsDecode` | pygridgain/datatypes/complex.py:588-610 | the flags are 1 and 2, 0x20 for a compact footer, and 0x08 or 0x10 for offsets below 255 or 65535; they tell style and width back |
| `Layouts.Parse` | pygridgain/datatypes/internal.py:377-394 | every parser that accepts a byte string returns a layout as large as the bytes its cursor passed |
| `Layouts.ParseObject` | pygridgain/datatypes/complex.py:612-668 | the same for complex objects, whose layout adds header, fields and footer |
| `Layouts.ParseEach` | pygridgain/datatypes/internal.py:243-265 | the same for a sequence of fields or elements |
| `RoundTrip.PermuteTwice` | pygridgain/datatypes/standard.py:252-271 | the byte permutation of a UUID undoes itself |
| `RoundTrip.HeadIsCode` | pygridgain/datatypes/null_object.py:139-151 | a serialised value starts with its type code, which is the null code exactly for null |
| `RoundTrip.ParseBack` | pygridgain/datatypes/internal.py:377-394 | parsing a value's bytes at any position succeeds exactly if its objects are registered, ends right after it, and yields its layout |
| `RoundTrip.ReadBack` | pygridgain/datatypes/internal.py:395-411 | interpreting a value's own bytes under its layout gives what a reader observes of the value |
| `RoundTrip.DecimalRead` | pygridgain/datatypes/standard.py:165-180 | a decimal's bytes, whoever wrote them, are read by the arithmetic of the current context |
| `RoundTrip.ParseEachBack` | pygridgain/datatypes/complex.py:333-399 | the same for the elements of arrays, collections and maps and the fields of objects, one after another |
| `RoundTrip.ReadObjectBack` | pygridgain/datatypes/complex.py:670-711 | a complex object is interpreted field by field with the class found for its header |
| `FooterStyles.StyleIsForObjects` | pygridgain/binary.py:181-190 | only objects are written differently under the two footer styles |
| `FooterStyles.OtherStyleIsRefused` | pygridgain/client.py:136-142 | a client that remembers one footer style refuses every value that holds an object of the other |
| `RoundTrip.ObjectHeaderDecodes` | pygridgain/datatypes/complex.py:566-587 | the header's version, flags, type and schema identifiers are read back |
| `WireFormat.CodesByNumber` | pygridgain/datatypes/type_codes.py:16-57 | the classes of the type codes of null, numbers, strings, UUIDs, decimals and objects, by number |
| `WireFormat.PairCodesByNumber` | pygridgain/datatypes/type_codes.py:26-55 | those of dates, times, timestamps and enumerations |
| `WireFormat.ArrayCodesByNumber` | pygridgain/datatypes/type_codes.py:27-34 | those of arrays of numbers |
| `WireFormat.PlainCodesByNumber` | pygridgain/datatypes/type_codes.py:35-54 | those of arrays of strings, UUIDs, dates, decimals, timestamps and times |
| `WireFormat.ContainerCodesByNumber` | pygridgain/datatypes/type_codes.py:38-45 | those of object and enumeration arrays, collections and maps |
| `WireFormat.StringFormat` | pygridgain/datatypes/standard.py:111-128 | a string is code 9, its byte count, its UTF-8 |
| `WireFormat.UuidFormat` | pygridgain/datatypes/standard.py:252-271 | a UUID is code 10 and its two halves, each with the least significant byte first |
| `WireFormat.DecimalFormat` | pygridgain/datatypes/standard.py:183-211 | a decimal is code 30, the scale, the byte count, then sign bit and coefficient with the most significant byte first |
| `WireFormat.NumberFormat` | pygridgain/datatypes/primitive_objects.py:72-80 | a number is its code and its little-endian two's complement |
| `WireFormat.PairFormat` | pygridgain/datatypes/standard.py:313-325 | a timestamp is milliseconds and then nanoseconds, an enumeration its type identifier and then the ordinal |
| `WireFormat.ArrayFormat` | pygridgain/datatypes/primitive_arrays.py:213-223 | element i of an array of numbers stands behind code, count and i elements |
| `WireFormat.PlainContainerFormat` | pygridgain/datatypes/standard.py:648-660 | arrays of standard objects are code, count, elements |
| `WireFormat.TypedContainerFormat` | pygridgain/datatypes/complex.py:76-127 | arrays of objects and enumerations have their type identifier in front of the count |
| `WireFormat.HintedContainerFormat` | pygridgain/datatypes/complex.py:248-300 | collections and maps have their kind behind the count, and a map counts pairs |
| `WireFormat.PartsInOrder` | pygridgain/datatypes/complex.py:286-322 | elements and fields stand one behind the other in order |
| `Exactness.DecodeWritten` | pygridgain/datatypes/internal.py:377-411 | at any position, before and after any bytes, reading a value's bytes gives its observation, the position after it and the footer style; it fails exactly if an object is unregistered or of the other footer style than the client remembers, or the observation fails |
| `Exactness.ObservedIsClean` | pygridgain/datatypes/standard.py:103-109 | of a value that a client or a server put on the wire, a reader gets the representative of all its equals exactly if it is clean |
| `Exactness.ObservedIsPlain` | pygridgain/datatypes/standard.py:175-180 | whatever is read is the representative of its equals, inside containers, rebuilt dictionaries and objects too |
| `Exactness.RoundTripExactly` | pygridgain/datatypes/internal.py:377-411 | a value equal in Python to the one that a client or a server wrote comes back, with the position exactly after it, exactly if the value is clean, its objects are registered, and none of them is of the other footer style than the client remembers |
| `Exactness.LayoutCoversAdvance` | pygridgain/stream/binary_stream.py:46-60 | the backward read returns exactly the bytes the parser passed, whenever they all exist |
| `Exactness.DecimalObserved` | pygridgain/datatypes/standard.py:165-211 | a decimal is read back as an equal one exactly if it is clean, whoever wrote it |
| `Exactness.WrittenDecimalExactly` | pygridgain/datatypes/standard.py:165-211 | a decimal the writer accepts is read back as its normalised number, but for the sign of a zero, exactly if its scale fits its field and the power of ten can be computed |
| `Exactness.ServerDecimalExactly` | pygridgain/datatypes/standard.py:165-180 | a number equal to the one in a server's bytes is read exactly if it needs at most `prec` significant digits and magnitude and scale are in range |
| `Exactness.NegativeZeroIsRead` | pygridgain/datatypes/standard.py:177-179 | a negative zero is written with its sign and read without it, which is an equal number |
| `Exactness.DictOfShrinks` | pygridgain/datatypes/complex.py:362-376 | rebuilding a dictionary never adds pairs, and keeps their number only if it changes nothing |
| `Exactness.UnchangedIsDistinct` | pygridgain/datatypes/complex.py:362-376 | a dictionary that is rebuilt unchanged has no key twice |
| `Exactness.DictHoldsLast` | pygridgain/datatypes/complex.py:362-376 | a rebuilt dictionary holds under each key the value assigned last |
| `Exactness.NulKeysCollapse` | pygridgain/datatypes/standard.py:78-109 | two keys that differ only after a NUL become one entry |
| `Exactness.EmptySchemaUnreadable` | pygridgain/client.py:241-253 | an object without schema fields is never found in the registry |
| `Footers.HeaderIsTrue` | pygridgain/binary.py:192-201 | byte by byte: type code and version, flags, type identifier at 4, hash at 8, length at 12, schema identifier at 16 and schema offset at 20 are those of the object behind the header |
| `Footers.OffsetsFit` | pygridgain/binary.py:175-190 | no offset is truncated by the footer width chosen for it |
| `Footers.EntryIsTrue` | pygridgain/binary.py:181-190 | footer entry i, read by the flags' width and style, is the true start of field i, and a full entry names it |
| `Footers.FootersNavigate` | pygridgain/datatypes/complex.py:588-610 | at every nesting depth the footers lead along any path of fields to that field's own bytes |
| `BinaryStreams.OverlayPatch` | pygridgain/binary.py:198-201 | writing the body, then the header in front of it, then the footer behind it equals one write of all three |
| `BinaryStreams.BinaryStream.Write` | pygridgain/stream/binary_stream.py:62-64 | a write overlays the buffer at the position, fills a gap with zeros and drops the held view; it fails exactly while a view of an empty buffer is held |
| `BinaryStreams.BinaryStream.ReleaseBuffer` | pygridgain/stream/binary_stream.py:91-94 | the view is released unless the buffer is empty |
| `BinaryStreams.BinaryStream.ReadBack` | pygridgain/stream/binary_stream.py:46-60 | the backward read returns the bytes in front of the position, or fails if the position is past the end |
| `Writer.PermutedUuid` | pygridgain/datatypes/standard.py:253-264 | the permutation loop |
| `Writer.WritePrimArray` | pygridgain/datatypes/primitive_arrays.py:213-223 | header and element loop write the array's encoding |
| `Writer.WriteElems` | pygridgain/datatypes/internal.py:604-614 | the element loop writes the encodings one after another, leaving earlier bytes alone, or fails exactly on wrapped data and decimals that overflow |
| `Writer.WriteContainer` | pygridgain/datatypes/complex.py:286-322 | arrays, collections and maps write header and elements |
| `Writer.WriteFields` | pygridgain/binary.py:126-132 | the field loop writes the fields and collects their true offsets by the running maximum |
| `Writer.LastOffsetIsMax` | pygridgain/binary.py:132 | the running maximum the loop adds to is the end of the fields written so far |
| `Writer.FooterBytes` | pygridgain/binary.py:181-190 | the footer loop fills one entry per field in the flags' width and style |
| `Writer.WriteFooter` | pygridgain/binary.py:171-205 | patching header and footer leaves exactly the object's encoding in the stream, all earlier bytes unchanged, the position at its end, and returns the hash of its field bytes |
| `Writer.WriteObject` | pygridgain/binary.py:114-134 | a complex object at any position and nesting depth is written as its encoding |
| `Writer.FromPython` | pygridgain/datatypes/internal.py:503-523 | any value of the format is written at the position as its encoding with the decimals normalised; this fails exactly for wrapped data, for a decimal that overflows the context, or when a hash is due on an empty buffer; every complex class on the way is registered |
| `Reader.ParseTyped` | pygridgain/datatypes/null_object.py:77-86 | the parser methods move the stream and build the layout as `Parse` says, null branch first |
| `Reader.ParseContainer` | pygridgain/datatypes/complex.py:53-92 | the element loop of containers does |
| `Reader.ParseBinaryObject` | pygridgain/datatypes/complex.py:612-668 | the complex object parser does, including the footer style it remembers |
| `Reader.ParseStruct` | pygridgain/datatypes/internal.py:243-265 | the field loop does |
| `Reader.DecodeValue` | pygridgain/client.py:581-586 | parse, backward read and interpretation in sequence are `Decode` |
| `SameClient.EnrolCovers` | pygridgain/datatypes/complex.py:721-732 | after writing, the value's objects are found in the registry exactly if none has schema identifier 0 |
| `SameClient.WrittenByReader` | pygridgain/client.py:573-586 | the client that wrote a value anywhere reads an equal one back exactly if it is clean and identified |
| `SameClient.WriteThenRead` | pygridgain/datatypes/internal.py:377-411 | the same law on one stream: write, seek back, parse and interpret return an equal value exactly if it could be written and is clean and identified |
| `GenericObjects.EveryRunIsCoherent` | pygridgain/binary.py:203-214 | over every run the saved bytes and the hash are those of the current fields, under the version and style they were taken with |
| `GenericObjects.SameBytesExactly` | pygridgain/binary.py:153-169 | two serialisations of the same fields agree exactly if version byte and footer style do |
| `GenericObjects.EmitsFreshExactly` | pygridgain/datatypes/complex.py:721-738 | what a write emits is a fresh serialisation exactly if nothing is saved, or what is saved was taken under the same version byte and style |
| `GenericObjects.SteadyRunsAreFresh` | pygridgain/datatypes/complex.py:547-556 | with version and style left alone every write is fresh and every hash is that of the current fields |
| `GenericObjects.VersionChangeGoesStale` | pygridgain/binary.py:207-214 | hashing, then changing the version, leaves stale bytes to be written |
| `GenericObjects.FieldsAreLastAssigned` | pygridgain/binary.py:203-214 | over every run fields and version are those assigned last; writing and hashing change neither |
| `HashStyles.HashedBytesExactly` | pygridgain/binary.py:192-195 | the field bytes that are hashed are the same under both footer styles exactly if no field holds an object |
| `HashStyles.CachedHashIsTrue` | pygridgain/datatypes/complex.py:547-556 | in every run the hash returned is that of the current fields under the current style if none is cached, the cached one was taken under that style, or no field holds an object |
| `HashStyles.HashGoesStale` | pygridgain/datatypes/complex.py:547-556 | otherwise it need not be: an object that holds an object keeps a wrong hash after a change of style |
| `GenericObjects.GenericObject.SetField` | pygridgain/binary.py:207-214 | assigning a schema field drops both caches |
| `GenericObjects.GenericObject.SetVersion` | pygridgain/binary.py:207-214 | assigning the version drops neither |
| `GenericObjects.GenericObject.SelfFromPython` | pygridgain/binary.py:114-134 | serialises the current fields, takes the hash, and saves the bytes if asked |
| `GenericObjects.GenericObject.FromPythonNotNull` | pygridgain/datatypes/complex.py:721-738 | saved bytes are copied into the stream; otherwise the object is registered and serialised |
| `GenericObjects.GenericObject.Hashcode` | pygridgain/datatypes/complex.py:547-556 | an absent or zero hash is taken by serialising into a stream of its own, which fails exactly for a hollow object |
| `Responses.ParseStruct` | pygridgain/queries/response.py:108-130 | structures with conditional fields, nested structures and counted sub-structures pass exactly the bytes they lay out |
| `Responses.ParseRows` | pygridgain/queries/response.py:175-184 | rows of columns pass exactly the bytes they lay out |
| `Responses.ParseResponse` | pygridgain/queries/response.py:59-113 | a whole response, header flags included, lays out the bytes it passes, so the final seek stays where the parsers stopped, or passes just the `more` byte of a successful SQL result |
| `Responses.RowsParseBack` | pygridgain/queries/response.py:170-184 | a table written row by row is parsed into rows of its shape from any position |
| `Responses.RowsReadBack` | pygridgain/queries/response.py:240-253 | the rows read are equal to the table a server sent, whatever scale its decimals have, exactly if every cell is clean |
| `Responses.ParseRowLoops` | pygridgain/queries/response.py:170-184 | the nested loops over rows do what `ParseRows` says |
| `Responses.ParseColumns` | pygridgain/queries/response.py:176-180 | the inner loop over columns does |
| `Structures.PartParses` | pygridgain/datatypes/internal.py:117-157 | a field that a server sent, chosen by an earlier Bool field or not, nested or not, is parsed into its layout, with the cursor right behind it |
| `Structures.FieldsParse` | pygridgain/datatypes/internal.py:243-265 | the same for all fields of a structure |
| `Structures.PartReads` | pygridgain/datatypes/internal.py:134-142 | interpreting a field's bytes gives numbers as they were sent and tagged values as a reader observes them |
| `Structures.ResponseReadsBack` | pygridgain/queries/response.py:59-147 | anywhere in a buffer a response, successful or failed, under either header and with or without a change of topology, is read back: request, topology, status and message, or the fields of the operation |
| `AffinityReplies.ReplyReadsBack` | pygridgain/api/affinity.py:27-88 | the answer to a partition request, its bytes written out, is read back as the reply: version, groups, caches with their key configuration, and nodes with their partitions |
| `SqlResponses.ResponseParses` | pygridgain/queries/response.py:59-113 | a SQL response as a server sends it, with either header, is parsed into its header, cursor, names or column count, rows and `more` byte |
| `SqlResponses.ResponseReads` | pygridgain/queries/response.py:240-287 | interpreting its bytes gives an equal result exactly if every cell and column name is clean |
| `SqlResponses.SqlReadsBackExactly` | pygridgain/queries/response.py:170-287 | anywhere in a buffer a whole SQL response is read back as an equal table with its cursor, columns and `more` flag exactly if every cell and column name is clean; the position is then exactly behind it |
| `Multiplexing.EveryRunIsConsistent` | pygridgain/connection/aio_connection.py:189-206 | in every interleaving each future is resolved at most once, by a frame that carries its identifier or by the loss, the pending map names only unresolved futures, and it is empty after a loss |
| `Multiplexing.MessageResolvesExactly` | pygridgain/connection/aio_connection.py:202-206 | in every run a message resolves, with itself, the last request sent under the identifier in its bytes 4 to 12 if that still waits, and changes no other future and no other pending entry |
| `Multiplexing.LossResolvesExactly` | pygridgain/connection/aio_connection.py:189-193 | a loss fails exactly the requests that still wait and were not overtaken under their identifier |
| `Multiplexing.RequestAddsExactly` | pygridgain/connection/aio_connection.py:244-259 | on a live connection a request adds one waiting future under its identifier, on any other nothing |
| `Multiplexing.NothingForgotten` | pygridgain/connection/aio_connection.py:255-259 | without reuse of identifiers in flight, the pending map holds every unresolved future, and a loss resolves all |
| `Multiplexing.ReuseOrphans` | pygridgain/connection/aio_connection.py:255-259 | reuse leaves the earlier future unresolved in every continuation |
| `Multiplexing.ForgottenExactly` | pygridgain/connection/aio_connection.py:255-259 | every unresolved future is pending exactly if no identifier was reused in flight |
| `Multiplexing.IdentifiersDistinct` | pygridgain/queries/query.py:53-61 | the first n identifiers are distinct exactly while n is at most 2^63 |
| `Multiplexing.QueryCounter.Next` | pygridgain/queries/query.py:56-61 | the counter gives 1, 2, ... and then 0 for ever |
| `Multiplexing.AioConnection.Request` | pygridgain/connection/aio_connection.py:244-259 | a request on a live connection adds one pending future; on any other it is refused |
| `Multiplexing.AioConnection.ProcessMessage` | pygridgain/connection/aio_connection.py:202-206 | a frame resolves the pending future with its identifier, or nothing |
| `Multiplexing.AioConnection.ProcessConnectionLost` | pygridgain/connection/aio_connection.py:189-193 | all pending futures fail and the map is cleared |
| `Framing.DrainAppend` | pygridgain/connection/aio_connection.py:48-67 | feeding a and then b gives the frames and the rest that feeding a + b gives |
| `Framing.DrainFrames` | pygridgain/connection/aio_connection.py:48-67 | frames followed by an incomplete one: exactly the frames come out and exactly the tail stays |
| `Framing.DeliveredExactly` | pygridgain/connection/aio_connection.py:60-64 | a sequence of frames is delivered completely exactly if the last one has a payload |
| `Framing.NegativeLengthCutsFromTheEnd` | pygridgain/connection/aio_connection.py:66-67 | a length field below -4 cuts from the end of what has arrived, or cuts off nothing |
| `Framing.ChunkingIsIrrelevant` | pygridgain/connection/aio_connection.py:48-58 | handshake, futures and kept tail do not depend on how the bytes are cut |
| `Framing.SessionDelivers` | pygridgain/connection/aio_connection.py:48-58 | however cut, the first frame is the handshake and the others reach the connection in order |
| `Framing.BaseProtocol.DataReceived` | pygridgain/connection/aio_connection.py:48-67 | on all data on which the loop ends, length fields that cut from the other end included, it delivers the packets it cuts and keeps the rest |
| `SyncReceive.Recv` | pygridgain/connection/connection.py:343-387 | for any pieces, the loop returns data that starts with the frame exactly if the whole frame arrives, reads no byte beyond what it keeps, and ends otherwise with the broken connection |
| `Requests.WriteInfo` | pygridgain/queries/cache_info.py:39-62 | the cache information is written flag by flag; it fails exactly on integers out of range or an expiry policy under an old protocol |
| `Requests.InfoSpelledOut` | pygridgain/queries/cache_info.py:39-62 | the bytes are the cache, the flags 4 and 2, the durations create, update and access, and the transaction |
| `Requests.InfoRoundTrip` | pygridgain/queries/cache_info.py:39-62 | a server sees the cache, the policy and exactly the transaction in force: none for identifier 0 or a protocol below 1.6.0 |
| `Requests.WriteQuery` | pygridgain/queries/query.py:106-140 | skipping the header, writing the fields and patching the header back leaves header and fields in the stream |
| `Requests.QueryIsOneFrame` | pygridgain/queries/query.py:136-140 | the bytes of a query are one frame for a receiver, with its operation, identifier and body |
| `Affinity.PostProcess` | pygridgain/api/affinity.py:90-131 | the nested loops fill one table entry per cache of the reply |
| `Affinity.CountIsN` | pygridgain/api/affinity.py:125 | if the node sets of an entry are disjoint and cover 0..n-1, the sum of their sizes is n |
| `Affinity.OwnersAreLastListings` | pygridgain/api/affinity.py:105-108 | the dictionary of a reply holds the last listing of each node |
| `Affinity.ReplyCountExactly` | pygridgain/api/affinity.py:103-127 | if a reply's listings split 0..n-1, the computed partition count is n exactly if no node with partitions is listed again |
| `Affinity.OwnsExactly` | pygridgain/api/affinity.py:105-108 | then the dictionary's owners are exactly the listed ones |
| `Affinity.ReplyEntry` | pygridgain/api/affinity.py:96-131 | the entry of a cache is from the last group that names it: owners, partition count, key configuration and version |
| `Affinity.FirstOwnerIsOwner` | pygridgain/client.py:311-315 | the loop over the mapping finds an owner of the partition exactly if there is one |
| `Affinity.OwnerIsUnique` | pygridgain/client.py:311-315 | whatever the dictionary order, the owner it finds is the only one |
| `Affinity.RoutesToTheOwner` | pygridgain/client.py:290-323 | with an entry whose node sets split 2^k partitions, every key has exactly one owner, and it goes to the first connection with the owner's identifier if that is alive, and else stays where it was |
| `Affinity.RoutesByReply` | pygridgain/client.py:290-323 | the same from the reply: if the group that speaks for the cache lists its nodes so that they split 2^k partitions with nothing overwritten, every key has exactly one listed owner and goes to its first connection if that is alive |
| `Affinity.PartitionFailsExactly` | pygridgain/client.py:300-305 | the assertion on the partition fails exactly for a count that is not a power of two and a hash beyond its square |
| `AffinityRefresh.Client.PostProcessResponse` | pygridgain/queries/query.py:218-226 | a topology-changed response raises the announced version and never lowers it |
| `AffinityRefresh.Client.RegisterCache` | pygridgain/client.py:255-257 | on a partition-aware client, registering a cache always empties its entry |
| `AffinityRefresh.Client.CachesToUpdateAffinity` | pygridgain/client.py:281-285 | every cache if the stamp is behind, else the empty ones |
| `AffinityRefresh.Client.UpdateAffinity` | pygridgain/client.py:274-279 | a reply stamps the table and replaces the entries it names |
| `AffinityRefresh.Client.RefreshAffinity` | pygridgain/client.py:639-649 | the retry loop asks again after a connection error, gives up on a refusal, installs an answer |
| `AffinityRefresh.Client.GetBestNode` | pygridgain/client.py:633-670 | a keyed lookup refreshes what is due and consults the table; if the entry came from a reply that splits 2^k partitions, the node returned is the first connection of the one that lists the key's partition if it is alive, else the node picked first; without an entry it is the node picked first, and the lookup fails exactly on a partition out of range |
| `AffinityRefresh.RefreshEndsExactly` | pygridgain/client.py:639-649 | the first try that is not lost decides; all announcements up to it are noted, and an answer is installed |
| `AffinityRefresh.LookupEndsExactly` | pygridgain/client.py:635-658 | the table is consulted if nothing was due or the first try that was not lost was answered, and what is consulted is what it then holds |
| `AffinityRefresh.EveryRunIsJustified` | pygridgain/client.py:633-670 | over every run the stamp is the last reply's version, each entry is what the last reply naming the cache said unless it was registered since, and no lookup consults the table before an answer to a request for everything that was due when it started |
| `AffinityRefresh.AnnouncedIsTheMaximum` | pygridgain/queries/query.py:218-226 | the announced version is the maximum of the announcements |
| `AffinityRefresh.StampStaysTrueExactly` | pygridgain/client.py:274-279 | a reply keeps every entry as fresh as the stamp exactly if it has the table's version or names every known cache |
| `AffinityRefresh.FullRefreshMakesStampTrue` | pygridgain/client.py:281-283 | an answered refresh of a table that was behind makes every entry as fresh as the stamp, whatever came before |
| `AffinityRefresh.PartialRefreshOverstates` | pygridgain/client.py:274-285 | a run in which an old entry ends up under a newer stamp |
| `AffinityRefresh.RegisteredIsDue` | pygridgain/client.py:255-257 | after every run, a cache that was registered, for the first time or again, and not answered for since has an empty entry and is asked for |
| `AsyncAffinity.EveryInterleavingIsGood` | pygridgain/aio_client.py:362-407 | in every interleaving the lock is held exactly by the task that fetches or reconnects, each new request asks for exactly what was due when it was sent, each of at most 31 repetitions and each answer belongs to the last request, and the table is consulted only when nothing is due or right after an answer |
| `AsyncAffinity.SingleAffinityFetch` | pygridgain/aio_client.py:364-391 | at most one affinity fetch is in flight |
| `AsyncAffinity.TaskStepsExactly` | pygridgain/aio_client.py:362-407 | where each event leaves its task, with the lock and the table entry read; all other tasks stay as they are |
| `AsyncAffinity.ReadAfterRun` | pygridgain/aio_client.py:393-407 | after any run the table holds for a cache what was last put there, or what it held before |
| `AsyncAffinity.RoutesConsistentlyExactly` | pygridgain/aio_client.py:393-407 | a task that consulted the table and then waited for its hash routes with the count it took and an entry of the same count exactly if nothing was put there for its cache meanwhile, or what was put there last has that count; in the first case it is the same entry |
| `AsyncAffinity.ConsistentGoesToItsOwner` | pygridgain/aio_client.py:403-405 | a task whose count and entry agree returns the owner's connection by the reply that the entry came from |
| `AsyncAffinity.TornRouting` | pygridgain/aio_client.py:394-403 | otherwise count and owners can come from different replies |
| `AsyncRegistry.SyncOnlyAdds` | pygridgain/client.py:226-239 | synchronising adds exactly the reply's schemas and replaces nothing |
| `AsyncRegistry.Client.SyncBinaryRegistry` | pygridgain/client.py:226-239 | the loop over a reply's schemas |
| `AsyncRegistry.Client.QueryBinaryType` | pygridgain/client.py:554-571 | the synchronous query fetches exactly if the registry has no answer |
| `AsyncRegistry.Client.RegisterBinaryType` | pygridgain/client.py:542-552 | a registration replaces the stored class, after a put exactly if the query found nothing |
| `AsyncRegistry.EveryFetchIsFirst` | pygridgain/aio_client.py:274-296 | in every interleaving the lock is held exactly by the fetching task, every schema a reply named is stored, and no fetch is sent for what an earlier reply supplied |
| `AsyncRegistry.SingleTypeFetch` | pygridgain/aio_client.py:287-294 | at most one type fetch is in flight |
| `AsyncRegistry.StoredClassStays` | pygridgain/client.py:232-239 | a stored class is never replaced except by a registration |
| `AsyncRegistry.RacingQueriesAgree` | pygridgain/aio_client.py:274-296 | all racing queries for a type and a non-zero schema that get a class get the same one |
| `AsyncRegistry.QueryEndsExactly` | pygridgain/aio_client.py:274-296 | a query ends when it is made or gets the lock and the registry knows its key, or with its own reply, and with what the registry then holds |
| `AsyncRegistry.QueriesGetTheStoredClass` | pygridgain/aio_client.py:274-296 | while nobody registers the key, a query ends with the class that is stored for it ever after; it gets nothing only on a reply of its own that does not name the schema |
| `AsyncRegistry.RegistrationStores` | pygridgain/aio_client.py:262-272 | a registration ends with its own class stored and replaces no other |
| `Transactions.Api.TxStart` | pygridgain/api/tx_api.py:120-125 | a started transaction becomes the current one |
| `Transactions.Api.TxEnd` | pygridgain/api/tx_api.py:79-88 | only the current transaction's identifier may end; the context is cleared whatever the server does, and the caller gets the failure |
| `Transactions.Transaction.Finish` | pygridgain/transaction.py:63-83 | the first of commit, rollback and close ends the transaction; later ones do nothing |
| `Transactions.Api.KeyValueRequest` | pygridgain/cache.py:181-183 | an accepted key-value request is sent over the transaction's connection, or the best node's, with the transaction in its header |
| `Transactions.StepsExactly` | pygridgain/transaction.py:63-98 | what each event of a run sends and leaves behind |
| `Transactions.EveryRunIsGood` | pygridgain/transaction.py:63-98 | over every run each transaction sends at most one end, and every key-value request travels over the connection of the transaction in force and shows the server its identifier |
| `Transactions.PairedExactly` | pygridgain/transaction.py:63-98 | at every point of a run each closed transaction has sent exactly its own end and each open one is current, exactly if no transaction was started while another was current |
| `Transactions.EndsPairWithStarts` | pygridgain/transaction.py:63-98 | without nested starts, closed transactions have sent exactly one end over their own connection, open ones none |
| `Transactions.NestedEndHitsTheOther` | pygridgain/api/tx_api.py:79-88 | with equal identifiers on two connections, ending the outer transaction ends the inner one |
| `Protocols.MaskRoundTrip` | pygridgain/connection/bitmask_feature.py:27-34 | the mask's bytes always have room for it, and every mask comes back from them |
| `Protocols.ArrayRoundTripExactly` | pygridgain/connection/bitmask_feature.py:48-58 | of all encodings of a mask exactly those of the chosen length are written back unchanged |
| `Protocols.ProtocolContext.SetVersion` | pygridgain/connection/protocol_context.py:58-69 | setting a version keeps the features from 1.7.0 on and drops them below |
| `Protocols.ProtocolContext.SetFeatures` | pygridgain/connection/protocol_context.py:75-86 | features are kept from version 1.7.0 on and dropped below |
| `Handshake.CharactersAreBytesExactly` | pygridgain/connection/handshake.py:89 | a text has as many UTF-8 bytes as characters exactly if it is ASCII, and never fewer |
| `Handshake.EncodeText` | pygridgain/datatypes/standard.py:112-115 | encoding a text fails exactly if one of its code points has no UTF-8 |
| `Handshake.RequestSpelledOut` | pygridgain/connection/handshake.py:36-106 | the request byte by byte: length, operation 1, version, client code 2, feature mask, time zone, user name and password, by version and credentials |
| `Handshake.CreateHandshakeData` | pygridgain/connection/handshake.py:69-106 | the fields and the length are collected by version and credentials |
| `Handshake.FromPython` | pygridgain/connection/handshake.py:63-67 | the request is written field by field; it fails exactly without features where the protocol has them, on text without UTF-8, or on a length or version number out of range |
| `Handshake.DeclaredLengthExactly` | pygridgain/connection/handshake.py:69-106 | the declared length is the bytes written minus 4 exactly for ASCII text and a time zone that is not empty |
| `Handshake.RequestIsOneFrameExactly` | pygridgain/connection/handshake.py:69-106 | under the same condition, and only then, the request is one frame |
| `Negotiation.EveryLifeIsGood` | pygridgain/connection/protocol_context.py:47-86 | over every series of connection attempts the version stays in the supported set and features are absent below 1.7.0 |
| `Negotiation.NoWayBackUp` | pygridgain/connection/connection.py:247-250 | a client below 1.7.0 that is asked for 1.7.0 or newer breaks in the next turn |
| `Negotiation.RoundExactly` | pygridgain/connection/connection.py:240-262 | what each answer leads to: features taken over, a version set, or the end of the loop |
| `Negotiation.FeaturesArrive` | pygridgain/connection/bitmask_feature.py:48-58 | the mask that a server packs into its bytes is the mask the client then has |
| `Negotiation.Client.Connect` | pygridgain/connection/connection.py:229-262 | against a server whose rejections name strictly lower versions the loop ends; its versions follow the rejections, and the answer to the last one, or the lack of features, gives the result and the context |
| `Negotiation.EndsExactly` | pygridgain/connection/connection.py:240-262 | against any server that answers each version in one way, the loop ends at all exactly if it has ended after eight turns |
| `Negotiation.EchoNeverEnds` | pygridgain/connection/connection.py:247-250 | a server that asks for the version it is offered keeps the loop going for ever |

## Left out

- Sockets, TLS, the event loop, sleeps, timeouts and cancelled futures: they appear as chunks, errors, losses and cancelled tasks, or not at all.
- Floating point, dates and times: opaque bit patterns or integers of the field's width.
- Text: UTF-8 strings are byte strings in the codec; only the handshake models the encoding. `str.lower()` is a parameter that acts per character, as the C extension does; on characters such as U+0130 Python's own lowering gives more than one.
- Decimal contexts with another rounding or other traps than the default ones, and NaN and infinities.
- `Decimals.ReadNumber`: returns the normal form of the number; which of the representations of the same number Python's division picks is not modelled.
- `Framing.BaseProtocol.DataReceived`: requires data on which the loop ends; on a length field of -4, or one so negative that nothing is cut off, the source loops for ever.
- `Framing.SessionDelivers`: takes any first frame for a handshake; in the source a frame that does not parse as one raises before it is cut off the buffer.
- `Framing.ChunkingIsIrrelevant`: requires length fields above -4, since a cut from the other end of the buffer depends on the chunks.
- `AsyncRegistry.Client.QueryBinaryType`: the server's reply is a parameter.
- `GenericObjects.GenericObject.SetField`: field values are values, so changing a nested object in place, which no cache notices, cannot be expressed.
- `Writer.FromPython`: takes tagged values; the guessing of a type from a Python object is not modelled. Registering a class while writing is modelled without its traffic.
- `Exactness.DecodeWritten`: looks classes up in a registry that is already filled; fetching a missing class from the server is the subject of `AsyncRegistry` alone.
- `Exactness.RoundTripExactly`: values of different types are never equal, so Python's equality across types (1, 1.0 and True), in map keys above all, is not modelled.
- `Handshake.FromPython`: requires texts whose UTF-8 is shorter than 2^31 bytes.
- `Requests.WriteQuery`: the fields behind the header are given as their bytes, except for cache information.
- `AsyncAffinity.EveryInterleavingIsGood`: tasks that fetch, reconnect or hash are cut at these awaits only, an error answer and the repetition after the pause being one event; the choice of a random node is not modelled.
- `Affinity.RoutesToTheOwner`: the replacement of a key by its affinity field is not modelled; the hash is a parameter.
- `Transactions.EveryRunIsGood`: one execution context; the asynchronous twin, which can also be started again, and contexts copied into child tasks are not modelled.
- `Negotiation.Client.Connect`: the server is a function of the version; the asynchronous twin is not modelled.
- Payload-only collections, `CharObject` above code unit 0x7fff, `MapObject` with a None payload, `PropBase.parse`, `ConfigQuery.config_length` and `BinaryTypeResponse`.
- Asynchronous twins of the codec: the same code with awaits.
- Key-value, SQL, cache-configuration and cluster calls, cursors, monitoring and events: thin, and their laws are easy.
- The choice of a handshake response's structure (`HandshakeResponse.__create_response_end`): a three-way branch; negotiation takes the answer as already parsed.
- What servers do: they appear as sources of replies.
