/** The footer of a complex object as a server uses it: a field is found through the header's flags and
    schema offset and one footer entry, without parsing the fields before it. */
module Footers {
  import opened Bytes
  import opened Hashing
  import opened Values
  import opened RoundTrip

  function FlagsAt(buf: bytes, pos: nat): nat { FromLE(Slice(buf, pos + 2, 2)) }
  function HashAt(buf: bytes, pos: nat): int { FromSignedLE(Slice(buf, pos + 8, 4)) }
  function LengthFieldAt(buf: bytes, pos: nat): nat { FromLE(Slice(buf, pos + 12, 4)) }
  function SchemaOffsetAt(buf: bytes, pos: nat): nat { FromLE(Slice(buf, pos + 20, 4)) }

  /** Footer entry `i` of the object at `pos`, in the width and style that the object's own flags name. */
  function EntryPos(buf: bytes, pos: nat, i: nat): nat {
    pos + SchemaOffsetAt(buf, pos) + Times(i, EntrySize(FlagsAt(buf, pos)))
  }

  function FieldIdAt(buf: bytes, pos: nat, i: nat): int {
    FromSignedLE(Slice(buf, EntryPos(buf, pos, i), 4))
  }

  function FieldOffsetAt(buf: bytes, pos: nat, i: nat): nat {
    var flags := FlagsAt(buf, pos);
    var skip := if HasFlag(flags, COMPACT_FOOTER) then 0 else 4;
    FromLE(Slice(buf, EntryPos(buf, pos, i) + skip, OffsetWidth(flags)))
  }

  /** The position reached by going from object to field along `path`. */
  function Follow(buf: bytes, pos: nat, path: seq<nat>): nat
    decreases |path|
  {
    if path == [] then pos else Follow(buf, pos + FieldOffsetAt(buf, pos, path[0]), path[1..])
  }

  /** The value at the end of the same path. */
  function Descend(v: Value, path: seq<nat>): Option<Value> {
    if path == [] then Some(v)
    else if v.Obj? && path[0] < |v.fields| then Descend(v.fields[path[0]], path[1..])
    else None
  }

  lemma {:induction false} PartAt(buf: bytes, pos: nat, parts: seq<bytes>, start: nat, i: nat)
    requires i < |parts| && At(buf, pos + start, Flatten(parts))
    ensures At(buf, pos + Offsets(parts, start)[i], parts[i])
    ensures start <= Offsets(parts, start)[i] && Offsets(parts, start)[i] + |parts[i]| <= start + |Flatten(parts)|
  {
    AtSplit(buf, pos + start, parts[0], Flatten(parts[1..]));
    if i > 0 { PartAt(buf, pos, parts[1..], start + |parts[0]|, i - 1); }
  }

  lemma {:induction false} EntryAt(buf: bytes, pos: nat, entries: seq<bytes>, size: nat, i: nat)
    requires i < |entries| && (forall e :: e in entries ==> |e| == size) && At(buf, pos, Flatten(entries))
    ensures At(buf, pos + Times(i, size), entries[i])
    decreases i
  {
    AtSplit(buf, pos, entries[0], Flatten(entries[1..]));
    assert Flatten(entries) == entries[0] + Flatten(entries[1..]);
    assert entries[0] in entries;
    hide At, Flatten, Times;
    if i == 0 {
      TimesStep(0, size);
    } else {
      assert forall e :: e in entries[1..] ==> e in entries;
      EntryAt(buf, pos + size, entries[1..], size, i - 1);
      TimesStep(i - 1, size);
    }
  }

  /** The chosen width holds every offset. */
  lemma OffsetsFit(compact: bool, offsets: seq<nat>, i: nat)
    requires i < |offsets| && offsets[i] < MAX_LENGTH
    ensures offsets[i] < Pow256(OffsetWidth(ObjectFlags(compact, offsets)))
  {
    FlagsDecode(compact, offsets);
    MaxOfBounds(offsets, offsets[i]);
    Widths();
    hide ObjectFlags, OffsetWidth, MaxOf, Pow256;
  }

  lemma NatField(buf: bytes, pos: nat, n: nat, width: nat)
    requires At(buf, pos, ToLE(n, width)) && n < Pow256(width)
    ensures FromLE(Slice(buf, pos, width)) == n
  {
    AtSlice(buf, pos, ToLE(n, width), 0, width);
    FromToLENat(n, width);
  }

  lemma SignedField(buf: bytes, pos: nat, n: int, width: nat)
    requires At(buf, pos, ToLE(n, width)) && width > 0 && FitsSigned(n, width)
    ensures FromSignedLE(Slice(buf, pos, width)) == n
  {
    AtSlice(buf, pos, ToLE(n, width), 0, width);
    FromToSignedLE(n, width);
    WrapIdentity(n, width);
  }

  /** The back-patched header tells the truth about the object behind it. */
  lemma HeaderIsTrue(buf: bytes, pos: nat, v: Value, compact: bool)
    requires v.Obj? && WellFormed(v) && At(buf, pos, Encode(v, compact)) && |Encode(v, compact)| < MAX_LENGTH
    ensures var parts := EncodeEach(v.fields, compact);
      FlagsAt(buf, pos) == ObjectFlags(compact, Offsets(parts, HEADER_LENGTH))
      && LengthFieldAt(buf, pos) == |Encode(v, compact)|
      && SchemaOffsetAt(buf, pos) == HEADER_LENGTH + |Flatten(parts)|
      && HashAt(buf, pos) == BytesHash(buf[pos + HEADER_LENGTH..pos + SchemaOffsetAt(buf, pos)])
    ensures Slice(buf, pos, 2) == [103, v.version % 256]
    ensures FromSignedLE(Slice(buf, pos + 4, 4)) == v.cls.typeId
    ensures FromSignedLE(Slice(buf, pos + 16, 4)) == v.cls.SchemaIdentifier()
  {
    hide WellFormed, Encode, EncodeEach, BytesHash, Flatten, Offsets, ObjectFlags, At, Slice, ToLE, SchemaId,
         EntrySize, FitsSigned, KindOf;
    ObjectIsWellFormed(v);
    ObjectEncoding(v, compact);
    var parts := EncodeEach(v.fields, compact);
    var flags, header, data, footer := ObjectParts(v.cls, v.version, compact, parts);
    FlagsDecode(compact, Offsets(parts, HEADER_LENGTH));
    AtSplit(buf, pos, header + data, footer);
    AtSplit(buf, pos, header, data);
    WholeAt(buf, pos + HEADER_LENGTH, data);
    HeaderFieldsAt(buf, pos, v.cls, v.version, flags, BytesHash(data), |header + data + footer|, HEADER_LENGTH + |data|);
    ClassFieldsAt(buf, pos, v.cls, v.version, flags, BytesHash(data), |header + data + footer|, HEADER_LENGTH + |data|);
  }

  /** The class an object is read with: its type and schema identifiers, and the version in front of them. */
  lemma ClassFieldsAt(buf: bytes, pos: nat, cls: ClassInfo, version: int, flags: nat, hash: int, length: nat, schemaOffset: nat)
    requires At(buf, pos, ObjectHeader(cls, version, flags, hash, length, schemaOffset)) && FitsSigned(cls.typeId, 4)
    ensures Slice(buf, pos, 2) == [103, version % 256]
    ensures FromSignedLE(Slice(buf, pos + 4, 4)) == cls.typeId
    ensures FromSignedLE(Slice(buf, pos + 16, 4)) == cls.SchemaIdentifier()
  {
    var h := ObjectHeader(cls, version, flags, hash, length, schemaOffset);
    OneByte(version);
    ClassSlices(cls, version, flags, hash, length, schemaOffset);
    SchemaIdFits(cls);
    hide ToLE, At, Slice, FromSignedLE, FitsSigned, ObjectHeader, SchemaId;
    AtSlice(buf, pos, h, 0, 2);
    AtSlice(buf, pos, h, 4, 4);
    AtSlice(buf, pos, h, 16, 4);
    SignedBack(cls.typeId, 4);
    SignedBack(cls.SchemaIdentifier(), 4);
  }

  lemma ClassSlices(cls: ClassInfo, version: int, flags: nat, hash: int, length: nat, schemaOffset: nat)
    ensures var h := ObjectHeader(cls, version, flags, hash, length, schemaOffset);
      h[0..2] == [103] + ToLE(version, 1) && h[4..8] == ToLE(cls.typeId, 4) && h[16..20] == ToLE(cls.SchemaIdentifier(), 4)
  {
    hide ToLE, SchemaId;
  }

  lemma HeaderFieldsAt(buf: bytes, pos: nat, cls: ClassInfo, version: int, flags: nat, hash: int, length: nat, schemaOffset: nat)
    requires At(buf, pos, ObjectHeader(cls, version, flags, hash, length, schemaOffset))
    requires flags < 0x1_0000 && length < MAX_LENGTH && schemaOffset < MAX_LENGTH
    requires exists data :: hash == BytesHash(data)
    ensures FlagsAt(buf, pos) == flags && LengthFieldAt(buf, pos) == length
    ensures SchemaOffsetAt(buf, pos) == schemaOffset && HashAt(buf, pos) == hash
  {
    Widths();
    var data :| hash == BytesHash(data);
    Wrap32Range(Poly31(1, SignedBytes(data)));
    assert FitsSigned(hash, 4);
    var h := ObjectHeader(cls, version, flags, hash, length, schemaOffset);
    HeaderSlices(cls, version, flags, hash, length, schemaOffset);
    hide ToLE, BytesHash, At, Slice, Pow256, FromLE, FromSignedLE, FitsSigned, ObjectHeader;
    AtSlice(buf, pos, h, 2, 2);
    AtSlice(buf, pos, h, 8, 4);
    AtSlice(buf, pos, h, 12, 4);
    AtSlice(buf, pos, h, 20, 4);
    FromToLENat(flags, 2);
    FromToLENat(length, 4);
    FromToLENat(schemaOffset, 4);
    FromToSignedLE(hash, 4);
    WrapIdentity(hash, 4);
  }

  lemma HeaderSlices(cls: ClassInfo, version: int, flags: nat, hash: int, length: nat, schemaOffset: nat)
    ensures var h := ObjectHeader(cls, version, flags, hash, length, schemaOffset);
      h[2..4] == ToLE(flags, 2) && h[8..12] == ToLE(hash, 4) && h[12..16] == ToLE(length, 4)
      && h[20..24] == ToLE(schemaOffset, 4)
  {
    hide ToLE, SchemaId;
  }

  lemma EntryDecodes(buf: bytes, pos: nat, v: Value, compact: bool, i: nat)
    requires v.Obj? && WellFormed(v) && At(buf, pos, Encode(v, compact)) && |Encode(v, compact)| < MAX_LENGTH
    requires i < |v.fields| == |v.cls.schema|
    ensures FieldOffsetAt(buf, pos, i) == Offsets(EncodeEach(v.fields, compact), HEADER_LENGTH)[i]
    ensures !compact ==> FieldIdAt(buf, pos, i) == StringHash(v.cls.schema[i].name)
  {
    hide WellFormed, Encode, EncodeEach, Offsets, BytesHash, Flatten, ObjectFlags, At, Slice, ToLE, SchemaId,
         EntrySize, FitsSigned, HasFlag, OffsetWidth, ObjectHeader, StringHash, FlagsAt, SchemaOffsetAt,
         FromSignedLE, FromLE, FooterEntry, Pow256, Times;
    ObjectEncoding(v, compact);
    HeaderIsTrue(buf, pos, v, compact);
    var parts := EncodeEach(v.fields, compact);
    var offsets := Offsets(parts, HEADER_LENGTH);
    var flags, header, data, footer := ObjectParts(v.cls, v.version, compact, parts);
    FlagsDecode(compact, offsets);
    AtSplit(buf, pos, header + data, footer);
    AtSplit(buf, pos, header, data);
    PartAt(buf, pos, parts, HEADER_LENGTH, i);
    OffsetsFit(compact, offsets, i);
    var entries := FooterEntries(flags, v.cls.FieldIds(), offsets);
    assert entries[i] == FooterEntry(flags, v.cls.FieldIds()[i], offsets[i]);
    var start := pos + HEADER_LENGTH + |data|;
    EntryAt(buf, start, entries, EntrySize(flags), i);
    StringHashFits(v.cls.schema[i].name);
    EntryFields(buf, start + Times(i, EntrySize(flags)), flags, v.cls.FieldIds()[i], offsets[i]);
  }

  /** Every footer entry leads to the true start of its field, and a full footer names the field. */
  lemma EntryIsTrue(buf: bytes, pos: nat, v: Value, compact: bool, i: nat)
    requires v.Obj? && WellFormed(v) && At(buf, pos, Encode(v, compact)) && |Encode(v, compact)| < MAX_LENGTH
    requires i < |v.fields|
    ensures At(buf, pos + FieldOffsetAt(buf, pos, i), Encode(v.fields[i], compact))
    ensures |Encode(v.fields[i], compact)| < |Encode(v, compact)|
    ensures !compact ==> i < |v.cls.schema| && FieldIdAt(buf, pos, i) == StringHash(v.cls.schema[i].name)
  {
    hide WellFormed, Encode, BytesHash, Flatten, Offsets, ObjectFlags, At, Slice, ObjectHeader, StringHash,
         FieldOffsetAt, FieldIdAt, EntrySize;
    ObjectIsWellFormed(v);
    ObjectEncoding(v, compact);
    EntryDecodes(buf, pos, v, compact, i);
    var parts := EncodeEach(v.fields, compact);
    var flags, header, data, footer := ObjectParts(v.cls, v.version, compact, parts);
    AtSplit(buf, pos, header + data, footer);
    AtSplit(buf, pos, header, data);
    PartAt(buf, pos, parts, HEADER_LENGTH, i);
  }

  lemma StringHashFits(name: seq<int>)
    ensures FitsSigned(StringHash(name), 4)
  {
    Widths();
    Wrap32Range(Poly31(0, name));
  }

  lemma EntryFields(buf: bytes, at: nat, flags: nat, id: int, offset: nat)
    requires At(buf, at, FooterEntry(flags, id, offset)) && offset < Pow256(OffsetWidth(flags))
    ensures FromLE(Slice(buf, at + (if HasFlag(flags, COMPACT_FOOTER) then 0 else 4), OffsetWidth(flags))) == offset
    ensures !HasFlag(flags, COMPACT_FOOTER) && FitsSigned(id, 4) ==> FromSignedLE(Slice(buf, at, 4)) == id
  {
    hide At, Slice, ToLE, FromLE, FromSignedLE, Pow256, OffsetWidth, HasFlag, FitsSigned;
    if HasFlag(flags, COMPACT_FOOTER) {
      NatField(buf, at, offset, OffsetWidth(flags));
    } else {
      AtSplit(buf, at, ToLE(id, 4), ToLE(offset, OffsetWidth(flags)));
      NatField(buf, at + 4, offset, OffsetWidth(flags));
      if FitsSigned(id, 4) { SignedField(buf, at, id, 4); }
    }
  }

  /** At every nesting depth, the footers lead along any path of fields to that field's own bytes. */
  lemma {:induction false} FootersNavigate(buf: bytes, pos: nat, v: Value, compact: bool, path: seq<nat>)
    requires WellFormed(v) && At(buf, pos, Encode(v, compact)) && |Encode(v, compact)| < MAX_LENGTH
    requires Descend(v, path).Some?
    ensures At(buf, Follow(buf, pos, path), Encode(Descend(v, path).value, compact))
    decreases |path|
  {
    hide Encode, At, FieldOffsetAt, FieldIdAt, WellFormed, KindOf;
    if path != [] {
      EntryIsTrue(buf, pos, v, compact, path[0]);
      ObjectIsWellFormed(v);
      FootersNavigate(buf, pos + FieldOffsetAt(buf, pos, path[0]), v.fields[path[0]], compact, path[1..]);
    }
  }
}
