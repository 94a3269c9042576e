/**
 * The CBOR reader that proves where solc's build metadata starts (RFC 8949, section 3.1:
 * unsigned integers, byte strings, text strings, definite-length maps and three simple values).
 *
 * `ReadItem` is the cursor-driven reader over a buffer. `ItemAt` is its specification, and the
 * encoder below is the independent reference: the reader accepts exactly the encodings.
 */
module Cbor {
  import opened Wrappers

  type byte = b: int | 0 <= b < 256
  type Bytes = seq<byte>

  /** A decoded item. Strings, and the property names of a map, are their UTF-8 bytes. */
  datatype Value =
    | Uint(n: nat)
    | ByteString(bytes: Bytes)
    | Text(utf8: Bytes)
    | Obj(record: Record)
    | Bool(b: bool)
    | Null

  /** What a map decodes to: a record with its own fields, and what it inherits from. */
  datatype Record = Record(fields: map<Bytes, Value>, proto: Prototype)

  /** A fresh record's prototype, none, or the value an entry named "__proto__" put in its place. */
  datatype Prototype = ObjectPrototype | NoPrototype | Inherits(parent: Value)

  datatype CborError =
    | PastEnd
    | HeaderOutOfRange
    | UnsupportedLength(info: nat)
    | ByteStringOverrun
    | TextOverrun
    | UnsupportedSimple(info: nat)
    | UnsupportedMajorType(major: nat, offset: nat)
    | KeyNotConvertible
    | AssignmentThrows

  datatype Read = Read(value: Value, bytesConsumed: nat)

  datatype Header = Header(length: nat, headerBytes: nat)

  function Ascii(s: string): Bytes {
    seq(|s|, i requires 0 <= i < |s| => s[i] as int % 256)
  }

  function BigEndian2(hi: byte, lo: byte): nat {
    hi * 256 + lo
  }

  // ----- the reader -----------------------------------------------------------------------

  /** The length an initial byte's low five bits announce, and how many bytes spell it. */
  function ReadLength(buf: Bytes, offset: nat, info: nat): (r: Result<Header, CborError>)
    ensures r.Success? && offset <= |buf| ==> offset + r.value.headerBytes <= |buf|
  {
    if info < 24 then Success(Header(info, 0))
    else if info == 24 then
      if offset + 1 <= |buf| then Success(Header(buf[offset], 1)) else Failure(HeaderOutOfRange)
    else if info == 25 then
      if offset + 2 <= |buf| then Success(Header(BigEndian2(buf[offset], buf[offset + 1]), 2))
      else Failure(HeaderOutOfRange)
    else if info == 26 then
      if offset + 4 <= |buf| then
        Success(Header(BigEndian2(buf[offset], buf[offset + 1]) * 65536 +
                       BigEndian2(buf[offset + 2], buf[offset + 3]), 4))
      else Failure(HeaderOutOfRange)
    else Failure(UnsupportedLength(info))
  }

  function Decimal(n: nat): Bytes {
    (if n < 10 then [] else Decimal(n / 10)) + [48 + n % 10]
  }

  // ----- records ----------------------------------------------------------------------------

  const EMPTY := Record(map[], ObjectPrototype)

  const PROTO: Bytes := Ascii("__proto__")
  const TO_STRING: Bytes := Ascii("toString")

  /** The names a byte string's prototypes define and no assignment may shadow. */
  const BUFFER_READONLY: set<Bytes> := {
    Ascii("length"), Ascii("byteLength"), Ascii("byteOffset"), Ascii("buffer"), Ascii("parent"), Ascii("offset"),
    Ascii("BYTES_PER_ELEMENT")}

  /** Where the search for a property ends. */
  datatype Found = FoundField | FoundNothing | AtObjectPrototype | AtBuffer(size: nat)

  function Lookup(r: Record, name: Bytes): Found {
    if name in r.fields then FoundField
    else
      match r.proto
      case ObjectPrototype => AtObjectPrototype
      case NoPrototype => FoundNothing
      case Inherits(Obj(parent)) => Lookup(parent, name)
      case Inherits(ByteString(b)) => AtBuffer(|b|)
      case Inherits(_) => FoundNothing
  }

  /** The record has the field, its own or inherited. */
  predicate Has(r: Record, name: Bytes) {
    Lookup(r, name) == FoundField
  }

  /** A name that is a whole number's plain decimal, of at most 15 digits. */
  predicate IsIndex(name: Bytes) {
    1 <= |name| <= 15 && AllDigits(name) && (|name| > 1 ==> name[0] != 48)
  }

  predicate AllDigits(name: Bytes) {
    forall i :: 0 <= i < |name| ==> 48 <= name[i] <= 57
  }

  function IndexValue(name: Bytes): nat
    requires AllDigits(name)
  {
    if name == [] then 0
    else
      var digit: int := name[|name| - 1];
      IndexValue(name[..|name| - 1]) * 10 + (digit - 48)
  }

  /**
   * A field assigned. "__proto__" replaces the prototype where its setter is inherited, by an object
   * or by none, and any other value is then ignored; where it is not inherited the name is a field
   * like any other. Below a byte string, its read-only names throw and an index it does not have is
   * ignored.
   */
  function Assign(r: Record, name: Bytes, v: Value): Result<Record, CborError> {
    var written := r.(fields := r.fields[name := v]);
    match Lookup(r, name)
    case FoundField => Success(written)
    case FoundNothing => Success(written)
    case AtObjectPrototype => Success(if name == PROTO then SetPrototype(r, v) else written)
    case AtBuffer(size) =>
      if name == PROTO then Success(SetPrototype(r, v))
      else if name in BUFFER_READONLY then Failure(AssignmentThrows)
      else if IsIndex(name) && IndexValue(name) >= size then Success(r)
      else Success(written)
  }

  function SetPrototype(r: Record, v: Value): Record {
    match v
    case Obj(_) => r.(proto := Inherits(v))
    case ByteString(_) => r.(proto := Inherits(v))
    case Null => r.(proto := NoPrototype)
    case _ => r
  }

  /**
   * The property name a map key becomes. A map used as a key converts to one fixed name if its
   * search for "toString" ends at the object prototype; any other end is no conversion.
   */
  function KeyOf(v: Value): Result<Bytes, CborError> {
    match v
    case Uint(n) => Success(Decimal(n))
    case ByteString(b) => Success(b)
    case Text(t) => Success(t)
    case Obj(r) =>
      if Lookup(r, TO_STRING) == AtObjectPrototype then Success(Ascii("[object Object]")) else Failure(KeyNotConvertible)
    case Bool(b) => Success(if b then Ascii("true") else Ascii("false"))
    case Null => Success(Ascii("null"))
  }

  // ----- items ------------------------------------------------------------------------------

  /** The item that starts at `offset`: it consumes at least one byte and stays in the buffer. */
  function ItemAt(buf: Bytes, offset: nat): (r: Result<Read, CborError>)
    ensures r.Success? ==> 1 <= r.value.bytesConsumed && offset + r.value.bytesConsumed <= |buf|
    decreases if offset <= |buf| then |buf| - offset else 0, 0
  {
    if offset >= |buf| then Failure(PastEnd)
    else
      var major, info := buf[offset] / 32, buf[offset] % 32;
      if major == 0 then
        var h :- ReadLength(buf, offset + 1, info);
        Success(Read(Uint(h.length), 1 + h.headerBytes))
      else if major == 2 then
        var h :- ReadLength(buf, offset + 1, info);
        var cursor := offset + 1 + h.headerBytes;
        if cursor + h.length > |buf| then Failure(ByteStringOverrun)
        else Success(Read(ByteString(buf[cursor..cursor + h.length]), cursor + h.length - offset))
      else if major == 3 then
        var h :- ReadLength(buf, offset + 1, info);
        var cursor := offset + 1 + h.headerBytes;
        if cursor + h.length > |buf| then Failure(TextOverrun)
        else Success(Read(Text(buf[cursor..cursor + h.length]), cursor + h.length - offset))
      else if major == 5 then
        var h :- ReadLength(buf, offset + 1, info);
        var entries :- EntriesAt(buf, offset + 1 + h.headerBytes, h.length, EMPTY);
        Success(Read(Obj(entries.0), entries.1 - offset))
      else if major == 7 then
        if info == 20 then Success(Read(Bool(false), 1))
        else if info == 21 then Success(Read(Bool(true), 1))
        else if info == 22 then Success(Read(Null, 1))
        else Failure(UnsupportedSimple(info))
      else Failure(UnsupportedMajorType(major, offset))
  }

  /** `count` map entries from `cursor` on, assigned to the record; and where they end. */
  function EntriesAt(buf: Bytes, cursor: nat, count: nat, record: Record): (r: Result<(Record, nat), CborError>)
    requires cursor <= |buf|
    ensures r.Success? ==> cursor <= r.value.1 <= |buf|
    decreases |buf| - cursor, 1
  {
    if count == 0 then Success((record, cursor))
    else
      var key :- ItemAt(buf, cursor);
      var val :- ItemAt(buf, cursor + key.bytesConsumed);
      var name :- KeyOf(key.value);
      var written :- Assign(record, name, val.value);
      EntriesAt(buf, cursor + key.bytesConsumed + val.bytesConsumed, count - 1, written)
  }

  /** The reader over a buffer: a cursor, moved past the header and then past the content. */
  method ReadItem(buf: array<byte>, offset: nat) returns (r: Result<Read, CborError>)
    ensures r == ItemAt(buf[..], offset)
    decreases if offset <= buf.Length then buf.Length - offset else 0, 0
  {
    hide EntriesAt, ReadLength, KeyOf;
    if offset >= buf.Length {
      return Failure(PastEnd);
    }
    var major, info := buf[offset] / 32, buf[offset] % 32;
    var cursor := offset + 1;
    if major == 0 || major == 2 || major == 3 || major == 5 {
      var h :- ReadLength(buf[..], cursor, info);
      cursor := cursor + h.headerBytes;
      if major == 0 {
        return Success(Read(Uint(h.length), cursor - offset));
      }
      if major == 5 {
        var entries :- ReadEntries(buf, cursor, h.length);
        cursor := entries.1;
        return Success(Read(Obj(entries.0), cursor - offset));
      }
      if cursor + h.length > buf.Length {
        return Failure(if major == 2 then ByteStringOverrun else TextOverrun);
      }
      var content := buf[..][cursor..cursor + h.length];
      cursor := cursor + h.length;
      return Success(Read(if major == 2 then ByteString(content) else Text(content), cursor - offset));
    }
    if major == 7 {
      return if info == 20 then Success(Read(Bool(false), 1))
        else if info == 21 then Success(Read(Bool(true), 1))
        else if info == 22 then Success(Read(Null, 1))
        else Failure(UnsupportedSimple(info));
    }
    return Failure(UnsupportedMajorType(major, offset));
  }

  /** A map's entries: an object filled entry by entry. */
  method ReadEntries(buf: array<byte>, start: nat, count: nat)
    returns (r: Result<(Record, nat), CborError>)
    requires start <= buf.Length
    ensures r == EntriesAt(buf[..], start, count, EMPTY)
    decreases buf.Length - start, 1
  {
    hide ItemAt, EntriesAt, Assign, KeyOf;
    ghost var bytes := buf[..];
    var cursor, obj := start, EMPTY;
    for i := 0 to count
      invariant start <= cursor <= buf.Length
      invariant EntriesAt(bytes, start, count, EMPTY) == EntriesAt(bytes, cursor, count - i, obj)
    {
      EntriesUnfold(bytes, cursor, count - i, obj);
      var key :- ReadItem(buf, cursor);
      var val :- ReadItem(buf, cursor + key.bytesConsumed);
      cursor := cursor + key.bytesConsumed + val.bytesConsumed;
      var name :- KeyOf(key.value);
      obj :- Assign(obj, name, val.value);
    }
    EntriesUnfold(bytes, cursor, 0, obj);
    return Success((obj, cursor));
  }

  lemma EntriesUnfold(buf: Bytes, cursor: nat, count: nat, record: Record)
    requires cursor <= |buf|
    ensures EntriesAt(buf, cursor, count, record) ==
            if count == 0 then Success((record, cursor))
            else
              var key :- ItemAt(buf, cursor);
              var val :- ItemAt(buf, cursor + key.bytesConsumed);
              var name :- KeyOf(key.value);
              var written :- Assign(record, name, val.value);
              EntriesAt(buf, cursor + key.bytesConsumed + val.bytesConsumed, count - 1, written)
  {
  }
}
