/**
 * Where a runtime bytecode's build metadata starts: the last two bytes are the big-endian
 * length of the CBOR map just before them.
 */
module MetadataBoundary {
  import opened Wrappers
  import opened Cbor
  import opened CborEncoding

  datatype BoundaryError =
    | ShorterThanSuffix
    | LengthExceedsBytecode(declared: nat)
    | DecodeFailed(cbor: CborError)
    | NotSelfConsistent(consumed: nat, declared: nat)
    | NotAMap
    | UnknownKeys
    | MissingSolc

  datatype Boundary =
    | Rejected(error: BoundaryError)
    | Accepted(cborStart: nat, cborEnd: nat, regionStart: nat, regionSize: nat, metadata: Record)

  const SOLC: Bytes := Ascii("solc")

  const KNOWN_KEYS: set<Bytes> := {Ascii("ipfs"), Ascii("bzzr0"), Ascii("bzzr1"), SOLC, Ascii("experimental")}

  /** Why a decoded value is no metadata. A byte string is an object too, keyed by its indices. */
  function MetadataError(v: Value): Option<BoundaryError> {
    match v
    case Obj(r) =>
      if !(r.fields.Keys <= KNOWN_KEYS) then Some(UnknownKeys)
      else if !Has(r, SOLC) then Some(MissingSolc)
      else None
    case ByteString(b) => Some(if b != [] then UnknownKeys else MissingSolc)
    case _ => Some(NotAMap)
  }

  function DecodeBoundary(buf: Bytes): Boundary {
    if |buf| < 2 then Rejected(ShorterThanSuffix)
    else
      var declared := BigEndian2(buf[|buf| - 2], buf[|buf| - 1]);
      var cborEnd := |buf| - 2;
      if cborEnd < declared then Rejected(LengthExceedsBytecode(declared))
      else
        var cborStart := cborEnd - declared;
        match ItemAt(buf, cborStart)
        case Failure(e) => Rejected(DecodeFailed(e))
        case Success(Read(value, consumed)) =>
          if consumed != declared then Rejected(NotSelfConsistent(consumed, declared))
          else
            match MetadataError(value)
            case Some(e) => Rejected(e)
            case None => Accepted(cborStart, cborEnd, cborStart, |buf| - cborStart, value.record)
  }

  /** The decoder over a buffer, reading it with the cursor-driven reader. */
  method DecodeSolcMetadataBoundary(buf: array<byte>) returns (b: Boundary)
    ensures b == DecodeBoundary(buf[..])
  {
    if buf.Length < 2 {
      return Rejected(ShorterThanSuffix);
    }
    var declared := BigEndian2(buf[buf.Length - 2], buf[buf.Length - 1]);
    var cborEnd := buf.Length - 2;
    if cborEnd < declared {
      return Rejected(LengthExceedsBytecode(declared));
    }
    var cborStart := cborEnd - declared;
    var decoded := ReadItem(buf, cborStart);
    match decoded {
      case Failure(e) =>
        return Rejected(DecodeFailed(e));
      case Success(Read(value, consumed)) =>
        if consumed != declared {
          return Rejected(NotSelfConsistent(consumed, declared));
        }
        match MetadataError(value) {
          case Some(e) => return Rejected(e);
          case None => return Accepted(cborStart, cborEnd, cborStart, buf.Length - cborStart, value.record);
        }
    }
  }

  // ----- properties -------------------------------------------------------------------------

  /** What the decoder takes for metadata: known names of its own, and "solc", its own or inherited. */
  ghost predicate IsMetadata(t: Tree, r: Record) {
    && t.MapItem? && WellFormed(t) && |Encode(t)| < 0x1_0000
    && ValueOf(t) == Success(Obj(r))
    && Has(r, SOLC) && r.fields.Keys <= KNOWN_KEYS
  }

  /** A bytecode: code, its metadata, and the metadata's length. */
  function Suffixed(code: Bytes, t: Tree): Bytes
    requires WellFormed(t) && |Encode(t)| < 0x1_0000
  {
    code + Encode(t) + Be16(|Encode(t)|)
  }

  /** After any code, appended metadata is found again: where it starts, and every field. */
  lemma FindsAppendedMetadata(code: Bytes, t: Tree, r: Record)
    requires IsMetadata(t, r)
    ensures DecodeBoundary(Suffixed(code, t)) ==
            Accepted(|code|, |code| + |Encode(t)|, |code|, |Encode(t)| + 2, r)
  {
    hide ItemAt, Encode, ValueOf;
    var buf, n := Suffixed(code, t), |Encode(t)|;
    assert buf[|buf| - 2] == n / 256 && buf[|buf| - 1] == n % 256;
    assert buf[|code|..|code| + n] == Encode(t);
    ReadsEncoding(t, buf, |code|);
  }

  /** An accepted bytecode is code, metadata and the metadata's length; nothing is left over. */
  lemma AcceptedIsAppendedMetadata(buf: Bytes) returns (code: Bytes, t: Tree)
    requires DecodeBoundary(buf).Accepted?
    ensures IsMetadata(t, DecodeBoundary(buf).metadata)
    ensures buf == Suffixed(code, t)
    ensures |code| == DecodeBoundary(buf).regionStart
  {
    hide ItemAt, Encode, ValueOf;
    var start := DecodeBoundary(buf).regionStart;
    t := TreeOf(buf, start);
    code := buf[..start];
    var n := |Encode(t)|;
    assert buf[start..start + n] == Encode(t);
    assert buf[start + n..] == Be16(n);
    assert buf == buf[..start] + buf[start..start + n] + buf[start + n..];
    AcceptedValueIsMap(ItemAt(buf, start).value.value, t);
  }

  lemma AcceptedValueIsMap(v: Value, t: Tree)
    requires v.Obj? && ValueOf(t) == Success(v)
    ensures t.MapItem?
  {
  }

  /** The region of an accepted bytecode runs from the item's first byte to the buffer's end. */
  lemma AcceptedRegionEndsTheBuffer(buf: Bytes)
    ensures DecodeBoundary(buf).Accepted? ==>
              var b := DecodeBoundary(buf);
              && b.regionStart + b.regionSize == |buf|
              && b.cborStart == b.regionStart && b.cborEnd == |buf| - 2
              && ItemAt(buf, b.cborStart) == Success(Read(Obj(b.metadata), b.cborEnd - b.cborStart))
  {
    hide ItemAt;
  }

  // ----- what the entries say ---------------------------------------------------------------

  /** An entry whose key converts to the name, with that value. */
  ghost predicate Names(es: Entries, name: Bytes, v: Value) {
    es.Entry? && (Named(es, name, v) || Names(es.rest, name, v))
  }

  ghost predicate NamesSome(es: Entries, name: Bytes) {
    exists v :: Names(es, name, v)
  }

  ghost predicate Named(es: Entries, name: Bytes, v: Value)
    requires es.Entry?
  {
    ValueOf(es.key).Success? && KeyOf(ValueOf(es.key).value) == Success(name) && ValueOf(es.val) == Success(v)
  }

  lemma SolcIsPlain()
    ensures SOLC != PROTO && SOLC !in BUFFER_READONLY && !IsIndex(SOLC)
  {
    assert |SOLC| == 4 && SOLC[0] == 115;
    assert Ascii("length")[0] == 108 && |Ascii("byteLength")| == 10 && |Ascii("byteOffset")| == 10;
    assert |Ascii("buffer")| == 6 && |Ascii("parent")| == 6 && |Ascii("offset")| == 6;
    assert |Ascii("length")| == 6 && |Ascii("BYTES_PER_ELEMENT")| == 17 && |PROTO| == 9;
  }

  lemma AssignSolc(r: Record, name: Bytes, v: Value)
    requires Assign(r, name, v).Success?
    ensures var w := Assign(r, name, v).value;
            && (SOLC in w.fields <==> SOLC in r.fields || name == SOLC)
            && (w.proto == r.proto || (name == PROTO && (w.proto == NoPrototype || w.proto == Inherits(v))))
  {
    hide Lookup, IsIndex, IndexValue;
    SolcIsPlain();
  }

  /** "solc" is the record's own exactly when an entry names it; and the prototype comes from an entry. */
  lemma {:induction false} RecordSolc(es: Entries, r: Record)
    requires RecordOf(es, r).Success?
    ensures var w := RecordOf(es, r).value;
            && (SOLC in w.fields <==> SOLC in r.fields || NamesSome(es, SOLC))
            && (w.proto == r.proto || w.proto == NoPrototype || (w.proto.Inherits? && Names(es, PROTO, w.proto.parent)))
  {
    hide ValueOf, KeyOf, Assign;
    if es.Entry? {
      var name, v := KeyOf(ValueOf(es.key).value).value, ValueOf(es.val).value;
      var next := Assign(r, name, v).value;
      AssignSolc(r, name, v);
      RecordSolc(es.rest, next);
      NamesCons(es, name, v, SOLC);
    }
  }

  lemma NamesCons(es: Entries, name: Bytes, v: Value, k: Bytes)
    requires es.Entry? && Named(es, name, v)
    ensures NamesSome(es, k) <==> k == name || NamesSome(es.rest, k)
  {
    hide ValueOf, KeyOf;
    if k == name {
      assert Names(es, k, v);
    }
    if u :| Names(es.rest, k, u) {
      assert Names(es, k, u);
    }
    if u :| Names(es, k, u) {
      assert Named(es, k, u) ==> KeyOf(ValueOf(es.key).value) == Success(k);
      assert !Named(es, k, u) ==> Names(es.rest, k, u);
    }
  }

  /** The prototype entry that lends its "solc" to a map without one. */
  ghost predicate LendsSolc(v: Value) {
    v.Obj? && Has(v.record, SOLC)
  }

  /**
   * What an accepted map holds: its own names are known, and "solc" is among them exactly when some
   * entry names it; otherwise an entry named "__proto__" lends it.
   */
  lemma AcceptedOwnsSolc(t: Tree, r: Record)
    requires IsMetadata(t, r)
    ensures SOLC in r.fields <==> NamesSome(t.entries, SOLC)
    ensures SOLC in r.fields || exists v :: Names(t.entries, PROTO, v) && LendsSolc(v)
  {
    hide RecordOf;
    MapsRecord(t, r);
    RecordSolc(t.entries, EMPTY);
    if SOLC !in r.fields {
      assert r.proto.Inherits? && LendsSolc(r.proto.parent);
    }
  }

  lemma MapsRecord(t: Tree, r: Record)
    requires t.MapItem? && ValueOf(t) == Success(Obj(r))
    ensures RecordOf(t.entries, EMPTY) == Success(r)
  {
  }

  /** When no "__proto__" lends a "solc", an accepted map has one of its own beside known names. */
  lemma AcceptedWithoutLending(t: Tree, r: Record)
    requires IsMetadata(t, r) && forall v :: Names(t.entries, PROTO, v) ==> !LendsSolc(v)
    ensures SOLC in r.fields && r.fields.Keys <= KNOWN_KEYS
  {
    AcceptedOwnsSolc(t, r);
  }

  /** The documented metadata: every entry names a known key, and one of them "solc". */
  ghost predicate Documented(es: Entries) {
    (forall k :: NamesSome(es, k) ==> k in KNOWN_KEYS) && NamesSome(es, SOLC)
  }

  lemma AssignPlain(r: Record, name: Bytes, v: Value)
    requires r.proto == ObjectPrototype && name != PROTO
    ensures Assign(r, name, v) == Success(r.(fields := r.fields[name := v]))
  {
  }

  /** Without an entry named "__proto__" the record's own names are exactly the names of the entries. */
  lemma {:induction false} NamesAreFields(es: Entries, r: Record)
    requires RecordOf(es, r).Success? && r.proto == ObjectPrototype && !NamesSome(es, PROTO)
    ensures var w := RecordOf(es, r).value;
            w.proto == ObjectPrototype && forall k :: k in w.fields <==> k in r.fields || NamesSome(es, k)
  {
    hide ValueOf, KeyOf, Assign;
    if es.NoEntries? {
      forall k ensures !NamesSome(es, k) {
        assert forall v :: !Names(es, k, v);
      }
    } else {
      var name, v := KeyOf(ValueOf(es.key).value).value, ValueOf(es.val).value;
      forall k ensures NamesSome(es, k) <==> k == name || NamesSome(es.rest, k) {
        NamesCons(es, name, v, k);
      }
      AssignPlain(r, name, v);
      NamesAreFields(es.rest, Assign(r, name, v).value);
    }
  }

  /** What is accepted is the documented metadata exactly when no entry is named "__proto__", whatever its value. */
  lemma AcceptedAsDocumented(t: Tree, r: Record)
    requires IsMetadata(t, r)
    ensures Documented(t.entries) <==> !NamesSome(t.entries, PROTO)
  {
    ProtoIsUnknown();
    if !NamesSome(t.entries, PROTO) {
      MapsRecord(t, r);
      NamesAreFields(t.entries, EMPTY);
      assert Lookup(r, SOLC) == if SOLC in r.fields then FoundField else AtObjectPrototype;
    }
  }

  /** A map whose only entry is "__proto__" with a map that has "solc". */
  function Borrower(): Tree {
    MapItem(Inline, Entry(TextItem(Inline, PROTO), MapItem(Inline, Entry(TextItem(Inline, SOLC), UintItem(Inline, 0), NoEntries)), NoEntries))
  }

  function Lender(): Record { Record(map[SOLC := Uint(0)], ObjectPrototype) }

  lemma BorrowerReads()
    ensures WellFormed(Borrower()) && |Encode(Borrower())| < 0x1_0000
    ensures ValueOf(Borrower()) == Success(Obj(Record(map[], Inherits(Obj(Lender())))))
  {
    SolcIsPlain();
    var entry := Entry(TextItem(Inline, SOLC), UintItem(Inline, 0), NoEntries);
    assert |PROTO| == 9 && |SOLC| == 4;
    assert Assign(EMPTY, SOLC, Uint(0)) == Success(Lender());
    assert RecordOf(entry, EMPTY) == RecordOf(NoEntries, Lender());
    assert ValueOf(MapItem(Inline, entry)) == Success(Obj(Lender()));
    assert Assign(EMPTY, PROTO, Obj(Lender())) == Success(Record(map[], Inherits(Obj(Lender()))));
    assert Count(Borrower().entries) == 1 && Count(entry) == 1;
  }

  /** It is accepted after any code, though it has no known name of its own. */
  lemma BorrowedSolcAccepted(code: Bytes)
    ensures WellFormed(Borrower()) && |Encode(Borrower())| < 0x1_0000
    ensures DecodeBoundary(Suffixed(code, Borrower())).Accepted?
    ensures DecodeBoundary(Suffixed(code, Borrower())).metadata.fields == map[]
  {
    hide DecodeBoundary, Encode, WellFormed, ValueOf;
    BorrowerReads();
    assert Has(Record(map[], Inherits(Obj(Lender()))), SOLC);
    FindsAppendedMetadata(code, Borrower(), Record(map[], Inherits(Obj(Lender()))));
  }

  /** A map that has "solc", and an entry "__proto__" with a number, which is ignored. */
  function Ignorer(): Tree {
    MapItem(Inline, Entry(TextItem(Inline, SOLC), UintItem(Inline, 0),
                          Entry(TextItem(Inline, PROTO), UintItem(Inline, 7), NoEntries)))
  }

  lemma IgnorerReads()
    ensures WellFormed(Ignorer()) && |Encode(Ignorer())| < 0x1_0000
    ensures ValueOf(Ignorer()) == Success(Obj(Lender()))
  {
    SolcIsPlain();
    var second := Entry(TextItem(Inline, PROTO), UintItem(Inline, 7), NoEntries);
    assert |PROTO| == 9 && |SOLC| == 4;
    assert Assign(EMPTY, SOLC, Uint(0)) == Success(Lender());
    assert PROTO !in Lender().fields && Assign(Lender(), PROTO, Uint(7)) == Success(Lender());
    assert RecordOf(second, Lender()) == RecordOf(NoEntries, Lender()) == Success(Lender());
    assert RecordOf(Ignorer().entries, EMPTY) == RecordOf(second, Lender());
    assert Count(Ignorer().entries) == 2 && Count(second) == 1;
  }

  /** It is accepted after any code as {"solc": 0}, though an entry names an unknown key. */
  lemma IgnoredProtoAccepted(code: Bytes)
    ensures WellFormed(Ignorer()) && |Encode(Ignorer())| < 0x1_0000
    ensures DecodeBoundary(Suffixed(code, Ignorer())).Accepted?
    ensures DecodeBoundary(Suffixed(code, Ignorer())).metadata == Lender()
    ensures NamesSome(Ignorer().entries, PROTO) && !Documented(Ignorer().entries)
  {
    IgnorerReads();
    IgnorerNames();
    hide DecodeBoundary, Encode, WellFormed, ValueOf, Ignorer, Names, Documented;
    assert IsMetadata(Ignorer(), Lender()) by { IsMap(); }
    FindsAppendedMetadata(code, Ignorer(), Lender());
    AcceptedAsDocumented(Ignorer(), Lender());
  }

  lemma IsMap()
    ensures Ignorer().MapItem? && Has(Lender(), SOLC) && Lender().fields.Keys <= KNOWN_KEYS
  {
  }

  lemma IgnorerNames()
    ensures NamesSome(Ignorer().entries, PROTO)
  {
    assert Named(Ignorer().entries.rest, PROTO, Uint(7));
    assert Names(Ignorer().entries, PROTO, Uint(7));
  }

  // ----- distinct text keys -----------------------------------------------------------------

  /** Metadata the way the compiler writes it: text keys, no key twice, values of any shape. */
  ghost predicate DistinctTextKeys(es: Entries) {
    es.Entry? ==>
      && es.key.TextItem? && ValueOf(es.val).Success?
      && es.key.utf8 !in KeysOf(es.rest)
      && DistinctTextKeys(es.rest)
  }

  ghost function KeysOf(es: Entries): set<Bytes> {
    if es.NoEntries? then {} else (if es.key.TextItem? then {es.key.utf8} else {}) + KeysOf(es.rest)
  }

  /** `name` is written with the value `v`. */
  ghost predicate Writes(es: Entries, name: Bytes, v: Value) {
    es.Entry? && ((es.key.TextItem? && es.key.utf8 == name && ValueOf(es.val) == Success(v)) || Writes(es.rest, name, v))
  }

  lemma {:induction false} RecordOfDistinct(es: Entries, r: Record)
    requires DistinctTextKeys(es) && PROTO !in KeysOf(es) && r.proto == ObjectPrototype
    ensures RecordOf(es, r).Success?
    ensures var w := RecordOf(es, r).value;
            && w.proto == ObjectPrototype
            && w.fields.Keys == r.fields.Keys + KeysOf(es)
            && (forall k :: k in r.fields && k !in KeysOf(es) ==> w.fields[k] == r.fields[k])
            && forall k, v :: Writes(es, k, v) ==> k in KeysOf(es) && w.fields[k] == v
  {
    hide ValueOf;
    if es.Entry? {
      var v := ValueOf(es.val).value;
      assert ValueOf(es.key) == Success(Text(es.key.utf8)) by { TextReads(es.key); }
      assert Assign(r, es.key.utf8, v) == Success(r.(fields := r.fields[es.key.utf8 := v]));
      RecordOfDistinct(es.rest, r.(fields := r.fields[es.key.utf8 := v]));
    }
  }

  lemma TextReads(t: Tree)
    requires t.TextItem?
    ensures ValueOf(t) == Success(Text(t.utf8))
  {
  }

  /**
   * Every map of distinct known text keys that writes "solc" is found after any code, and the
   * decoded fields are the ones written.
   */
  lemma FindsWrittenFields(code: Bytes, w: Width, es: Entries)
    requires WellFormed(MapItem(w, es)) && |Encode(MapItem(w, es))| < 0x1_0000
    requires DistinctTextKeys(es) && SOLC in KeysOf(es) && KeysOf(es) <= KNOWN_KEYS
    ensures var b := DecodeBoundary(Suffixed(code, MapItem(w, es)));
            && b.Accepted? && b.regionStart == |code|
            && b.metadata.fields.Keys == KeysOf(es)
            && forall k, v :: Writes(es, k, v) ==> k in b.metadata.fields && b.metadata.fields[k] == v
  {
    hide ItemAt, Encode, WellFormed, DecodeBoundary, RecordOf;
    ProtoIsUnknown();
    RecordOfDistinct(es, EMPTY);
    FindsAppendedMetadata(code, MapItem(w, es), RecordOf(es, EMPTY).value);
  }

  lemma ProtoIsUnknown()
    ensures PROTO !in KNOWN_KEYS
  {
    assert |PROTO| == 9;
    assert |Ascii("ipfs")| == 4 && |Ascii("bzzr0")| == 5 && |Ascii("bzzr1")| == 5 && |Ascii("experimental")| == 12;
  }
}
