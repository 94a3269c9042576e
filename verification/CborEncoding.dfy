/**
 * The reference for the CBOR reader: the encodings of RFC 8949, section 3.1, that it supports.
 * A `Tree` is a data item together with the width chosen for each length, so every byte
 * string the reader can accept is the encoding of exactly one tree.
 */
module CborEncoding {
  import opened Wrappers
  import opened Cbor
  import Strings

  datatype Width = Inline | One | Two | Four

  datatype Tree =
    | UintItem(uintWidth: Width, n: nat)
    | BytesItem(bytesWidth: Width, bytes: Bytes)
    | TextItem(textWidth: Width, utf8: Bytes)
    | MapItem(mapWidth: Width, entries: Entries)
    | BoolItem(b: bool)
    | NullItem

  datatype Entries = NoEntries | Entry(key: Tree, val: Tree, rest: Entries)

  function Count(es: Entries): nat {
    if es.NoEntries? then 0 else 1 + Count(es.rest)
  }

  predicate Fits(w: Width, n: nat) {
    n < match w { case Inline => 24 case One => 0x100 case Two => 0x1_0000 case Four => 0x1_0000_0000 }
  }

  /** Every length fits the width chosen for it. */
  predicate WellFormed(t: Tree) {
    match t
    case UintItem(w, n) => Fits(w, n)
    case BytesItem(w, b) => Fits(w, |b|)
    case TextItem(w, b) => Fits(w, |b|)
    case MapItem(w, es) => Fits(w, Count(es)) && WellFormedEntries(es)
    case _ => true
  }

  predicate WellFormedEntries(es: Entries) {
    es.Entry? ==> WellFormed(es.key) && WellFormed(es.val) && WellFormedEntries(es.rest)
  }

  // ----- the encoder ----------------------------------------------------------------------

  function Be16(n: nat): Bytes
    requires n < 0x1_0000
  {
    [n / 256, n % 256]
  }

  function Info(w: Width, n: nat): nat
    requires Fits(w, n)
  {
    match w case Inline => n case One => 24 case Two => 25 case Four => 26
  }

  function LengthBytes(w: Width, n: nat): Bytes
    requires Fits(w, n)
  {
    match w
    case Inline => []
    case One => [n]
    case Two => Be16(n)
    case Four => Be16(n / 0x1_0000) + Be16(n % 0x1_0000)
  }

  function Head(major: nat, w: Width, n: nat): Bytes
    requires major < 8 && Fits(w, n)
  {
    [major * 32 + Info(w, n)] + LengthBytes(w, n)
  }

  function Encode(t: Tree): Bytes
    requires WellFormed(t)
  {
    match t
    case UintItem(w, n) => Head(0, w, n)
    case BytesItem(w, b) => Head(2, w, |b|) + b
    case TextItem(w, b) => Head(3, w, |b|) + b
    case MapItem(w, es) => Head(5, w, Count(es)) + EncodeEntries(es)
    case BoolItem(b) => [7 * 32 + if b then 21 else 20]
    case NullItem => [7 * 32 + 22]
  }

  function EncodeEntries(es: Entries): Bytes
    requires WellFormedEntries(es)
  {
    match es
    case NoEntries => []
    case Entry(k, v, rest) => Encode(k) + Encode(v) + EncodeEntries(rest)
  }

  // ----- what an encoding means -----------------------------------------------------------

  function ValueOf(t: Tree): Result<Value, CborError> {
    match t
    case UintItem(_, n) => Success(Uint(n))
    case BytesItem(_, b) => Success(ByteString(b))
    case TextItem(_, b) => Success(Text(b))
    case MapItem(_, es) => var record :- RecordOf(es, EMPTY); Success(Obj(record))
    case BoolItem(b) => Success(Bool(b))
    case NullItem => Success(Null)
  }

  /** The entries assigned to the record, first to last. */
  function RecordOf(es: Entries, record: Record): Result<Record, CborError> {
    match es
    case NoEntries => Success(record)
    case Entry(k, v, rest) =>
      var key :- ValueOf(k);
      var val :- ValueOf(v);
      var name :- KeyOf(key);
      var written :- Assign(record, name, val);
      RecordOf(rest, written)
  }

  // ----- names ------------------------------------------------------------------------------

  lemma {:induction false} DecimalReads(n: nat)
    ensures AllDigits(Decimal(n)) && IndexValue(Decimal(n)) == n
    ensures Decimal(n) != [] && (Decimal(n)[0] == 48 <==> n == 0)
  {
    var head: Bytes := if n < 10 then [] else Decimal(n / 10);
    var digit: byte := 48 + n % 10;
    assert Decimal(n) == head + [digit];
    assert (head + [digit])[..|head|] == head;
    if n >= 10 {
      DecimalReads(n / 10);
      assert Decimal(n)[0] == head[0];
    }
  }

  lemma {:induction false} DecimalSize(n: nat, k: nat)
    requires n < Strings.TenTo(k) && k > 0
    ensures |Decimal(n)| <= k
  {
    if n >= 10 {
      assert k > 1 by { assert Strings.TenTo(1) == 10 * Strings.TenTo(0); }
      DecimalSize(n / 10, k - 1);
    }
  }

  /** A number used as a key is named by its decimal, and that name is an index with its value. */
  lemma NumberIsIndex(n: nat)
    requires n < Strings.TenTo(15)
    ensures KeyOf(Uint(n)) == Success(Decimal(n)) && IsIndex(Decimal(n)) && IndexValue(Decimal(n)) == n
  {
    DecimalReads(n);
    DecimalSize(n, 15);
    assert n == 0 ==> |Decimal(n)| == 1;
  }

  /** The other scalars a key may be are named as the language writes them. */
  lemma ScalarNames()
    ensures KeyOf(Bool(true)) == Success([116, 114, 117, 101]) && KeyOf(Bool(false)) == Success([102, 97, 108, 115, 101])
    ensures KeyOf(Null) == Success([110, 117, 108, 108])
  {
    assert Ascii("true") == [116, 114, 117, 101] && Ascii("false") == [102, 97, 108, 115, 101];
    assert Ascii("null") == [110, 117, 108, 108];
  }

  // ----- the reader reads every encoding, wherever it stands --------------------------------

  ghost predicate Holds(buf: Bytes, offset: nat, part: Bytes) {
    offset + |part| <= |buf| && buf[offset..offset + |part|] == part
  }

  lemma HoldsSplit(buf: Bytes, offset: nat, a: Bytes, b: Bytes)
    ensures Holds(buf, offset, a + b) <==> Holds(buf, offset, a) && Holds(buf, offset + |a|, b)
  {
    if Holds(buf, offset, a + b) {
      assert buf[offset..offset + |a|] == buf[offset..offset + |a + b|][..|a|];
      assert buf[offset + |a|..offset + |a| + |b|] == buf[offset..offset + |a + b|][|a|..];
    }
    if Holds(buf, offset, a) && Holds(buf, offset + |a|, b) {
      assert buf[offset..offset + |a + b|] ==
             buf[offset..offset + |a|] + buf[offset + |a|..offset + |a| + |b|];
    }
  }

  lemma HoldsNothing(buf: Bytes, offset: nat)
    requires offset <= |buf|
    ensures Holds(buf, offset, [])
  {
  }

  lemma HoldsByte(buf: Bytes, offset: nat, part: Bytes, i: nat)
    requires Holds(buf, offset, part) && i < |part|
    ensures buf[offset + i] == part[i]
  {
    assert buf[offset + i] == buf[offset..offset + |part|][i];
  }

  lemma LengthBytesRead(buf: Bytes, offset: nat, w: Width, n: nat)
    requires Fits(w, n) && Holds(buf, offset, LengthBytes(w, n))
    ensures ReadLength(buf, offset, Info(w, n)) == Success(Header(n, |LengthBytes(w, n)|))
  {
    hide Holds;
    var b := LengthBytes(w, n);
    HoldsInside(buf, offset, b);
    match w {
      case Inline =>
      case One =>
        HoldsByte(buf, offset, b, 0);
      case Two =>
        HoldsSplit(buf, offset, Be16(n), []);
        assert b + [] == b;
        PairRead(buf, offset, n);
      case Four =>
        HoldsSplit(buf, offset, Be16(n / 0x1_0000), Be16(n % 0x1_0000));
        PairRead(buf, offset, n / 0x1_0000);
        PairRead(buf, offset + 2, n % 0x1_0000);
    }
  }

  lemma HoldsInside(buf: Bytes, offset: nat, part: Bytes)
    requires Holds(buf, offset, part)
    ensures offset + |part| <= |buf|
  {
  }

  lemma PairRead(buf: Bytes, offset: nat, n: nat)
    requires n < 0x1_0000 && Holds(buf, offset, Be16(n))
    ensures offset + 2 <= |buf| && BigEndian2(buf[offset], buf[offset + 1]) == n
  {
    HoldsByte(buf, offset, Be16(n), 0);
    HoldsByte(buf, offset, Be16(n), 1);
  }

  lemma HeadRead(buf: Bytes, offset: nat, major: nat, w: Width, n: nat)
    requires major < 8 && Fits(w, n) && Holds(buf, offset, Head(major, w, n))
    ensures offset < |buf| && buf[offset] / 32 == major && buf[offset] % 32 == Info(w, n)
    ensures ReadLength(buf, offset + 1, buf[offset] % 32) == Success(Header(n, |Head(major, w, n)| - 1))
  {
    HoldsSplit(buf, offset, [major * 32 + Info(w, n)], LengthBytes(w, n));
    HoldsByte(buf, offset, [major * 32 + Info(w, n)], 0);
    LengthBytesRead(buf, offset + 1, w, n);
  }

  /** Reading an encoding gives its value, or its conversion failure, and consumes all of it. */
  lemma {:induction false} ReadsEncoding(t: Tree, buf: Bytes, offset: nat)
    requires WellFormed(t) && Holds(buf, offset, Encode(t))
    ensures ItemAt(buf, offset) == (var v :- ValueOf(t); Success(Read(v, |Encode(t)|)))
    decreases t
  {
    hide ReadLength, Head, Info, Fits, KeyOf, Assign, EntriesAt, EncodeEntries, RecordOf;
    match t {
      case UintItem(w, n) =>
        HeadRead(buf, offset, 0, w, n);
      case BytesItem(w, b) =>
        HoldsSplit(buf, offset, Head(2, w, |b|), b);
        HeadRead(buf, offset, 2, w, |b|);
      case TextItem(w, b) =>
        HoldsSplit(buf, offset, Head(3, w, |b|), b);
        HeadRead(buf, offset, 3, w, |b|);
      case MapItem(w, es) =>
        HoldsSplit(buf, offset, Head(5, w, Count(es)), EncodeEntries(es));
        HeadRead(buf, offset, 5, w, Count(es));
        ReadsEntries(es, buf, offset + |Head(5, w, Count(es))|, EMPTY);
      case BoolItem(b) =>
        HoldsByte(buf, offset, Encode(t), 0);
      case NullItem =>
        HoldsByte(buf, offset, Encode(t), 0);
    }
  }

  lemma {:induction false} ReadsEntries(es: Entries, buf: Bytes, cursor: nat, record: Record)
    requires WellFormedEntries(es) && Holds(buf, cursor, EncodeEntries(es))
    ensures EntriesAt(buf, cursor, Count(es), record) ==
            (var f :- RecordOf(es, record); Success((f, cursor + |EncodeEntries(es)|)))
    decreases es
  {
    hide Encode, ItemAt, ValueOf, KeyOf, Assign, Holds, WellFormed;
    match es {
      case NoEntries =>
      case Entry(k, v, rest) =>
        HoldsSplit(buf, cursor, Encode(k) + Encode(v), EncodeEntries(rest));
        HoldsSplit(buf, cursor, Encode(k), Encode(v));
        ReadsEncoding(k, buf, cursor);
        ReadsEncoding(v, buf, cursor + |Encode(k)|);
        if ValueOf(k).Success? && ValueOf(v).Success? && KeyOf(ValueOf(k).value).Success? {
          var written := Assign(record, KeyOf(ValueOf(k).value).value, ValueOf(v).value);
          if written.Success? {
            ReadsEntries(rest, buf, cursor + |Encode(k)| + |Encode(v)|, written.value);
          }
        }
    }
  }

  // ----- and accepts nothing else -----------------------------------------------------------

  lemma HoldsPair(buf: Bytes, offset: nat, n: nat)
    requires offset + 2 <= |buf| && n == BigEndian2(buf[offset], buf[offset + 1])
    ensures Holds(buf, offset, Be16(n))
  {
    assert buf[offset..offset + 2] == [buf[offset], buf[offset + 1]];
  }

  lemma LengthBytesOf(buf: Bytes, offset: nat, info: nat) returns (w: Width, n: nat)
    requires ReadLength(buf, offset, info).Success? && offset <= |buf|
    ensures Fits(w, n) && Info(w, n) == info && Holds(buf, offset, LengthBytes(w, n))
    ensures ReadLength(buf, offset, info) == Success(Header(n, |LengthBytes(w, n)|))
  {
    n := ReadLength(buf, offset, info).value.length;
    w := if info < 24 then Inline else if info == 24 then One else if info == 25 then Two else Four;
    if w.Four? {
      var hi, lo := BigEndian2(buf[offset], buf[offset + 1]), BigEndian2(buf[offset + 2], buf[offset + 3]);
      assert n / 0x1_0000 == hi && n % 0x1_0000 == lo;
      HoldsPair(buf, offset, hi);
      HoldsPair(buf, offset + 2, lo);
      HoldsSplit(buf, offset, Be16(hi), Be16(lo));
    } else if w.Two? {
      HoldsPair(buf, offset, n);
    }
  }

  lemma HeadOf(buf: Bytes, offset: nat) returns (w: Width, n: nat)
    requires offset < |buf| && ReadLength(buf, offset + 1, buf[offset] % 32).Success?
    ensures Fits(w, n) && Holds(buf, offset, Head(buf[offset] / 32, w, n))
    ensures ReadLength(buf, offset + 1, buf[offset] % 32) ==
            Success(Header(n, |Head(buf[offset] / 32, w, n)| - 1))
  {
    hide ReadLength, LengthBytes, Fits, Info;
    w, n := LengthBytesOf(buf, offset + 1, buf[offset] % 32);
    HoldsSplit(buf, offset, [buf[offset]], LengthBytes(w, n));
  }

  lemma SimpleOf(buf: Bytes, offset: nat) returns (t: Tree)
    requires ItemAt(buf, offset).Success? && buf[offset] / 32 == 7
    ensures WellFormed(t) && Holds(buf, offset, Encode(t))
    ensures ItemAt(buf, offset) == (var v :- ValueOf(t); Success(Read(v, |Encode(t)|)))
  {
    t := if buf[offset] % 32 == 22 then NullItem else BoolItem(buf[offset] % 32 == 21);
    assert buf[offset..offset + 1] == Encode(t);
  }

  /** The tree behind an accepted item: the bytes consumed are its encoding, the value its value. */
  lemma {:induction false} TreeOf(buf: Bytes, offset: nat) returns (t: Tree)
    requires ItemAt(buf, offset).Success?
    ensures WellFormed(t) && Holds(buf, offset, Encode(t))
    ensures ItemAt(buf, offset) == (var v :- ValueOf(t); Success(Read(v, |Encode(t)|)))
    decreases |buf| - offset, 0
  {
    hide ReadLength, Head, Info, Fits, KeyOf, Assign, EntriesAt, EncodeEntries, RecordOf;
    var major, info := buf[offset] / 32, buf[offset] % 32;
    if major == 7 {
      t := SimpleOf(buf, offset);
    } else {
      var w, n := HeadOf(buf, offset);
      var cursor := offset + |Head(major, w, n)|;
      if major == 0 {
        t := UintItem(w, n);
      } else if major == 5 {
        var es := EntriesOf(buf, cursor, n, EMPTY);
        t := MapItem(w, es);
        HoldsSplit(buf, offset, Head(5, w, n), EncodeEntries(es));
      } else {
        var b := buf[cursor..cursor + n];
        t := if major == 2 then BytesItem(w, b) else TextItem(w, b);
        HoldsSplit(buf, offset, Head(major, w, n), b);
      }
    }
  }

  lemma {:induction false} EntriesOf(buf: Bytes, cursor: nat, count: nat, record: Record)
    returns (es: Entries)
    requires cursor <= |buf| && EntriesAt(buf, cursor, count, record).Success?
    ensures Count(es) == count && WellFormedEntries(es) && Holds(buf, cursor, EncodeEntries(es))
    ensures EntriesAt(buf, cursor, count, record) ==
            (var f :- RecordOf(es, record); Success((f, cursor + |EncodeEntries(es)|)))
    decreases |buf| - cursor, 1
  {
    hide Encode, ItemAt, ValueOf, KeyOf, Assign, Holds, WellFormed;
    if count == 0 {
      es := NoEntries;
      HoldsNothing(buf, cursor);
    } else {
      var key := ItemAt(buf, cursor).value;
      var val := ItemAt(buf, cursor + key.bytesConsumed).value;
      var next := cursor + key.bytesConsumed + val.bytesConsumed;
      var k := TreeOf(buf, cursor);
      var v := TreeOf(buf, cursor + key.bytesConsumed);
      var rest := EntriesOf(buf, next, count - 1, Assign(record, KeyOf(key.value).value, val.value).value);
      es := Entry(k, v, rest);
      HoldsSplit(buf, cursor, Encode(k), Encode(v));
      HoldsSplit(buf, cursor, Encode(k) + Encode(v), EncodeEntries(rest));
    }
  }

  // ----- consequences -----------------------------------------------------------------------

  /** An accepted item depends only on the bytes it consumed, not on where they stand. */
  lemma DependsOnlyOnConsumedBytes(a: Bytes, i: nat, b: Bytes, j: nat)
    requires ItemAt(a, i).Success?
    requires Holds(b, j, a[i..i + ItemAt(a, i).value.bytesConsumed])
    ensures ItemAt(b, j) == ItemAt(a, i)
  {
    var t := TreeOf(a, i);
    ReadsEncoding(t, b, j);
  }

  /** A whole buffer that is one item. */
  ghost predicate IsItem(a: Bytes) {
    ItemAt(a, 0).Success? && ItemAt(a, 0).value.bytesConsumed == |a|
  }

  /** No accepted item is a proper prefix of another. */
  lemma PrefixFree(a: Bytes, b: Bytes)
    requires IsItem(a) && IsItem(b) && a <= b
    ensures a == b
  {
    assert Holds(b, 0, a[0..0 + |a|]);
    DependsOnlyOnConsumedBytes(a, 0, b, 0);
  }

  /** The items are exactly the encodings whose map keys convert to property names and whose entries can be assigned. */
  lemma ItemsAreEncodings(a: Bytes)
    ensures IsItem(a) <==> exists t :: WellFormed(t) && ValueOf(t).Success? && Encode(t) == a
  {
    if IsItem(a) {
      var t := TreeOf(a, 0);
      assert a[0..|a|] == a;
    }
    if t :| WellFormed(t) && ValueOf(t).Success? && Encode(t) == a {
      assert Holds(a, 0, a);
      ReadsEncoding(t, a, 0);
    }
  }
}
