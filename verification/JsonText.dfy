/**
 * A reader of JSON texts (RFC 8259, without whitespace between tokens), independent of the
 * serializer: it reads the canonical text of a value back as that value, its keys ascending.
 */
module JsonText {
  import opened Wrappers
  import opened Counting
  import opened Seqs
  import opened Sorting
  import opened Strings
  import opened CanonicalJson

  // ----- strings (section 7) ----------------------------------------------------------------

  function HexValue(c: char): int {
    if '0' <= c <= '9' then c as int - '0' as int
    else if 'a' <= c <= 'f' then c as int - 'a' as int + 10
    else if 'A' <= c <= 'F' then c as int - 'A' as int + 10
    else -1
  }

  /** Four hexadecimal digits; surrogate halves are no character of their own. */
  function ReadHex4(s: string): Option<(char, string)> {
    if |s| < 4 || exists i :: 0 <= i < 4 && HexValue(s[i]) < 0 then None
    else
      var n := HexValue(s[0]) * 4096 + HexValue(s[1]) * 256 + HexValue(s[2]) * 16 + HexValue(s[3]);
      if 0 <= n < 0xD800 || 0xE000 <= n < 0x1_0000 then Some((n as char, s[4..])) else None
  }

  /** What follows a backslash. */
  function ReadEscape(s: string): (r: Option<(char, string)>)
    ensures r.Some? ==> |r.value.1| < |s|
  {
    if s == "" then None
    else
      match s[0]
      case '\"' => Some(('\"', s[1..]))
      case '\\' => Some(('\\', s[1..]))
      case '/' => Some(('/', s[1..]))
      case 'b' => Some((8 as char, s[1..]))
      case 'f' => Some((12 as char, s[1..]))
      case 'n' => Some((10 as char, s[1..]))
      case 'r' => Some((13 as char, s[1..]))
      case 't' => Some((9 as char, s[1..]))
      case 'u' => ReadHex4(s[1..])
      case _ => None
  }

  /** The characters up to the closing quote, and what follows it. */
  function ReadChars(s: string): (r: Option<(string, string)>)
    ensures r.Some? ==> |r.value.1| < |s|
    decreases |s|
  {
    if s == "" || (s[0] as int) < 32 then None
    else if s[0] == '\"' then Some(("", s[1..]))
    else
      var first := if s[0] == '\\' then ReadEscape(s[1..]) else Some((s[0], s[1..]));
      match first
      case None => None
      case Some((c, rest)) => match ReadChars(rest) case None => None case Some((t, end)) => Some(([c] + t, end))
  }

  // ----- values (sections 3 to 6) -----------------------------------------------------------

  predicate IsNumeralChar(c: char) { IsDigit(c) || c in "+-.e" }

  function NumeralLength(s: string): (n: nat)
    ensures n <= |s|
  {
    if s == "" || !IsNumeralChar(s[0]) then 0 else 1 + NumeralLength(s[1..])
  }

  function ReadValue(s: string): (r: Option<(Json, string)>)
    ensures r.Some? ==> |r.value.1| < |s|
    decreases |s|, 0
  {
    if s == "" then None
    else if "null" <= s then Some((JNull, s[4..]))
    else if "true" <= s then Some((JBool(true), s[4..]))
    else if "false" <= s then Some((JBool(false), s[5..]))
    else if s[0] == '\"' then match ReadChars(s[1..]) case None => None case Some((t, end)) => Some((JStr(t), end))
    else if "[]" <= s then Some((JArr([]), s[2..]))
    else if "{}" <= s then Some((JObj([]), s[2..]))
    else if s[0] == '[' then match ReadItems(s[1..]) case None => None case Some((items, end)) => Some((JArr(items), end))
    else if s[0] == '{' then match ReadMembers(s[1..]) case None => None case Some((fields, end)) => Some((JObj(fields), end))
    else if NumeralLength(s) == 0 then None
    else Some((JNum(s[..NumeralLength(s)]), s[NumeralLength(s)..]))
  }

  /** One value or more, comma between them, up to the bracket. */
  function ReadItems(s: string): (r: Option<(seq<Json>, string)>)
    ensures r.Some? ==> |r.value.1| < |s|
    decreases |s|, 1
  {
    match ReadValue(s)
    case None => None
    case Some((v, rest)) =>
      if rest == "" then None
      else if rest[0] == ']' then Some(([v], rest[1..]))
      else if rest[0] != ',' then None
      else match ReadItems(rest[1..]) case None => None case Some((vs, end)) => Some(([v] + vs, end))
  }

  /** One member or more, comma between them, up to the brace. */
  function ReadMembers(s: string): (r: Option<(seq<Field>, string)>)
    ensures r.Some? ==> |r.value.1| < |s|
    decreases |s|, 1
  {
    if s == "" || s[0] != '\"' then None
    else
      match ReadChars(s[1..])
      case None => None
      case Some((key, colon)) =>
        if colon == "" || colon[0] != ':' then None
        else
          match ReadValue(colon[1..])
          case None => None
          case Some((v, rest)) =>
            if rest == "" then None
            else if rest[0] == '}' then Some(([Field(key, v)], rest[1..]))
            else if rest[0] != ',' then None
            else match ReadMembers(rest[1..]) case None => None case Some((fs, end)) => Some(([Field(key, v)] + fs, end))
  }

  // ----- reading what was written -----------------------------------------------------------

  lemma HexReads(n: nat)
    requires n < 16
    ensures HexValue(HexDigit(n)) == n
  {
  }

  lemma ShortUnicode(c: char, y: string)
    requires (c as int) < 32
    ensures ReadHex4("00" + [HexDigit(c as int / 16), HexDigit(c as int % 16)] + y) == Some((c, y))
  {
    HexReads(c as int / 16);
    HexReads(c as int % 16);
    var s := "00" + [HexDigit(c as int / 16), HexDigit(c as int % 16)] + y;
    assert s[0] == '0' && s[1] == '0' && HexValue('0') == 0;
    assert s[4..] == y;
  }

  lemma EscapeReads(c: char, y: string)
    ensures ReadChars(Escape(c) + y) == match ReadChars(y) case None => None case Some((t, end)) => Some(([c] + t, end))
  {
    hide ReadHex4, HexDigit, HexValue;
    var s := Escape(c) + y;
    if |Escape(c)| == 1 {
      assert s[1..] == y;
    } else if |Escape(c)| == 2 {
      assert s[1..][1..] == y;
    } else {
      ShortUnicode(c, y);
      assert s[1..][1..] == "00" + [HexDigit(c as int / 16), HexDigit(c as int % 16)] + y;
    }
  }

  lemma {:induction false} EscapedReads(t: string, y: string)
    ensures ReadChars(Escaped(t) + "\"" + y) == Some((t, y))
  {
    hide Escape;
    if t == "" {
      assert (Escaped(t) + "\"" + y)[1..] == y;
    } else {
      EscapedReads(t[1..], y);
      EscapeReads(t[0], Escaped(t[1..]) + "\"" + y);
      assert Escaped(t) + "\"" + y == Escape(t[0]) + (Escaped(t[1..]) + "\"" + y);
      assert t == [t[0]] + t[1..];
    }
  }

  lemma QuoteReads(t: string, y: string)
    ensures Quote(t) + y != "" && (Quote(t) + y)[0] == '\"' && ReadChars((Quote(t) + y)[1..]) == Some((t, y))
  {
    EscapedReads(t, y);
    assert (Quote(t) + y)[1..] == Escaped(t) + "\"" + y;
  }

  lemma {:induction false} NumeralReads(n: string, x: string)
    requires (forall c :: c in n ==> IsNumeralChar(c)) && Terminated(x)
    ensures NumeralLength(n + x) == |n|
  {
    if n == "" {
      assert n + x == x;
    } else {
      assert (n + x)[1..] == n[1..] + x;
      assert n[0] in n;
      NumeralReads(n[1..], x);
    }
  }

  /** The keys of every object, at every depth, ascend. */
  ghost predicate Ascending(v: Json) {
    match v
    case JArr(items) => forall x :: x in items ==> Ascending(x)
    case JObj(fields) =>
      && (forall i, j :: 0 <= i < j < |fields| ==> StringLeq(fields[i].key, fields[j].key) && fields[i].key != fields[j].key)
      && forall f :: f in fields ==> Ascending(f.val)
    case _ => true
  }

  /** The value read back: the same up to key order, keys ascending. */
  ghost predicate IsCanonicalOf(w: Json, v: Json) {
    EqualUpToKeyOrder(v, w) && Ascending(w)
  }

  /** The canonical text of a value is read as that value with its keys in ascending order, and to its end. */
  lemma {:induction false} ReadsItsText(v: Json, x: string) returns (w: Json)
    requires WellFormed(v) && Terminated(x)
    ensures ReadValue(CanonicalStringify(v) + x) == Some((w, x)) && IsCanonicalOf(w, v)
    decreases v
  {
    hide StableSort, Members, MembersText, ItemsText, Quote, ReadChars, ReadItems, ReadMembers;
    var s := CanonicalStringify(v) + x;
    match v {
      case JNull =>
        w := v;
        WordsAreRead(x);
      case JBool(b) =>
        w := v;
        WordsAreRead(x);
      case JNum(n) =>
        w := v;
        NumeralIsRead(n, x);
      case JStr(t) =>
        w := v;
        QuoteReads(t, x);
        StringIsRead(s);
      case JArr(items) =>
        var ws := ItemsRead(items, x);
        w := JArr(ws);
        ItemsCanonical(items, ws);
        assert s[1..] == ItemsText(items) + "]" + x;
        ArrayIsRead(items, x);
      case JObj(fields) =>
        w := ObjectReads(fields, x);
    }
  }

  lemma ItemsCanonical(items: seq<Json>, ws: seq<Json>)
    requires |ws| == |items| && forall i :: 0 <= i < |items| ==> IsCanonicalOf(ws[i], items[i])
    ensures IsCanonicalOf(JArr(ws), JArr(items)) && (items == [] ==> ws == [])
  {
    forall w | w in ws ensures Ascending(w) {
      var i :| 0 <= i < |ws| && ws[i] == w;
      assert IsCanonicalOf(ws[i], items[i]);
    }
    forall i | 0 <= i < |items| ensures EqualUpToKeyOrder(items[i], ws[i]) {
      assert IsCanonicalOf(ws[i], items[i]);
    }
  }

  lemma WordsAreRead(x: string)
    ensures ReadValue("null" + x) == Some((JNull, x))
    ensures ReadValue("true" + x) == Some((JBool(true), x)) && ReadValue("false" + x) == Some((JBool(false), x))
  {
    var n, t, f := "null" + x, "true" + x, "false" + x;
    assert n[4..] == x && t[4..] == x && f[5..] == x;
    assert "null" <= n && "true" <= t && "false" <= f;
    assert n[0] == 'n' && t[0] == 't' && f[0] == 'f';
  }

  lemma NumeralIsRead(n: string, x: string)
    requires IsNumeral(n) && Terminated(x)
    ensures ReadValue(n + x) == Some((JNum(n), x))
  {
    hide ReadChars, ReadItems, ReadMembers;
    var s := n + x;
    NumeralReads(n, x);
    assert s[0] == n[0] && n[0] in n;
    assert IsDigit(s[0]) || s[0] == '+' || s[0] == '-' || s[0] == '.' || s[0] == 'e';
    assert !("null" <= s) && !("true" <= s) && !("false" <= s) && !("[]" <= s) && !("{}" <= s);
    assert s[..|n|] == n && s[|n|..] == x;
  }

  lemma StringIsRead(s: string)
    requires s != "" && s[0] == '\"'
    ensures ReadValue(s) == match ReadChars(s[1..]) case None => None case Some((t, end)) => Some((JStr(t), end))
  {
  }

  lemma ArrayIsRead(items: seq<Json>, x: string)
    requires forall e :: e in items ==> WellFormed(e)
    ensures items == [] ==> ReadValue("[" + ItemsText(items) + "]" + x) == Some((JArr([]), x))
    ensures var s := "[" + ItemsText(items) + "]" + x;
            items != [] ==> ReadValue(s) == match ReadItems(s[1..]) case None => None case Some((vs, end)) => Some((JArr(vs), end))
  {
    hide ReadChars, ReadItems, ReadMembers;
    var s := "[" + ItemsText(items) + "]" + x;
    assert s[0] == '[';
    if items == [] {
      assert s[2..] == x;
    } else {
      ItemsStart(items, x);
      assert s[1] == (ItemsText(items) + "]" + x)[0];
    }
  }

  lemma ItemStep(s: string, w: Json, tail: string)
    requires ReadValue(s) == Some((w, tail)) && tail != ""
    ensures tail[0] == ']' ==> ReadItems(s) == Some(([w], tail[1..]))
    ensures tail[0] == ',' ==>
              ReadItems(s) == match ReadItems(tail[1..]) case None => None case Some((vs, end)) => Some(([w] + vs, end))
  {
    hide ReadValue;
  }

  lemma {:induction false} ItemsRead(items: seq<Json>, x: string) returns (ws: seq<Json>)
    requires forall e :: e in items ==> WellFormed(e)
    ensures |ws| == |items| && forall i :: 0 <= i < |items| ==> IsCanonicalOf(ws[i], items[i])
    ensures items != [] ==> ReadItems(ItemsText(items) + "]" + x) == Some((ws, x))
    decreases items
  {
    hide CanonicalStringify, WellFormed, IsCanonicalOf, ReadValue, ReadItems, ItemsText;
    if items == [] {
      ws := [];
    } else {
      var tail := ItemsTail(items, x);
      ItemsSplit(items, x);
      var w := ReadsItsText(items[0], tail);
      ItemStep(ItemsText(items) + "]" + x, w, tail);
      var rest := ItemsRead(items[1..], x);
      ws := [w] + rest;
      if |items| == 1 {
        assert tail[1..] == x;
        assert ws == [w];
      } else {
        assert tail[1..] == ItemsText(items[1..]) + "]" + x;
      }
    }
  }

  lemma ObjectIsRead(p: seq<Member>, x: string)
    ensures p == [] ==> ReadValue("{" + MembersText(p) + "}" + x) == Some((JObj([]), x))
    ensures var s := "{" + MembersText(p) + "}" + x;
            p != [] ==> ReadValue(s) == match ReadMembers(s[1..]) case None => None case Some((fs, end)) => Some((JObj(fs), end))
  {
    hide ReadChars, ReadItems, ReadMembers;
    var s := "{" + MembersText(p) + "}" + x;
    assert s[0] == '{';
    if p == [] {
      assert s[2..] == x;
    } else {
      MembersStart(p, x);
      assert s[1] == (MembersText(p) + "}" + x)[0];
    }
  }

  /** The members read back, each under its key with a value that is its field's. */
  ghost predicate ReadFrom(gs: seq<Field>, p: seq<Member>, f: seq<Field>) {
    && |gs| == |p|
    && forall i :: 0 <= i < |p| ==>
         && gs[i].key == p[i].key
         && forall e :: e in f && p[i] == MemberOf(e) ==> IsCanonicalOf(gs[i].val, e.val)
  }

  lemma MemberStep(s: string, key: string, colon: string, w: Json, tail: string)
    requires s != "" && s[0] == '\"' && ReadChars(s[1..]) == Some((key, colon)) && colon != "" && colon[0] == ':'
    requires ReadValue(colon[1..]) == Some((w, tail)) && tail != ""
    ensures tail[0] == '}' ==> ReadMembers(s) == Some(([Field(key, w)], tail[1..]))
    ensures tail[0] == ',' ==>
              ReadMembers(s) ==
              match ReadMembers(tail[1..]) case None => None case Some((fs, end)) => Some(([Field(key, w)] + fs, end))
  {
    hide ReadValue, ReadChars;
  }

  lemma {:induction false} MembersRead(p: seq<Member>, f: seq<Field>, x: string) returns (gs: seq<Field>)
    requires (forall e :: e in f ==> WellFormed(e.val)) && MembersFrom(p, f)
    ensures ReadFrom(gs, p, f)
    ensures p != [] ==> ReadMembers(MembersText(p) + "}" + x) == Some((gs, x))
    decreases f, |p| + 1
  {
    hide CanonicalStringify, WellFormed, IsCanonicalOf, ReadValue, Quote, ReadChars, MembersText, MemberOf, EqualUpToKeyOrder,
      ReadMembers, ReadFrom, MembersTail, MembersFrom;
    if p == [] {
      gs := [];
      NothingRead(f);
    } else {
      var tail := MembersTail(p, x);
      var s := MembersText(p) + "}" + x;
      MembersSplit(p, x);
      MembersTailIs(p, x);
      MembersFromRest(p, f);
      QuoteReads(p[0].key, ":" + (p[0].text + tail));
      assert (":" + (p[0].text + tail))[1..] == p[0].text + tail;
      var w := FirstMemberRead(p, f, tail);
      MemberStep(s, p[0].key, ":" + (p[0].text + tail), w, tail);
      var rest := MembersRead(p[1..], f, x);
      gs := [Field(p[0].key, w)] + rest;
      if |p| == 1 {
        ReadFromLength(rest, p[1..], f);
        assert gs == [Field(p[0].key, w)];
      }
      FirstRead(gs, p, f, w, rest);
    }
  }

  lemma MembersTailIs(p: seq<Member>, x: string)
    requires p != []
    ensures var tail := MembersTail(p, x);
            && tail != "" && (if |p| == 1 then tail[0] == '}' && tail[1..] == x
                              else tail[0] == ',' && tail[1..] == MembersText(p[1..]) + "}" + x)
  {
    hide MembersText;
  }

  lemma MembersFromRest(p: seq<Member>, f: seq<Field>)
    requires p != [] && MembersFrom(p, f)
    ensures MembersFrom(p[1..], f)
  {
    hide MemberOf;
    forall m | m in p[1..] ensures m in p {
    }
  }

  lemma NothingRead(f: seq<Field>)
    ensures ReadFrom([], [], f)
  {
  }

  lemma ReadFromLength(gs: seq<Field>, p: seq<Member>, f: seq<Field>)
    requires ReadFrom(gs, p, f)
    ensures |gs| == |p|
  {
  }

  lemma FirstRead(gs: seq<Field>, p: seq<Member>, f: seq<Field>, w: Json, rest: seq<Field>)
    requires p != [] && gs == [Field(p[0].key, w)] + rest && ReadFrom(rest, p[1..], f)
    requires forall e :: e in f && p[0] == MemberOf(e) ==> IsCanonicalOf(w, e.val)
    ensures ReadFrom(gs, p, f)
  {
    hide IsCanonicalOf, MemberOf;
    forall i | 0 <= i < |p|
      ensures gs[i].key == p[i].key && forall e :: e in f && p[i] == MemberOf(e) ==> IsCanonicalOf(gs[i].val, e.val)
    {
      if i > 0 {
        assert gs[i] == rest[i - 1] && p[i] == p[1..][i - 1];
      }
    }
  }

  lemma FirstMemberRead(p: seq<Member>, f: seq<Field>, tail: string) returns (w: Json)
    requires (forall e :: e in f ==> WellFormed(e.val)) && p != [] && MembersFrom(p, f) && Terminated(tail)
    ensures ReadValue(p[0].text + tail) == Some((w, tail))
    ensures forall e :: e in f && p[0] == MemberOf(e) ==> IsCanonicalOf(w, e.val)
    decreases f, 0
  {
    hide CanonicalStringify, WellFormed, IsCanonicalOf, ReadValue, MemberOf, Terminated;
    assert p[0] in p;
    var d :| d in f && p[0] == MemberOf(d);
    MemberText(d);
    w := ReadsItsText(d.val, tail);
    forall e | e in f && p[0] == MemberOf(e) ensures IsCanonicalOf(w, e.val) {
      MemberText(e);
      var w' := ReadsItsText(e.val, tail);
    }
  }

  lemma {:induction false} ObjectReads(f: seq<Field>, x: string) returns (w: Json)
    requires Distinct(Keys(f)) && (forall e :: e in f ==> WellFormed(e.val)) && Terminated(x)
    ensures ReadValue(CanonicalStringify(JObj(f)) + x) == Some((w, x)) && IsCanonicalOf(w, JObj(f))
    decreases f, |f| + 2
  {
    hide StableSort, Members, MemberOf, MembersText, WellFormed, ReadMembers, ReadValue, Ascending, EqualUpToKeyOrder, StringLeq;
    var p := StableSort(Members(f), ByKey);
    SortedMembers(f);
    SortPermutes(Members(f), ByKey);
    MembersAt(f);
    var gs := MembersRead(p, f, x);
    w := JObj(gs);
    ObjectIsRead(p, x);
    assert ("{" + MembersText(p) + "}" + x)[1..] == MembersText(p) + "}" + x;
    KeysRead(f, p, gs);
    ValuesRead(f, p, gs);
    ByKeyOrder();
    SortSorts(Members(f), ByKey);
    KeysAscend(f, p, gs);
  }

  lemma KeysRead(f: seq<Field>, p: seq<Member>, gs: seq<Field>)
    requires ReadFrom(gs, p, f) && SetOf(Mapped(p, MemberKey)) == SetOf(Keys(f))
    ensures SetOf(Keys(gs)) == SetOf(Keys(f))
  {
    hide IsCanonicalOf, MemberOf;
    assert Keys(gs) == Mapped(p, MemberKey);
  }

  lemma ValuesRead(f: seq<Field>, p: seq<Member>, gs: seq<Field>)
    requires ReadFrom(gs, p, f) && Distinct(Mapped(p, MemberKey)) && forall e :: e in f ==> MemberOf(e) in p
    requires SetOf(Keys(gs)) == SetOf(Keys(f))
    ensures EqualUpToKeyOrder(JObj(f), JObj(gs))
  {
    hide MemberOf, Ascending, EqualUpToKeyOrder;
    forall i, j | 0 <= i < |f| && 0 <= j < |gs| && f[i].key == gs[j].key ensures EqualUpToKeyOrder(f[i].val, gs[j].val) {
      assert f[i] in f;
      MemberText(f[i]);
      var m :| 0 <= m < |p| && p[m] == MemberOf(f[i]);
      assert Mapped(p, MemberKey)[m] == Mapped(p, MemberKey)[j];
      assert IsCanonicalOf(gs[j].val, f[i].val);
    }
    ObjectsEqual(f, gs);
  }

  lemma ObjectsEqual(f: seq<Field>, gs: seq<Field>)
    requires SetOf(Keys(gs)) == SetOf(Keys(f))
    requires forall i, j :: 0 <= i < |f| && 0 <= j < |gs| && f[i].key == gs[j].key ==> EqualUpToKeyOrder(f[i].val, gs[j].val)
    ensures EqualUpToKeyOrder(JObj(f), JObj(gs))
  {
  }

  lemma KeysAscend(f: seq<Field>, p: seq<Member>, gs: seq<Field>)
    requires ReadFrom(gs, p, f) && Distinct(Mapped(p, MemberKey)) && Sorted(p, ByKey) && MembersFrom(p, f)
    ensures Ascending(JObj(gs))
  {
    hide MemberOf, EqualUpToKeyOrder, StringLeq;
    forall i, j | 0 <= i < j < |gs| ensures StringLeq(gs[i].key, gs[j].key) && gs[i].key != gs[j].key {
      assert ByKey(p[i], p[j]);
      assert Mapped(p, MemberKey)[i] != Mapped(p, MemberKey)[j];
    }
    forall g | g in gs ensures Ascending(g.val) {
      var i :| 0 <= i < |gs| && gs[i] == g;
      assert p[i] in p;
      var e :| e in f && p[i] == MemberOf(e);
      assert IsCanonicalOf(gs[i].val, e.val);
    }
  }
}
