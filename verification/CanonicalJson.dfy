/**
 * The deterministic JSON serialization behind the compiler input hash: object keys sorted at
 * every depth. Two values serialize alike exactly when they are equal up to key order.
 */
module CanonicalJson {
  import opened Counting
  import opened Seqs
  import opened Sorting
  import opened Strings

  /** A number is its own shortest numeral, the text it always serializes to. */
  datatype Json =
    | JNull
    | JBool(b: bool)
    | JNum(numeral: string)
    | JStr(s: string)
    | JArr(items: seq<Json>)
    | JObj(fields: seq<Field>)

  /** An object's properties in insertion order. */
  datatype Field = Field(key: string, val: Json)

  predicate IsNumeral(s: string) {
    s != "" && forall c :: c in s ==> IsDigit(c) || c in "+-.e"
  }

  function FieldKey(f: Field): string { f.key }

  function Keys(fields: seq<Field>): seq<string> {
    Mapped(fields, FieldKey)
  }

  /** Numerals are numerals, and no object has one key twice. */
  ghost predicate WellFormed(v: Json) {
    match v
    case JNum(n) => IsNumeral(n)
    case JArr(items) => forall x :: x in items ==> WellFormed(x)
    case JObj(fields) => Distinct(Keys(fields)) && forall f :: f in fields ==> WellFormed(f.val)
    case _ => true
  }

  /** Equal up to the order of object keys, at every depth. */
  ghost predicate EqualUpToKeyOrder(v: Json, w: Json)
    decreases v
  {
    match (v, w)
    case (JArr(a), JArr(b)) => |a| == |b| && forall i :: 0 <= i < |a| ==> EqualUpToKeyOrder(a[i], b[i])
    case (JObj(f), JObj(g)) =>
      && SetOf(Keys(f)) == SetOf(Keys(g))
      && forall i, j :: 0 <= i < |f| && 0 <= j < |g| && f[i].key == g[j].key ==> EqualUpToKeyOrder(f[i].val, g[j].val)
    case _ => v == w
  }

  // ----- the serialization ------------------------------------------------------------------

  function HexDigit(n: nat): char
    requires n < 16
  {
    if n < 10 then ('0' as int + n) as char else ('a' as int + (n - 10)) as char
  }

  function Escape(c: char): string {
    if c == '\"' then "\\\""
    else if c == '\\' then "\\\\"
    else if c as int == 8 then "\\b"
    else if c as int == 9 then "\\t"
    else if c as int == 10 then "\\n"
    else if c as int == 12 then "\\f"
    else if c as int == 13 then "\\r"
    else if c as int < 32 then "\\u00" + [HexDigit(c as int / 16), HexDigit(c as int % 16)]
    else [c]
  }

  function Escaped(s: string): string {
    if s == "" then "" else Escape(s[0]) + Escaped(s[1..])
  }

  function Quote(s: string): string {
    "\"" + Escaped(s) + "\""
  }

  /** A property with its value already serialized. */
  datatype Member = Member(key: string, text: string)

  predicate ByKey(a: Member, b: Member) {
    StringLeq(a.key, b.key)
  }

  function CanonicalStringify(v: Json): string
    decreases v
  {
    match v
    case JNull => "null"
    case JBool(b) => if b then "true" else "false"
    case JNum(n) => n
    case JStr(s) => Quote(s)
    case JArr(items) => "[" + ItemsText(items) + "]"
    case JObj(fields) => "{" + MembersText(StableSort(Members(fields), ByKey)) + "}"
  }

  function ItemsText(items: seq<Json>): string
    decreases items
  {
    if items == [] then ""
    else CanonicalStringify(items[0]) + if |items| == 1 then "" else "," + ItemsText(items[1..])
  }

  function Members(fields: seq<Field>): seq<Member>
    decreases fields
  {
    if fields == [] then []
    else [Member(fields[0].key, CanonicalStringify(fields[0].val))] + Members(fields[1..])
  }

  function MembersText(members: seq<Member>): string {
    if members == [] then ""
    else
      Quote(members[0].key) + ":" + members[0].text + if |members| == 1 then "" else "," + MembersText(members[1..])
  }

  function MemberOf(f: Field): Member {
    Member(f.key, CanonicalStringify(f.val))
  }

  lemma {:induction false} MembersAt(f: seq<Field>)
    ensures |Members(f)| == |f| && forall i :: 0 <= i < |f| ==> Members(f)[i] == MemberOf(f[i])
  {
    hide CanonicalStringify;
    if f != [] {
      MembersAt(f[1..]);
    }
  }

  // ----- unique decodability ----------------------------------------------------------------

  /** No escape is a prefix of another. */
  lemma EscapeDecodes(c: char, d: char, x: string, y: string)
    requires Escape(c) + x == Escape(d) + y
    ensures c == d && x == y
  {
    var s, t := Escape(c) + x, Escape(d) + y;
    assert s[0] == t[0];
    if |Escape(c)| > 1 && |Escape(d)| > 1 {
      assert s[1] == t[1];
      if |Escape(c)| > 2 && |Escape(d)| > 2 {
        assert s[4] == t[4] && s[5] == t[5];
        assert c as int / 16 == d as int / 16 && c as int % 16 == d as int % 16;
      }
    }
    assert s[|Escape(c)|..] == x && t[|Escape(d)|..] == y;
  }

  lemma {:induction false} EscapedDecodes(s: string, t: string, x: string, y: string)
    requires Escaped(s) + "\"" + x == Escaped(t) + "\"" + y
    ensures s == t && x == y
  {
    hide Escape;
    if s == "" || t == "" {
      if s != "" { EscapeStart(s[0]); }
      if t != "" { EscapeStart(t[0]); }
      assert (Escaped(s) + "\"" + x)[0] == (Escaped(t) + "\"" + y)[0];
      assert ("" + "\"" + x)[1..] == x && ("" + "\"" + y)[1..] == y;
    } else {
      var s', t' := Escaped(s[1..]) + "\"" + x, Escaped(t[1..]) + "\"" + y;
      assert Escaped(s) + "\"" + x == Escape(s[0]) + s';
      assert Escaped(t) + "\"" + y == Escape(t[0]) + t';
      EscapeDecodes(s[0], t[0], s', t');
      EscapedDecodes(s[1..], t[1..], x, y);
      assert s == [s[0]] + s[1..] && t == [t[0]] + t[1..];
    }
  }

  lemma EscapeStart(c: char)
    ensures Escape(c) != "" && Escape(c)[0] != '\"'
  {
  }

  lemma QuoteDecodes(s: string, t: string, x: string, y: string)
    requires Quote(s) + x == Quote(t) + y
    ensures s == t && x == y
  {
    hide Quote, Escaped;
    QuoteTail(s, x);
    QuoteTail(t, y);
    EscapedDecodes(s, t, x, y);
  }

  lemma QuoteTail(s: string, x: string)
    ensures Quote(s) + x != "" && (Quote(s) + x)[1..] == Escaped(s) + "\"" + x
  {
    hide Escaped;
  }

  /** What may follow a value: nothing, or what ends it. */
  predicate Terminated(x: string) {
    x == "" || x[0] in ",]}"
  }

  lemma NumeralNotShorter(m: string, n: string, x: string, y: string)
    requires IsNumeral(n) && Terminated(x) && m + x == n + y
    ensures |n| <= |m|
  {
    forall i: nat | i < |n| ensures n[i] !in ",]}" {
      assert n[i] in n;
    }
    if x != "" {
      assert (m + x)[|m|] == x[0];
    }
  }

  lemma NumeralDecodes(m: string, n: string, x: string, y: string)
    requires IsNumeral(m) && IsNumeral(n) && Terminated(x) && Terminated(y) && m + x == n + y
    ensures m == n && x == y
  {
    hide IsNumeral, Terminated;
    NumeralNotShorter(m, n, x, y);
    NumeralNotShorter(n, m, y, x);
    assert m == (m + x)[..|m|] && n == (n + y)[..|n|];
    assert x == (m + x)[|m|..] && y == (n + y)[|n|..];
  }

  /** The kind of a value shows in its first character. */
  function Kind(c: char): nat {
    if c == 'n' then 0 else if c == 't' then 1 else if c == 'f' then 2 else if c == '\"' then 3
    else if c == '[' then 4 else if c == '{' then 5 else if IsDigit(c) || c in "+-.e" then 6 else 7
  }

  function KindOf(v: Json): nat {
    match v
    case JNull => 0 case JBool(b) => if b then 1 else 2 case JStr(_) => 3
    case JArr(_) => 4 case JObj(_) => 5 case JNum(_) => 6
  }

  lemma FirstCharacter(v: Json)
    requires WellFormed(v)
    ensures CanonicalStringify(v) != "" && Kind(CanonicalStringify(v)[0]) == KindOf(v)
  {
    hide ItemsText, MembersText, Escaped, StableSort;
    if v.JNum? {
      assert v.numeral[0] in v.numeral;
    }
  }

  /** Reading a value off the front of a text is unambiguous, up to key order. */
  lemma {:induction false} TextDecodes(v: Json, w: Json, x: string, y: string)
    requires WellFormed(v) && WellFormed(w) && Terminated(x) && Terminated(y)
    requires CanonicalStringify(v) + x == CanonicalStringify(w) + y
    ensures EqualUpToKeyOrder(v, w) && x == y
    decreases v
  {
    hide Escaped, StableSort, ItemsText, Members, MembersText, IsNumeral;
    var s, t := CanonicalStringify(v), CanonicalStringify(w);
    FirstCharacter(v);
    FirstCharacter(w);
    assert (s + x)[0] == s[0] && (t + y)[0] == t[0];
    match v {
      case JNull =>
        assert x == (s + x)[4..] && y == (t + y)[4..];
      case JBool(b) =>
        assert x == (s + x)[|s|..] && y == (t + y)[|t|..];
      case JNum(n) =>
        NumeralDecodes(n, w.numeral, x, y);
      case JStr(a) =>
        QuoteDecodes(a, w.s, x, y);
      case JArr(a) =>
        Bracketed("[", ItemsText(a), "]", x);
        Bracketed("[", ItemsText(w.items), "]", y);
        ItemsDecode(a, w.items, x, y);
      case JObj(f) =>
        Bracketed("{", MembersText(StableSort(Members(f), ByKey)), "}", x);
        Bracketed("{", MembersText(StableSort(Members(w.fields), ByKey)), "}", y);
        ObjectsDecode(f, w.fields, x, y);
    }
  }

  lemma Bracketed(open: string, body: string, close: string, rest: string)
    requires |open| == 1
    ensures (open + body + close + rest)[1..] == body + close + rest
  {
  }

  lemma {:induction false} ItemsDecode(a: seq<Json>, b: seq<Json>, x: string, y: string)
    requires (forall e :: e in a ==> WellFormed(e)) && (forall e :: e in b ==> WellFormed(e))
    requires ItemsText(a) + "]" + x == ItemsText(b) + "]" + y
    ensures |a| == |b| && (forall i :: 0 <= i < |a| ==> EqualUpToKeyOrder(a[i], b[i])) && x == y
    decreases a
  {
    hide CanonicalStringify, EqualUpToKeyOrder, WellFormed;
    if a == [] || b == [] {
      ItemsStart(a, x);
      ItemsStart(b, y);
      assert ("" + "]" + x)[1..] == x && ("" + "]" + y)[1..] == y;
    } else {
      var s', t' := ItemsTail(a, x), ItemsTail(b, y);
      ItemsSplit(a, x);
      ItemsSplit(b, y);
      TextDecodes(a[0], b[0], s', t');
      assert s'[0] == t'[0] && s'[1..] == t'[1..];
      if |a| > 1 {
        assert s'[1..] == ItemsText(a[1..]) + "]" + x && t'[1..] == ItemsText(b[1..]) + "]" + y;
        ItemsDecode(a[1..], b[1..], x, y);
        assert a == [a[0]] + a[1..] && b == [b[0]] + b[1..];
      }
    }
  }

  /** What follows the first item. */
  function ItemsTail(a: seq<Json>, x: string): string
    requires a != []
  {
    if |a| == 1 then "]" + x else "," + ItemsText(a[1..]) + "]" + x
  }

  lemma ItemsSplit(a: seq<Json>, x: string)
    requires a != []
    ensures ItemsText(a) + "]" + x == CanonicalStringify(a[0]) + ItemsTail(a, x) && Terminated(ItemsTail(a, x))
  {
    hide CanonicalStringify;
  }

  lemma ItemsStart(a: seq<Json>, x: string)
    requires forall e :: e in a ==> WellFormed(e)
    ensures (ItemsText(a) + "]" + x)[0] == ']' <==> a == []
  {
    hide CanonicalStringify, WellFormed;
    if a != [] {
      FirstCharacter(a[0]);
    }
  }

  /** Every member of a list is the serialization of one of these fields. */
  ghost predicate MembersFrom(p: seq<Member>, f: seq<Field>) {
    forall m :: m in p ==> exists e :: e in f && m == MemberOf(e)
  }

  lemma {:induction false} MembersDecode(p: seq<Member>, q: seq<Member>, f: seq<Field>, g: seq<Field>, x: string, y: string)
    requires (forall e :: e in f ==> WellFormed(e.val)) && (forall e :: e in g ==> WellFormed(e.val))
    requires MembersFrom(p, f) && MembersFrom(q, g)
    requires MembersText(p) + "}" + x == MembersText(q) + "}" + y
    ensures |p| == |q| && x == y
    ensures forall i :: 0 <= i < |p| ==> p[i].key == q[i].key
    ensures forall i, d, e :: 0 <= i < |p| && d in f && e in g && p[i] == MemberOf(d) && q[i] == MemberOf(e) ==>
              EqualUpToKeyOrder(d.val, e.val)
    decreases f, |p| + 1
  {
    hide CanonicalStringify, EqualUpToKeyOrder, WellFormed, Quote, Members, StableSort, MemberOf, MembersText, Terminated;
    if p == [] || q == [] {
      MembersStart(p, x);
      MembersStart(q, y);
      NoMembers(p, x);
      NoMembers(q, y);
    } else {
      var s', t' := MembersTail(p, x), MembersTail(q, y);
      var sv, tv := p[0].text + s', q[0].text + t';
      MembersSplit(p, x);
      MembersSplit(q, y);
      QuoteDecodes(p[0].key, q[0].key, ":" + sv, ":" + tv);
      assert (":" + sv)[1..] == sv && (":" + tv)[1..] == tv;
      FirstMemberDecodes(p, q, f, g, s', t');
      MembersTailDecodes(p, q, x, y);
      if |p| > 1 {
        MembersDecode(p[1..], q[1..], f, g, x, y);
        assert p == [p[0]] + p[1..] && q == [q[0]] + q[1..];
      }
    }
  }

  lemma FirstMemberDecodes(p: seq<Member>, q: seq<Member>, f: seq<Field>, g: seq<Field>, s': string, t': string)
    requires (forall e :: e in f ==> WellFormed(e.val)) && (forall e :: e in g ==> WellFormed(e.val))
    requires p != [] && q != [] && MembersFrom(p, f) && MembersFrom(q, g)
    requires Terminated(s') && Terminated(t') && p[0].text + s' == q[0].text + t'
    ensures forall d, e :: d in f && e in g && p[0] == MemberOf(d) && q[0] == MemberOf(e) ==>
              EqualUpToKeyOrder(d.val, e.val)
    ensures s' == t'
    ensures MembersFrom(p[1..], f) && MembersFrom(q[1..], g)
    decreases f, 0
  {
    hide CanonicalStringify, EqualUpToKeyOrder, WellFormed, MemberOf, Terminated;
    forall d, e | d in f && e in g && p[0] == MemberOf(d) && q[0] == MemberOf(e)
      ensures EqualUpToKeyOrder(d.val, e.val) && s' == t'
    {
      MemberText(d);
      MemberText(e);
      TextDecodes(d.val, e.val, s', t');
    }
    assert p[0] in p && q[0] in q;
    forall m | m in p[1..] ensures m in p {}
    forall m | m in q[1..] ensures m in q {}
  }

  lemma NoMembers(p: seq<Member>, x: string)
    ensures p == [] ==> (MembersText(p) + "}" + x)[1..] == x
  {
  }

  lemma MembersTailDecodes(p: seq<Member>, q: seq<Member>, x: string, y: string)
    requires p != [] && q != [] && MembersTail(p, x) == MembersTail(q, y)
    ensures |p| == 1 <==> |q| == 1
    ensures |p| == 1 ==> x == y
    ensures |p| > 1 ==> MembersText(p[1..]) + "}" + x == MembersText(q[1..]) + "}" + y
  {
    hide MembersText;
    var s', t' := MembersTail(p, x), MembersTail(q, y);
    assert s'[0] == t'[0];
    assert s'[1..] == (if |p| == 1 then x else MembersText(p[1..]) + "}" + x);
    assert t'[1..] == (if |q| == 1 then y else MembersText(q[1..]) + "}" + y);
  }

  lemma MemberText(f: Field)
    ensures MemberOf(f).text == CanonicalStringify(f.val) && MemberOf(f).key == f.key
  {
  }

  function MembersTail(p: seq<Member>, x: string): string
    requires p != []
  {
    if |p| == 1 then "}" + x else "," + MembersText(p[1..]) + "}" + x
  }

  lemma MembersSplit(p: seq<Member>, x: string)
    requires p != []
    ensures MembersText(p) + "}" + x == Quote(p[0].key) + (":" + (p[0].text + MembersTail(p, x)))
    ensures Terminated(MembersTail(p, x))
  {
    hide Quote;
    var rest := if |p| == 1 then "" else "," + MembersText(p[1..]);
    assert rest + "}" + x == MembersTail(p, x);
    Regroup(Quote(p[0].key), p[0].text, rest, x);
  }

  lemma Regroup(key: string, text: string, rest: string, x: string)
    ensures key + ":" + text + rest + "}" + x == key + (":" + (text + (rest + "}" + x)))
  {
  }

  lemma MembersStart(p: seq<Member>, x: string)
    ensures (MembersText(p) + "}" + x)[0] == '}' <==> p == []
  {
    hide Escaped;
    if p != [] {
      MembersSplit(p, x);
      assert Quote(p[0].key)[0] == '\"';
    }
  }

  // ----- sorted objects ---------------------------------------------------------------------

  function MemberKey(m: Member): string { m.key }

  lemma ByKeyOrder()
    ensures TotalPreorder(ByKey)
  {
    hide StringLeq;
    StringOrder();
  }

  /** Sorting permutes an object's members, so they are still its members, keys still distinct. */
  lemma SortedMembers(f: seq<Field>)
    requires Distinct(Keys(f))
    ensures var p := StableSort(Members(f), ByKey);
            && MembersFrom(p, f) && (forall e :: e in f ==> MemberOf(e) in p)
            && Distinct(Mapped(p, MemberKey)) && SetOf(Mapped(p, MemberKey)) == SetOf(Keys(f))
  {
    hide StableSort, StringLeq, Members, MemberOf;
    var ms := Members(f);
    var p := StableSort(ms, ByKey);
    MembersAt(f);
    SortMembers(ms, ByKey);
    SortPermutes(ms, ByKey);
    forall e | e in f ensures MemberOf(e) in ms {
      var i :| 0 <= i < |f| && f[i] == e;
      assert ms[i] == MemberOf(e);
    }
    forall i | 0 <= i < |f| ensures Mapped(ms, MemberKey)[i] == Keys(f)[i] {
      MemberText(f[i]);
    }
    assert Mapped(ms, MemberKey) == Keys(f);
    KeySet(ms);
    KeySet(p);
    assert (set m | m in p :: m.key) == (set m | m in ms :: m.key);
    assert SetOf(Mapped(p, MemberKey)) == SetOf(Mapped(ms, MemberKey));
    DistinctByCount(Mapped(ms, MemberKey));
    DistinctByCount(Mapped(p, MemberKey));
  }

  lemma KeySet(p: seq<Member>)
    ensures SetOf(Mapped(p, MemberKey)) == set m | m in p :: m.key
  {
    forall k | k in SetOf(Mapped(p, MemberKey)) ensures exists m :: m in p && m.key == k {
      var i :| 0 <= i < |p| && Mapped(p, MemberKey)[i] == k;
      assert p[i] in p;
    }
    forall m | m in p ensures m.key in SetOf(Mapped(p, MemberKey)) {
      var i :| 0 <= i < |p| && p[i] == m;
      assert Mapped(p, MemberKey)[i] == m.key;
    }
  }

  lemma {:induction false} ObjectsDecode(f: seq<Field>, g: seq<Field>, x: string, y: string)
    requires Distinct(Keys(f)) && Distinct(Keys(g))
    requires (forall e :: e in f ==> WellFormed(e.val)) && (forall e :: e in g ==> WellFormed(e.val))
    requires MembersText(StableSort(Members(f), ByKey)) + "}" + x == MembersText(StableSort(Members(g), ByKey)) + "}" + y
    ensures EqualUpToKeyOrder(JObj(f), JObj(g)) && x == y
    decreases f, |f| + 2
  {
    hide StableSort, Members, MemberOf, MembersText, WellFormed;
    var p, q := StableSort(Members(f), ByKey), StableSort(Members(g), ByKey);
    SortedMembers(f);
    SortedMembers(g);
    SortPermutes(Members(f), ByKey);
    MembersAt(f);
    MembersDecode(p, q, f, g, x, y);
    assert Mapped(p, MemberKey) == Mapped(q, MemberKey);
    forall i, j | 0 <= i < |f| && 0 <= j < |g| && f[i].key == g[j].key ensures EqualUpToKeyOrder(f[i].val, g[j].val) {
      assert f[i] in f && g[j] in g;
      MemberText(f[i]);
      MemberText(g[j]);
      var m :| 0 <= m < |p| && p[m] == MemberOf(f[i]);
      var n :| 0 <= n < |q| && q[n] == MemberOf(g[j]);
      assert Mapped(q, MemberKey)[m] == Mapped(q, MemberKey)[n];
    }
  }

  // ----- equal values serialize alike -------------------------------------------------------

  lemma {:induction false} EqualTexts(v: Json, w: Json)
    requires WellFormed(v) && WellFormed(w) && EqualUpToKeyOrder(v, w)
    ensures CanonicalStringify(v) == CanonicalStringify(w)
    decreases v
  {
    hide StableSort, ItemsText, Members, MembersText;
    match v {
      case JArr(a) =>
        EqualItems(a, w.items);
      case JObj(f) =>
        EqualMembers(f, w.fields);
      case _ =>
    }
  }

  lemma {:induction false} EqualItems(a: seq<Json>, b: seq<Json>)
    requires (forall e :: e in a ==> WellFormed(e)) && (forall e :: e in b ==> WellFormed(e))
    requires |a| == |b| && forall i :: 0 <= i < |a| ==> EqualUpToKeyOrder(a[i], b[i])
    ensures ItemsText(a) == ItemsText(b)
    decreases a
  {
    hide CanonicalStringify, EqualUpToKeyOrder, WellFormed;
    if a != [] {
      EqualTexts(a[0], b[0]);
      EqualItems(a[1..], b[1..]);
    }
  }

  lemma {:induction false} EqualMembers(f: seq<Field>, g: seq<Field>)
    requires Distinct(Keys(f)) && Distinct(Keys(g)) && SetOf(Keys(f)) == SetOf(Keys(g))
    requires (forall e :: e in f ==> WellFormed(e.val)) && (forall e :: e in g ==> WellFormed(e.val))
    requires forall i, j :: 0 <= i < |f| && 0 <= j < |g| && f[i].key == g[j].key ==> EqualUpToKeyOrder(f[i].val, g[j].val)
    ensures StableSort(Members(f), ByKey) == StableSort(Members(g), ByKey)
    decreases f
  {
    hide StableSort, Members, MemberOf, CanonicalStringify, EqualUpToKeyOrder, WellFormed, StringLeq;
    MembersAt(f);
    MembersAt(g);
    forall d, e | d in f && e in g && d.key == e.key ensures MemberOf(d) == MemberOf(e) {
      var i :| 0 <= i < |f| && f[i] == d;
      var j :| 0 <= j < |g| && g[j] == e;
      assert EqualUpToKeyOrder(f[i].val, g[j].val);
      EqualTexts(d.val, e.val);
      MemberText(d);
      MemberText(e);
    }
    MembersIncluded(f, g);
    MembersIncluded(g, f);
    MembersDistinct(f);
    MembersDistinct(g);
    assert SetOf(Members(f)) == SetOf(Members(g));
    DistinctSameSet(Members(f), Members(g));
    ByKeyOrder();
    SortDetermined(Members(f), Members(g), ByKey);
  }

  lemma MembersIncluded(f: seq<Field>, g: seq<Field>)
    requires SetOf(Keys(f)) <= SetOf(Keys(g))
    requires forall d, e :: d in f && e in g && d.key == e.key ==> MemberOf(d) == MemberOf(e)
    ensures forall m :: m in Members(f) ==> m in Members(g)
  {
    hide Members, MemberOf;
    MembersAt(f);
    MembersAt(g);
    forall m | m in Members(f) ensures m in Members(g) {
      var i :| 0 <= i < |f| && Members(f)[i] == m;
      assert Keys(f)[i] in SetOf(Keys(g));
      var j :| 0 <= j < |g| && Keys(g)[j] == f[i].key;
      assert Members(g)[j] == m;
    }
  }

  /** An object's members are told apart by their keys. */
  lemma MembersDistinct(f: seq<Field>)
    requires Distinct(Keys(f))
    ensures Distinct(Members(f)) && Discriminates(Members(f), ByKey)
  {
    hide Members, MemberOf, StringLeq;
    MembersAt(f);
    StringOrder();
    forall i | 0 <= i < |f| ensures Members(f)[i].key == Keys(f)[i] {
      MemberText(f[i]);
    }
  }

  /** The serialization is a canonical form: same text exactly when equal up to key order. */
  lemma CanonicalForm(v: Json, w: Json)
    requires WellFormed(v) && WellFormed(w)
    ensures CanonicalStringify(v) == CanonicalStringify(w) <==> EqualUpToKeyOrder(v, w)
  {
    hide CanonicalStringify, EqualUpToKeyOrder;
    if CanonicalStringify(v) == CanonicalStringify(w) {
      TextDecodes(v, w, "", "");
    }
    if EqualUpToKeyOrder(v, w) {
      EqualTexts(v, w);
    }
  }
}
