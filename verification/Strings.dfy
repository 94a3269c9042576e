/** The string operations the source relies on, and the facts that make them invertible. */
module Strings {
  import opened Sorting

  // ----- order ------------------------------------------------------------------------------

  /** Lexicographic order, the order of a plain sort(). */
  predicate StringLeq(a: string, b: string) {
    a == "" || (b != "" && (a[0] < b[0] || (a[0] == b[0] && StringLeq(a[1..], b[1..]))))
  }

  lemma {:induction false} StringLeqTotal(a: string, b: string)
    ensures StringLeq(a, b) || StringLeq(b, a)
  {
    if a != "" && b != "" && a[0] == b[0] {
      StringLeqTotal(a[1..], b[1..]);
    }
  }

  lemma {:induction false} StringLeqTransitive(a: string, b: string, c: string)
    requires StringLeq(a, b) && StringLeq(b, c)
    ensures StringLeq(a, c)
  {
    if a != "" && a[0] == b[0] == c[0] {
      StringLeqTransitive(a[1..], b[1..], c[1..]);
    }
  }

  lemma {:induction false} StringLeqAntisymmetric(a: string, b: string)
    requires StringLeq(a, b) && StringLeq(b, a)
    ensures a == b
  {
    if a != "" {
      StringLeqAntisymmetric(a[1..], b[1..]);
      assert a == [a[0]] + a[1..] && b == [b[0]] + b[1..];
    }
  }

  lemma StringOrder()
    ensures TotalPreorder(StringLeq)
    ensures forall a, b :: StringLeq(a, b) && StringLeq(b, a) ==> a == b
  {
    forall a, b ensures StringLeq(a, b) || StringLeq(b, a) { StringLeqTotal(a, b); }
    forall a, b, c | StringLeq(a, b) && StringLeq(b, c) ensures StringLeq(a, c) { StringLeqTransitive(a, b, c); }
    forall a, b | StringLeq(a, b) && StringLeq(b, a) ensures a == b { StringLeqAntisymmetric(a, b); }
  }

  /** Sorting strings gives one list per multiset of strings. */
  lemma SortedStringsDetermined(s: seq<string>, t: seq<string>)
    requires multiset(s) == multiset(t)
    ensures StableSort(s, StringLeq) == StableSort(t, StringLeq)
  {
    StringOrder();
    SortDetermined(s, t, StringLeq);
  }

  // ----- search -----------------------------------------------------------------------------

  ghost predicate OccursAt(s: string, sub: string, i: nat) {
    i + |sub| <= |s| && s[i..i + |sub|] == sub
  }

  /** s.includes(sub). */
  predicate Includes(s: string, sub: string)
    ensures Includes(s, sub) <==> exists i: nat :: OccursAt(s, sub, i)
  {
    if sub <= s then assert OccursAt(s, sub, 0); true
    else if s == "" then false
    else
      assert forall i: nat :: OccursAt(s[1..], sub, i) <==> OccursAt(s, sub, i + 1);
      assert forall i: nat :: OccursAt(s, sub, i) ==> i > 0 && OccursAt(s[1..], sub, i - 1);
      Includes(s[1..], sub)
  }

  // ----- split and join ---------------------------------------------------------------------

  function Join(parts: seq<string>, sep: char): string {
    if |parts| == 0 then "" else if |parts| == 1 then parts[0] else parts[0] + [sep] + Join(parts[1..], sep)
  }

  /** s.split(sep): the pieces between separators; always at least one. */
  function Split(s: string, sep: char): (parts: seq<string>)
    ensures |parts| >= 1
  {
    if s == "" then [""]
    else if s[0] == sep then [""] + Split(s[1..], sep)
    else
      var rest := Split(s[1..], sep);
      [[s[0]] + rest[0]] + rest[1..]
  }

  lemma {:induction false} SplitNoSeparator(s: string, sep: char)
    requires sep !in s
    ensures Split(s, sep) == [s]
  {
    if s != "" {
      SplitNoSeparator(s[1..], sep);
      assert s == [s[0]] + s[1..];
    }
  }

  lemma {:induction false} SplitAtFirst(a: string, sep: char, b: string)
    requires sep !in a
    ensures Split(a + [sep] + b, sep) == [a] + Split(b, sep)
  {
    var s := a + [sep] + b;
    if a == "" {
      assert s[1..] == b;
    } else {
      SplitAtFirst(a[1..], sep, b);
      assert s[1..] == a[1..] + [sep] + b;
      assert a == [a[0]] + a[1..];
    }
  }

  lemma {:induction false} SplitJoin(parts: seq<string>, sep: char)
    requires parts != [] && forall p :: p in parts ==> sep !in p
    ensures Split(Join(parts, sep), sep) == parts
  {
    if |parts| == 1 {
      SplitNoSeparator(parts[0], sep);
    } else {
      SplitJoin(parts[1..], sep);
      SplitAtFirst(parts[0], sep, Join(parts[1..], sep));
      assert parts == [parts[0]] + parts[1..];
    }
  }

  lemma {:induction false} JoinSplit(s: string, sep: char)
    ensures Join(Split(s, sep), sep) == s
    ensures forall p :: p in Split(s, sep) ==> sep !in p
  {
    if s != "" {
      var rest := Split(s[1..], sep);
      JoinSplit(s[1..], sep);
      assert s == [s[0]] + s[1..];
      if s[0] == sep {
        assert ([""] + rest)[1..] == rest;
      } else {
        var parts := [[s[0]] + rest[0]] + rest[1..];
        assert parts[1..] == rest[1..];
        assert Join(parts, sep) == [s[0]] + Join(rest, sep);
        forall p | p in parts ensures sep !in p {
          assert rest[0] in rest && (p in rest || p == [s[0]] + rest[0]);
        }
      }
    }
  }

  /** s.lastIndexOf(c), or -1. */
  function LastIndexOf(s: string, c: char): (i: int)
    ensures -1 <= i < |s|
    ensures i >= 0 ==> s[i] == c && c !in s[i + 1..]
    ensures i < 0 ==> c !in s
  {
    if s == "" then -1
    else if s[|s| - 1] == c then |s| - 1
    else
      var i := LastIndexOf(s[..|s| - 1], c);
      assert s == s[..|s| - 1] + [s[|s| - 1]];
      assert i >= 0 ==> s[i + 1..] == s[..|s| - 1][i + 1..] + [s[|s| - 1]];
      i
  }

  lemma {:induction false} LastIndexOfSuffix(a: string, c: char, b: string)
    requires c !in b
    ensures LastIndexOf(a + [c] + b, c) == |a|
  {
    var s := a + [c] + b;
    if b == "" {
      assert s[|s| - 1] == c;
    } else {
      assert s[|s| - 1] == b[|b| - 1] && b[|b| - 1] in b;
      assert s[..|s| - 1] == a + [c] + b[..|b| - 1];
      LastIndexOfSuffix(a, c, b[..|b| - 1]);
    }
  }

  // ----- whitespace -------------------------------------------------------------------------

  predicate IsSpace(c: char) {
    var n := c as int;
    9 <= n <= 13 || n == 32 || n == 0xA0 || n == 0x1680 || 0x2000 <= n <= 0x200A ||
    n == 0x2028 || n == 0x2029 || n == 0x202F || n == 0x205F || n == 0x3000 || n == 0xFEFF
  }

  function DropSpaces(s: string): (t: string)
    ensures |t| <= |s| && (t != "" ==> !IsSpace(t[0]))
  {
    if s != "" && IsSpace(s[0]) then DropSpaces(s[1..]) else s
  }

  function DropTrailing(s: string): (t: string)
    ensures t <= s
  {
    if s != "" && IsSpace(s[|s| - 1]) then DropTrailing(s[..|s| - 1]) else s
  }

  /** s.trim(). */
  function Trim(s: string): string {
    DropTrailing(DropSpaces(s))
  }

  /** The whitespace that trimming takes off the front, and then off the end. */
  function Margins(s: string): (string, string) {
    (s[..|s| - |DropSpaces(s)|], DropSpaces(s)[|Trim(s)|..])
  }

  lemma {:induction false} DropSpacesTail(s: string)
    ensures s == s[..|s| - |DropSpaces(s)|] + DropSpaces(s)
  {
    if s != "" && IsSpace(s[0]) {
      DropSpacesTail(s[1..]);
      assert s == [s[0]] + s[1..];
    }
  }

  /** A text is its trimmed text between its margins. */
  lemma MarginsAround(s: string)
    ensures s == Margins(s).0 + Trim(s) + Margins(s).1
  {
    DropSpacesTail(s);
    assert DropSpaces(s) == Trim(s) + DropSpaces(s)[|Trim(s)|..];
  }

  /** Texts that trim alike are equal exactly when their margins are. */
  lemma TrimmedAlike(s: string, t: string)
    requires Trim(s) == Trim(t)
    ensures s == t <==> Margins(s) == Margins(t)
  {
    hide Trim;
    MarginsAround(s);
    MarginsAround(t);
  }

  // ----- decimal numerals -------------------------------------------------------------------

  function Digit(n: nat): char
    requires n < 10
  {
    ('0' as int + n) as char
  }

  predicate IsDigit(c: char) { '0' <= c <= '9' }

  function DigitValue(c: char): nat
    requires IsDigit(c)
  {
    c as int - '0' as int
  }

  function Numeral(n: nat): (s: string)
    ensures s != "" && forall c :: c in s ==> IsDigit(c)
  {
    if n < 10 then [Digit(n)] else Numeral(n / 10) + [Digit(n % 10)]
  }

  /** Number(s) on a string of digits; anything else is no number. */
  function ParseNumeral(s: string): (r: int)
    ensures r >= -1
  {
    if s == "" || exists c :: c in s && !IsDigit(c) then -1 else DigitsValue(s)
  }

  function DigitsValue(s: string): nat
    requires forall c :: c in s ==> IsDigit(c)
  {
    if s == "" then 0 else DigitsValue(s[..|s| - 1]) * 10 + DigitValue(s[|s| - 1])
  }

  lemma {:induction false} DigitsOfNumeral(n: nat)
    ensures DigitsValue(Numeral(n)) == n
  {
    var s := Numeral(n);
    if n < 10 {
      assert s[..|s| - 1] == "";
    } else {
      DigitsOfNumeral(n / 10);
      assert s[..|s| - 1] == Numeral(n / 10);
    }
  }

  function TenTo(k: nat): (p: nat)
    ensures p > 0
  {
    if k == 0 then 1 else 10 * TenTo(k - 1)
  }

  /** How long a numeral is, and that only nought's begins with a nought. */
  lemma {:induction false} NumeralSize(n: nat, k: nat)
    requires k > 0
    ensures |Numeral(n)| <= k <==> n < TenTo(k)
    ensures Numeral(n)[0] == '0' <==> n == 0
  {
    if n >= 10 {
      if k > 1 {
        NumeralSize(n / 10, k - 1);
        TenTimes(n, TenTo(k - 1));
      } else {
        NumeralSize(n / 10, 1);
        assert TenTo(1) == 10 * TenTo(0);
      }
      assert Numeral(n)[0] == Numeral(n / 10)[0];
    } else {
      TenAtLeast(k);
    }
  }

  lemma TenTimes(n: nat, p: nat)
    ensures n / 10 < p <==> n < 10 * p
  {
  }

  lemma {:induction false} TenAtLeast(k: nat)
    requires k > 0
    ensures TenTo(k) >= 10
  {
    if k > 1 {
      TenAtLeast(k - 1);
    }
  }

  lemma ParseOfNumeral(n: nat)
    ensures ParseNumeral(Numeral(n)) == n
  {
    DigitsOfNumeral(n);
  }

  /** A numeral without a leading zero is the one its value is written as. */
  lemma {:induction false} NumeralOfDigits(s: string)
    requires s != "" && (forall c :: c in s ==> IsDigit(c)) && (|s| > 1 ==> s[0] != '0')
    ensures Numeral(DigitsValue(s)) == s
    ensures s[0] != '0' ==> DigitsValue(s) > 0
  {
    hide Numeral, DigitsValue, DigitValue, IsDigit;
    var init, last := s[..|s| - 1], s[|s| - 1];
    assert s == init + [last];
    DigitsSnoc(init, last);
    if init == "" {
      NumeralOfDigit(last);
    } else {
      assert init[0] == s[0];
      NumeralOfDigits(init);
      NumeralSnoc(DigitsValue(init), last);
    }
  }

  lemma NumeralOfDigit(c: char)
    requires IsDigit(c)
    ensures Numeral(DigitValue(c)) == [c]
    ensures c != '0' ==> DigitValue(c) > 0
    ensures DigitsValue("") == 0
  {
  }

  lemma DigitsSnoc(init: string, c: char)
    requires forall d :: d in init + [c] ==> IsDigit(d)
    ensures (forall d :: d in init ==> IsDigit(d)) && IsDigit(c)
    ensures DigitsValue(init + [c]) == DigitsValue(init) * 10 + DigitValue(c)
  {
    var s := init + [c];
    assert s[|init|] in s && s[..|s| - 1] == init;
    assert forall d :: d in init ==> d in s;
  }

  lemma NumeralSnoc(n: nat, c: char)
    requires n > 0 && IsDigit(c)
    ensures Numeral(n * 10 + DigitValue(c)) == Numeral(n) + [c]
  {
    var m := n * 10 + DigitValue(c);
    assert m / 10 == n && m % 10 == DigitValue(c);
  }
}
