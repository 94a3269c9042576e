/**
 * The commitment to the covered sources a build recorded: path and digest pairs, separators and
 * letter case normalised, sorted by path, serialized.
 */
module CoveredContent {
  import opened Wrappers
  import opened CanonicalJson
  import JsonText
  import opened Counting
  import opened Sorting
  import opened Strings

  /** One recorded source: its path and the digest of its content. */
  datatype Source = Source(path: string, digest: string)

  function Slash(path: string): (p: string)
    ensures |p| == |path|
  {
    seq(|path|, i requires 0 <= i < |path| => if path[i] == '\\' then '/' else path[i])
  }

  function LowerCase(s: string): (l: string)
    ensures |l| == |s|
  {
    seq(|s|, i requires 0 <= i < |s| => if 'A' <= s[i] <= 'Z' then (s[i] as int + 32) as char else s[i])
  }

  /** The digits of a digest in lower case. */
  lemma LowerCaseDigits(i: nat)
    requires i < 16
    ensures LowerCase("0123456789ABCDEF"[i..i + 1]) == "0123456789abcdef"[i..i + 1]
    ensures LowerCase("0123456789abcdef") == "0123456789abcdef"
  {
    assert "0123456789ABCDEF"[i..i + 1] == ["0123456789ABCDEF"[i]];
    assert "0123456789abcdef"[i..i + 1] == ["0123456789abcdef"[i]];
  }

  function Normal(s: Source): Source {
    Source(Slash(s.path), LowerCase(s.digest))
  }

  function Normalised(sources: seq<Source>): seq<Source> {
    Mapped(sources, Normal)
  }

  predicate ByPath(a: Source, b: Source) {
    StringLeq(a.path, b.path)
  }

  function AsJson(s: Source): Json {
    JArr([JStr(s.path), JStr(s.digest)])
  }

  /** The text that is hashed (an array of pairs of strings holds no object to sort), for entries already normalised. */
  function CommitmentText(entries: seq<Source>): string {
    var sorted := StableSort(entries, ByPath);
    CanonicalStringify(JArr(seq(|sorted|, i requires 0 <= i < |sorted| => AsJson(sorted[i]))))
  }

  function Commitment(sources: seq<Source>, keccak: string -> string): string {
    keccak(CommitmentText(Normalised(sources)))
  }

  /** No separator smuggled through a path makes two lists serialize alike. */
  lemma CommitmentTextInjective(a: seq<Source>, b: seq<Source>)
    ensures CommitmentText(a) == CommitmentText(b) <==> StableSort(a, ByPath) == StableSort(b, ByPath)
  {
    hide StableSort, CanonicalStringify;
    var s, t := StableSort(a, ByPath), StableSort(b, ByPath);
    var v := JArr(seq(|s|, i requires 0 <= i < |s| => AsJson(s[i])));
    var w := JArr(seq(|t|, i requires 0 <= i < |t| => AsJson(t[i])));
    forall x | x in v.items + w.items ensures WellFormed(x) {
      var k :| 0 <= k < |v.items + w.items| && (v.items + w.items)[k] == x;
      SourceJson(if k < |s| then s[k] else t[k - |s|], Source("", ""));
    }
    CanonicalForm(v, w);
    if EqualUpToKeyOrder(v, w) {
      forall i | 0 <= i < |s| ensures s[i] == t[i] {
        assert EqualUpToKeyOrder(v.items[i], w.items[i]);
        SourceJson(s[i], t[i]);
      }
    }
  }

  lemma SourceJson(a: Source, b: Source)
    ensures WellFormed(AsJson(a))
    ensures EqualUpToKeyOrder(AsJson(a), AsJson(b)) <==> a == b
  {
    var v, w := AsJson(a), AsJson(b);
    if EqualUpToKeyOrder(v, w) {
      assert EqualUpToKeyOrder(v.items[0], w.items[0]) && EqualUpToKeyOrder(v.items[1], w.items[1]);
    }
  }

  /** What a JSON reader reads from the hashed text: every entry as a pair, once for each time it is listed, paths ascending. */
  lemma CommitmentReads(entries: seq<Source>) returns (sorted: seq<Source>)
    ensures multiset(sorted) == multiset(entries)
    ensures forall i, j :: 0 <= i < j < |sorted| ==> StringLeq(sorted[i].path, sorted[j].path)
    ensures JsonText.ReadValue(CommitmentText(entries)) ==
            Some((JArr(seq(|sorted|, i requires 0 <= i < |sorted| => JArr([JStr(sorted[i].path), JStr(sorted[i].digest)]))), ""))
  {
    hide CanonicalStringify, StringLeq, JsonText.ReadValue, StableSort;
    sorted := StableSort(entries, ByPath);
    SortPermutes(entries, ByPath);
    PathOrder();
    SortSorts(entries, ByPath);
    forall i, j | 0 <= i < j < |sorted| ensures StringLeq(sorted[i].path, sorted[j].path) {
      assert ByPath(sorted[i], sorted[j]);
    }
    var v := JArr(seq(|sorted|, i requires 0 <= i < |sorted| => AsJson(sorted[i])));
    forall x | x in v.items ensures WellFormed(x) {
      var k :| 0 <= k < |v.items| && v.items[k] == x;
      SourceJson(sorted[k], sorted[k]);
    }
    var w := JsonText.ReadsItsText(v, "");
    assert CanonicalStringify(v) + "" == CanonicalStringify(v);
    forall k | 0 <= k < |v.items| ensures w.items[k] == v.items[k] {
      PairsAlone(sorted[k], w.items[k]);
    }
    assert w.items == v.items;
    assert v.items == seq(|sorted|, i requires 0 <= i < |sorted| => JArr([JStr(sorted[i].path), JStr(sorted[i].digest)]));
  }

  lemma PathOrder()
    ensures TotalPreorder(ByPath)
  {
    hide StringLeq;
    StringOrder();
  }

  /** Strings are equal only to themselves, and so are pairs of strings. */
  lemma PairsAlone(s: Source, w: Json)
    requires EqualUpToKeyOrder(AsJson(s), w)
    ensures w == AsJson(s)
  {
    var v := AsJson(s);
    assert EqualUpToKeyOrder(v.items[0], w.items[0]) && EqualUpToKeyOrder(v.items[1], w.items[1]);
    assert w.items == [w.items[0], w.items[1]];
  }

  /** Each path, once normalised, stands for one digest. */
  ghost predicate PathsDetermineDigests(entries: seq<Source>) {
    forall x, y :: x in entries && y in entries && x.path == y.path ==> x.digest == y.digest
  }

  ghost predicate Injective(keccak: string -> string) {
    forall x, y :: keccak(x) == keccak(y) ==> x == y
  }

  /**
   * For a hash without collisions, the commitment ignores the order the sources are listed in exactly
   * when no path is recorded with two digests; two keys that differ only in their separators are one
   * path here.
   */
  lemma CommitmentIgnoresOrder(sources: seq<Source>, keccak: string -> string)
    requires Injective(keccak)
    ensures (forall listing :: multiset(listing) == multiset(sources) ==>
               Commitment(listing, keccak) == Commitment(sources, keccak)) <==>
            PathsDetermineDigests(Normalised(sources))
  {
    hide StableSort, CommitmentText, StringLeq, Slash, LowerCase;
    StringOrder();
    assert TotalPreorder(ByPath);
    SortHidesMappedOrder(sources, Normal, ByPath);
    assert Discriminates(Normalised(sources), ByPath) <==> PathsDetermineDigests(Normalised(sources));
    forall listing: seq<Source>
      ensures Commitment(listing, keccak) == Commitment(sources, keccak) <==>
              StableSort(Mapped(listing, Normal), ByPath) == StableSort(Mapped(sources, Normal), ByPath)
    {
      CommitmentTextInjective(Normalised(listing), Normalised(sources));
    }
  }

  /** Whatever the hash, one digest for each path is enough. */
  lemma OneDigestIgnoresOrder(sources: seq<Source>, listing: seq<Source>, keccak: string -> string)
    requires PathsDetermineDigests(Normalised(sources)) && multiset(listing) == multiset(sources)
    ensures Commitment(listing, keccak) == Commitment(sources, keccak)
  {
    hide StableSort, CommitmentText, StringLeq, Slash, LowerCase;
    StringOrder();
    assert TotalPreorder(ByPath);
    SortHidesMappedOrder(sources, Normal, ByPath);
    assert Discriminates(Normalised(sources), ByPath);
    CommitmentTextInjective(Normalised(listing), Normalised(sources));
  }

  /** It commits to every path and every digest: equal texts come from equal entries. */
  lemma CommitmentBindsContent(a: seq<Source>, b: seq<Source>)
    requires CommitmentText(Normalised(a)) == CommitmentText(Normalised(b))
    ensures multiset(Normalised(a)) == multiset(Normalised(b))
  {
    hide StableSort, CommitmentText;
    CommitmentTextInjective(Normalised(a), Normalised(b));
    SortPermutes(Normalised(a), ByPath);
    SortPermutes(Normalised(b), ByPath);
  }

  /** Two keys for one file, in two spellings, with different digests: then the listing order shows. */
  lemma SpellingsCanShowOrder()
    ensures var a, b := Source("src\\A.sol", "00"), Source("src/A.sol", "11");
            CommitmentText(Normalised([a, b])) != CommitmentText(Normalised([b, a]))
  {
    hide CommitmentText;
    var a, b := Source("src\\A.sol", "00"), Source("src/A.sol", "11");
    var m, n := Normalised([a, b]), Normalised([b, a]);
    assert m[0].path[3] == '/' && Slash(a.path) == Slash(b.path);
    assert m[0].digest[0] == '0' && n[0].digest[0] == '1';
    SortTwo(m[0], m[1], [], ByPath);
    SortTwo(n[0], n[1], [], ByPath);
    assert [m[0], m[1]] + [] == m && [n[0], n[1]] + [] == n;
    StringOrder();
    assert StableSort(m, ByPath)[0] == m[0] && StableSort(n, ByPath)[0] == n[0];
    CommitmentTextInjective(m, n);
  }
}
