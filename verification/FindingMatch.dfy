/** What the join of a prior and a current run accounts for: every identity once, and nothing dropped. */
module FindingMatch {
  import opened Wrappers
  import opened Counting
  import opened Seqs
  import opened FindingIdentity
  import opened Relocation

  function MatchedId(m: Matched): string { m.semanticId }

  function RowId(r: Row): string { r.semanticId }

  function PriorId(p: PriorEntry): string { p.semanticId }

  lemma {:induction false} PriorByIdFinds(prior: seq<PriorEntry>, id: string)
    ensures PriorById(prior, id).None? <==> id !in Mapped(prior, PriorId)
  {
    if prior != [] {
      var init := prior[..|prior| - 1];
      PriorByIdFinds(init, id);
      assert Mapped(prior, PriorId) == Mapped(init, PriorId) + [prior[|prior| - 1].semanticId];
    }
  }

  lemma FindIdFinds(rows: seq<Row>, id: string)
    ensures FindId(rows, id).None? <==> id !in Mapped(rows, RowId)
  {
    hide FindId;
    FindIdMeans(rows, id);
    if HasId(rows, id) {
      var r :| r in rows && r.semanticId == id;
      var k :| 0 <= k < |rows| && rows[k] == r;
      assert Mapped(rows, RowId)[k] == id;
    }
    if id in Mapped(rows, RowId) {
      var k :| 0 <= k < |rows| && Mapped(rows, RowId)[k] == id;
      assert rows[k] in rows;
    }
  }

  lemma {:induction false} RemovedAre(prior: seq<PriorEntry>, current: seq<Row>)
    requires Distinct(Mapped(prior, PriorId))
    ensures var gone := RemovedRows(prior, current);
            && Distinct(Mapped(gone, MatchedId))
            && (forall id :: id in Mapped(gone, MatchedId) <==> id in Mapped(prior, PriorId) && id !in Mapped(current, RowId))
            && forall m :: m in gone ==> m.klass == Removed
  {
    hide FindId, Distinct;
    if prior == [] {
      assert Mapped(RemovedRows(prior, current), MatchedId) == [];
      NothingTwice();
    } else {
      var init, p := prior[..|prior| - 1], prior[|prior| - 1];
      assert Mapped(prior, PriorId) == Mapped(init, PriorId) + [p.semanticId];
      DistinctSnoc(Mapped(init, PriorId), p.semanticId);
      RemovedAre(init, current);
      FindIdFinds(current, p.semanticId);
      var before, gone := RemovedRows(init, current), RemovedRows(prior, current);
      DistinctSnoc(Mapped(before, MatchedId), p.semanticId);
      if FindId(current, p.semanticId).None? {
        assert Mapped(gone, MatchedId) == Mapped(before, MatchedId) + [p.semanticId];
      } else {
        assert gone == before;
      }
    }
  }

  lemma NothingTwice()
    ensures Distinct<string>([])
  {
  }

  lemma DistinctApart(a: seq<string>, b: seq<string>)
    requires Distinct(a) && Distinct(b) && forall x :: x in a ==> x !in b
    ensures Distinct(a + b)
  {
    var s := a + b;
    forall i, j | 0 <= i < j < |s| ensures s[i] != s[j] {
      if i < |a| <= j {
        assert a[i] in a && b[j - |a|] in b;
      }
    }
  }

  /**
   * The match mentions every identity of either run exactly once: added exactly where there was no
   * prior entry, removed exactly where there is no current row.
   */
  lemma MatchAccounts(prior: seq<PriorEntry>, current: seq<Row>)
    requires Distinct(Mapped(prior, PriorId)) && Distinct(Mapped(current, RowId))
    ensures var out := MatchedOf(prior, current);
            && Distinct(Mapped(out, MatchedId))
            && (forall id :: id in Mapped(out, MatchedId) <==> id in Mapped(current, RowId) || id in Mapped(prior, PriorId))
            && forall m :: m in out ==>
                 && (m.klass == Added <==> m.semanticId !in Mapped(prior, PriorId))
                 && (m.klass == Removed <==> m.semanticId !in Mapped(current, RowId))
  {
    hide LocatorDeltaOf, PriorById, RemovedRows, Distinct;
    var found := seq(|current|, i requires 0 <= i < |current| => MatchRow(current[i], prior));
    var gone, out := RemovedRows(prior, current), MatchedOf(prior, current);
    RemovedAre(prior, current);
    assert Mapped(found, MatchedId) == Mapped(current, RowId);
    assert Mapped(out, MatchedId) == Mapped(found, MatchedId) + Mapped(gone, MatchedId);
    DistinctApart(Mapped(found, MatchedId), Mapped(gone, MatchedId));
    forall m | m in out
      ensures (m.klass == Added <==> m.semanticId !in Mapped(prior, PriorId)) && (m.klass == Removed <==> m.semanticId !in Mapped(current, RowId))
    {
      if m in gone {
        var k :| 0 <= k < |gone| && gone[k] == m;
        assert Mapped(gone, MatchedId)[k] == m.semanticId;
      } else {
        var k :| 0 <= k < |found| && found[k] == m;
        assert Mapped(current, RowId)[k] == m.semanticId;
        PriorByIdFinds(prior, m.semanticId);
      }
    }
  }

  // ----- what a change is called ------------------------------------------------------------

  /** The entry with the identity that counts: of several, the last. */
  ghost predicate LastWith(prior: seq<PriorEntry>, j: nat, id: string) {
    j < |prior| && prior[j].semanticId == id && forall k :: j < k < |prior| ==> prior[k].semanticId != id
  }

  lemma {:induction false} LastWithFound(prior: seq<PriorEntry>, j: nat, id: string)
    requires LastWith(prior, j, id)
    ensures PriorById(prior, id) == Some(prior[j])
  {
    if j < |prior| - 1 {
      LastWithFound(prior[..|prior| - 1], j, id);
    }
  }

  /** The code under the finding itself is proven to be other code. */
  ghost predicate CodeChanged(cur: Row, p: PriorEntry) {
    exists before, now :: p.narrow == Some(before) && cur.narrow == Some(now) && before != now
  }

  /**
   * A finding that has both a row and a prior entry is called changed exactly when the fingerprints say
   * so: proven, when both have the narrow one and they differ; in its context, when only the broad ones
   * differ. Only with equal broad fingerprints is it unchanged or relocated, told apart by the locator,
   * and only a relocated one is given a delta.
   */
  lemma ChangesAreCalled(prior: seq<PriorEntry>, current: seq<Row>, i: nat, j: nat)
    requires i < |current| && LastWith(prior, j, current[i].semanticId)
    ensures var out, cur, p := MatchedOf(prior, current), current[i], prior[j];
            && i < |out| && var m := out[i];
               && m.semanticId == cur.semanticId
               && (m.klass == SemanticChangeProven <==> CodeChanged(cur, p))
               && (m.klass == SourceContextChanged <==> !CodeChanged(cur, p) && cur.broad != p.broad)
               && (m.klass == Unchanged <==> !CodeChanged(cur, p) && cur.broad == p.broad && cur.locator == p.locator)
               && (m.klass == MatchClass.Relocated <==> !CodeChanged(cur, p) && cur.broad == p.broad && cur.locator != p.locator)
               && m.lineDelta ==
                    (if m.klass == MatchClass.Relocated then Some(LocatorDeltaOf(p.locator, cur.locator)) else None)
  {
    hide LocatorDeltaOf, RemovedRows, PriorById;
    LastWithFound(prior, j, current[i].semanticId);
  }
}
