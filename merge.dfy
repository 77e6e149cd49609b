/**
 * The store merge of server/websites/dealabs.js: the existing records
 * followed by the new batch are folded into an accumulator that keeps a
 * record only when no kept record has a strictly equal `id`. A null id
 * equals another null id (`null === null`), so only the first null-id
 * record survives.
 */
module StoreMerge {
  import opened Wrappers
  import opened DealRecord

  /** The ids that occur in a sequence of records (`None` is the null id). */
  function Ids(s: seq<Deal>): set<Option<Id>> {
    set i | 0 <= i < |s| :: s[i].id
  }

  /** No two records share an id. */
  predicate DistinctIds(s: seq<Deal>) {
    forall i, j :: 0 <= i < j < |s| ==> s[i].id != s[j].id
  }

  /** Record `i` is the first one with its id. */
  predicate FirstOccurrence(s: seq<Deal>, i: int)
    requires 0 <= i < |s|
  {
    s[i].id !in Ids(s[..i])
  }

  /**
   * The reference merge: the subsequence of `s` that keeps each record
   * whose id has not appeared earlier in `s`.
   */
  function Dedup(s: seq<Deal>): (r: seq<Deal>)
    ensures |r| <= |s|
  {
    if s == [] then []
    else
      var init, last := s[..|s| - 1], s[|s| - 1];
      if last.id in Ids(init) then Dedup(init) else Dedup(init) + [last]
  }

  /** The positions of `s` that Dedup keeps, in increasing order. */
  function KeptPositions(s: seq<Deal>): seq<int> {
    if s == [] then []
    else
      var init := s[..|s| - 1];
      if s[|s| - 1].id in Ids(init) then KeptPositions(init) else KeptPositions(init) + [|s| - 1]
  }

  // ---------------------------------------------------------------------
  // Facts about Ids

  lemma IdsAppend(a: seq<Deal>, d: Deal)
    ensures Ids(a + [d]) == Ids(a) + {d.id}
  {
    var s := a + [d];
    forall x | x in Ids(s) ensures x in Ids(a) + {d.id} {
      var i :| 0 <= i < |s| && s[i].id == x;
      if i < |a| { assert a[i].id == x; }
    }
    forall x | x in Ids(a) ensures x in Ids(s) {
      var i :| 0 <= i < |a| && a[i].id == x;
      assert s[i].id == x;
    }
    assert s[|a|].id == d.id;
  }

  lemma IdsConcat(a: seq<Deal>, b: seq<Deal>)
    ensures Ids(a + b) == Ids(a) + Ids(b)
  {
    var s := a + b;
    forall x | x in Ids(s) ensures x in Ids(a) + Ids(b) {
      var i :| 0 <= i < |s| && s[i].id == x;
      if i < |a| { assert a[i].id == x; } else { assert b[i - |a|].id == x; }
    }
    forall x | x in Ids(a) + Ids(b) ensures x in Ids(s) {
      if x in Ids(a) {
        var i :| 0 <= i < |a| && a[i].id == x;
        assert s[i].id == x;
      } else {
        var i :| 0 <= i < |b| && b[i].id == x;
        assert s[|a| + i].id == x;
      }
    }
  }

  /** The first occurrence of an id comes before every other record with that id. */
  lemma FirstOccurrenceIsEarliest(s: seq<Deal>, i: int)
    requires 0 <= i < |s| && FirstOccurrence(s, i)
    ensures forall j :: 0 <= j < i ==> s[j].id != s[i].id
  {
    forall j | 0 <= j < i ensures s[j].id != s[i].id {
      assert s[..i][j] == s[j];
    }
  }

  /** Dropping the last record of `a + b` (b non-empty) drops the last record of `b`. */
  lemma InitOfConcat(a: seq<Deal>, b: seq<Deal>)
    requires b != []
    ensures (a + b)[..|a + b| - 1] == a + b[..|b| - 1]
    ensures (a + b)[|a + b| - 1] == b[|b| - 1]
  {
  }

  // ---------------------------------------------------------------------
  // Properties of the reference merge

  /** An id occurs in the merge exactly when it occurs in the input: nothing is lost, nothing invented. */
  lemma {:induction false} DedupIds(s: seq<Deal>)
    ensures Ids(Dedup(s)) == Ids(s)
  {
    if s != [] {
      var init, last := s[..|s| - 1], s[|s| - 1];
      assert s == init + [last];
      DedupIds(init);
      IdsAppend(init, last);
      if last.id !in Ids(init) {
        IdsAppend(Dedup(init), last);
      }
    }
  }

  /** The merge never holds two records with equal ids (two null ids are equal). */
  lemma {:induction false} DedupDistinct(s: seq<Deal>)
    ensures DistinctIds(Dedup(s))
  {
    if s != [] {
      var init, last := s[..|s| - 1], s[|s| - 1];
      DedupDistinct(init);
      if last.id !in Ids(init) {
        DedupIds(init);
        var p := Dedup(init);
        var r := p + [last];
        forall i, j | 0 <= i < j < |r| ensures r[i].id != r[j].id {
          if j == |p| {
            assert r[i].id == p[i].id;
            assert p[i].id in Ids(p);
          } else {
            assert r[i] == p[i] && r[j] == p[j];
          }
        }
      }
    }
  }

  /**
   * First occurrence wins, in order: the merge is `s` restricted to the
   * positions where an id first occurs, taken in increasing order.
   */
  lemma {:induction false} DedupIsFirstOccurrences(s: seq<Deal>)
    ensures var r, k := Dedup(s), KeptPositions(s);
      && |r| == |k|
      && (forall m :: 0 <= m < |k| ==> 0 <= k[m] < |s| && r[m] == s[k[m]])
      && (forall m, n :: 0 <= m < n < |k| ==> k[m] < k[n])
      && (forall i :: 0 <= i < |s| ==> (i in k <==> FirstOccurrence(s, i)))
  {
    if s != [] {
      var init, last := s[..|s| - 1], s[|s| - 1];
      DedupIsFirstOccurrences(init);
      var k0 := KeptPositions(init);
      assert s[..|s| - 1] == init;
      if last.id !in Ids(init) {
        var r, k := Dedup(s), KeptPositions(s);
        assert r == Dedup(init) + [last] && k == k0 + [|s| - 1];
        assert forall m :: 0 <= m < |k0| ==> k0[m] < |init|;
        assert forall m :: 0 <= m < |k0| ==> k[m] == k0[m] && r[m] == Dedup(init)[m];
      }
      forall i | 0 <= i < |s| ensures i in KeptPositions(s) <==> FirstOccurrence(s, i) {
        assert s[..i] == if i < |init| then init[..i] else init;
        if i < |init| {
          assert FirstOccurrence(s, i) == FirstOccurrence(init, i);
          assert i != |s| - 1;
        } else {
          assert forall m :: 0 <= m < |k0| ==> k0[m] < |init|;
        }
      }
    }
  }

  /** Merging records whose ids are already distinct changes nothing. */
  lemma {:induction false} DedupOfDistinct(s: seq<Deal>)
    requires DistinctIds(s)
    ensures Dedup(s) == s
  {
    if s != [] {
      var init, last := s[..|s| - 1], s[|s| - 1];
      assert DistinctIds(init);
      DedupOfDistinct(init);
      assert last.id !in Ids(init) by {
        forall k | 0 <= k < |init| ensures init[k].id != last.id {
          assert init[k] == s[k];
        }
      }
      assert s == init + [last];
    }
  }

  /** Merging is idempotent on its own output. */
  lemma DedupIdempotent(s: seq<Deal>)
    ensures Dedup(Dedup(s)) == Dedup(s)
  {
    DedupDistinct(s);
    DedupOfDistinct(Dedup(s));
  }

  /** Appending records never disturbs what the merge already kept. */
  lemma {:induction false} DedupPrefix(a: seq<Deal>, b: seq<Deal>)
    ensures Dedup(a) <= Dedup(a + b)
  {
    if b == [] {
      assert a + b == a;
    } else {
      var b0 := b[..|b| - 1];
      InitOfConcat(a, b);
      DedupPrefix(a, b0);
    }
  }

  /** Records whose ids were all seen already add nothing to the merge. */
  lemma {:induction false} DedupCovered(a: seq<Deal>, b: seq<Deal>)
    requires Ids(b) <= Ids(a)
    ensures Dedup(a + b) == Dedup(a)
  {
    if b == [] {
      assert a + b == a;
    } else {
      var b0, last := b[..|b| - 1], b[|b| - 1];
      InitOfConcat(a, b);
      assert b == b0 + [last];
      IdsAppend(b0, last);
      DedupCovered(a, b0);
      IdsConcat(a, b0);
    }
  }

  /** The merge has exactly one record per distinct id of its input. */
  lemma DedupLength(s: seq<Deal>)
    ensures |Dedup(s)| == |Ids(s)|
  {
    DedupDistinct(s);
    DedupIds(s);
    DistinctCard(Dedup(s));
  }

  lemma {:induction false} DistinctCard(s: seq<Deal>)
    requires DistinctIds(s)
    ensures |Ids(s)| == |s|
  {
    if s != [] {
      var init, last := s[..|s| - 1], s[|s| - 1];
      assert DistinctIds(init);
      DistinctCard(init);
      assert s == init + [last];
      IdsAppend(init, last);
    }
  }

  // ---------------------------------------------------------------------
  // The merge as the source runs it

  /** `acc.find(d => d.id === id)`: a linear scan for a kept record with that id. */
  method FindById(acc: seq<Deal>, id: Option<Id>) returns (found: bool)
    ensures found <==> exists k :: 0 <= k < |acc| && acc[k].id == id
  {
    var k := 0;
    found := false;
    while k < |acc| && !found
      invariant 0 <= k <= |acc|
      invariant found <==> exists j :: 0 <= j < k && acc[j].id == id
    {
      found := acc[k].id == id;
      k := k + 1;
    }
  }

  /**
   * `[...existingDeals, ...newDeals].reduce(...)`: push each record whose id
   * the accumulator does not hold yet.
   */
  method Merge(existing: seq<Deal>, batch: seq<Deal>) returns (all: seq<Deal>)
    ensures all == Dedup(existing + batch)
    ensures DistinctIds(all)
    ensures Ids(all) == Ids(existing) + Ids(batch)
  {
    var deals := existing + batch;
    var acc: seq<Deal> := [];
    var i := 0;
    while i < |deals|
      invariant 0 <= i <= |deals|
      invariant acc == Dedup(deals[..i])
      invariant Ids(acc) == Ids(deals[..i])
    {
      var deal := deals[i];
      var found := FindById(acc, deal.id);
      assert deals[..i + 1][..i] == deals[..i];
      IdsAppend(deals[..i], deal);
      assert deals[..i + 1] == deals[..i] + [deal];
      if !found {
        IdsAppend(acc, deal);
        acc := acc + [deal];
      }
      i := i + 1;
    }
    assert deals[..i] == deals;
    DedupDistinct(deals);
    IdsConcat(existing, batch);
    all := acc;
  }

  // ---------------------------------------------------------------------
  // What the merge promises the store

  /** When the existing ids are distinct, the existing records are a prefix of the merge, in their order. */
  lemma ExistingIsPrefix(existing: seq<Deal>, batch: seq<Deal>)
    requires DistinctIds(existing)
    ensures existing <= Dedup(existing + batch)
  {
    DedupOfDistinct(existing);
    DedupPrefix(existing, batch);
  }

  /** Every kept record is the first occurrence of its id in the input. */
  lemma KeptIsFirst(s: seq<Deal>, m: int)
    requires 0 <= m < |Dedup(s)|
    ensures exists i :: 0 <= i < |s| && Dedup(s)[m] == s[i] && FirstOccurrence(s, i)
  {
    DedupIsFirstOccurrences(s);
    var i := KeptPositions(s)[m];
    assert i in KeptPositions(s);
  }

  /** A kept record whose id occurs among the existing ones is the first existing record with that id. */
  lemma ExistingRecordWins(existing: seq<Deal>, batch: seq<Deal>, m: int)
    requires 0 <= m < |Dedup(existing + batch)|
    requires Dedup(existing + batch)[m].id in Ids(existing)
    ensures exists j :: 0 <= j < |existing| && Dedup(existing + batch)[m] == existing[j]
                        && FirstOccurrence(existing, j)
  {
    var s := existing + batch;
    var x := Dedup(s)[m];
    KeptIsFirst(s, m);
    var i :| 0 <= i < |s| && x == s[i] && FirstOccurrence(s, i);
    var j :| 0 <= j < |existing| && existing[j].id == x.id;
    assert i <= j by {
      FirstOccurrenceIsEarliest(s, i);
      assert s[j] == existing[j];
    }
    assert existing[i] == s[i];
    assert FirstOccurrence(existing, i) by {
      assert s[..i] == existing[..i];
    }
  }

  /**
   * Ids compare with `===`: two records whose ids are equal, null ids
   * included, keep only the first; a string id and a numeric id never collide.
   */
  lemma TwoRecords(a: Deal, b: Deal)
    ensures a.id == b.id ==> Dedup([a, b]) == [a]
    ensures a.id != b.id ==> Dedup([a, b]) == [a, b]
    ensures a.id == None && b.id == None ==> Dedup([a, b]) == [a]
    ensures a.id == Some(StrId("1")) && b.id == Some(NumId(1.0)) ==> Dedup([a, b]) == [a, b]
  {
    assert [a, b][..1] == [a] && [a][..0] == [];
    IdsAppend([], a);
    assert [] + [a] == [a];
    assert Dedup([a]) == [a];
    assert [a] + [b] == [a, b];
  }

  /** Merging the same batch again into a merged store returns it unchanged. */
  lemma MergeIdempotent(existing: seq<Deal>, batch: seq<Deal>)
    ensures Dedup(Dedup(existing + batch) + batch) == Dedup(existing + batch)
  {
    var r := Dedup(existing + batch);
    DedupIds(existing + batch);
    IdsConcat(existing, batch);
    DedupCovered(r, batch);
    DedupIdempotent(existing + batch);
  }
}
