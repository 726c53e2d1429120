/**
 * The transaction documents the provider caches, the comparator that orders
 * them, and the list surgery `handleChange` performs on the cache, as values.
 */
module Transaction {
  import opened Wrappers

  /** A stored transaction: its store identifier (`_id`), the date the cache
      is ordered by, and the domain fields the cache never looks at. */
  datatype Doc = Doc(id: string, date: int, payload: string)

  /** One row of an `allDocs` snapshot read with `include_docs`. */
  datatype Row = Row(doc: Doc)

  /** One change delivered by the store's change feed: the changed
      document's id, whether it was deleted, and the document itself. */
  datatype Change = Change(id: string, deleted: bool, doc: Doc)

  /** The documents of a snapshot, in row order. */
  function RowDocs(rows: seq<Row>): seq<Doc> {
    seq(|rows|, i requires 0 <= i < |rows| => rows[i].doc)
  }

  // ---------------------------------------------------------------------
  // Ordering
  // ---------------------------------------------------------------------

  /** The comparator handed to `sort`: a negative answer puts `a` first,
      so newer documents come first; equal dates are left unordered. */
  function SortTransactions(a: Doc, b: Doc): (r: int)
    ensures r == -1 <==> a.date > b.date
    ensures r == 1 <==> a.date < b.date
    ensures r == 0 <==> a.date == b.date
  {
    if a.date > b.date then -1
    else if a.date < b.date then 1
    else 0
  }

  lemma SortTransactionsAntisymmetric(a: Doc, b: Doc)
    ensures SortTransactions(a, b) == -SortTransactions(b, a)
  {
  }

  /** "Not after" is transitive, so the comparator is a consistent total preorder. */
  lemma SortTransactionsTransitive(a: Doc, b: Doc, c: Doc)
    ensures SortTransactions(a, b) <= 0 && SortTransactions(b, c) <= 0 ==> SortTransactions(a, c) <= 0
  {
  }

  /** Newest first: no document is older than one that comes after it. */
  ghost predicate SortedDesc(s: seq<Doc>) {
    forall i, j :: 0 <= i < j < |s| ==> s[i].date >= s[j].date
  }

  /** Sortedness is the adjacent-pairs property. */
  lemma {:induction false} SortedDescAdjacent(s: seq<Doc>)
    ensures SortedDesc(s) <==> forall i :: 0 <= i < |s| - 1 ==> s[i].date >= s[i + 1].date
  {
    if |s| > 1 {
      var tail := s[1..];
      SortedDescAdjacent(tail);
      if forall i :: 0 <= i < |s| - 1 ==> s[i].date >= s[i + 1].date {
        assert forall i :: 0 <= i < |tail| - 1 ==> tail[i].date >= tail[i + 1].date by {
          forall i | 0 <= i < |tail| - 1 ensures tail[i].date >= tail[i + 1].date {
            assert tail[i] == s[i + 1] && tail[i + 1] == s[i + 2];
          }
        }
        forall i, j | 0 <= i < j < |s| ensures s[i].date >= s[j].date {
          assert tail[j - 1] == s[j];
          if i > 0 {
            assert tail[i - 1] == s[i];
          } else if j > 1 {
            assert tail[0] == s[1];
          }
        }
      }
    }
  }

  /** `Array.prototype.sort` with SortTransactions as its comparator, done in
      place on the array as an insertion sort by adjacent swaps. */
  method SortByDate(a: array<Doc>)
    modifies a
    ensures SortedDesc(a[..])
    ensures multiset(a[..]) == multiset(old(a[..]))
  {
    var i := 0;
    while i < a.Length
      invariant 0 <= i <= a.Length
      invariant forall p, q :: 0 <= p < q < i ==> a[p].date >= a[q].date
      invariant multiset(a[..]) == multiset(old(a[..]))
    {
      SinkLast(a, i);
      i := i + 1;
    }
  }

  /** One insertion step: moves `a[i]` left past every older document, so
      that a sorted `a[..i]` becomes a sorted `a[..i + 1]`. */
  method SinkLast(a: array<Doc>, i: nat)
    requires i < a.Length
    requires forall p, q :: 0 <= p < q < i ==> a[p].date >= a[q].date
    modifies a
    ensures forall p, q :: 0 <= p < q <= i ==> a[p].date >= a[q].date
    ensures multiset(a[..]) == multiset(old(a[..]))
  {
    var j := i;
    while 0 < j && SortTransactions(a[j - 1], a[j]) > 0
      invariant 0 <= j <= i
      invariant forall p, q :: 0 <= p < q <= i && p != j && q != j ==> a[p].date >= a[q].date
      invariant forall q :: j < q <= i ==> a[j].date > a[q].date
      invariant multiset(a[..]) == multiset(old(a[..]))
    {
      a[j - 1], a[j] := a[j], a[j - 1];
      j := j - 1;
    }
    forall p, q | 0 <= p < q <= i ensures a[p].date >= a[q].date {
      if q == j && p < j - 1 {
        assert a[p].date >= a[j - 1].date;
      }
    }
  }

  // ---------------------------------------------------------------------
  // Reconciliation of one change
  // ---------------------------------------------------------------------

  /** The index `handleChange`'s scan selects: the scan has no early exit,
      so it is the LAST index holding `id`, or None when there is none. */
  function LastIndexOf(s: seq<Doc>, id: string): (r: Option<nat>)
    ensures r.Some? ==> r.value < |s| && s[r.value].id == id
    ensures r.Some? ==> forall k :: r.value < k < |s| ==> s[k].id != id
    ensures r.None? ==> forall k :: 0 <= k < |s| ==> s[k].id != id
  {
    if s == [] then None
    else if s[|s| - 1].id == id then Some(|s| - 1)
    else LastIndexOf(s[..|s| - 1], id)
  }

  /** The cached list as `handleChange` leaves it just before re-sorting.
      A delete splices one element out at the selected index; when no
      index was selected the index is null, which `splice` reads as 0. */
  function Reconcile(s: seq<Doc>, c: Change): (r: seq<Doc>)
    ensures c.deleted ==> |r| == if s == [] then 0 else |s| - 1
    ensures !c.deleted ==> c.doc in r
  {
    var found := LastIndexOf(s, c.id);
    if c.deleted then
      var start := if found.Some? then found.value else 0;
      if start < |s| then s[..start] + s[start + 1..] else s
    else if found.Some? then
      var r := s[found.value := c.doc];
      assert r[found.value] == c.doc;
      r
    else s + [c.doc]
  }

  /** An update of a present id overwrites the last document holding it and nothing else. */
  lemma ReconcileUpdatePresent(s: seq<Doc>, c: Change, k: nat)
    requires !c.deleted
    requires k < |s| && s[k].id == c.id
    requires forall m :: k < m < |s| ==> s[m].id != c.id
    ensures Reconcile(s, c) == s[k := c.doc]
    ensures |Reconcile(s, c)| == |s|
    ensures multiset(Reconcile(s, c)) == multiset(s) - multiset{s[k]} + multiset{c.doc}
  {
    assert LastIndexOf(s, c.id) == Some(k);
  }

  /** An update of an absent id appends the document. */
  lemma ReconcileInsertAbsent(s: seq<Doc>, c: Change)
    requires !c.deleted
    requires forall m :: 0 <= m < |s| ==> s[m].id != c.id
    ensures Reconcile(s, c) == s + [c.doc]
    ensures multiset(Reconcile(s, c)) == multiset(s) + multiset{c.doc}
  {
  }

  /** A delete of a present id removes exactly the last document holding it. */
  lemma ReconcileDeletePresent(s: seq<Doc>, c: Change, k: nat)
    requires c.deleted
    requires k < |s| && s[k].id == c.id
    requires forall m :: k < m < |s| ==> s[m].id != c.id
    ensures Reconcile(s, c) == s[..k] + s[k + 1..]
    ensures |Reconcile(s, c)| == |s| - 1
    ensures multiset(Reconcile(s, c)) == multiset(s) - multiset{s[k]}
  {
    assert LastIndexOf(s, c.id) == Some(k);
    assert s == s[..k] + [s[k]] + s[k + 1..];
  }

  /** A delete of an absent id is not a no-op: it removes the first
      document (the newest one in a sorted cache) unless the list is empty. */
  lemma ReconcileDeleteAbsent(s: seq<Doc>, c: Change)
    requires c.deleted
    requires forall m :: 0 <= m < |s| ==> s[m].id != c.id
    ensures s == [] ==> Reconcile(s, c) == []
    ensures s != [] ==> Reconcile(s, c) == s[1..]
  {
  }

  // ---------------------------------------------------------------------
  // One document per id
  // ---------------------------------------------------------------------

  /** No two documents share an id. */
  ghost predicate UniqueIds(s: seq<Doc>) {
    forall i, j :: 0 <= i < j < |s| ==> s[i].id != s[j].id
  }

  /** How many documents hold `id`. */
  function IdCount(s: seq<Doc>, id: string): (n: nat)
    ensures n <= |s|
    ensures n == 0 <==> forall k :: 0 <= k < |s| ==> s[k].id != id
  {
    if s == [] then 0
    else (if s[0].id == id then 1 else 0) + IdCount(s[1..], id)
  }

  lemma {:induction false} IdCountConcat(s: seq<Doc>, t: seq<Doc>, id: string)
    ensures IdCount(s + t, id) == IdCount(s, id) + IdCount(t, id)
  {
    if s == [] {
      assert s + t == t;
    } else {
      assert (s + t)[1..] == s[1..] + t;
      IdCountConcat(s[1..], t, id);
    }
  }

  /** The count at `id` splits around any position `k`. */
  lemma IdCountAround(s: seq<Doc>, k: nat, id: string)
    requires k < |s|
    ensures IdCount(s, id) == IdCount(s[..k], id) + (if s[k].id == id then 1 else 0) + IdCount(s[k + 1..], id)
  {
    assert s == s[..k] + ([s[k]] + s[k + 1..]);
    IdCountConcat(s[..k], [s[k]] + s[k + 1..], id);
    IdCountConcat([s[k]], s[k + 1..], id);
  }

  /** Reordering a list does not change how many documents hold an id. */
  lemma {:induction false} IdCountPermutation(s: seq<Doc>, t: seq<Doc>, id: string)
    requires multiset(s) == multiset(t)
    ensures IdCount(s, id) == IdCount(t, id)
  {
    if s == [] {
      assert |t| == |multiset(t)| == 0;
    } else {
      assert s[0] in multiset(t);
      var k :| 0 <= k < |t| && t[k] == s[0];
      var rest := t[..k] + t[k + 1..];
      RemoveAtMultiset(t, k);
      assert s == [s[0]] + s[1..];
      assert multiset(s[1..]) == multiset(rest);
      IdCountPermutation(s[1..], rest, id);
      IdCountAround(t, k, id);
      IdCountConcat(t[..k], t[k + 1..], id);
    }
  }

  lemma RemoveAtMultiset(t: seq<Doc>, k: nat)
    requires k < |t|
    ensures multiset(t[..k] + t[k + 1..]) == multiset(t) - multiset{t[k]}
  {
    assert t == t[..k] + [t[k]] + t[k + 1..];
  }

  /** Unique ids is "every document's id is held exactly once". */
  lemma UniqueIdsByCount(s: seq<Doc>)
    ensures UniqueIds(s) <==> forall k :: 0 <= k < |s| ==> IdCount(s, s[k].id) == 1
  {
    if UniqueIds(s) {
      forall k | 0 <= k < |s| ensures IdCount(s, s[k].id) == 1 {
        UniqueIdsCountOne(s, k);
      }
    }
    if forall k :: 0 <= k < |s| ==> IdCount(s, s[k].id) == 1 {
      forall i, j | 0 <= i < j < |s| ensures s[i].id != s[j].id {
        IdCountAround(s, j, s[j].id);
        assert s[..j][i] == s[i];
      }
    }
  }

  lemma UniqueIdsCountOne(s: seq<Doc>, k: nat)
    requires UniqueIds(s) && k < |s|
    ensures IdCount(s, s[k].id) == 1
  {
    IdCountAround(s, k, s[k].id);
    var before, after := s[..k], s[k + 1..];
    assert forall m :: 0 <= m < |before| ==> before[m] == s[m];
    assert forall m :: 0 <= m < |after| ==> after[m] == s[k + 1 + m];
  }

  /** Reordering a list keeps its ids unique. */
  lemma UniqueIdsPermutation(s: seq<Doc>, t: seq<Doc>)
    requires multiset(s) == multiset(t)
    requires UniqueIds(s)
    ensures UniqueIds(t)
  {
    UniqueIdsByCount(s);
    forall k | 0 <= k < |t| ensures IdCount(t, t[k].id) == 1 {
      assert t[k] in multiset(s);
      var m :| 0 <= m < |s| && s[m] == t[k];
      IdCountPermutation(s, t, t[k].id);
    }
    UniqueIdsByCount(t);
  }

  /** A change whose document carries the change's id never creates a duplicate id. */
  lemma ReconcileKeepsIdsUnique(s: seq<Doc>, c: Change)
    requires UniqueIds(s)
    requires c.doc.id == c.id
    ensures UniqueIds(Reconcile(s, c))
  {
    var r := Reconcile(s, c);
    var found := LastIndexOf(s, c.id);
    if c.deleted {
      var start := if found.Some? then found.value else 0;
      if start < |s| {
        assert forall i :: 0 <= i < |r| ==> r[i] == s[if i < start then i else i + 1];
      }
    } else if found.Some? {
      assert forall i :: 0 <= i < |r| ==> r[i].id == s[i].id;
    }
  }

  /** Delete is not idempotent: once a present id is deleted and the list
      re-sorted, a repeated delete of the same id removes another document. */
  lemma DeleteIsNotIdempotent(s: seq<Doc>, c: Change, k: nat, t: seq<Doc>)
    requires c.deleted && UniqueIds(s)
    requires k < |s| && s[k].id == c.id
    requires multiset(t) == multiset(Reconcile(s, c))
    ensures |t| == |s| - 1
    ensures Reconcile(t, c) == if t == [] then [] else t[1..]
    ensures |Reconcile(t, c)| == if |s| == 1 then 0 else |s| - 2
  {
    ReconcileDeletePresent(s, c, k);
    var r := Reconcile(s, c);
    assert forall i :: 0 <= i < |r| ==> r[i] == s[if i < k then i else i + 1];
    assert IdCount(r, c.id) == 0;
    IdCountPermutation(r, t, c.id);
    assert |t| == |multiset(t)| == |multiset(r)| == |r|;
    ReconcileDeleteAbsent(t, c);
  }
}
