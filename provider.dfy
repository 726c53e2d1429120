/**
 * The transaction provider's in-memory cache: the `data` field, filled once
 * from a full snapshot of the store and then kept up to date, one delivered
 * change at a time, by `handleChange`.
 */
module Provider {
  import opened Wrappers
  import opened Transaction

  /** What the promise returned by `getAllTransactions` does: resolve with
      the cached list, or never settle (a failed load is only logged). */
  datatype Reply = Resolved(docs: seq<Doc>) | NeverSettles

  class TransactionProvider {
    /** `this.data`: None (undefined) until a load succeeds. Any list, even
        an empty one, counts as set. The change listener is registered in
        the same callback that sets it, so Some also means "subscribed". */
    var data: Option<seq<Doc>>

    /** Once loaded, the cache is ordered newest first. */
    ghost predicate Valid()
      reads this
    {
      data.Some? ==> SortedDesc(data.value)
    }

    /** The provider as constructed: nothing cached, nothing subscribed. */
    constructor ()
      ensures Valid() && data == None
    {
      data := None;
    }

    /** `getAllTransactions`. `snapshot` stands for what `allDocs` would
        answer; it is consulted only when `readStore` is true, that is, on
        every call made while nothing is cached (there is no shared load). */
    method GetAllTransactions(snapshot: Result<seq<Row>>) returns (reply: Reply, readStore: bool)
      requires Valid()
      modifies this
      ensures Valid()
      ensures readStore <==> old(data).None?
      ensures old(data).Some? ==> data == old(data) && reply == Resolved(old(data).value)
      ensures old(data).None? && snapshot.Failure? ==> data == None && reply == NeverSettles
      ensures old(data).None? && snapshot.Success? ==>
        && data.Some?
        && reply == Resolved(data.value)
        && SortedDesc(data.value)
        && multiset(data.value) == multiset(RowDocs(snapshot.value))
      ensures old(data).None? && snapshot.Success? && UniqueIds(RowDocs(snapshot.value)) ==>
        data.Some? && UniqueIds(data.value)
    {
      if data.Some? {
        reply, readStore := Resolved(data.value), false;
        return;
      }
      readStore := true;
      match snapshot {
        case Failure(_) =>
          reply := NeverSettles;
        case Success(rows) =>
          var docs: seq<Doc> := [];
          var i := 0;
          while i < |rows|
            invariant 0 <= i <= |rows|
            invariant docs == RowDocs(rows[..i])
          {
            docs := docs + [rows[i].doc];
            i := i + 1;
          }
          assert rows[..|rows|] == rows;
          var buffer := new Doc[|docs|](k requires 0 <= k < |docs| => docs[k]);
          assert buffer[..] == docs;
          SortByDate(buffer);
          data := Some(buffer[..]);
          reply := Resolved(buffer[..]);
          if UniqueIds(docs) {
            UniqueIdsPermutation(docs, buffer[..]);
          }
      }
    }

    /** The `forEach` scan of `handleChange`: it remembers every index whose
        document has the change's id, so it ends on the last one. */
    method FindChanged(id: string) returns (changedIndex: Option<nat>)
      requires data.Some?
      ensures changedIndex.Some? ==> changedIndex.value < |data.value| && data.value[changedIndex.value].id == id
      ensures changedIndex.Some? ==> forall k :: changedIndex.value < k < |data.value| ==> data.value[k].id != id
      ensures changedIndex.None? ==> forall k :: 0 <= k < |data.value| ==> data.value[k].id != id
      ensures changedIndex == LastIndexOf(data.value, id)
    {
      var list := data.value;
      changedIndex := None;
      var index := 0;
      while index < |list|
        invariant 0 <= index <= |list|
        invariant changedIndex == LastIndexOf(list[..index], id)
      {
        assert list[..index + 1][..index] == list[..index];
        if list[index].id == id {
          changedIndex := Some(index);
        }
        index := index + 1;
      }
      assert list[..|list|] == list;
    }

    /** `handleChange`: applies one delivered change to the cache, then
        re-sorts the whole list. */
    method HandleChange(change: Change)
      requires Valid() && data.Some?
      modifies this
      ensures Valid() && data.Some?
      ensures SortedDesc(data.value)
      ensures multiset(data.value) == multiset(Reconcile(old(data.value), change))
      ensures UniqueIds(old(data.value)) && change.doc.id == change.id ==> UniqueIds(data.value)
    {
      var changedIndex := FindChanged(change.id);
      var list := data.value;
      if change.deleted {
        // splice(changedIndex, 1), where a null index reads as 0
        var start := if changedIndex.Some? then changedIndex.value else 0;
        if start < |list| {
          list := list[..start] + list[start + 1..];
        }
      } else if changedIndex.Some? {
        list := list[changedIndex.value := change.doc];
      } else {
        list := list + [change.doc];
      }
      assert list == Reconcile(old(data.value), change);
      var buffer := new Doc[|list|](k requires 0 <= k < |list| => list[k]);
      assert buffer[..] == list;
      SortByDate(buffer);
      if UniqueIds(old(data.value)) && change.doc.id == change.id {
        ReconcileKeepsIdsUnique(old(data.value), change);
        UniqueIdsPermutation(list, buffer[..]);
      }
      data := Some(buffer[..]);
    }
  }

  /** A list with two documents of different dates has one sorted order. */
  lemma SortedPair(t: seq<Doc>, newer: Doc, older: Doc)
    requires newer.date > older.date
    requires multiset(t) == multiset{newer, older}
    requires SortedDesc(t)
    ensures t == [newer, older]
  {
    assert |t| == |multiset(t)| == 2;
    assert t[0] in multiset(t) && t[1] in multiset(t);
    assert multiset(t) == multiset{t[0], t[1]} by {
      assert t == [t[0], t[1]];
    }
  }

  /** A list holding one document is that document alone. */
  lemma Single(t: seq<Doc>, d: Doc)
    requires multiset(t) == multiset{d}
    ensures t == [d]
  {
    assert |t| == |multiset(t)| == 1;
    assert t[0] in multiset(t);
  }

  /** A change delivered after the first load is not lost: loading
      [{1, date 10}] and then receiving an insert of {2, date 20} leaves
      [{2, date 20}, {1, date 10}] cached. */
  method ChangeAfterLoad() {
    var provider := new TransactionProvider();
    var first, second := Doc("1", 10, ""), Doc("2", 20, "");
    var reply, readStore := provider.GetAllTransactions(Success([Row(first)]));
    assert RowDocs([Row(first)]) == [first];
    assert readStore && provider.data.Some?;
    Single(provider.data.value, first);
    assert provider.data == Some([first]) && reply == Resolved([first]);

    reply, readStore := provider.GetAllTransactions(Failure("offline"));
    assert !readStore && reply == Resolved([first]);

    provider.HandleChange(Change("2", false, second));
    ReconcileInsertAbsent([first], Change("2", false, second));
    SortedPair(provider.data.value, second, first);
    assert provider.data == Some([second, first]);
  }

  /** An update of a cached id replaces it in place instead of adding a
      second entry; deleting that id twice empties a two-entry cache. */
  method UpdateThenDeleteTwice() {
    var provider := new TransactionProvider();
    var old1, new1, other := Doc("1", 5, "100"), Doc("1", 5, "200"), Doc("2", 3, "");
    var reply, readStore := provider.GetAllTransactions(Success([Row(old1), Row(other)]));
    assert RowDocs([Row(old1), Row(other)]) == [old1, other];
    SortedPair(provider.data.value, old1, other);

    provider.HandleChange(Change("1", false, new1));
    ReconcileUpdatePresent([old1, other], Change("1", false, new1), 0);
    assert [old1, other][0 := new1] == [new1, other];
    SortedPair(provider.data.value, new1, other);
    assert provider.data == Some([new1, other]);

    provider.HandleChange(Change("1", true, new1));
    ReconcileDeletePresent([new1, other], Change("1", true, new1), 0);
    assert |provider.data.value| == 1;
    provider.HandleChange(Change("1", true, new1));
    assert provider.data == Some([]);
  }
}
