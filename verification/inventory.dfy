/** handlers.ListInventory: the records on sale, the counting loop and the slice paging. */
module Inventory {
  import opened Models
  import opened Store
  import opened Protocol
  import opened Invariant
  import opened Paging
  import Query

  const LOW_STOCK_THRESHOLD := 5

  datatype InventoryItem = InventoryItem(
    id: string, title: string, artist: string, stock: int, lowStock: bool, reorderNeeded: bool)

  function ItemFor(rec: Record): InventoryItem {
    InventoryItem(rec.id, rec.title, rec.artist, rec.stock, 0 < rec.stock <= LOW_STOCK_THRESHOLD, rec.stock == 0)
  }

  function ItemsFor(records: seq<Record>): (items: seq<InventoryItem>)
    ensures |items| == |records|
  {
    seq(|records|, i requires 0 <= i < |records| => ItemFor(records[i]))
  }

  function Low(): InventoryItem -> bool { (item: InventoryItem) => item.lowStock }

  function Out(): InventoryItem -> bool { (item: InventoryItem) => item.reorderNeeded }

  function Healthy(): InventoryItem -> bool { (item: InventoryItem) => item.stock > LOW_STOCK_THRESHOLD }

  /** What the loop counts as low stock: it does not look at the flag. */
  function CountedLow(): InventoryItem -> bool {
    (item: InventoryItem) => item.stock != 0 && item.stock <= LOW_STOCK_THRESHOLD
  }

  function Negative(): InventoryItem -> bool { (item: InventoryItem) => item.stock < 0 }

  /** The records that are not archived. */
  function OnSale(docs: seq<Record>): seq<Record> {
    Select(docs, (rec: Record) => !rec.archived)
  }

  /** The items of all pages, one page after the other. */
  function AllPages(docs: seq<Record>, perPage: nat): seq<InventoryItem>
    requires perPage >= 1
  {
    Pages(ItemsFor(OnSale(docs)), PageCount(|OnSale(docs)|, perPage), perPage)
  }

  /** store.GetAllRecords: the filter document asks for `archived` to be false and for nothing else. */
  method GetAllRecords(docs: seq<Record>) returns (records: seq<Record>)
    ensures records == OnSale(docs)
  {
    var filter := map[Query.ARCHIVED := Query.Is(Query.Flag(false))];
    forall rec ensures Query.Matches(rec, filter) <==> !rec.archived {
      assert Query.Holds(Query.FieldOf(rec, Query.ARCHIVED), filter[Query.ARCHIVED]) <==> !rec.archived;
    }
    records := Select(docs, (rec: Record) => Query.Matches(rec, filter));
    SelectAgrees(docs, (rec: Record) => Query.Matches(rec, filter), (rec: Record) => !rec.archived);
  }

  /** Slice paging (handlers/inventory.go:72-88) stays in bounds and is a skip and a limit. */
  method Slice(all: seq<InventoryItem>, page: nat, perPage: nat) returns (items: seq<InventoryItem>)
    requires page >= 1 && perPage >= 1
    ensures items == Page(all, page, perPage)
    ensures |items| <= perPage
  {
    items := all;
    var total := |items|;
    SkipIsProduct(page, perPage);
    var offset := (page - 1) * perPage;
    if offset < total {
      var end := offset + perPage;
      if end > total { end := total; }
      items := items[offset..end];
    } else {
      items := [];
    }
  }

  /** One more record in the counts. */
  lemma CountNext(records: seq<Record>, i: nat)
    requires i < |records|
    ensures ItemsFor(records[..i + 1]) == ItemsFor(records[..i]) + [ItemFor(records[i])]
    ensures var before, after, stock := ItemsFor(records[..i]), ItemsFor(records[..i + 1]), records[i].stock;
      && |Select(after, Out())| == |Select(before, Out())| + (if stock == 0 then 1 else 0)
      && |Select(after, CountedLow())|
         == |Select(before, CountedLow())| + if stock != 0 && stock <= LOW_STOCK_THRESHOLD then 1 else 0
  {
    var before, item := ItemsFor(records[..i]), ItemFor(records[i]);
    assert ItemsFor(records[..i + 1]) == before + [item];
    SelectSnoc(before, item, Out());
    SelectSnoc(before, item, CountedLow());
  }

  lemma {:induction false} CountedLowSplits(items: seq<InventoryItem>)
    requires forall i :: 0 <= i < |items| ==> items[i].lowStock == (0 < items[i].stock <= LOW_STOCK_THRESHOLD)
    ensures |Select(items, CountedLow())| == |Select(items, Low())| + |Select(items, Negative())|
    decreases |items|
  {
    if items != [] {
      CountedLowSplits(items[..|items| - 1]);
    }
  }

  /** The counting loop (handlers/inventory.go:49-70). */
  method Tally(records: seq<Record>) returns (items: seq<InventoryItem>, low: nat, out: nat)
    ensures items == ItemsFor(records)
    ensures out == |Select(records, (rec: Record) => rec.stock == 0)|
    ensures low == |Select(records, (rec: Record) => rec.stock != 0 && rec.stock <= 5)|
    ensures out == |Select(ItemsFor(records), Out())|
    ensures low == |Select(ItemsFor(records), CountedLow())|
    ensures low == |Select(ItemsFor(records), Low())| + |Select(ItemsFor(records), Negative())|
  {
    items, low, out := [], 0, 0;
    for i := 0 to |records|
      invariant items == ItemsFor(records[..i])
      invariant out == |Select(ItemsFor(records[..i]), Out())|
      invariant low == |Select(ItemsFor(records[..i]), CountedLow())|
    {
      var rec := records[i];
      CountNext(records, i);
      items := items + [InventoryItem(rec.id, rec.title, rec.artist, rec.stock,
                                      rec.stock > 0 && rec.stock <= LOW_STOCK_THRESHOLD, rec.stock == 0)];
      if rec.stock == 0 {
        out := out + 1;
      } else if rec.stock <= LOW_STOCK_THRESHOLD {
        low := low + 1;
      }
    }
    assert records[..|records|] == records;
    CountedLowSplits(ItemsFor(records));
    SelectCarriesOver(records, (rec: Record) => rec.stock == 0, Out());
    SelectCarriesOver(records, (rec: Record) => rec.stock != 0 && rec.stock <= 5, CountedLow());
  }

  /** Counting items is counting their records. */
  lemma {:induction false} SelectCarriesOver(records: seq<Record>, p: Record -> bool, q: InventoryItem -> bool)
    requires forall rec :: p(rec) == q(ItemFor(rec))
    ensures |Select(records, p)| == |Select(ItemsFor(records), q)|
    decreases |records|
  {
    if records != [] {
      var n := |records| - 1;
      SelectCarriesOver(records[..n], p, q);
      assert ItemsFor(records)[..n] == ItemsFor(records[..n]);
    }
  }

  lemma {:induction false} ItemsPartition(items: seq<InventoryItem>, records: seq<Record>)
    requires items == ItemsFor(records)
    ensures |Select(items, Low())| + |Select(items, Out())|
         + |Select(items, Healthy())| + |Select(items, Negative())| == |items|
    decreases |records|
  {
    if records != [] {
      ItemsPartition(items[..|items| - 1], records[..|records| - 1]);
    }
  }

  lemma {:induction false} SelectEmpty<T>(xs: seq<T>, p: T -> bool)
    ensures Select(xs, p) == [] <==> forall x :: x in xs ==> !p(x)
    decreases |xs|
  {
    if xs != [] {
      var n := |xs| - 1;
      SelectEmpty(xs[..n], p);
      assert xs == xs[..n] + [xs[n]];
    }
  }

  /** The low-stock counter equals the number of flagged items if and only if no stock is negative. */
  lemma CountersAgreeExactlyWhen(records: seq<Record>)
    ensures var items := ItemsFor(records);
            |Select(items, CountedLow())| == |Select(items, Low())| <==> forall rec :: rec in records ==> rec.stock >= 0
  {
    var items := ItemsFor(records);
    CountedLowSplits(ItemsFor(records));
    SelectEmpty(items, Negative());
    if forall rec :: rec in records ==> rec.stock >= 0 {
      forall item | item in items ensures item.stock >= 0 {
        var i :| 0 <= i < |items| && items[i] == item;
        assert records[i] in records;
      }
    } else {
      var rec :| rec in records && rec.stock < 0;
      var i :| 0 <= i < |records| && records[i] == rec;
      assert items[i] in items && items[i].stock < 0;
    }
  }

  /** The records on sale are the unarchived ones, each as often as it is stored. */
  lemma OnSaleIs(docs: seq<Record>, rec: Record)
    ensures multiset(OnSale(docs))[rec] == if rec.archived then 0 else multiset(docs)[rec]
  {
    SelectCounts(docs, (other: Record) => !other.archived, rec);
  }

  lemma OnSaleHas(docs: seq<Record>)
    ensures forall rec :: rec in OnSale(docs) <==> rec in docs && !rec.archived
  {
    forall rec ensures rec in OnSale(docs) <==> rec in docs && !rec.archived {
      OnSaleIs(docs, rec);
      assert rec in docs <==> rec in multiset(docs);
      assert rec in OnSale(docs) <==> rec in multiset(OnSale(docs));
    }
  }

  /** What item `k` of a page shows: the record at its place among those on sale. */
  lemma PageShows(docs: seq<Record>, page: nat, perPage: nat, k: nat)
    requires page >= 1 && k < |Page(ItemsFor(OnSale(docs)), page, perPage)|
    ensures Skip(page, perPage) == (page - 1) * perPage && Skip(page, perPage) + k < |OnSale(docs)|
    ensures var item, rec := Page(ItemsFor(OnSale(docs)), page, perPage)[k], OnSale(docs)[Skip(page, perPage) + k];
      && item.id == rec.id && item.title == rec.title && item.artist == rec.artist && item.stock == rec.stock
      && (item.lowStock <==> 1 <= rec.stock <= 5)
      && (item.reorderNeeded <==> rec.stock == 0)
  {
    SkipIsProduct(page, perPage);
  }

  lemma CountsOfPages(docs: seq<Record>, all: seq<InventoryItem>, perPage: nat)
    requires perPage >= 1 && all == ItemsFor(OnSale(docs))
    ensures |AllPages(docs, perPage)| == |all|
    ensures |Select(AllPages(docs, perPage), Out())| == |Select(all, Out())|
    ensures |Select(AllPages(docs, perPage), CountedLow())| == |Select(all, CountedLow())|
    ensures |Select(all, CountedLow())| == |Select(AllPages(docs, perPage), Low())|
       <==> forall rec :: rec in docs && !rec.archived ==> rec.stock >= 0
  {
    assert AllPages(docs, perPage) == all by { PagesPartition(all, perPage); }
    CountersAgreeExactlyWhen(OnSale(docs));
    OnSaleHas(docs);
  }

  /**
   * One page of the unarchived records, with counters over all pages. The out-of-stock counter is always the
   * number of items flagged for reorder; the low-stock counter is the number of items flagged low if and only
   * if no record on sale has a negative stock.
   */
  method ListInventory(docs: seq<Record>, page: nat, perPage: nat)
    returns (items: seq<InventoryItem>, low: nat, out: nat, total: nat)
    requires page >= 1 && perPage >= 1
    ensures items == Page(ItemsFor(OnSale(docs)), page, perPage)
    ensures Skip(page, perPage) == (page - 1) * perPage
    ensures items != [] ==> Skip(page, perPage) + |items| <= |OnSale(docs)|
    ensures forall k :: 0 <= k < |items| ==>
      var rec := OnSale(docs)[Skip(page, perPage) + k];
      && items[k].id == rec.id && items[k].title == rec.title && items[k].artist == rec.artist
      && items[k].stock == rec.stock && (items[k].lowStock <==> 1 <= rec.stock <= 5)
      && (items[k].reorderNeeded <==> rec.stock == 0)
    ensures out == |Select(OnSale(docs), (rec: Record) => rec.stock == 0)|
    ensures low == |Select(OnSale(docs), (rec: Record) => rec.stock != 0 && rec.stock <= 5)|
    ensures total == |AllPages(docs, perPage)| == |OnSale(docs)|
    ensures out == |Select(AllPages(docs, perPage), Out())|
    ensures low == |Select(AllPages(docs, perPage), CountedLow())|
    ensures low == |Select(AllPages(docs, perPage), Low())|
       <==> forall rec :: rec in docs && !rec.archived ==> rec.stock >= 0
  {
    var records := GetAllRecords(docs);
    var all;
    all, low, out := Tally(records);
    total := |all|;
    items := Slice(all, page, perPage);
    forall k | 0 <= k < |items|
      ensures Skip(page, perPage) + k < |OnSale(docs)|
      ensures var rec := OnSale(docs)[Skip(page, perPage) + k];
        && items[k].id == rec.id && items[k].title == rec.title && items[k].artist == rec.artist
        && items[k].stock == rec.stock && (items[k].lowStock <==> 1 <= rec.stock <= 5)
        && (items[k].reorderNeeded <==> rec.stock == 0)
    {
      PageShows(docs, page, perPage, k);
    }
    SkipIsProduct(page, perPage);
    CountsOfPages(docs, all, perPage);
  }

  // ---- in reachable states ----

  predicate DistinctIds(docs: seq<Record>) {
    forall i, j :: 0 <= i < j < |docs| ==> docs[i].id != docs[j].id
  }

  /** `docs` are the documents of the record collection, in some order. */
  predicate Lists(docs: seq<Record>, db: Db) {
    && DistinctIds(docs)
    && (forall rec :: rec in docs ==> rec.id in db.records && db.records[rec.id] == rec)
    && (forall id :: id in db.records ==> db.records[id] in docs)
  }

  function OnSaleIds(db: Db): set<string> {
    set id | id in db.records && !db.records[id].archived
  }

  function ItemIds(items: seq<InventoryItem>): set<string> {
    set item | item in items :: item.id
  }

  lemma {:induction false} SelectDistinct(docs: seq<Record>, p: Record -> bool)
    requires DistinctIds(docs)
    ensures DistinctIds(Select(docs, p))
    decreases |docs|
  {
    if docs != [] {
      var n := |docs| - 1;
      SelectDistinct(docs[..n], p);
      forall rec | rec in Select(docs[..n], p) ensures rec.id != docs[n].id {
        assert rec in docs[..n];
      }
    }
  }

  lemma ItemIdsSnoc(items: seq<InventoryItem>, item: InventoryItem)
    ensures ItemIds(items + [item]) == ItemIds(items) + {item.id}
  {
    assert forall other :: other in items + [item] <==> other in items || other == item;
  }

  lemma {:induction false} IdsCount(items: seq<InventoryItem>)
    requires forall i, j :: 0 <= i < j < |items| ==> items[i].id != items[j].id
    ensures |ItemIds(items)| == |items|
    decreases |items|
  {
    if items != [] {
      var n := |items| - 1;
      IdsCount(items[..n]);
      ItemIdsSnoc(items[..n], items[n]);
      assert items == items[..n] + [items[n]];
      assert items[n].id !in ItemIds(items[..n]);
    }
  }

  lemma IdsOnSale(docs: seq<Record>, db: Db)
    requires DbOk(db) && Lists(docs, db)
    ensures ItemIds(ItemsFor(OnSale(docs))) == OnSaleIds(db)
  {
    var records := OnSale(docs);
    var items := ItemsFor(records);
    OnSaleHas(docs);
    forall id | id in OnSaleIds(db) ensures id in ItemIds(items) {
      assert RecordOk(id, db.records[id]);
      var i :| 0 <= i < |records| && records[i] == db.records[id];
      assert items[i] in items;
    }
    forall id | id in ItemIds(items) ensures id in OnSaleIds(db) {
      var i :| 0 <= i < |items| && items[i].id == id;
      assert records[i] in records;
    }
  }

  /**
   * In every state that the handlers can reach: the counters of ListInventory are the numbers of flagged items
   * over all its pages; low, out-of-stock and healthy items partition the inventory; and the pages together
   * show every unarchived record of the store once and nothing else.
   */
  lemma ReachableInventory(s: System, ls: seq<Label>, docs: seq<Record>, perPage: nat)
    requires Inv(s) && Lists(docs, Exec(s, ls).db) && perPage >= 1
    ensures var shown := AllPages(docs, perPage); var onSale := OnSaleIds(Exec(s, ls).db);
      && |Select(shown, CountedLow())| == |Select(shown, Low())|
      && |Select(shown, Low())| + |Select(shown, Out())| + |Select(shown, Healthy())| == |shown|
      && ItemIds(shown) == onSale && |shown| == |onSale|
  {
    var records := OnSale(docs);
    AlwaysOk(s, ls);
    PagesPartition(ItemsFor(records), perPage);
    forall rec | rec in records ensures rec.stock >= 0 {
      assert rec in docs && RecordOk(rec.id, Exec(s, ls).db.records[rec.id]);
    }
    CountersAgreeExactlyWhen(records);
    CountedLowSplits(ItemsFor(records));
    ItemsPartition(ItemsFor(records), records);
    IdsOnSale(docs, Exec(s, ls).db);
    SelectDistinct(docs, (rec: Record) => !rec.archived);
    IdsCount(ItemsFor(records));
  }

  /** The pages of the inventory are the whole inventory. */
  lemma InventoryPagesCover(records: seq<Record>, perPage: nat)
    requires perPage >= 1
    ensures Pages(ItemsFor(records), PageCount(|records|, perPage), perPage) == ItemsFor(records)
  {
    PagesPartition(ItemsFor(records), perPage);
  }
}
