/** Concrete schedules on which the claims fail without their conditions. */
module Witness {
  import opened Models
  import opened Store
  import opened Protocol
  import opened Invariant
  import opened Conservation
  import opened Cancellation

  const MINT := Mint("o9", 9)

  function Disc(stock: int, archived: bool): Record {
    Record("r", 0, "Kind of Blue", "Miles Davis", 1959,
           "Columbia", "CL 1355", "lp", "jazz", "nm", 10.0, stock, "", archived)
  }

  const ITEM := OrderItem("r", "Kind of Blue", "Miles Davis", 10.0, 2)

  function Sale(status: Status): Order {
    Order("o1", 0, "u", [ITEM], 20.0, status, Address("1 Main St", "San Francisco", "CA", "94102", "USA"))
  }

  function Shelf(stock: int, archived: bool): Db {
    Db(map["r" := Disc(stock, archived)], map[])
  }

  function Step(cid: nat): Label {
    Advance(cid, false, MINT)
  }

  function Restock(quantity: int, read: Option<Record>): Call {
    RestockRecord("r", quantity, read)
  }

  lemma ShelfIsSound()
    ensures Inv(System(Shelf(5, false), map[]))
  {
  }

  lemma OrderedIsSound()
    ensures Inv(System(Ordered(3, Pending), map[]))
  {
    assert [ITEM][..0] == [];
  }

  /** Two overlapping restocks, of three and of two units. */
  const TWO_RESTOCKS: seq<Label> :=
    [Arrive(0, Restock(3, None)), Arrive(1, Restock(2, None)), Step(0), Step(1), Step(0), Step(1)]

  /** On a shelf of five, both report success and seven units are on the shelf. */
  lemma LostRestock()
    ensures Inv(System(Shelf(5, false), map[]))
    ensures var disc := Some(Disc(5, false));
            Exec(System(Shelf(5, false), map[]), TWO_RESTOCKS)
            == System(Shelf(7, false), map[0 := Ended(Restock(3, disc), RecordRestocked),
                                           1 := Ended(Restock(2, disc), RecordRestocked)])
  {
    ShelfIsSound();
    var read := Some(Disc(5, false));
    var done := Ended(Restock(3, read), RecordRestocked);
    Traces([System(Shelf(5, false), map[]),
            System(Shelf(5, false), map[0 := Restock(3, None)]),
            System(Shelf(5, false), map[0 := Restock(3, None), 1 := Restock(2, None)]),
            System(Shelf(5, false), map[0 := Restock(3, read), 1 := Restock(2, None)]),
            System(Shelf(5, false), map[0 := Restock(3, read), 1 := Restock(2, read)]),
            System(Shelf(8, false), map[0 := done, 1 := Restock(2, read)]),
            System(Shelf(7, false), map[0 := done, 1 := Ended(Restock(2, read), RecordRestocked)])],
           TWO_RESTOCKS);
  }

  function Cancel(order: Option<Order>, next: nat, copy: Option<Record>): Call {
    CancelOrder("u", false, "o1", order, next, copy)
  }

  /** A shelf of three units beside one order for two. */
  function Ordered(stock: int, status: Status): Db {
    Db(map["r" := Disc(stock, false)], map["o1" := Sale(status)])
  }

  const BOTH_READ: seq<Label> := [Arrive(0, Cancel(None, 0, None)), Arrive(1, Cancel(None, 0, None)), Step(0), Step(1)]

  /** Two cancellations of one order for two units that have both read it: both succeed and four units come back. */
  lemma RestoredTwice()
    ensures Inv(System(Ordered(3, Pending), map[]))
    ensures var o := Some(Sale(Pending));
            Exec(System(Ordered(3, Pending), map[]), BOTH_READ +
                [Step(0), Step(0), Step(0)] + [Step(1), Step(1), Step(1)])
            == System(Ordered(7, Cancelled), map[0 := Ended(Cancel(o, 1, None), OrderCancelled),
                                                 1 := Ended(Cancel(o, 1, None), OrderCancelled)])
  {
    var s := System(Ordered(3, Pending), map[]);
    var read, ended :=
        Cancel(Some(Sale(Pending)), 0, None), Ended(Cancel(Some(Sale(Pending)), 1, None), OrderCancelled);
    OrderedIsSound();
    BothRead();
    CancelsAlone(3, Pending, 0, map[1 := read]);
    assert map[1 := read][0 := ended] == map[0 := ended][1 := read];
    CancelsAlone(5, Cancelled, 1, map[0 := ended]);
    ExecConcat(s, BOTH_READ, [Step(0), Step(0), Step(0)]);
    ExecConcat(s, BOTH_READ + [Step(0), Step(0), Step(0)], [Step(1), Step(1), Step(1)]);
  }

  lemma BothRead()
    ensures var read := Cancel(Some(Sale(Pending)), 0, None);
            Exec(System(Ordered(3, Pending), map[]), BOTH_READ)
            == System(Ordered(3, Pending), map[1 := read][0 := read])
  {
    var start, read := Cancel(None, 0, None), Cancel(Some(Sale(Pending)), 0, None);
    Traces([System(Ordered(3, Pending), map[]),
            System(Ordered(3, Pending), map[0 := start]),
            System(Ordered(3, Pending), map[0 := start, 1 := start]),
            System(Ordered(3, Pending), map[0 := read, 1 := start]),
            System(Ordered(3, Pending), map[0 := read, 1 := read])],
           BOTH_READ);
  }

  // The four store calls of a cancellation of that order.

  lemma ReadsOrder(stock: int, cid: nat, others: map<nat, Call>)
    ensures Next(System(Ordered(stock, Pending), others[cid := Cancel(None, 0, None)]), Step(cid))
         == System(Ordered(stock, Pending), others[cid := Cancel(Some(Sale(Pending)), 0, None)])
  {
    var c := Cancel(Some(Sale(Pending)), 0, None);
    assert others[cid := Cancel(None, 0, None)][cid := c] == others[cid := c];
  }

  lemma ReadsRecord(stock: int, status: Status, cid: nat, others: map<nat, Call>)
    ensures var o := Some(Sale(Pending));
            Next(System(Ordered(stock, status), others[cid := Cancel(o, 0, None)]), Step(cid))
            == System(Ordered(stock, status), others[cid := Cancel(o, 0, Some(Disc(stock, false)))])
  {
    var o := Some(Sale(Pending));
    var c := Cancel(o, 0, Some(Disc(stock, false)));
    assert others[cid := Cancel(o, 0, None)][cid := c] == others[cid := c];
  }

  lemma PutsBack(stock: int, status: Status, cid: nat, others: map<nat, Call>)
    ensures var o := Some(Sale(Pending));
            Next(System(Ordered(stock, status), others[cid := Cancel(o, 0, Some(Disc(stock, false)))]), Step(cid))
            == System(Ordered(stock + 2, status), others[cid := Cancel(o, 1, None)])
  {
    var o := Some(Sale(Pending));
    var c := Cancel(o, 1, None);
    assert others[cid := Cancel(o, 0, Some(Disc(stock, false)))][cid := c] == others[cid := c];
  }

  lemma Marks(stock: int, status: Status, cid: nat, others: map<nat, Call>)
    ensures var o := Some(Sale(Pending));
            Next(System(Ordered(stock, status), others[cid := Cancel(o, 1, None)]), Step(cid))
            == System(Ordered(stock, Cancelled), others[cid := Ended(Cancel(o, 1, None), OrderCancelled)])
  {
    var c := Cancel(Some(Sale(Pending)), 1, None);
    assert others[cid := c][cid := Ended(c, OrderCancelled)] == others[cid := Ended(c, OrderCancelled)];
  }

  /** A cancellation that has read its order while it was pending, run to its end; it is fresh if the order still is. */
  lemma CancelsAlone(stock: int, status: Status, cid: nat, others: map<nat, Call>)
    ensures var o := Some(Sale(Pending));
            var s := System(Ordered(stock, status), others[cid := Cancel(o, 0, None)]);
            var ls := [Step(cid), Step(cid), Step(cid)];
      && Exec(s, ls) == System(Ordered(stock + 2, Cancelled), others[cid := Ended(Cancel(o, 1, None), OrderCancelled)])
      && (status.Pending? ==> FreshRun(s, ls))
  {
    var o := Some(Sale(Pending));
    ReadsRecord(stock, status, cid, others);
    PutsBack(stock, status, cid, others);
    Marks(stock + 2, status, cid, others);
    Traces([System(Ordered(stock, status), others[cid := Cancel(o, 0, None)]),
            System(Ordered(stock, status), others[cid := Cancel(o, 0, Some(Disc(stock, false)))]),
            System(Ordered(stock + 2, status), others[cid := Cancel(o, 1, None)]),
            System(Ordered(stock + 2, Cancelled), others[cid := Ended(Cancel(o, 1, None), OrderCancelled)])],
           [Step(cid), Step(cid), Step(cid)]);
  }

  /** A cancellation that puts the units back and fails at the status write, then a second one that reads the order. */
  const FAILS_AT_THE_END: seq<Label> :=
    [Arrive(0, Cancel(None, 0, None)), Step(0), Step(0), Step(0), Advance(0, true, MINT),
     Arrive(1, Cancel(None, 0, None)), Step(1)]

  /**
   * A cancellation that the store fails at its status write has put its units back and left the order pending,
   * so cancelling again restores them again: no calls overlap, the run is fresh and the order is marked once.
   */
  lemma RestoredByRetry()
    ensures var s := System(Ordered(3, Pending), map[]); var o := Some(Sale(Pending));
            var ls := FAILS_AT_THE_END + [Step(1), Step(1), Step(1)];
      && Inv(s) && FreshRun(s, ls) && MarkedOnce(s, ls, "o1")
      && Exec(s, ls) == System(Ordered(7, Cancelled), map[0 := Ended(Cancel(o, 1, None), StoreError),
                                                          1 := Ended(Cancel(o, 1, None), OrderCancelled)])
      && LeftHalfway(Exec(s, ls).calls[0], "o1")
  {
    var s := System(Ordered(3, Pending), map[]);
    var failed := Ended(Cancel(Some(Sale(Pending)), 1, None), StoreError);
    var last := [Step(1), Step(1), Step(1)];
    OrderedIsSound();
    FailsAtTheEnd();
    CancelsAlone(5, Pending, 1, map[0 := failed]);
    ExecConcat(s, FAILS_AT_THE_END, last);
    FreshConcat(s, FAILS_AT_THE_END, last);
    FreshMarksOnce(s, FAILS_AT_THE_END + last, "o1");
    AgainSumIsZero(s, FAILS_AT_THE_END + last, "o1");
  }

  lemma FailsAtTheEnd()
    ensures var s := System(Ordered(3, Pending), map[]); var o := Some(Sale(Pending));
            var failed := Ended(Cancel(o, 1, None), StoreError);
      && FreshRun(s, FAILS_AT_THE_END)
      && Exec(s, FAILS_AT_THE_END) == System(Ordered(5, Pending), map[0 := failed][1 := Cancel(o, 0, None)])
  {
    var start, o, none := Cancel(None, 0, None), Some(Sale(Pending)), map[];
    var failed := Ended(Cancel(o, 1, None), StoreError);
    ReadsOrder(3, 0, none);
    ReadsRecord(3, Pending, 0, none);
    PutsBack(3, Pending, 0, none);
    ReadsOrder(5, 1, map[0 := failed]);
    assert none[0 := Cancel(o, 1, None)][0 := failed] == map[0 := failed];
    Traces([System(Ordered(3, Pending), none),
            System(Ordered(3, Pending), none[0 := start]),
            System(Ordered(3, Pending), none[0 := Cancel(o, 0, None)]),
            System(Ordered(3, Pending), none[0 := Cancel(o, 0, Some(Disc(3, false)))]),
            System(Ordered(5, Pending), none[0 := Cancel(o, 1, None)]),
            System(Ordered(5, Pending), map[0 := failed]),
            System(Ordered(5, Pending), map[0 := failed][1 := start]),
            System(Ordered(5, Pending), map[0 := failed][1 := Cancel(o, 0, None)])],
           FAILS_AT_THE_END);
  }

  const RESTOCK_OVER_ARCHIVE: seq<Label> :=
    [Arrive(0, Restock(3, None)), Step(0), Arrive(1, ArchiveRecord("r", None)), Step(1), Step(1), Step(0)]

  /** A restock that saves after an archiving has succeeded puts the record back on sale. */
  lemma ArchivingUndone()
    ensures Inv(System(Shelf(5, false), map[]))
    ensures var disc := Some(Disc(5, false));
            Exec(System(Shelf(5, false), map[]), RESTOCK_OVER_ARCHIVE)
            == System(Shelf(8, false), map[0 := Ended(Restock(3, disc), RecordRestocked),
                                           1 := Ended(ArchiveRecord("r", disc), RecordArchived)])
  {
    ShelfIsSound();
    var disc := Some(Disc(5, false));
    var archived := Ended(ArchiveRecord("r", disc), RecordArchived);
    Traces([System(Shelf(5, false), map[]),
            System(Shelf(5, false), map[0 := Restock(3, None)]),
            System(Shelf(5, false), map[0 := Restock(3, disc)]),
            System(Shelf(5, false), map[0 := Restock(3, disc), 1 := ArchiveRecord("r", None)]),
            System(Shelf(5, false), map[0 := Restock(3, disc), 1 := ArchiveRecord("r", disc)]),
            System(Shelf(5, true), map[0 := Restock(3, disc), 1 := archived]),
            System(Shelf(8, false), map[0 := Ended(Restock(3, disc), RecordRestocked), 1 := archived])],
           RESTOCK_OVER_ARCHIVE);
  }

  function Buy(items: seq<OrderItem>, seen: Option<Record>): Call {
    CreateOrder("u", [Line("r", 2)], Sale(Pending).address, items, seen)
  }

  const ARCHIVE_AFTER_CHECK: seq<Label> :=
    [Arrive(0, Buy([], None)), Step(0), Arrive(1, ArchiveRecord("r", None)), Step(1), Step(1)]

  /**
   * The archived check and the decrement of an order are two store calls: even when every save is fresh,
   * units of a record already archived can be taken.
   */
  lemma SoldAfterArchiving()
    ensures var s := System(Shelf(5, false), map[]); var disc := Some(Disc(5, false));
            var archived := Ended(ArchiveRecord("r", disc), RecordArchived);
            var mid := System(Shelf(5, true), map[0 := Buy([], disc), 1 := archived]);
      && Inv(s) && FreshRun(s, ARCHIVE_AFTER_CHECK)
      && Exec(s, ARCHIVE_AFTER_CHECK) == mid
      && Next(mid, Step(0)) == System(Shelf(3, true), map[0 := Buy([ITEM], None), 1 := archived])
  {
    ShelfIsSound();
    ArchiveAfterCheck();
    assert [] + [ITEM] == [ITEM];
  }

  lemma ArchiveAfterCheck()
    ensures var s := System(Shelf(5, false), map[]); var disc := Some(Disc(5, false));
      && FreshRun(s, ARCHIVE_AFTER_CHECK)
      && Exec(s, ARCHIVE_AFTER_CHECK)
         == System(Shelf(5, true), map[0 := Buy([], disc), 1 := Ended(ArchiveRecord("r", disc), RecordArchived)])
  {
    var disc := Some(Disc(5, false));
    var archived := Ended(ArchiveRecord("r", disc), RecordArchived);
    Traces([System(Shelf(5, false), map[]),
            System(Shelf(5, false), map[0 := Buy([], None)]),
            System(Shelf(5, false), map[0 := Buy([], disc)]),
            System(Shelf(5, false), map[0 := Buy([], disc), 1 := ArchiveRecord("r", None)]),
            System(Shelf(5, false), map[0 := Buy([], disc), 1 := ArchiveRecord("r", disc)]),
            System(Shelf(5, true), map[0 := Buy([], disc), 1 := archived])],
           ARCHIVE_AFTER_CHECK);
  }
}
