/** The documents of the vinyl store (models/record.go, models/order.go) and the sums taken over them. */
module Models {

  datatype Option<+T> = None | Some(value: T)

  /** What the id generator and the clock hand to a constructor. */
  datatype Mint = Mint(id: string, now: int)

  // ---- records ----

  const FORMATS: set<string> := {"lp", "7in", "10in", "12in"}
  const GENRES: set<string> := {"jazz", "rock", "electronic", "hip-hop", "classical", "soul", "funk", "blues"}
  const CONDITIONS: set<string> := {"mint", "nm-", "nm", "vg+", "vg", "g+"}

  datatype Record = Record(
    id: string, createdAt: int, title: string, artist: string, year: int, labelName: string, catalogNumber: string,
    format: string, genre: string, condition: string, price: real, stock: int, description: string, archived: bool)

  /** The `validate` tags of a stored record. */
  predicate ValidRecord(rec: Record) {
    && 1 <= |rec.title| <= 200
    && 1 <= |rec.artist| <= 100
    && 1900 <= rec.year <= 2100
    && rec.format in FORMATS
    && rec.genre in GENRES
    && rec.condition in CONDITIONS
    && rec.price >= 0.0
    && rec.stock >= 0
  }

  datatype RecordParams = RecordParams(
    title: string, artist: string, year: int, labelName: string, catalogNumber: string,
    format: string, genre: string, condition: string, price: real, stock: int, description: string)

  function NewRecord(mint: Mint, p: RecordParams): Record {
    Record(mint.id, mint.now, p.title, p.artist, p.year, p.labelName, p.catalogNumber,
           p.format, p.genre, p.condition, p.price, p.stock, p.description, false)
  }

  /** The `validate` tags of a creation request. */
  predicate ValidParams(p: RecordParams) {
    ValidRecord(NewRecord(Mint("", 0), p))
  }

  // ---- orders ----

  datatype Line = Line(recordId: string, quantity: int)

  datatype OrderItem = OrderItem(recordId: string, title: string, artist: string, price: real, quantity: int)

  datatype Address = Address(street: string, city: string, state: string, zipCode: string, country: string)

  datatype Status = Pending | Confirmed | Shipped | Delivered | Cancelled

  datatype Order = Order(
    id: string, createdAt: int, userId: string, items: seq<OrderItem>, total: real, status: Status, address: Address)

  /** The `validate` tags of an order request. */
  predicate ValidLines(lines: seq<Line>) {
    lines != [] && forall i :: 0 <= i < |lines| ==> lines[i].recordId != "" && lines[i].quantity >= 1
  }

  function ItemOf(rec: Record, quantity: int): OrderItem {
    OrderItem(rec.id, rec.title, rec.artist, rec.price, quantity)
  }

  /** Exact order total. */
  function Total(items: seq<OrderItem>): real {
    if items == [] then 0.0
    else var last := items[|items| - 1]; Total(items[..|items| - 1]) + last.price * last.quantity as real
  }

  /** One more item adds its price times its quantity. */
  lemma TotalSnoc(items: seq<OrderItem>, item: OrderItem)
    ensures Total([]) == 0.0
    ensures Total(items + [item]) == Total(items) + item.price * item.quantity as real
  {
    assert (items + [item])[..|items|] == items;
  }

  function OrderOf(mint: Mint, userId: string, items: seq<OrderItem>, address: Address): Order {
    Order(mint.id, mint.now, userId, items, Total(items), Pending, address)
  }

  /** models.NewOrder: the total is accumulated item by item. */
  method NewOrder(mint: Mint, userId: string, items: seq<OrderItem>, address: Address) returns (order: Order)
    ensures order == OrderOf(mint, userId, items, address)
    ensures order.id == mint.id && order.createdAt == mint.now && order.userId == userId && order.items == items
    ensures order.total == Total(items) && order.status.Pending? && order.address == address
  {
    var total := 0.0;
    for i := 0 to |items|
      invariant total == Total(items[..i])
    {
      total := total + items[i].price * items[i].quantity as real;
      assert items[..i + 1][..i] == items[..i];
    }
    assert items[..|items|] == items;
    order := Order(mint.id, mint.now, userId, items, total, Pending, address);
  }

  // ---- units asked of a record ----

  /** Units of record `r` over a list of lines; a record may occur on several lines. */
  function Demand(lines: seq<Line>, r: string): int {
    if lines == [] then 0
    else
      var last := lines[|lines| - 1];
      Demand(lines[..|lines| - 1], r) + if last.recordId == r then last.quantity else 0
  }

  function LinesOf(items: seq<OrderItem>): (lines: seq<Line>)
    ensures |lines| == |items|
  {
    seq(|items|, i requires 0 <= i < |items| => Line(items[i].recordId, items[i].quantity))
  }

  function Units(items: seq<OrderItem>, r: string): int {
    Demand(LinesOf(items), r)
  }

  lemma DemandSnoc(lines: seq<Line>, line: Line, r: string)
    ensures Demand(lines + [line], r) == Demand(lines, r) + if line.recordId == r then line.quantity else 0
  {
    assert (lines + [line])[..|lines|] == lines;
  }

  lemma UnitsSnoc(items: seq<OrderItem>, item: OrderItem, r: string)
    ensures Units(items + [item], r) == Units(items, r) + if item.recordId == r then item.quantity else 0
  {
    assert LinesOf(items + [item]) == LinesOf(items) + [Line(item.recordId, item.quantity)];
    DemandSnoc(LinesOf(items), Line(item.recordId, item.quantity), r);
  }

  /** One more item of an order taken into account. */
  lemma UnitsNext(items: seq<OrderItem>, n: nat, r: string)
    requires n < |items|
    ensures Units(items[..n + 1], r) == Units(items[..n], r) + if items[n].recordId == r then items[n].quantity else 0
  {
    assert items[..n + 1] == items[..n] + [items[n]];
    UnitsSnoc(items[..n], items[n], r);
  }

  lemma {:induction false} DemandConcat(a: seq<Line>, b: seq<Line>, r: string)
    ensures Demand(a + b, r) == Demand(a, r) + Demand(b, r)
    decreases |b|
  {
    if b == [] {
      assert a + b == a;
    } else {
      var n := |b| - 1;
      assert a + b == (a + b[..n]) + [b[n]];
      DemandSnoc(a + b[..n], b[n], r);
      DemandConcat(a, b[..n], r);
    }
  }

  lemma {:induction false} DemandNonNegative(lines: seq<Line>, r: string)
    requires forall i :: 0 <= i < |lines| ==> lines[i].quantity >= 1
    ensures Demand(lines, r) >= 0
    ensures Demand(lines, r) == 0 <==> forall i :: 0 <= i < |lines| ==> lines[i].recordId != r
    decreases |lines|
  {
    if lines != [] {
      var n := |lines| - 1;
      DemandNonNegative(lines[..n], r);
      if Demand(lines, r) == 0 {
        forall i | 0 <= i < |lines| ensures lines[i].recordId != r {
          if i < n { assert lines[..n][i].recordId != r; }
        }
      }
    }
  }
}
