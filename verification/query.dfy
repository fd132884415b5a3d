/** store.GetFilteredRecords and store.GetOrdersByUser: filter documents, sort keys and pages. */
module Query {
  import opened Models
  import opened Paging

  // ---- filter documents ----

  datatype Value = Text(s: string) | Whole(n: int) | Money(x: real) | Flag(b: bool)

  datatype Operand = One(value: Value) | Many(values: seq<string>)

  datatype Operator = IN | GTE | GT | LTE | LT

  /** A field is compared for equality, or has to pass every operator of an operator document. */
  datatype Condition = Is(value: Value) | Operators(ops: map<Operator, Operand>)

  type Filter<F> = map<F, Condition>

  /** The names of the fields of a record that are queried or sorted by. */
  datatype Field = ARCHIVED | GENRE | YEAR | FORMAT | CONDITION | ARTIST | PRICE | STOCK | CREATED

  function FieldOf(rec: Record, field: Field): Value {
    match field
    case ARCHIVED => Flag(rec.archived)
    case GENRE => Text(rec.genre)
    case YEAR => Whole(rec.year)
    case FORMAT => Text(rec.format)
    case CONDITION => Text(rec.condition)
    case ARTIST => Text(rec.artist)
    case PRICE => Money(rec.price)
    case STOCK => Whole(rec.stock)
    case CREATED => Whole(rec.createdAt)
  }

  predicate Less(a: Value, b: Value) {
    (a.Whole? && b.Whole? && a.n < b.n) || (a.Money? && b.Money? && a.x < b.x)
  }

  predicate Passes(v: Value, op: Operator, operand: Operand) {
    match operand
    case Many(values) => op == IN && v.Text? && v.s in values
    case One(w) =>
      match op
      case IN => false
      case GTE => w == v || Less(w, v)
      case GT => Less(w, v)
      case LTE => w == v || Less(v, w)
      case LT => Less(v, w)
  }

  predicate Holds(v: Value, c: Condition) {
    match c
    case Is(w) => v == w
    case Operators(ops) => forall op :: op in ops ==> Passes(v, op, ops[op])
  }

  /** Evaluation of a filter document on a stored document: the values of all its fields have to hold. */
  predicate Selects<F(!new)>(filter: Filter<F>, valueOf: F -> Value) {
    forall field :: field in filter ==> Holds(valueOf(field), filter[field])
  }

  predicate Matches(rec: Record, filter: Filter<Field>) {
    Selects(filter, (field: Field) => FieldOf(rec, field))
  }

  // ---- record queries ----

  datatype RecordFilter = RecordFilter(
    page: nat, perPage: nat, genres: seq<string>, decade: int, conditions: seq<string>, formats: seq<string>,
    artist: string, minPrice: real, maxPrice: real, inStock: bool, sort: string)

  /** What a record has to be to answer a query; empty and zero fields ask for nothing. */
  predicate Wanted(rec: Record, f: RecordFilter) {
    && !rec.archived
    && (f.genres != [] ==> rec.genre in f.genres)
    && (f.decade != 0 ==> f.decade <= rec.year < f.decade + 10)
    && (f.formats != [] ==> rec.format in f.formats)
    && (f.conditions != [] ==> rec.condition in f.conditions)
    && (f.artist != "" ==> rec.artist == f.artist)
    && (f.minPrice > 0.0 ==> f.minPrice <= rec.price)
    && (f.maxPrice > 0.0 ==> rec.price <= f.maxPrice)
    && (f.inStock ==> rec.stock > 0)
  }

  function OneOf(values: seq<string>): Option<Condition> {
    if values == [] then None else Some(Operators(map[IN := Many(values)]))
  }

  function Bounds(low: real, high: real): map<Operator, Operand> {
    if low > 0.0 && high > 0.0 then map[GTE := One(Money(low)), LTE := One(Money(high))]
    else if low > 0.0 then map[GTE := One(Money(low))]
    else if high > 0.0 then map[LTE := One(Money(high))]
    else map[]
  }

  /** The condition that a query puts on one field. */
  function ConditionOn(f: RecordFilter, field: Field): Option<Condition> {
    match field
    case ARCHIVED => Some(Is(Flag(false)))
    case GENRE => OneOf(f.genres)
    case YEAR =>
      if f.decade == 0 then None
      else Some(Operators(map[GTE := One(Whole(f.decade)), LT := One(Whole(f.decade + 10))]))
    case FORMAT => OneOf(f.formats)
    case CONDITION => OneOf(f.conditions)
    case ARTIST => if f.artist == "" then None else Some(Is(Text(f.artist)))
    case PRICE =>
      if Bounds(f.minPrice, f.maxPrice) == map[] then None else Some(Operators(Bounds(f.minPrice, f.maxPrice)))
    case STOCK => if f.inStock then Some(Operators(map[GT := One(Whole(0))])) else None
    case CREATED => None
  }

  /** The conditions on the fields considered so far are in the document, and nothing else is. */
  predicate CompiledSoFar(filter: Filter<Field>, f: RecordFilter, fields: set<Field>) {
    forall field ::
      if field in filter then field in fields && ConditionOn(f, field) == Some(filter[field])
      else field in fields ==> ConditionOn(f, field).None?
  }

  const ALL_FIELDS := {ARCHIVED, GENRE, YEAR, FORMAT, CONDITION, ARTIST, PRICE, STOCK, CREATED}

  predicate Compiled(filter: Filter<Field>, f: RecordFilter) {
    CompiledSoFar(filter, f, ALL_FIELDS)
  }

  /** The part of `Wanted` that is about one field. */
  predicate WantedIn(rec: Record, f: RecordFilter, field: Field) {
    match field
    case ARCHIVED => !rec.archived
    case GENRE => f.genres != [] ==> rec.genre in f.genres
    case YEAR => f.decade != 0 ==> f.decade <= rec.year < f.decade + 10
    case FORMAT => f.formats != [] ==> rec.format in f.formats
    case CONDITION => f.conditions != [] ==> rec.condition in f.conditions
    case ARTIST => f.artist != "" ==> rec.artist == f.artist
    case PRICE => (f.minPrice > 0.0 ==> f.minPrice <= rec.price) && (f.maxPrice > 0.0 ==> rec.price <= f.maxPrice)
    case STOCK => f.inStock ==> rec.stock > 0
    case CREATED => true
  }

  lemma OneOfMeans(values: seq<string>, text: string)
    requires values != []
    ensures Holds(Text(text), OneOf(values).value) <==> text in values
  {
    var ops := OneOf(values).value.ops;
    assert ops[IN] == Many(values);
    assert Holds(Text(text), OneOf(values).value) ==> Passes(Text(text), IN, ops[IN]);
  }

  lemma BoundsMean(low: real, high: real, price: real)
    ensures Holds(Money(price), Operators(Bounds(low, high)))
       <==> (low > 0.0 ==> low <= price) && (high > 0.0 ==> price <= high)
  {
    var ops := Bounds(low, high);
    assert GTE in ops ==> (Passes(Money(price), GTE, ops[GTE]) <==> low <= price);
    assert LTE in ops ==> (Passes(Money(price), LTE, ops[LTE]) <==> price <= high);
  }

  lemma FieldMeans(rec: Record, f: RecordFilter, field: Field)
    ensures (ConditionOn(f, field).Some? ==> Holds(FieldOf(rec, field), ConditionOn(f, field).value))
       <==> WantedIn(rec, f, field)
  {
    match field
    case ARCHIVED =>
    case GENRE => if f.genres != [] { OneOfMeans(f.genres, rec.genre); }
    case YEAR =>
      if f.decade != 0 {
        var ops := ConditionOn(f, YEAR).value.ops;
        assert Passes(Whole(rec.year), GTE, ops[GTE]) <==> f.decade <= rec.year;
        assert Passes(Whole(rec.year), LT, ops[LT]) <==> rec.year < f.decade + 10;
      }
    case FORMAT => if f.formats != [] { OneOfMeans(f.formats, rec.format); }
    case CONDITION => if f.conditions != [] { OneOfMeans(f.conditions, rec.condition); }
    case ARTIST =>
    case PRICE => BoundsMean(f.minPrice, f.maxPrice, rec.price);
    case STOCK =>
      if f.inStock {
        var ops := ConditionOn(f, STOCK).value.ops;
        assert Passes(Whole(rec.stock), GT, ops[GT]) <==> 0 < rec.stock;
      }
    case CREATED =>
  }

  /** The filter document of a query selects exactly the wanted records. */
  lemma CompilationIsRight(filter: Filter<Field>, f: RecordFilter, rec: Record)
    requires Compiled(filter, f)
    ensures Matches(rec, filter) <==> Wanted(rec, f)
  {
    forall field ensures field in filter && !Holds(FieldOf(rec, field), filter[field]) <==> !WantedIn(rec, f, field) {
      FieldMeans(rec, f, field);
      assert if field in filter then ConditionOn(f, field) == Some(filter[field]) else ConditionOn(f, field).None?;
    }
    assert Wanted(rec, f) <==> forall field :: WantedIn(rec, f, field) by {
      assert (forall field :: WantedIn(rec, f, field)) ==>
        && WantedIn(rec, f, ARCHIVED) && WantedIn(rec, f, GENRE) && WantedIn(rec, f, YEAR) && WantedIn(rec, f, FORMAT)
        && WantedIn(rec, f, CONDITION) && WantedIn(rec, f, ARTIST)
        && WantedIn(rec, f, PRICE) && WantedIn(rec, f, STOCK);
    }
  }

  /** A compiled filter document, field by field. */
  lemma DocumentSays(filter: Filter<Field>, f: RecordFilter)
    requires Compiled(filter, f)
    ensures ARCHIVED in filter && filter[ARCHIVED] == Is(Flag(false))
    ensures if f.genres == [] then GENRE !in filter
            else GENRE in filter && filter[GENRE] == Operators(map[IN := Many(f.genres)])
    ensures if f.formats == [] then FORMAT !in filter
            else FORMAT in filter && filter[FORMAT] == Operators(map[IN := Many(f.formats)])
    ensures if f.conditions == [] then CONDITION !in filter
            else CONDITION in filter && filter[CONDITION] == Operators(map[IN := Many(f.conditions)])
    ensures if f.decade == 0 then YEAR !in filter
            else YEAR in filter
                 && filter[YEAR] == Operators(map[GTE := One(Whole(f.decade)), LT := One(Whole(f.decade + 10))])
    ensures if f.artist == "" then ARTIST !in filter else ARTIST in filter && filter[ARTIST] == Is(Text(f.artist))
    ensures PRICE in filter <==> f.minPrice > 0.0 || f.maxPrice > 0.0
    ensures f.minPrice > 0.0 && f.maxPrice > 0.0 ==>
              filter[PRICE] == Operators(map[GTE := One(Money(f.minPrice)), LTE := One(Money(f.maxPrice))])
    ensures f.minPrice > 0.0 && f.maxPrice <= 0.0 ==> filter[PRICE] == Operators(map[GTE := One(Money(f.minPrice))])
    ensures f.minPrice <= 0.0 && f.maxPrice > 0.0 ==> filter[PRICE] == Operators(map[LTE := One(Money(f.maxPrice))])
    ensures if f.inStock then STOCK in filter && filter[STOCK] == Operators(map[GT := One(Whole(0))])
            else STOCK !in filter
    ensures CREATED !in filter
  {
    forall field ensures
      if field in filter then ConditionOn(f, field) == Some(filter[field]) else ConditionOn(f, field).None? {}
    if f.minPrice > 0.0 || f.maxPrice > 0.0 {
      assert GTE in Bounds(f.minPrice, f.maxPrice) || LTE in Bounds(f.minPrice, f.maxPrice);
    }
  }

  method BuildPrice(f: RecordFilter) returns (price: map<Operator, Operand>)
    ensures price == Bounds(f.minPrice, f.maxPrice)
  {
    price := map[];
    if f.minPrice > 0.0 { price := price[GTE := One(Money(f.minPrice))]; }
    if f.maxPrice > 0.0 { price := price[LTE := One(Money(f.maxPrice))]; }
  }

  /** The first half of the additions (store/mongo.go:374-389). */
  method BuildAttributes(f: RecordFilter) returns (filter: Filter<Field>)
    ensures CompiledSoFar(filter, f, {ARCHIVED, GENRE, YEAR, FORMAT, CONDITION})
  {
    filter := map[ARCHIVED := Is(Flag(false))];
    if |f.genres| > 0 {
      filter := filter[GENRE := Operators(map[IN := Many(f.genres)])];
    }
    assert CompiledSoFar(filter, f, {ARCHIVED, GENRE});
    if f.decade != 0 {
      filter := filter[YEAR := Operators(map[GTE := One(Whole(f.decade)), LT := One(Whole(f.decade + 10))])];
    }
    assert CompiledSoFar(filter, f, {ARCHIVED, GENRE, YEAR});
    if |f.formats| > 0 {
      filter := filter[FORMAT := Operators(map[IN := Many(f.formats)])];
    }
    if |f.conditions| > 0 {
      filter := filter[CONDITION := Operators(map[IN := Many(f.conditions)])];
    }
  }

  /** The filter document is built by conditional additions (store/mongo.go:374-405). */
  method BuildFilter(f: RecordFilter) returns (filter: Filter<Field>)
    ensures Compiled(filter, f)
    ensures forall rec :: Matches(rec, filter) <==> Wanted(rec, f)
  {
    filter := BuildAttributes(f);
    if f.artist != "" {
      filter := filter[ARTIST := Is(Text(f.artist))];
    }
    assert CompiledSoFar(filter, f, {ARCHIVED, GENRE, YEAR, FORMAT, CONDITION, ARTIST});
    if f.minPrice > 0.0 || f.maxPrice > 0.0 {
      var price := BuildPrice(f);
      assert GTE in price || LTE in price;
      filter := filter[PRICE := Operators(price)];
    }
    if f.inStock {
      filter := filter[STOCK := Operators(map[GT := One(Whole(0))])];
    }
    assert Compiled(filter, f);
    forall rec ensures Matches(rec, filter) <==> Wanted(rec, f) {
      CompilationIsRight(filter, f, rec);
    }
  }

  /** A sort document: at most one key with its direction, 1 or -1. */
  datatype SortField = SortField(field: Field, direction: int)

  function Sortable(rec: Record, field: Field): real {
    match field
    case PRICE => rec.price
    case YEAR => rec.year as real
    case _ => rec.createdAt as real
  }

  /** How the store orders two records under a sort document; without a key the collection keeps its order. */
  function By(sort: seq<SortField>): (Record, Record) -> bool {
    (a: Record, b: Record) =>
      if sort == [] then true
      else if sort[0].direction >= 0 then Sortable(a, sort[0].field) <= Sortable(b, sort[0].field)
      else Sortable(a, sort[0].field) >= Sortable(b, sort[0].field)
  }

  /** The order that a sort parameter asks for. */
  function SortKey(sort: string): (Record, Record) -> bool {
    match sort
    case "price_asc" => (a: Record, b: Record) => a.price <= b.price
    case "price_desc" => (a: Record, b: Record) => a.price >= b.price
    case "year_asc" => (a: Record, b: Record) => a.year <= b.year
    case "year_desc" => (a: Record, b: Record) => a.year >= b.year
    case "created_desc" => (a: Record, b: Record) => a.createdAt >= b.createdAt
    case _ => (a: Record, b: Record) => true
  }

  method BuildSort(sort: string) returns (doc: seq<SortField>)
    ensures forall a, b :: By(doc)(a, b) == SortKey(sort)(a, b)
    ensures doc ==
      if sort == "price_asc" then [SortField(PRICE, 1)]
      else if sort == "price_desc" then [SortField(PRICE, -1)]
      else if sort == "year_asc" then [SortField(YEAR, 1)]
      else if sort == "year_desc" then [SortField(YEAR, -1)]
      else if sort == "created_desc" then [SortField(CREATED, -1)]
      else []
  {
    doc := [];
    match sort
    case "price_asc" => doc := doc + [SortField(PRICE, 1)];
    case "price_desc" => doc := doc + [SortField(PRICE, -1)];
    case "year_asc" => doc := doc + [SortField(YEAR, 1)];
    case "year_desc" => doc := doc + [SortField(YEAR, -1)];
    case "created_desc" => doc := doc + [SortField(CREATED, -1)];
    case _ =>
  }

  function Wants(f: RecordFilter): Record -> bool {
    (rec: Record) => Wanted(rec, f)
  }

  method GetFilteredRecords(docs: seq<Record>, f: RecordFilter) returns (records: seq<Record>, total: nat)
    requires f.page >= 1 && f.perPage >= 1
    ensures (records, total) == Answer(docs, Wants(f), SortKey(f.sort), f.page, f.perPage)
  {
    var filter := BuildFilter(f);
    var matching := Select(docs, (rec: Record) => Matches(rec, filter));
    SelectAgrees(docs, (rec: Record) => Matches(rec, filter), Wants(f));
    total := |matching|;
    var sort := BuildSort(f.sort);
    var sorted := Sort(matching, By(sort));
    SortAgrees(matching, By(sort), SortKey(f.sort));
    records := Fetch(sorted, f.page, f.perPage);
  }

  lemma SortKeyOrders(sort: string)
    ensures TotalPreorder(SortKey(sort))
  {
  }

  /**
   * The pages of a record query are the records asked for, each as often as it is stored, in the order asked for;
   * without a sort key they keep the order of the collection. Later pages are empty.
   */
  lemma RecordPagesCover(docs: seq<Record>, f: RecordFilter)
    requires f.perPage >= 1
    ensures var n := PageCount(Answer(docs, Wants(f), SortKey(f.sort), 1, f.perPage).1, f.perPage);
            var read := Answers(docs, Wants(f), SortKey(f.sort), n, f.perPage);
      && (forall i, j :: 0 <= i < j < |read| ==>
            && (f.sort == "price_asc" ==> read[i].price <= read[j].price)
            && (f.sort == "price_desc" ==> read[i].price >= read[j].price)
            && (f.sort == "year_asc" ==> read[i].year <= read[j].year)
            && (f.sort == "year_desc" ==> read[i].year >= read[j].year)
            && (f.sort == "created_desc" ==> read[i].createdAt >= read[j].createdAt))
      && (f.sort !in {"price_asc", "price_desc", "year_asc", "year_desc", "created_desc"} ==>
            read == Select(docs, Wants(f)))
      && (forall rec :: multiset(read)[rec] ==
            if && !rec.archived
               && (f.genres != [] ==> rec.genre in f.genres)
               && (f.decade != 0 ==> f.decade <= rec.year < f.decade + 10)
               && (f.formats != [] ==> rec.format in f.formats)
               && (f.conditions != [] ==> rec.condition in f.conditions)
               && (f.artist != "" ==> rec.artist == f.artist)
               && (f.minPrice > 0.0 ==> f.minPrice <= rec.price)
               && (f.maxPrice > 0.0 ==> rec.price <= f.maxPrice)
               && (f.inStock ==> rec.stock > 0)
            then multiset(docs)[rec] else 0)
      && (forall later: nat :: later > n ==> Answer(docs, Wants(f), SortKey(f.sort), later, f.perPage).0 == [])
      && (forall page: nat :: page >= 1 ==>
            Answer(docs, Wants(f), SortKey(f.sort), page, f.perPage).0 == Page(read, page, f.perPage))
  {
    WantedPages(docs, f);
    var n := PageCount(Answer(docs, Wants(f), SortKey(f.sort), 1, f.perPage).1, f.perPage);
    SortKeyMeans(Answers(docs, Wants(f), SortKey(f.sort), n, f.perPage), f.sort);
  }

  lemma WantedPages(docs: seq<Record>, f: RecordFilter)
    requires f.perPage >= 1
    ensures var n := PageCount(Answer(docs, Wants(f), SortKey(f.sort), 1, f.perPage).1, f.perPage);
            var read := Answers(docs, Wants(f), SortKey(f.sort), n, f.perPage);
      && Ordered(read, SortKey(f.sort))
      && (f.sort !in {"price_asc", "price_desc", "year_asc", "year_desc", "created_desc"} ==>
            read == Select(docs, Wants(f)))
      && (forall rec :: multiset(read)[rec] == if Wanted(rec, f) then multiset(docs)[rec] else 0)
      && (forall later: nat :: later > n ==> Answer(docs, Wants(f), SortKey(f.sort), later, f.perPage).0 == [])
      && (forall page: nat :: page >= 1 ==>
            Answer(docs, Wants(f), SortKey(f.sort), page, f.perPage).0 == Page(read, page, f.perPage))
  {
    SortKeyOrders(f.sort);
    AnswersCover(docs, Wants(f), SortKey(f.sort), f.perPage);
  }

  lemma SortKeyMeans(read: seq<Record>, sort: string)
    requires Ordered(read, SortKey(sort))
    ensures forall i, j :: 0 <= i < j < |read| ==>
      && (sort == "price_asc" ==> read[i].price <= read[j].price)
      && (sort == "price_desc" ==> read[i].price >= read[j].price)
      && (sort == "year_asc" ==> read[i].year <= read[j].year)
      && (sort == "year_desc" ==> read[i].year >= read[j].year)
      && (sort == "created_desc" ==> read[i].createdAt >= read[j].createdAt)
  {
    forall i, j | 0 <= i < j < |read| ensures SortKey(sort)(read[i], read[j]) {}
  }

  /** Whatever page, page size or sort key is asked for: the total is the number of records that all pages deliver. */
  lemma TotalIsWhatPagesDeliver(docs: seq<Record>, f: RecordFilter, g: RecordFilter)
    requires f.perPage >= 1 && g.page >= 1 && g == f.(page := g.page, perPage := g.perPage, sort := g.sort)
    ensures var n := PageCount(Answer(docs, Wants(f), SortKey(f.sort), 1, f.perPage).1, f.perPage);
            Answer(docs, Wants(g), SortKey(g.sort), g.page, g.perPage).1
            == |Answers(docs, Wants(f), SortKey(f.sort), n, f.perPage)|
  {
    var sorted := Sort(Select(docs, Wants(f)), SortKey(f.sort));
    SelectAgrees(docs, Wants(f), Wants(g));
    AnswersArePages(docs, Wants(f), SortKey(f.sort), sorted, PageCount(|sorted|, f.perPage), f.perPage);
    PagesPartition(sorted, f.perPage);
  }

  // ---- order queries ----

  /** `status` is the wire value; empty asks for every status. */
  datatype OrderFilter = OrderFilter(page: nat, perPage: nat, userId: string, status: string)

  function StatusText(status: Status): string {
    match status
    case Pending => "pending"
    case Confirmed => "confirmed"
    case Shipped => "shipped"
    case Delivered => "delivered"
    case Cancelled => "cancelled"
  }

  function Theirs(f: OrderFilter): Order -> bool {
    (order: Order) => order.userId == f.userId && (f.status != "" ==> StatusText(order.status) == f.status)
  }

  /** The fields of an order that are queried by. */
  datatype OrderField = USER_ID | STATUS

  function OrderFieldOf(order: Order, field: OrderField): Value {
    match field
    case USER_ID => Text(order.userId)
    case STATUS => Text(StatusText(order.status))
  }

  predicate OrderMatches(order: Order, filter: Filter<OrderField>) {
    Selects(filter, (field: OrderField) => OrderFieldOf(order, field))
  }

  /** The filter document of an order query (store/mongo.go:474-477). */
  method BuildOrderFilter(f: OrderFilter) returns (filter: Filter<OrderField>)
    ensures forall order :: OrderMatches(order, filter) <==> Theirs(f)(order)
    ensures filter == if f.status == "" then map[USER_ID := Is(Text(f.userId))]
                      else map[USER_ID := Is(Text(f.userId)), STATUS := Is(Text(f.status))]
  {
    filter := map[USER_ID := Is(Text(f.userId))];
    if f.status != "" {
      filter := filter[STATUS := Is(Text(f.status))];
    }
    forall order ensures OrderMatches(order, filter) <==> Theirs(f)(order) {
      assert Holds(OrderFieldOf(order, USER_ID), filter[USER_ID]) <==> order.userId == f.userId;
      assert STATUS in filter ==>
        (Holds(OrderFieldOf(order, STATUS), filter[STATUS]) <==> StatusText(order.status) == f.status);
    }
  }

  function Newest(): (Order, Order) -> bool {
    (a: Order, b: Order) => a.createdAt >= b.createdAt
  }

  method GetOrdersByUser(docs: seq<Order>, f: OrderFilter) returns (orders: seq<Order>, total: nat)
    requires f.page >= 1 && f.perPage >= 1
    ensures (orders, total) == Answer(docs, Theirs(f), Newest(), f.page, f.perPage)
  {
    var filter := BuildOrderFilter(f);
    var matching := Select(docs, (order: Order) => OrderMatches(order, filter));
    SelectAgrees(docs, (order: Order) => OrderMatches(order, filter), Theirs(f));
    total := |matching|;
    var sorted := Sort(matching, Newest());
    orders := Fetch(sorted, f.page, f.perPage);
  }

  /**
   * The pages of an order query are the user's orders with the status asked for, newest first, each as often as
   * it is listed; later pages are empty.
   */
  lemma OrderPagesCover(docs: seq<Order>, f: OrderFilter)
    requires f.perPage >= 1
    ensures var n := PageCount(Answer(docs, Theirs(f), Newest(), 1, f.perPage).1, f.perPage);
            var read := Answers(docs, Theirs(f), Newest(), n, f.perPage);
      && (forall i, j :: 0 <= i < j < |read| ==> read[i].createdAt >= read[j].createdAt)
      && (forall order :: multiset(read)[order] ==
            if && order.userId == f.userId
               && (f.status == "" || f.status == match order.status
                     case Pending => "pending"
                     case Confirmed => "confirmed"
                     case Shipped => "shipped"
                     case Delivered => "delivered"
                     case Cancelled => "cancelled")
            then multiset(docs)[order] else 0)
      && (forall later: nat :: later > n ==> Answer(docs, Theirs(f), Newest(), later, f.perPage).0 == [])
      && (forall page: nat :: page >= 1 ==>
            Answer(docs, Theirs(f), Newest(), page, f.perPage).0 == Page(read, page, f.perPage))
  {
    AnswersCover(docs, Theirs(f), Newest(), f.perPage);
    var n := PageCount(Answer(docs, Theirs(f), Newest(), 1, f.perPage).1, f.perPage);
    NewestMeans(Answers(docs, Theirs(f), Newest(), n, f.perPage));
  }

  lemma NewestMeans(read: seq<Order>)
    requires Ordered(read, Newest())
    ensures forall i, j :: 0 <= i < j < |read| ==> read[i].createdAt >= read[j].createdAt
  {
    forall i, j | 0 <= i < j < |read| ensures Newest()(read[i], read[j]) {}
  }
}
