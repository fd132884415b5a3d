/** The two collections of store/mongo.go, and each store call as one atomic change of them. */
module Store {
  import opened Models

  datatype Db = Db(records: map<string, Record>, orders: map<string, Order>)

  function Find<V>(collection: map<string, V>, id: string): Option<V> {
    if id in collection then Some(collection[id]) else None
  }

  /** ReplaceOne with upsert: the whole document is replaced, whatever is stored. */
  function SaveRecord(db: Db, rec: Record): Db {
    db.(records := db.records[rec.id := rec])
  }

  function SaveOrder(db: Db, order: Order): Db {
    db.(orders := db.orders[order.id := order])
  }

  /** The filter of the guarded update: the id exists and its stock is at least `quantity`. */
  predicate CanDecrement(db: Db, id: string, quantity: int) {
    id in db.records && db.records[id].stock >= quantity
  }

  function Decrement(db: Db, id: string, quantity: int): Db
    requires id in db.records
  {
    db.(records := db.records[id := db.records[id].(stock := db.records[id].stock - quantity)])
  }

  function Stock(db: Db, r: string): int {
    if r in db.records then db.records[r].stock else 0
  }
}
