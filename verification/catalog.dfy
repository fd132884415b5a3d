/** What a restock, update, archiving or creation of a record does, run by itself: every answer and every change. */
module Catalog {
  import opened Models
  import opened Patches
  import opened Store
  import opened Protocol
  import opened Serial
  import opened Ordering

  /** The first store call of a request. */
  lemma Unroll(db: Db, c: Call, mint: Mint, fuel: nat)
    requires fuel > 0 && !Admit(c).Ended?
    ensures Serve(db, c, mint, fuel) == Play(Act(db, Admit(c), mint).0, Act(db, Admit(c), mint).1, mint, fuel - 1)
  {
  }

  /** The archived check comes before the quantity is validated. */
  lemma RestockDoes(db: Db, id: string, quantity: int, mint: Mint, fuel: nat)
    requires Keyed(db)
    ensures var (db', e) := Serve(db, RestockRecord(id, quantity, None), mint, fuel); var outcome := e.outcome;
      var known := id != "" && id in db.records;
      && (outcome.BadRequest? <==> id == "")
      && (outcome.RecordNotFound? <==> id != "" && id !in db.records && fuel > 0)
      && (outcome.ArchivedConflict? <==> known && db.records[id].archived && fuel > 0)
      && (outcome.Invalid? <==> known && !db.records[id].archived && quantity < 1 && fuel > 0)
      && (outcome.RecordRestocked? <==> known && !db.records[id].archived && quantity >= 1 && fuel > 1)
      && (if outcome.RecordRestocked? then
            db' == db.(records := db.records[id := db.records[id].(stock := db.records[id].stock + quantity)])
          else db' == db)
  {
    if id != "" && fuel > 0 { Unroll(db, RestockRecord(id, quantity, None), mint, fuel); }
  }

  /** Archiving sets the flag and nothing else, once. */
  lemma ArchiveDoes(db: Db, id: string, mint: Mint, fuel: nat)
    requires Keyed(db)
    ensures var (db', e) := Serve(db, ArchiveRecord(id, None), mint, fuel); var outcome := e.outcome;
      var known := id != "" && id in db.records;
      && (outcome.BadRequest? <==> id == "")
      && (outcome.RecordNotFound? <==> id != "" && id !in db.records && fuel > 0)
      && (outcome.ArchivedConflict? <==> known && db.records[id].archived && fuel > 0)
      && (outcome.RecordArchived? <==> known && !db.records[id].archived && fuel > 1)
      && (if outcome.RecordArchived? then
            db' == db.(records := db.records[id := db.records[id].(archived := true)])
          else db' == db)
  {
    if id != "" && fuel > 0 { Unroll(db, ArchiveRecord(id, None), mint, fuel); }
  }

  /** A request whose fields are each left out or acceptable is accepted, for archived records too. */
  lemma UpdateAnswers(db: Db, id: string, p: Patch, mint: Mint, fuel: nat)
    ensures var outcome := Serve(db, UpdateRecord(id, p, None), mint, fuel).1.outcome;
      var known := id != "" && id in db.records;
      var valid :=
        && |p.title| <= 200 && |p.artist| <= 100 && (p.year == 0 || 1900 <= p.year <= 2100)
        && p.format in {"", "lp", "7in", "10in", "12in"}
        && p.genre in {"", "jazz", "rock", "electronic", "hip-hop", "classical", "soul", "funk", "blues"}
        && p.condition in {"", "mint", "nm-", "nm", "vg+", "vg", "g+"}
        && p.price >= 0.0 && p.stock >= 0;
      && (outcome.BadRequest? <==> id == "")
      && (outcome.RecordNotFound? <==> id != "" && id !in db.records && fuel > 0)
      && (outcome.Invalid? <==> known && !valid && fuel > 0)
      && (outcome.RecordUpdated? <==> known && valid && fuel > 1)
  {
    if id != "" && fuel > 0 { Unroll(db, UpdateRecord(id, p, None), mint, fuel); }
    ValidPatchMeans(p);
  }

  lemma ValidPatchMeans(p: Patch)
    ensures ValidPatch(p) <==>
      && |p.title| <= 200 && |p.artist| <= 100 && (p.year == 0 || 1900 <= p.year <= 2100)
      && p.format in {"", "lp", "7in", "10in", "12in"}
      && p.genre in {"", "jazz", "rock", "electronic", "hip-hop", "classical", "soul", "funk", "blues"}
      && p.condition in {"", "mint", "nm-", "nm", "vg+", "vg", "g+"}
      && p.price >= 0.0 && p.stock >= 0
  {
  }

  /** Every field that the request gives replaces the stored one; a body always sets the stock. */
  lemma UpdateDoes(db: Db, id: string, p: Patch, mint: Mint, fuel: nat)
    requires Keyed(db)
    ensures var (db', e) := Serve(db, UpdateRecord(id, p, None), mint, fuel);
      if e.outcome.RecordUpdated? then
        && id in db.records
        && var rec := db.records[id];
        db' == db.(records := db.records[id := Record(
          rec.id, rec.createdAt,
          if p.title != "" then p.title else rec.title,
          if p.artist != "" then p.artist else rec.artist,
          if p.year != 0 then p.year else rec.year,
          if p.labelName != "" then p.labelName else rec.labelName,
          if p.catalogNumber != "" then p.catalogNumber else rec.catalogNumber,
          if p.format != "" then p.format else rec.format,
          if p.genre != "" then p.genre else rec.genre,
          if p.condition != "" then p.condition else rec.condition,
          if p.price != 0.0 then p.price else rec.price,
          if p.hasBody || p.stock != 0 then p.stock else rec.stock,
          if p.description != "" then p.description else rec.description,
          rec.archived)])
      else db' == db
  {
    if id != "" && fuel > 0 { Unroll(db, UpdateRecord(id, p, None), mint, fuel); }
  }

  /** A valid request stores the record as asked for, unarchived, under the new id, and touches no other document. */
  lemma CreateRecordDoes(db: Db, p: RecordParams, mint: Mint, fuel: nat)
    ensures var (db', e) := Serve(db, CreateRecord(p), mint, fuel);
      var valid :=
        && 1 <= |p.title| <= 200 && 1 <= |p.artist| <= 100 && 1900 <= p.year <= 2100
        && p.format in {"lp", "7in", "10in", "12in"}
        && p.genre in {"jazz", "rock", "electronic", "hip-hop", "classical", "soul", "funk", "blues"}
        && p.condition in {"mint", "nm-", "nm", "vg+", "vg", "g+"}
        && p.price >= 0.0 && p.stock >= 0;
      && (e.outcome.Invalid? <==> !valid)
      && (e.outcome.RecordCreated? <==> valid && fuel > 0)
      && (if e.outcome.RecordCreated? then
            && e.outcome.id == mint.id
            && db' == db.(records := db.records[mint.id :=
                 Record(mint.id, mint.now, p.title, p.artist, p.year, p.labelName, p.catalogNumber,
                        p.format, p.genre, p.condition, p.price, p.stock, p.description, false)])
          else db' == db)
  {
    if ValidParams(p) && fuel > 0 { Unroll(db, CreateRecord(p), mint, fuel); }
  }
}
