/** PATCH requests (handlers/record.go): a field-by-field merge, and the algebra of merging. */
module Patches {
  import opened Models

  /** An update request; empty or zero means "leave alone", and hasBody is `r.Body != http.NoBody`. */
  datatype Patch = Patch(
    hasBody: bool, title: string, artist: string, year: int, labelName: string, catalogNumber: string,
    format: string, genre: string, condition: string, price: real, stock: int, description: string)

  const NO_PATCH := Patch(false, "", "", 0, "", "", "", "", "", 0.0, 0, "")

  /** The `omitempty` tags of an update request. */
  predicate ValidPatch(p: Patch) {
    && (p.title != "" ==> |p.title| <= 200)
    && (p.artist != "" ==> |p.artist| <= 100)
    && (p.year != 0 ==> 1900 <= p.year <= 2100)
    && (p.format != "" ==> p.format in FORMATS)
    && (p.genre != "" ==> p.genre in GENRES)
    && (p.condition != "" ==> p.condition in CONDITIONS)
    && p.price >= 0.0
    && p.stock >= 0
  }

  /** The stock is overwritten whenever a body is present, even with an omitted (zero) stock. */
  predicate SetsStock(p: Patch) {
    p.stock != 0 || p.hasBody
  }

  function Text(later: string, earlier: string): string {
    if later != "" then later else earlier
  }

  function Apply(p: Patch, rec: Record): Record {
    rec.(
      title := Text(p.title, rec.title),
      artist := Text(p.artist, rec.artist),
      year := if p.year != 0 then p.year else rec.year,
      labelName := Text(p.labelName, rec.labelName),
      catalogNumber := Text(p.catalogNumber, rec.catalogNumber),
      format := Text(p.format, rec.format),
      genre := Text(p.genre, rec.genre),
      condition := Text(p.condition, rec.condition),
      price := if p.price != 0.0 then p.price else rec.price,
      stock := if SetsStock(p) then p.stock else rec.stock,
      description := Text(p.description, rec.description))
  }

  /** handlers.UpdateRecord, lines 223-255: one conditional assignment per field. */
  method Merge(p: Patch, rec: Record) returns (merged: Record)
    ensures merged.id == rec.id && merged.createdAt == rec.createdAt && merged.archived == rec.archived
    ensures merged.title == if p.title != "" then p.title else rec.title
    ensures merged.artist == if p.artist != "" then p.artist else rec.artist
    ensures merged.year == if p.year != 0 then p.year else rec.year
    ensures merged.labelName == if p.labelName != "" then p.labelName else rec.labelName
    ensures merged.catalogNumber == if p.catalogNumber != "" then p.catalogNumber else rec.catalogNumber
    ensures merged.format == if p.format != "" then p.format else rec.format
    ensures merged.genre == if p.genre != "" then p.genre else rec.genre
    ensures merged.condition == if p.condition != "" then p.condition else rec.condition
    ensures merged.price == if p.price != 0.0 then p.price else rec.price
    ensures merged.stock == if p.hasBody || p.stock != 0 then p.stock else rec.stock
    ensures merged.description == if p.description != "" then p.description else rec.description
    ensures merged == Apply(p, rec)
  {
    var Record(id, createdAt, title, artist, year, labelName, catalogNumber,
               format, genre, condition, price, stock, description, archived) := rec;
    if p.title != "" { title := p.title; }
    assert title == Text(p.title, rec.title);
    if p.artist != "" { artist := p.artist; }
    assert artist == Text(p.artist, rec.artist);
    if p.year != 0 { year := p.year; }
    if p.labelName != "" { labelName := p.labelName; }
    assert labelName == Text(p.labelName, rec.labelName);
    if p.catalogNumber != "" { catalogNumber := p.catalogNumber; }
    assert catalogNumber == Text(p.catalogNumber, rec.catalogNumber);
    if p.format != "" { format := p.format; }
    assert format == Text(p.format, rec.format);
    if p.genre != "" { genre := p.genre; }
    assert genre == Text(p.genre, rec.genre);
    if p.condition != "" { condition := p.condition; }
    assert condition == Text(p.condition, rec.condition);
    if p.price != 0.0 { price := p.price; }
    if p.stock != 0 || (p.stock == 0 && p.hasBody) { stock := p.stock; }
    if p.description != "" { description := p.description; }
    assert description == Text(p.description, rec.description);
    merged := Record(id, createdAt, title, artist, year, labelName, catalogNumber,
                     format, genre, condition, price, stock, description, archived);
  }

  /** The single request equivalent to `earlier` followed by `later`. */
  function Combine(earlier: Patch, later: Patch): Patch {
    Patch(
      earlier.hasBody || later.hasBody,
      Text(later.title, earlier.title),
      Text(later.artist, earlier.artist),
      if later.year != 0 then later.year else earlier.year,
      Text(later.labelName, earlier.labelName),
      Text(later.catalogNumber, earlier.catalogNumber),
      Text(later.format, earlier.format),
      Text(later.genre, earlier.genre),
      Text(later.condition, earlier.condition),
      if later.price != 0.0 then later.price else earlier.price,
      if SetsStock(later) then later.stock else earlier.stock,
      Text(later.description, earlier.description))
  }

  function ApplyAll(patches: seq<Patch>, rec: Record): Record {
    if patches == [] then rec else ApplyAll(patches[1..], Apply(patches[0], rec))
  }

  function CombineAll(patches: seq<Patch>): Patch {
    if patches == [] then NO_PATCH else Combine(patches[0], CombineAll(patches[1..]))
  }

  lemma CombineActs(p: Patch, q: Patch, rec: Record)
    ensures Apply(q, Apply(p, rec)) == Apply(Combine(p, q), rec)
  {
  }

  lemma CombineAssociates(p: Patch, q: Patch, t: Patch)
    ensures Combine(Combine(p, q), t) == Combine(p, Combine(q, t))
    ensures Combine(NO_PATCH, p) == p == Combine(p, NO_PATCH)
  {
  }

  lemma {:induction false} CombineAllConcat(ps: seq<Patch>, qs: seq<Patch>)
    ensures CombineAll(ps + qs) == Combine(CombineAll(ps), CombineAll(qs))
  {
    if ps == [] {
      assert ps + qs == qs;
      CombineAssociates(CombineAll(qs), NO_PATCH, NO_PATCH);
    } else {
      assert (ps + qs)[1..] == ps[1..] + qs;
      CombineAllConcat(ps[1..], qs);
      CombineAssociates(ps[0], CombineAll(ps[1..]), CombineAll(qs));
    }
  }

  /**
   * A whole history of updates is one update: it equals its combination, sending it again
   * changes nothing, and id, creation time and archived flag survive it.
   */
  lemma {:induction false} HistoryIsOnePatch(patches: seq<Patch>, rec: Record)
    ensures ApplyAll(patches, rec) == Apply(CombineAll(patches), rec)
    ensures ApplyAll(patches, ApplyAll(patches, rec)) == ApplyAll(patches, rec)
    ensures ApplyAll(patches, rec) == rec.(
      title := ApplyAll(patches, rec).title, artist := ApplyAll(patches, rec).artist,
      year := ApplyAll(patches, rec).year, labelName := ApplyAll(patches, rec).labelName,
      catalogNumber := ApplyAll(patches, rec).catalogNumber, format := ApplyAll(patches, rec).format,
      genre := ApplyAll(patches, rec).genre, condition := ApplyAll(patches, rec).condition,
      price := ApplyAll(patches, rec).price, stock := ApplyAll(patches, rec).stock,
      description := ApplyAll(patches, rec).description)
    ensures ValidRecord(rec) && (forall i :: 0 <= i < |patches| ==> ValidPatch(patches[i])) ==>
              ValidRecord(ApplyAll(patches, rec))
  {
    HistoryCombines(patches, rec);
    HistoryCombines(patches, ApplyAll(patches, rec));
    if forall i :: 0 <= i < |patches| ==> ValidPatch(patches[i]) {
      CombineAllValid(patches);
    }
  }

  lemma {:induction false} HistoryCombines(patches: seq<Patch>, rec: Record)
    ensures ApplyAll(patches, rec) == Apply(CombineAll(patches), rec)
    decreases |patches|
  {
    if patches != [] {
      HistoryCombines(patches[1..], Apply(patches[0], rec));
      CombineActs(patches[0], CombineAll(patches[1..]), rec);
    }
  }

  lemma {:induction false} CombineAllValid(patches: seq<Patch>)
    requires forall i :: 0 <= i < |patches| ==> ValidPatch(patches[i])
    ensures ValidPatch(CombineAll(patches))
    decreases |patches|
  {
    if patches != [] {
      CombineAllValid(patches[1..]);
    }
  }

  // ---- what a whole history of updates leaves behind ----

  /** A request that gives a field replaces it, and one that does not leaves it alone. */
  ghost predicate Overwrites<T(!new)>(given: Patch -> bool, value: Patch -> T, field: Record -> T) {
    forall p, rec :: field(Apply(p, rec)) == if given(p) then value(p) else field(rec)
  }

  lemma {:induction false} Untouched<T(!new)>(
    patches: seq<Patch>, rec: Record, given: Patch -> bool, value: Patch -> T, field: Record -> T)
    requires Overwrites(given, value, field)
    ensures (forall j :: 0 <= j < |patches| ==> !given(patches[j])) ==> field(ApplyAll(patches, rec)) == field(rec)
    decreases |patches|
  {
    if patches != [] {
      assert forall j :: 0 <= j < |patches| - 1 ==> patches[1..][j] == patches[j + 1];
      Untouched(patches[1..], Apply(patches[0], rec), given, value, field);
    }
  }

  lemma {:induction false} LastDecides<T(!new)>(
    patches: seq<Patch>, rec: Record, i: nat, given: Patch -> bool, value: Patch -> T, field: Record -> T)
    requires i < |patches| && Overwrites(given, value, field)
    ensures given(patches[i]) && (forall j :: i < j < |patches| ==> !given(patches[j])) ==>
              field(ApplyAll(patches, rec)) == value(patches[i])
    decreases |patches|
  {
    var rest := patches[1..];
    assert forall j :: 0 <= j < |rest| ==> rest[j] == patches[j + 1];
    if i == 0 {
      Untouched(rest, Apply(patches[0], rec), given, value, field);
    } else {
      LastDecides(rest, Apply(patches[0], rec), i - 1, given, value, field);
    }
  }

  /** In a history of updates a text that nobody gives stays as it was. */
  lemma TextsStay(patches: seq<Patch>, rec: Record)
    ensures (forall j :: 0 <= j < |patches| ==> patches[j].title == "") ==>
              ApplyAll(patches, rec).title == rec.title
    ensures (forall j :: 0 <= j < |patches| ==> patches[j].artist == "") ==>
              ApplyAll(patches, rec).artist == rec.artist
    ensures (forall j :: 0 <= j < |patches| ==> patches[j].labelName == "") ==>
              ApplyAll(patches, rec).labelName == rec.labelName
    ensures (forall j :: 0 <= j < |patches| ==> patches[j].catalogNumber == "") ==>
              ApplyAll(patches, rec).catalogNumber == rec.catalogNumber
    ensures (forall j :: 0 <= j < |patches| ==> patches[j].description == "") ==>
              ApplyAll(patches, rec).description == rec.description
  {
    Untouched(patches, rec, (p: Patch) => p.title != "", (p: Patch) => p.title, (r: Record) => r.title);
    Untouched(patches, rec, (p: Patch) => p.artist != "", (p: Patch) => p.artist, (r: Record) => r.artist);
    Untouched(patches, rec, (p: Patch) => p.labelName != "", (p: Patch) => p.labelName, (r: Record) => r.labelName);
    Untouched(patches, rec,
      (p: Patch) => p.catalogNumber != "", (p: Patch) => p.catalogNumber, (r: Record) => r.catalogNumber);
    Untouched(patches, rec,
      (p: Patch) => p.description != "", (p: Patch) => p.description, (r: Record) => r.description);
  }

  /** Likewise format, genre and condition. */
  lemma ChoicesStay(patches: seq<Patch>, rec: Record)
    ensures (forall j :: 0 <= j < |patches| ==> patches[j].format == "") ==>
              ApplyAll(patches, rec).format == rec.format
    ensures (forall j :: 0 <= j < |patches| ==> patches[j].genre == "") ==>
              ApplyAll(patches, rec).genre == rec.genre
    ensures (forall j :: 0 <= j < |patches| ==> patches[j].condition == "") ==>
              ApplyAll(patches, rec).condition == rec.condition
  {
    Untouched(patches, rec, (p: Patch) => p.format != "", (p: Patch) => p.format, (r: Record) => r.format);
    Untouched(patches, rec, (p: Patch) => p.genre != "", (p: Patch) => p.genre, (r: Record) => r.genre);
    Untouched(patches, rec, (p: Patch) => p.condition != "", (p: Patch) => p.condition, (r: Record) => r.condition);
  }

  /** Likewise year and price; the stock stays if no request has a body or a stock. */
  lemma NumbersStay(patches: seq<Patch>, rec: Record)
    ensures (forall j :: 0 <= j < |patches| ==> patches[j].year == 0) ==>
              ApplyAll(patches, rec).year == rec.year
    ensures (forall j :: 0 <= j < |patches| ==> patches[j].price == 0.0) ==>
              ApplyAll(patches, rec).price == rec.price
    ensures (forall j :: 0 <= j < |patches| ==> !patches[j].hasBody && patches[j].stock == 0) ==>
              ApplyAll(patches, rec).stock == rec.stock
  {
    Untouched(patches, rec, (p: Patch) => p.year != 0, (p: Patch) => p.year, (r: Record) => r.year);
    Untouched(patches, rec, (p: Patch) => p.price != 0.0, (p: Patch) => p.price, (r: Record) => r.price);
    Untouched(patches, rec, (p: Patch) => p.hasBody || p.stock != 0, (p: Patch) => p.stock, (r: Record) => r.stock);
  }

  /** The last request that gives a text decides it. */
  lemma LastTextWins(patches: seq<Patch>, rec: Record, i: nat)
    requires i < |patches|
    ensures patches[i].title != "" && (forall j :: i < j < |patches| ==> patches[j].title == "") ==>
              ApplyAll(patches, rec).title == patches[i].title
    ensures patches[i].artist != "" && (forall j :: i < j < |patches| ==> patches[j].artist == "") ==>
              ApplyAll(patches, rec).artist == patches[i].artist
    ensures patches[i].labelName != "" && (forall j :: i < j < |patches| ==> patches[j].labelName == "") ==>
              ApplyAll(patches, rec).labelName == patches[i].labelName
    ensures patches[i].catalogNumber != "" && (forall j :: i < j < |patches| ==> patches[j].catalogNumber == "") ==>
              ApplyAll(patches, rec).catalogNumber == patches[i].catalogNumber
    ensures patches[i].description != "" && (forall j :: i < j < |patches| ==> patches[j].description == "") ==>
              ApplyAll(patches, rec).description == patches[i].description
  {
    LastDecides(patches, rec, i, (p: Patch) => p.title != "", (p: Patch) => p.title, (r: Record) => r.title);
    LastDecides(patches, rec, i, (p: Patch) => p.artist != "", (p: Patch) => p.artist, (r: Record) => r.artist);
    LastDecides(patches, rec, i,
      (p: Patch) => p.labelName != "", (p: Patch) => p.labelName, (r: Record) => r.labelName);
    LastDecides(patches, rec, i,
      (p: Patch) => p.catalogNumber != "", (p: Patch) => p.catalogNumber, (r: Record) => r.catalogNumber);
    LastDecides(patches, rec, i,
      (p: Patch) => p.description != "", (p: Patch) => p.description, (r: Record) => r.description);
  }

  /** Likewise format, genre and condition. */
  lemma LastChoiceWins(patches: seq<Patch>, rec: Record, i: nat)
    requires i < |patches|
    ensures patches[i].format != "" && (forall j :: i < j < |patches| ==> patches[j].format == "") ==>
              ApplyAll(patches, rec).format == patches[i].format
    ensures patches[i].genre != "" && (forall j :: i < j < |patches| ==> patches[j].genre == "") ==>
              ApplyAll(patches, rec).genre == patches[i].genre
    ensures patches[i].condition != "" && (forall j :: i < j < |patches| ==> patches[j].condition == "") ==>
              ApplyAll(patches, rec).condition == patches[i].condition
  {
    LastDecides(patches, rec, i, (p: Patch) => p.format != "", (p: Patch) => p.format, (r: Record) => r.format);
    LastDecides(patches, rec, i, (p: Patch) => p.genre != "", (p: Patch) => p.genre, (r: Record) => r.genre);
    LastDecides(patches, rec, i,
      (p: Patch) => p.condition != "", (p: Patch) => p.condition, (r: Record) => r.condition);
  }

  /** The last request that gives a year or a price decides it, and the last one with a body or a stock the stock. */
  lemma LastNumberWins(patches: seq<Patch>, rec: Record, i: nat)
    requires i < |patches|
    ensures patches[i].year != 0 && (forall j :: i < j < |patches| ==> patches[j].year == 0) ==>
              ApplyAll(patches, rec).year == patches[i].year
    ensures patches[i].price != 0.0 && (forall j :: i < j < |patches| ==> patches[j].price == 0.0) ==>
              ApplyAll(patches, rec).price == patches[i].price
    ensures (patches[i].hasBody || patches[i].stock != 0)
            && (forall j :: i < j < |patches| ==> !patches[j].hasBody && patches[j].stock == 0) ==>
              ApplyAll(patches, rec).stock == patches[i].stock
  {
    LastDecides(patches, rec, i, (p: Patch) => p.year != 0, (p: Patch) => p.year, (r: Record) => r.year);
    LastDecides(patches, rec, i, (p: Patch) => p.price != 0.0, (p: Patch) => p.price, (r: Record) => r.price);
    LastDecides(patches, rec, i,
      (p: Patch) => p.hasBody || p.stock != 0, (p: Patch) => p.stock, (r: Record) => r.stock);
  }
}
