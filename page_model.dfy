/**
 * The `pages` table and the data-access operations over it. The table is
 * an in-memory sequence of rows in insertion order; each SQL query is a
 * specification function over that sequence, and the class
 * methods run those queries against, or apply those writes to, its rows.
 */
module PageStore {
  import opened PageTypes

  /** `dbRowToPage`: a row as the API shows it; a NULL metadata becomes absent. */
  function DbRowToPage(row: PageDB): (p: Page)
    ensures p.id == row.id && p.slug == row.slug && p.title == row.title && p.components == row.components
    ensures p.metadata.None? <==> row.metadata.None?
    ensures row.metadata.Some? ==> p.metadata == row.metadata
    ensures p.createdAt == Some(row.createdAt) && p.updatedAt == Some(row.updatedAt)
  {
    Page(row.id, row.slug, row.title, row.metadata, row.components, Some(row.createdAt), Some(row.updatedAt))
  }

  /** No information of a row is lost on the way to a page: distinct rows give distinct pages. */
  lemma DbRowToPageInjective(a: PageDB, b: PageDB)
    requires DbRowToPage(a) == DbRowToPage(b)
    ensures a == b
  {
    assert a.id == DbRowToPage(a).id && a.slug == DbRowToPage(a).slug && a.title == DbRowToPage(a).title;
    assert a.metadata == DbRowToPage(a).metadata && a.components == DbRowToPage(a).components;
  }

  // ---------------------------------------------------------------------------
  // Queries as functions of the table
  // ---------------------------------------------------------------------------

  /** The two columns rows are looked up by. */
  datatype Column = IdColumn | SlugColumn

  function KeyOf(row: PageDB, column: Column): string
  {
    match column
    case IdColumn => row.id
    case SlugColumn => row.slug
  }

  /** `SELECT * FROM pages WHERE <column> = $1`, first result: the first row with that key, if any. */
  function RowWith(rows: seq<PageDB>, column: Column, key: string): (r: Option<PageDB>)
    ensures r.None? <==> forall i | 0 <= i < |rows| :: KeyOf(rows[i], column) != key
    ensures r.Some? ==> r.value in rows && KeyOf(r.value, column) == key
  {
    if rows == [] then None
    else if KeyOf(rows[0], column) == key then Some(rows[0])
    else RowWith(rows[1..], column, key)
  }

  /** When keys are unique, the row found is THE row with that key. */
  lemma {:induction false} RowWithUnique(rows: seq<PageDB>, column: Column, i: nat)
    requires i < |rows|
    requires forall j, k | 0 <= j < k < |rows| :: KeyOf(rows[j], column) != KeyOf(rows[k], column)
    ensures RowWith(rows, column, KeyOf(rows[i], column)) == Some(rows[i])
  {
    if i > 0 {
      assert KeyOf(rows[0], column) != KeyOf(rows[i], column);
      assert rows[1..][i - 1] == rows[i];
      RowWithUnique(rows[1..], column, i - 1);
    }
  }

  /** `ORDER BY created_at DESC` over a table kept in creation order: the rows newest first. */
  function NewestFirst(rows: seq<PageDB>): (pages: seq<Page>)
    ensures |pages| == |rows|
    ensures forall i | 0 <= i < |rows| :: pages[i] == DbRowToPage(rows[|rows| - 1 - i])
  {
    if rows == [] then [] else [DbRowToPage(rows[|rows| - 1])] + NewestFirst(rows[..|rows| - 1])
  }

  /** An `excludeId` only takes effect when it is truthy (present and non-empty). */
  predicate Excludes(excludeId: Option<string>)
  {
    excludeId.Some? && excludeId.value != ""
  }

  /** The WHERE clause of `slugExists`: same slug, and a different id when an id is excluded. */
  predicate SlugMatch(row: PageDB, slug: string, excludeId: Option<string>)
  {
    row.slug == slug && (Excludes(excludeId) ==> row.id != excludeId.value)
  }

  /** `SELECT COUNT(*) FROM pages WHERE slug = $1 [AND id != $2]` */
  function CountSlugMatches(rows: seq<PageDB>, slug: string, excludeId: Option<string>): (n: nat)
    ensures n <= |rows|
    ensures n > 0 <==> exists i | 0 <= i < |rows| :: SlugMatch(rows[i], slug, excludeId)
  {
    if rows == [] then 0
    else
      (if SlugMatch(rows[0], slug, excludeId) then 1 else 0) + CountSlugMatches(rows[1..], slug, excludeId)
  }

  /** The row `create` inserts, with the new id and the insertion time as both timestamps. */
  function NewRow(data: CreatePageRequest, id: string, now: Timestamp): PageDB
  {
    PageDB(id, data.slug, data.title, data.metadata, data.components, now, now)
  }

  /** A row after `UPDATE ... SET slug, title, metadata, components`. */
  function ApplyUpdate(row: PageDB, data: UpdatePageRequest): (r: PageDB)
    ensures r.id == row.id && r.createdAt == row.createdAt && r.updatedAt == row.updatedAt
    ensures r.slug == data.slug && r.title == data.title
    ensures r.metadata == data.metadata && r.components == data.components
  {
    row.(slug := data.slug, title := data.title, metadata := data.metadata, components := data.components)
  }

  /** `UPDATE pages ... WHERE id = $5` applied to the table. */
  function UpdateRows(rows: seq<PageDB>, id: string, data: UpdatePageRequest): (r: seq<PageDB>)
    ensures |r| == |rows|
    ensures forall i | 0 <= i < |rows| :: r[i] == if rows[i].id == id then ApplyUpdate(rows[i], data) else rows[i]
  {
    if rows == [] then []
    else [if rows[0].id == id then ApplyUpdate(rows[0], data) else rows[0]] + UpdateRows(rows[1..], id, data)
  }

  /** `DELETE FROM pages WHERE id = $1` applied to the table: the other rows, in their order. */
  function DeleteRows(rows: seq<PageDB>, id: string): (r: seq<PageDB>)
    ensures |r| <= |rows|
    ensures |r| == |rows| <==> forall i | 0 <= i < |rows| :: rows[i].id != id
  {
    if rows == [] then []
    else (if rows[0].id == id then [] else [rows[0]]) + DeleteRows(rows[1..], id)
  }

  // ---------------------------------------------------------------------------
  // Table invariants
  // ---------------------------------------------------------------------------

  ghost predicate IdsUnique(rows: seq<PageDB>)
  {
    forall i, j | 0 <= i < j < |rows| :: rows[i].id != rows[j].id
  }

  ghost predicate SlugsUnique(rows: seq<PageDB>)
  {
    forall i, j | 0 <= i < j < |rows| :: rows[i].slug != rows[j].slug
  }

  /** Rows sit in the order they were inserted, each strictly newer than the one before. */
  ghost predicate CreatedInOrder(rows: seq<PageDB>)
  {
    forall i, j | 0 <= i < j < |rows| :: rows[i].createdAt < rows[j].createdAt
  }

  /** Updating changes no id and no timestamp, so the id and order invariants survive. */
  lemma UpdateRowsKeepsInvariants(rows: seq<PageDB>, id: string, data: UpdatePageRequest, clock: Timestamp)
    ensures IdsUnique(rows) ==> IdsUnique(UpdateRows(rows, id, data))
    ensures CreatedInOrder(rows) ==> CreatedInOrder(UpdateRows(rows, id, data))
    ensures (forall i | 0 <= i < |rows| :: rows[i].createdAt < clock) ==>
              forall i | 0 <= i < |rows| :: UpdateRows(rows, id, data)[i].createdAt < clock
  {
    var r := UpdateRows(rows, id, data);
    forall i | 0 <= i < |rows| ensures r[i].id == rows[i].id && r[i].createdAt == rows[i].createdAt {
    }
  }

  /** When no row has the id, updating changes nothing. */
  lemma UpdateRowsAbsentId(rows: seq<PageDB>, id: string, data: UpdatePageRequest)
    requires forall i | 0 <= i < |rows| :: rows[i].id != id
    ensures UpdateRows(rows, id, data) == rows
  {
  }

  /** Deleting keeps the remaining rows in order, so every pairwise invariant survives. */
  lemma DeleteRowsKeepsInvariants(rows: seq<PageDB>, id: string)
    ensures IdsUnique(rows) ==> IdsUnique(DeleteRows(rows, id))
    ensures SlugsUnique(rows) ==> SlugsUnique(DeleteRows(rows, id))
    ensures CreatedInOrder(rows) ==> CreatedInOrder(DeleteRows(rows, id))
  {
    var r := DeleteRows(rows, id);
    forall a, b | 0 <= a < b < |r|
      ensures IdsUnique(rows) ==> r[a].id != r[b].id
      ensures SlugsUnique(rows) ==> r[a].slug != r[b].slug
      ensures CreatedInOrder(rows) ==> r[a].createdAt < r[b].createdAt
    {
      DeleteOriginIncreasing(rows, id, a, b);
      var i, j := DeleteOrigin(rows, id, a), DeleteOrigin(rows, id, b);
      assert r[a] == rows[i] && r[b] == rows[j] && i < j;
    }
  }

  /** Deleting an id no row has leaves the table as it was. */
  lemma {:induction false} DeleteRowsAbsentId(rows: seq<PageDB>, id: string)
    requires forall i | 0 <= i < |rows| :: rows[i].id != id
    ensures DeleteRows(rows, id) == rows
  {
    if rows != [] {
      DeleteRowsAbsentId(rows[1..], id);
    }
  }

  /** The rows left are exactly the rows with another id. */
  lemma {:induction false} DeleteRowsMembers(rows: seq<PageDB>, id: string)
    ensures forall row :: row in DeleteRows(rows, id) <==> row in rows && row.id != id
  {
    if rows != [] {
      DeleteRowsMembers(rows[1..], id);
      assert rows == [rows[0]] + rows[1..];
    }
  }

  /** The position in the table of the `a`-th row left after deleting `id`. */
  function DeleteOrigin(rows: seq<PageDB>, id: string, a: nat): (i: nat)
    requires a < |DeleteRows(rows, id)|
    ensures i < |rows| && DeleteRows(rows, id)[a] == rows[i]
  {
    if rows[0].id == id then 1 + DeleteOrigin(rows[1..], id, a)
    else if a == 0 then 0
    else 1 + DeleteOrigin(rows[1..], id, a - 1)
  }

  /** Deleting never reorders: later remaining rows come from later table positions. */
  lemma {:induction false} DeleteOriginIncreasing(rows: seq<PageDB>, id: string, a: nat, b: nat)
    requires a < b < |DeleteRows(rows, id)|
    ensures DeleteOrigin(rows, id, a) < DeleteOrigin(rows, id, b)
  {
    if rows[0].id == id {
      DeleteOriginIncreasing(rows[1..], id, a, b);
    } else if a > 0 {
      DeleteOriginIncreasing(rows[1..], id, a - 1, b - 1);
    }
  }

  /** Newest first really is sorted by creation time, newest at the front. */
  lemma NewestFirstSorted(rows: seq<PageDB>)
    requires CreatedInOrder(rows)
    ensures forall i, j | 0 <= i < j < |rows| :: NewestFirst(rows)[j].createdAt.value < NewestFirst(rows)[i].createdAt.value
  {
    var pages := NewestFirst(rows);
    forall i, j | 0 <= i < j < |rows|
      ensures pages[j].createdAt.value < pages[i].createdAt.value
    {
      assert pages[i] == DbRowToPage(rows[|rows| - 1 - i]);
      assert pages[j] == DbRowToPage(rows[|rows| - 1 - j]);
    }
  }

  // ---------------------------------------------------------------------------
  // The table
  // ---------------------------------------------------------------------------

  /**
   * `PageModel` over the `pages` table. `clock` stands for the database's
   * `NOW()`: every insertion is stamped with it and advances it.
   */
  class PageModel {
    var rows: seq<PageDB>
    var clock: Timestamp

    ghost predicate Valid()
      reads this
    {
      && IdsUnique(rows)
      && CreatedInOrder(rows)
      && forall i | 0 <= i < |rows| :: rows[i].createdAt < clock
    }

    /** An empty table. */
    constructor ()
      ensures Valid() && rows == []
    {
      rows := [];
      clock := 0;
    }

    /** `findAll`: every page, newest first. */
    method FindAll() returns (pages: seq<Page>)
      requires Valid()
      ensures pages == NewestFirst(rows)
      ensures |pages| == |rows|
      ensures forall row | row in rows :: DbRowToPage(row) in pages
      ensures forall i, j | 0 <= i < j < |pages| :: pages[j].createdAt.value < pages[i].createdAt.value
    {
      pages := NewestFirst(rows);
      NewestFirstSorted(rows);
      forall row | row in rows ensures DbRowToPage(row) in pages {
        var i :| 0 <= i < |rows| && rows[i] == row;
        assert pages[|rows| - 1 - i] == DbRowToPage(row);
      }
    }

    /** `findBySlug`: the page with that slug, or `None` when there is none. */
    method FindBySlug(slug: string) returns (page: Option<Page>)
      ensures page.None? <==> forall i | 0 <= i < |rows| :: rows[i].slug != slug
      ensures page.Some? ==> page.value.slug == slug && exists row | row in rows :: page.value == DbRowToPage(row)
      ensures page == Lift(RowWith(rows, SlugColumn, slug))
    {
      page := Lift(RowWith(rows, SlugColumn, slug));
    }

    /** `findById`: the page with that id, or `None` when there is none. */
    method FindById(id: string) returns (page: Option<Page>)
      ensures page.None? <==> forall i | 0 <= i < |rows| :: rows[i].id != id
      ensures page.Some? ==> page.value.id == id && exists row | row in rows :: page.value == DbRowToPage(row)
      ensures page == Lift(RowWith(rows, IdColumn, id))
    {
      page := Lift(RowWith(rows, IdColumn, id));
    }

    /**
     * `slugExists(slug, excludeId)`: some row has the slug and, when
     * `excludeId` is truthy, an id other than it.
     */
    method SlugExists(slug: string, excludeId: Option<string>) returns (taken: bool)
      ensures taken <==> exists i | 0 <= i < |rows| :: SlugMatch(rows[i], slug, excludeId)
    {
      var count := CountSlugMatches(rows, slug, excludeId);
      taken := count > 0;
    }

    /** `create`: inserts one row with a fresh id and the current time, and returns it as a page. */
    method Create(data: CreatePageRequest, newId: string) returns (page: Page)
      requires Valid()
      requires forall i | 0 <= i < |rows| :: rows[i].id != newId
      modifies this
      ensures Valid()
      ensures rows == old(rows) + [NewRow(data, newId, old(clock))] && clock == old(clock) + 1
      ensures page == DbRowToPage(NewRow(data, newId, old(clock)))
    {
      var row := NewRow(data, newId, clock);
      rows := rows + [row];
      clock := clock + 1;
      page := DbRowToPage(row);
    }

    /**
     * `update`: replaces slug, title, metadata and components of the row
     * with that id; `None`, and no change, when there is no such row.
     */
    method Update(id: string, data: UpdatePageRequest) returns (page: Option<Page>)
      requires Valid()
      modifies this
      ensures Valid() && clock == old(clock)
      ensures rows == UpdateRows(old(rows), id, data)
      ensures RowWith(old(rows), IdColumn, id).None? ==> page.None? && rows == old(rows)
      ensures RowWith(old(rows), IdColumn, id).Some? ==>
                page == Some(DbRowToPage(ApplyUpdate(RowWith(old(rows), IdColumn, id).value, data)))
    {
      var existing := RowWith(rows, IdColumn, id);
      UpdateRowsKeepsInvariants(rows, id, data, clock);
      rows := UpdateRows(rows, id, data);
      match existing
      case None =>
        UpdateRowsAbsentId(old(rows), id, data);
        page := None;
      case Some(row) =>
        page := Some(DbRowToPage(ApplyUpdate(row, data)));
    }

    /** `delete`: removes the row with that id; true exactly when a row was removed. */
    method Delete(id: string) returns (deleted: bool)
      requires Valid()
      modifies this
      ensures Valid() && clock == old(clock)
      ensures rows == DeleteRows(old(rows), id)
      ensures deleted <==> exists i | 0 <= i < |old(rows)| :: old(rows)[i].id == id
    {
      DeleteRowsKeepsInvariants(rows, id);
      DeleteRowsMembers(rows, id);
      var remaining := DeleteRows(rows, id);
      deleted := |remaining| < |rows|;
      rows := remaining;
    }
  }

  /** A row found by a query, as the page the model returns. */
  function Lift(row: Option<PageDB>): (page: Option<Page>)
    ensures page.Some? <==> row.Some?
  {
    match row
    case None => None
    case Some(r) => Some(DbRowToPage(r))
  }
}
