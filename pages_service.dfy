/**
 * `PagesService`: the page operations the controllers call. Each is a short
 * sequence of table reads followed by at most one write, and reports a
 * missing page as 404 and a slug clash as 409. The service holds no state
 * of its own; every method works on the table it is given.
 */
module PagesService {
  import opened PageTypes
  import opened PageStore

  /** `ApiError`: an HTTP status with a message. */
  datatype ApiError = ApiError(statusCode: nat, message: string)

  const PageNotFound: ApiError := ApiError(404, "Page not found")
  const SlugConflict: ApiError := ApiError(409, "A page with this slug already exists")

  /** A service call either returns its value or throws an `ApiError`. */
  datatype Result<T> = Ok(value: T) | Err(error: ApiError)

  // ---------------------------------------------------------------------------
  // Properties of the writes, over the table contents
  // ---------------------------------------------------------------------------

  /** Inserting a row whose slug is not yet taken keeps slugs unique. */
  lemma CreateKeepsSlugsUnique(rows: seq<PageDB>, row: PageDB)
    requires SlugsUnique(rows)
    requires !exists i | 0 <= i < |rows| :: SlugMatch(rows[i], row.slug, None)
    ensures SlugsUnique(rows + [row])
  {
    var r := rows + [row];
    forall i, j | 0 <= i < j < |r| ensures r[i].slug != r[j].slug {
      if j == |rows| {
        assert !SlugMatch(rows[i], row.slug, None);
      }
    }
  }

  /**
   * Updating a page keeps slugs unique when its slug stays the same or the
   * new slug is held by no other page.
   */
  lemma UpdateKeepsSlugsUnique(rows: seq<PageDB>, k: nat, data: UpdatePageRequest)
    requires SlugsUnique(rows) && IdsUnique(rows) && k < |rows|
    requires data.slug == rows[k].slug || !exists i | 0 <= i < |rows| :: SlugMatch(rows[i], data.slug, Some(rows[k].id))
    ensures SlugsUnique(UpdateRows(rows, rows[k].id, data))
  {
    var id := rows[k].id;
    var r := UpdateRows(rows, id, data);
    forall i, j | 0 <= i < j < |r| ensures r[i].slug != r[j].slug {
      if i == k {
        assert r[j] == rows[j];
        if data.slug != rows[k].slug {
          assert !SlugMatch(rows[j], data.slug, Some(id));
        }
      } else if j == k {
        assert r[i] == rows[i];
        if data.slug != rows[k].slug {
          assert !SlugMatch(rows[i], data.slug, Some(id));
        }
      } else {
        assert r[i] == rows[i] && r[j] == rows[j];
      }
    }
  }

  /**
   * The `id != $2` part of the update's recheck never matters: it runs only
   * when the slug changes, and then the page's own row cannot match anyway.
   */
  lemma ExcludingOwnIdIsRedundant(rows: seq<PageDB>, k: nat, slug: string)
    requires IdsUnique(rows) && k < |rows| && slug != rows[k].slug
    ensures (exists i | 0 <= i < |rows| :: SlugMatch(rows[i], slug, Some(rows[k].id)))
        <==> (exists i | 0 <= i < |rows| :: SlugMatch(rows[i], slug, None))
  {
    if exists i | 0 <= i < |rows| :: SlugMatch(rows[i], slug, None) {
      var i :| 0 <= i < |rows| && SlugMatch(rows[i], slug, None);
      assert i != k;
      assert SlugMatch(rows[i], slug, Some(rows[k].id));
    }
  }

  /** A page just created is what a lookup of its slug returns, with the fields of the request. */
  lemma {:induction false} CreatedPageFoundBySlug(rows: seq<PageDB>, data: CreatePageRequest, id: string, now: Timestamp)
    requires !exists i | 0 <= i < |rows| :: SlugMatch(rows[i], data.slug, None)
    ensures Lift(RowWith(rows + [NewRow(data, id, now)], SlugColumn, data.slug)) == Some(DbRowToPage(NewRow(data, id, now)))
    ensures var p := DbRowToPage(NewRow(data, id, now));
            p.slug == data.slug && p.title == data.title && p.metadata == data.metadata && p.components == data.components
  {
    if rows != [] {
      assert !SlugMatch(rows[0], data.slug, None);
      assert (rows + [NewRow(data, id, now)])[1..] == rows[1..] + [NewRow(data, id, now)];
      CreatedPageFoundBySlug(rows[1..], data, id, now);
    }
  }

  /** After a delete, looking the id up finds nothing. */
  lemma DeletedPageNotFound(rows: seq<PageDB>, id: string)
    ensures RowWith(DeleteRows(rows, id), IdColumn, id).None?
  {
    DeleteRowsMembers(rows, id);
    var r := DeleteRows(rows, id);
    forall i | 0 <= i < |r| ensures r[i].id != id {
      assert r[i] in r;
    }
  }

  // ---------------------------------------------------------------------------
  // The operations
  // ---------------------------------------------------------------------------

  /** `getAllPages`: every page, newest first. */
  method GetAllPages(store: PageModel) returns (pages: seq<Page>)
    requires store.Valid()
    ensures pages == NewestFirst(store.rows)
    ensures forall i, j | 0 <= i < j < |pages| :: pages[j].createdAt.value < pages[i].createdAt.value
  {
    pages := store.FindAll();
  }

  /** `getPageBySlug`: the page with that slug, or 404. */
  method GetPageBySlug(store: PageModel, slug: string) returns (r: Result<Page>)
    ensures r.Err? <==> forall i | 0 <= i < |store.rows| :: store.rows[i].slug != slug
    ensures r.Err? ==> r.error == PageNotFound
    ensures r.Ok? ==> r.value.slug == slug && exists row | row in store.rows :: r.value == DbRowToPage(row)
  {
    var page := store.FindBySlug(slug);
    if page.None? {
      return Err(PageNotFound);
    }
    return Ok(page.value);
  }

  /** `getPageById`: the page with that id, or 404. */
  method GetPageById(store: PageModel, id: string) returns (r: Result<Page>)
    ensures r.Err? <==> forall i | 0 <= i < |store.rows| :: store.rows[i].id != id
    ensures r.Err? ==> r.error == PageNotFound
    ensures r.Ok? ==> r.value.id == id && exists row | row in store.rows :: r.value == DbRowToPage(row)
  {
    var page := store.FindById(id);
    if page.None? {
      return Err(PageNotFound);
    }
    return Ok(page.value);
  }

  /**
   * `createPage`: 409 with the table untouched when the slug is taken;
   * otherwise exactly one new row. The components are not examined here.
   */
  method CreatePage(store: PageModel, data: CreatePageRequest, newId: string) returns (r: Result<Page>)
    requires store.Valid()
    requires forall i | 0 <= i < |store.rows| :: store.rows[i].id != newId
    modifies store
    ensures store.Valid()
    ensures (exists i | 0 <= i < |old(store.rows)| :: old(store.rows)[i].slug == data.slug) ==>
              r == Err(SlugConflict) && store.rows == old(store.rows) && store.clock == old(store.clock)
    ensures (forall i | 0 <= i < |old(store.rows)| :: old(store.rows)[i].slug != data.slug) ==>
              && store.rows == old(store.rows) + [NewRow(data, newId, old(store.clock))]
              && store.clock == old(store.clock) + 1
              && r == Ok(DbRowToPage(NewRow(data, newId, old(store.clock))))
    ensures SlugsUnique(old(store.rows)) ==> SlugsUnique(store.rows)
  {
    var taken := store.SlugExists(data.slug, None);
    if taken {
      return Err(SlugConflict);
    }
    var page := store.Create(data, newId);
    if SlugsUnique(old(store.rows)) {
      CreateKeepsSlugsUnique(old(store.rows), NewRow(data, newId, old(store.clock)));
    }
    return Ok(page);
  }

  /**
   * `updatePage`: 404 when no page has the id; when the slug changes and
   * another page holds the new one, 409; otherwise the page keeps its id and
   * takes everything else from the request. Failures leave the table untouched.
   */
  method UpdatePage(store: PageModel, id: string, data: UpdatePageRequest) returns (r: Result<Page>)
    requires store.Valid()
    modifies store
    ensures store.Valid() && store.clock == old(store.clock)
    ensures RowWith(old(store.rows), IdColumn, id).None? ==>
              r == Err(PageNotFound) && store.rows == old(store.rows)
    ensures RowWith(old(store.rows), IdColumn, id).Some? ==>
              var existing := RowWith(old(store.rows), IdColumn, id).value;
              if existing.slug != data.slug
                 && exists i | 0 <= i < |old(store.rows)| :: SlugMatch(old(store.rows)[i], data.slug, Some(id))
              then r == Err(SlugConflict) && store.rows == old(store.rows)
              else && store.rows == UpdateRows(old(store.rows), id, data)
                   && r == Ok(DbRowToPage(ApplyUpdate(existing, data)))
    ensures SlugsUnique(old(store.rows)) ==> SlugsUnique(store.rows)
  {
    var existing := store.FindById(id);
    if existing.None? {
      return Err(PageNotFound);
    }
    if data.slug != existing.value.slug {
      var taken := store.SlugExists(data.slug, Some(id));
      if taken {
        return Err(SlugConflict);
      }
    }
    ghost var before := store.rows;
    var updated := store.Update(id, data);
    if updated.None? {
      return Err(PageNotFound);
    }
    if SlugsUnique(before) {
      var row := RowWith(before, IdColumn, id).value;
      var k :| 0 <= k < |before| && before[k] == row;
      RowWithUnique(before, IdColumn, k);
      UpdateKeepsSlugsUnique(before, k, data);
    }
    return Ok(updated.value);
  }

  /** `deletePage`: removes the page, or 404 when no page had the id. */
  method DeletePage(store: PageModel, id: string) returns (r: Result<()>)
    requires store.Valid()
    modifies store
    ensures store.Valid() && store.clock == old(store.clock)
    ensures store.rows == DeleteRows(old(store.rows), id)
    ensures r.Err? <==> forall i | 0 <= i < |old(store.rows)| :: old(store.rows)[i].id != id
    ensures r.Err? ==> r.error == PageNotFound && store.rows == old(store.rows)
    ensures SlugsUnique(old(store.rows)) ==> SlugsUnique(store.rows)
  {
    DeleteRowsKeepsInvariants(store.rows, id);
    var deleted := store.Delete(id);
    if !deleted {
      DeleteRowsAbsentId(old(store.rows), id);
      return Err(PageNotFound);
    }
    return Ok(());
  }
}
