# DataHoy pages backend — a Dafny model

DataHoy's backend stores and serves page definitions. Each page has a unique
slug, which may contain `/` to express nesting. It also has a title, optional
metadata and an ordered tree of typed components. The backend exposes them
over a small REST API. This project models the core of that backend in Dafny
and proves properties of the model:

- **`page_types.dfy`** (`PageTypes`): the data model. It holds the seven
  component types, the recursive component tree, page metadata, the page as
  returned, the database row, the create/update request and the response
  envelope.
- **`js_value.dfy`** (`JsValue`): the parsed JSON request body the validators
  inspect. It includes JavaScript truthiness, property access on non-objects
  and template-literal string conversion, which throws a `TypeError` for an
  object with its own `toString` key.
- **`validation.dfy`** (`Validation`): the request-validating middleware.
  - The recursive component check, with its depth limit.
  - The ordered, fail-fast page-payload check.
  - The slug character check.
  - The UUID format check.
- **`page_routes.dfy`** (`PageRoutes`): the application-level handler that
  turns `GET /api/pages/<slug…>` into a slug lookup. It hands the bare
  collection path and the reserved `/api/pages/id/` paths on to the router.
- **`page_model.dfy`** (`PageStore`): the `pages` table as a class over a
  sequence of rows, with the seven data-access operations.
- **`pages_service.dfy`** (`PagesService`): the business rules. Missing pages
  give 404. A slug held by another page gives 409 on create, and on update
  only when the slug changes.
- **`migrate.dfy`** (`Migrate`): the migration script's statement handling.
  The file is split at `;`, pieces are trimmed and filtered, and the
  statements are executed one at a time. "does not exist" errors are
  tolerated.
- **`strings.dfy`** (`Strings`): shared string helpers.

Invariants of the table:

- Ids are unique.
- Rows are stored in creation order, with strictly increasing creation
  timestamps below the store's clock.

Every write operation preserves these. The service operations also preserve
slug uniqueness, which in the deployed system a database constraint
guarantees.

## Model

| member | source | states |
|---|---|---|
| PageTypes.TypeNameRoundTrip | src/types/page.types.ts:6-13 | every component type's JSON name denotes that type back, and no two types share a name |
| Validation.ValidTypesMatchComponentTypes | src/middleware/validation.ts:7-15 | the validator's list has seven distinct names, a name is on it exactly when it denotes a component type, and every type's name is on it |
| Validation.ValidateComponent | src/middleware/validation.ts:29-70 | beyond level 10 the error is "nesting too deep"; a component is accepted exactly when it and all its descendants are well formed at their levels |
| Validation.FirstChildError | src/middleware/validation.ts:61-66 | the children loop reports no error exactly when every child is well formed one level down |
| Validation.FirstFailingCheckDecides | src/middleware/validation.ts:31-59 | the error reported for a node is the first failing check of an independently listed sequence of checks, in source order; with none failing it is the first child's error |
| Validation.UnknownTypeRejected | src/middleware/validation.ts:43-45 | a non-empty type string not in the list is rejected as an invalid type (unless already too deep) |
| JsValue.ToJsString | src/middleware/validation.ts:44 | converting a value to text throws exactly when it is an object with its own `toString` key or an array holding such a value at any depth; a string renders as itself, a non-negative integer as digits that denote it, any other object as "[object Object]" |
| JsValue.JoinElements | src/middleware/validation.ts:44 | an array's conversion throws exactly when one of its elements' conversions throws |
| Strings.NatToString | src/middleware/validation.ts:44 | a number in the invalid-type message is written as decimal digits that denote it, without leading zeros |
| Validation.FirstFailingChildDecides | src/middleware/validation.ts:61-66 | when child k is the first to fail, the loop returns child k's error |
| Validation.ChainAcceptedIffShallow | src/middleware/validation.ts:31-33 | a single-child chain starting at level d with n further levels is accepted exactly when d + n <= 10, and otherwise fails as too deep |
| Validation.DepthTenAcceptedElevenRejected | src/middleware/validation.ts:31-33 | a tree whose deepest node is at level 10 is accepted, one reaching level 11 is rejected |
| Validation.TypedTreeValidates | src/middleware/validation.ts:29-70 | a typed component tree sent as JSON passes exactly when all its ids are non-empty and its depth plus height is at most 10 |
| Validation.TypedChildrenValidate | src/middleware/validation.ts:61-66 | the typed children pass the loop exactly when each one passes on its own |
| Validation.ValidateSlug | src/middleware/validation.ts:21-24 | a slug is valid exactly when it is non-empty and every character is an ASCII letter, a digit, `-` or `/` |
| Validation.FirstComponentFailure | src/middleware/validation.ts:162-170 | the loop over root components fails exactly when some root fails, and it reports the first failing root's error |
| Validation.FirstPageDataFailureDecides | src/middleware/validation.ts:75-170 | the fail-fast check sequence returns the first entry of the independent list of all failing checks, and nothing when that list is empty |
| Validation.PageDataMessageThrows | src/middleware/validation.ts:43-45 | building the error message of a payload failure throws exactly for an invalid component type whose value cannot be converted to text |
| Validation.ValidatePageData | src/middleware/validation.ts:75-173 | the request passes exactly when no payload check fails; the middleware throws exactly when some check fails and building the first failure's message throws; otherwise the answer is a 400 with the "Validation failed: " message of the first failing check |
| Validation.OwnToStringTypeThrows | src/middleware/validation.ts:43-45 | a payload whose only component has an object with its own `toString` key as its type makes the middleware throw instead of answering 400 |
| Validation.UuidFromGroups | src/middleware/validation.ts:181 | five hex groups of lengths 8-4-4-4-12 joined by `-` form an accepted UUID |
| Validation.UuidSplitsIntoGroups | src/middleware/validation.ts:181 | every accepted UUID is such a join of five hex groups |
| Validation.ValidateUuid | src/middleware/validation.ts:178-191 | the request passes exactly when the id has the UUID shape (hex digits in either case); otherwise a 400 with "Invalid UUID format"; it never throws |
| PageRoutes.StripPrefix | src/app.ts:55 | a path starting with the prefix is the prefix followed by the result; any other path is unchanged |
| PageRoutes.StripLeadingSlash | src/app.ts:55 | at most one leading `/` is removed, and one is removed whenever present |
| PageRoutes.ResolvePagePath | src/app.ts:46-66 | a slug handed to the lookup is never empty |
| PageRoutes.ReservedRoutesPassOn | src/app.ts:50-52 | `/api/pages` and every path under `/api/pages/id/` are handed on to the router |
| PageRoutes.NoSlugUnderReservedPrefix | src/app.ts:50-52 | no path that is looked up as a slug is the collection path or under `/api/pages/id/` |
| PageRoutes.ResolvedSlugIsPathSuffix | src/app.ts:55 | the looked-up slug is the rest of the path after `/api/pages/`, with at most one extra `/` removed |
| PageRoutes.SlugReachable | src/app.ts:46-66 | `/api/pages/<s>` is looked up as exactly `s` if and only if `s` is non-empty, does not start with `/` and does not start with `id/` |
| PageRoutes.NestedSlugIsOneKey | src/app.ts:44-63 | a multi-segment path is looked up as one slug with its interior `/` kept |
| PageRoutes.EmptySlugPassesOn | src/app.ts:58-65 | a path leaving an empty slug is handed on, not looked up |
| PageRoutes.BareIdIsASlug | src/app.ts:50 | `/api/pages/id` without a trailing slash is looked up as the slug `id` |
| PageRoutes.CaseVariantPathsAreSlugs | src/app.ts:50-58 | the path tests are case-sensitive: `/API/PAGES/home` is looked up as the slug `API/PAGES/home`, and `/api/pages/ID/x` as the slug `ID/x` |
| PageRoutes.ValidSlugReachable | src/app.ts:46-66 | a valid slug is served at its own path exactly when it does not begin with `/` or `id/` |
| PageStore.DbRowToPage | src/models/Page.model.ts:7-17 | the page copies the row's id, slug, title and components; a NULL metadata becomes absent and any other is copied; the page carries the row's timestamps |
| PageStore.DbRowToPageInjective | src/models/Page.model.ts:7-17 | distinct rows convert to distinct pages: the conversion loses nothing |
| PageStore.RowWith | src/models/Page.model.ts:36-47 | a lookup finds nothing exactly when no row has the key; a found row is in the table and has the key |
| PageStore.RowWithUnique | src/models/Page.model.ts:42-46 | when the key column is unique, looking up a row's key returns that row |
| PageStore.NewestFirst | src/models/Page.model.ts:26-31 | the listing has one page per row, in reverse storage order |
| PageStore.NewestFirstSorted | src/models/Page.model.ts:27-30 | with rows in creation order, the listing is strictly descending by creation time |
| PageStore.CountSlugMatches | src/models/Page.model.ts:68-79 | the count is positive exactly when some row has the slug and is not the excluded id, where an empty excluded id excludes nothing |
| PageStore.ApplyUpdate | src/models/Page.model.ts:103-116 | an updated row keeps its id and timestamps and takes slug, title, metadata and components from the request |
| PageStore.UpdateRows | src/models/Page.model.ts:103-116 | the rows with the id are updated, every other row is unchanged, and the row count is kept |
| PageStore.DeleteRows | src/models/Page.model.ts:128-135 | the table shrinks exactly when some row has the id |
| PageStore.DeleteRowsKeepsInvariants | src/models/Page.model.ts:128-135 | deleting keeps ids unique, slugs unique and rows in creation order |
| PageStore.DeleteRowsAbsentId | src/models/Page.model.ts:128-135 | deleting an id no row has leaves the table unchanged |
| PageStore.DeleteRowsMembers | src/models/Page.model.ts:128-135 | after deleting, a row is present exactly when it was present before and does not have the id |
| PageStore.PageModel.constructor | src/models/Page.model.ts:22 | the table starts empty and satisfies its invariant |
| PageStore.PageModel.FindAll | src/models/Page.model.ts:26-31 | every row appears as a page, newest first, strictly descending by creation time |
| PageStore.PageModel.FindBySlug | src/models/Page.model.ts:36-47 | absent exactly when no row has the slug; otherwise a stored row's page with that slug |
| PageStore.PageModel.FindById | src/models/Page.model.ts:52-63 | absent exactly when no row has the id; otherwise a stored row's page with that id |
| PageStore.PageModel.SlugExists | src/models/Page.model.ts:68-79 | true exactly when some row has the slug and is not the excluded id |
| PageStore.PageModel.Create | src/models/Page.model.ts:84-98 | appends exactly one row built from the request with a fresh id and the current time, keeps the invariant, and returns that row as a page |
| PageStore.PageModel.Update | src/models/Page.model.ts:103-123 | absent id: nothing changes and the result is absent; otherwise the row is updated in place and returned, keeping the invariant |
| PageStore.PageModel.Delete | src/models/Page.model.ts:128-135 | removes the rows with the id and reports whether there was one, keeping the invariant |
| PagesService.CreateKeepsSlugsUnique | src/services/pages.service.ts:45-55 | appending a row whose slug no row has keeps slugs unique |
| PagesService.UpdateKeepsSlugsUnique | src/services/pages.service.ts:60-84 | an update that keeps the slug, or takes one no other page has, keeps slugs unique |
| PagesService.ExcludingOwnIdIsRedundant | src/services/pages.service.ts:69-70 | when the slug changes, excluding the page's own id does not change whether the slug is taken |
| PagesService.CreatedPageFoundBySlug | src/services/pages.service.ts:45-55 | after a create, looking up the new slug returns exactly the created page |
| PagesService.DeletedPageNotFound | src/services/pages.service.ts:89-95 | after a delete, no row has the deleted id |
| PagesService.GetAllPages | src/services/pages.service.ts:12-14 | all pages, newest first |
| PagesService.GetPageBySlug | src/services/pages.service.ts:19-27 | 404 "Page not found" exactly when no page has the slug; otherwise a stored page with that slug |
| PagesService.GetPageById | src/services/pages.service.ts:32-40 | 404 "Page not found" exactly when no page has the id; otherwise the stored page with that id |
| PagesService.CreatePage | src/services/pages.service.ts:45-55 | a taken slug gives 409 and changes nothing; otherwise one new row is stored and returned and the clock advances by one; slug uniqueness is preserved |
| PagesService.UpdatePage | src/services/pages.service.ts:60-84 | unknown id gives 404 and changes nothing; a changed slug that another page holds gives 409 and changes nothing; otherwise the page is updated; the clock never moves; slug uniqueness is preserved |
| PagesService.DeletePage | src/services/pages.service.ts:89-95 | the rows with the id are removed; 404 exactly when there was none, with the table unchanged; the clock never moves |
| Migrate.SplitOnSemicolon | src/db/migrate.ts:27 | at least one piece, no piece contains `;`, and joining the pieces with `;` gives back the input |
| Migrate.TrimStart | src/db/migrate.ts:28 | the result is a suffix of the input, only whitespace was dropped, and it does not start with whitespace |
| Migrate.TrimEnd | src/db/migrate.ts:28 | the result is a prefix of the input, only whitespace was dropped, and it does not end with whitespace |
| Migrate.TrimKeepsInnerRun | src/db/migrate.ts:28 | trimming keeps one contiguous run of the input, with only whitespace around it and no whitespace at either end |
| Migrate.TrimIdempotent | src/db/migrate.ts:28 | trimming twice is trimming once |
| Migrate.TrimAddsNothing | src/db/migrate.ts:27-28 | a trimmed piece holds no character its piece did not hold |
| Migrate.TrimAll | src/db/migrate.ts:28 | each piece is trimmed in place: same count, same order |
| Migrate.FilterStatements | src/db/migrate.ts:29 | every kept statement passes the filter; each passing piece is kept as many times as it occurs and a failing one never; the kept ones are a subsequence of the pieces |
| Migrate.StatementsWellFormed | src/db/migrate.ts:26-29 | every statement is non-empty, not a comment, not `$$`, holds no `;`, and the statements are the trimmed pieces with some dropped, never reordered |
| Migrate.PlannedPrefix | src/db/migrate.ts:33-53 | running the first n statements sends a prefix of what running all of them sends |
| Migrate.PlannedTexts | src/db/migrate.ts:36-42 | every text sent is at least 11 characters long, ends in `;` and is not a comment |
| Migrate.RunStatements | src/db/migrate.ts:33-53 | the texts sent are a prefix of the planned ones, and every failure before the last was tolerated; the run completes exactly when every planned statement succeeds or fails with a tolerated message; after completing, all planned texts were sent; after aborting, the last text sent failed with an untolerated message |
| Migrate.RunMigration | src/db/migrate.ts:26-53 | the statements of the file are run in order; nothing short or commented is sent; the run completes exactly when every planned statement passes |

## Left out

- Database I/O is modelled by its effect on the in-memory table. Left out: connection handling, SQL text, JSONB (de)serialisation, the async execution model and driver failures. A failing query would surface as a 500, and that path is not modelled.
- PageStore.PageModel.Create: the insert leaves `id` to the database's column default (src/models/Page.model.ts:86). The table definition is not part of this model, so the new id is a parameter the caller guarantees is fresh.
- PageStore.RowWith, PageStore.CountSlugMatches and PageStore.DeleteRows compare ids as strings. If the `id` column is a PostgreSQL `uuid`, the database compares UUID values and ignores hex case. Validation.ValidateUuid accepts upper-case hex (the `i` flag at src/middleware/validation.ts:181). So a lookup, update or delete by an upper-case spelling of a stored id finds the page in the deployed system, but the model answers 404.
- PageStore.PageModel.Create: creation and update timestamps come from a logical clock (`Timestamp` is a natural number). The clock increases by one per insert. Wall-clock time and its ISO-8601 text form (`toISOString`) are not modelled.
- PageStore.ApplyUpdate: an update keeps `updated_at` unchanged. The database trigger that refreshes it is not part of this model.
- The database's UNIQUE constraint on `slug` is not modelled.
  - The service's own check-then-write behaviour is modelled, and slug uniqueness is proved to be preserved by it.
  - Concurrent requests racing between the check and the write are not modelled.
- PagesService: errors are returned as a `Result` rather than thrown.
  - The HTTP controllers that catch them are not part of this model. The same goes for the router, the error-handling middleware, the database connection module, the seed script and the page-fetch helper.
  - Note that the controllers turn every failure, including these 404/409 errors, into a 500 response.
- PageRoutes.ResolvePagePath: Express's wildcard route matching, `next()` dispatch and the dynamic controller import are not modelled. The handler is modelled as a function from the request path to "look up this slug" or "hand on". Express matches routes case-insensitively by default, so paths such as `/API/PAGES/home` also reach the handler. ResolvePagePath gives the handler's decision for any path, and PageRoutes.CaseVariantPathsAreSlugs shows two such paths becoming slug lookups.
- JsValue: JSON numbers are integers. Floating point, NaN and `-0` are not modelled. Their truthiness matters only for `0`, which is modelled.
- JsValue.ToJsString: writes every integer in full decimal digits. JavaScript stores numbers as doubles and writes those of magnitude 10^21 and above in exponent form (`1e+21`), so an invalid-type message for such a number differs from the deployed system's.
- Validation.ValidatePageData: a thrown conversion is modelled as the `Throws` outcome, and the response that follows is not modelled. `errorHandler` (src/middleware/errorHandler.ts:22-26) declares three parameters, and Express routes errors only to four-parameter middleware, so the error falls through to Express's default handler, which answers 500.
- Validation.ValidatePageData: the body is a parsed JSON value. A body that cannot be destructured (a missing body) is not modelled.
- Validation.ValidatePageData: `title.length` counts characters. JavaScript counts UTF-16 code units, so a title with characters outside the Basic Multilingual Plane may be measured shorter here than in the deployed system.
- Validation: `props` passes when it is any truthy JSON object or array, because `typeof [] === 'object'`. The `ComponentProps` declaration (src/types/page.types.ts:15-17) describes a string-keyed mapping. The model follows the validator's actual test.
- PageTypes and PageStore hold a typed request and typed rows. The controllers pass the raw validated body on (src/controllers/pages.controller.ts:91-92, 116-117), and the store saves it as JSON (src/models/Page.model.ts:92-93). Some bodies pass validation but have no counterpart in these types:
  - a falsy `children` such as `null`, `false` or `""` (skipped at src/middleware/validation.ts:56);
  - an array `props`;
  - `keywords` entries that are not strings;
  - extra metadata or component fields;
  - a falsy `description` that is not a string.

  What the store does with such bodies is not modelled.
- Migrate.ShouldExecute: `statement.length` counts characters. JavaScript counts UTF-16 code units (src/db/migrate.ts:36), so a statement with characters outside the Basic Multilingual Plane may be measured shorter here and skipped where the deployed script would run it.
- PagesService.CreatePage and PagesService.UpdatePage do not validate the component tree themselves. The validating middleware does, before them. The model keeps that division.
- Validation.ValidateSlug and Validation.ValidateUuid: the regular expressions are modelled by explicit character-class predicates, not by a regular-expression engine.
- Migrate.RunMigration: the following are not modelled:
  - reading the migration file;
  - the connection test query;
  - the progress logging;
  - the post-migration table check;
  - the process exit codes.

  The result of each database query is a function parameter, and the run's outcome is a value.
