# gormet core in Dafny

A model of the logic that the Go package `gormet` owns itself, on top of the
GORM object-relational mapper:

- the **pagination calculator** of `search.go` — `getOffset`, `getLimit`,
  `countTotalPages`, `getHasNextPage`, `getHasPreviousPage` — and the assembly
  of a search result by `Search` and `SearchAll` from one find and one count;
- the **primary-key resolver** of `repository.go` — `getPrimaryKeyFieldName`,
  a first-match scan over the parsed schema's fields — and the constructor
  `New`, which builds a `Repository` around the resolved column name.

Modules, one per component:

| module | file | models |
|---|---|---|
| `Wrappers` | wrappers.dfy | `Option` (a Go `error`: `None` is `nil`) and `Result` |
| `GoInt` | goint.dfy | Go's 64-bit `int`/`int64`/`uint`: wrapping conversion, truncating `/` |
| `Paging` | pagination.dfy | the five helpers of search.go and what they mean |
| `Schema` | schema.dfy | schema fields and the primary-key resolver |
| `Backend` | backend.dfy | the database handle as the answers the core asks of it |
| `Gormet` | gormet.dfy | `Repository` (a class), `Search`, `SearchAll`, `New` |

The helpers compute exactly as the Go code does on a 64-bit target,
including the wrap-around of `uint`/`int` arithmetic and conversions and Go's
truncating division; the lemmas state what the results mean wherever the
products involved fit in `int64`. The only precondition left is the one the
source imposes: `countTotalPages` divides by the page size, which Go turns
into a run-time panic when it is 0. `Search` reaches that division only when
both its find and its count succeed, so it requires a non-zero page size or a
failing find or count. `New` leaves the page size at 0, so a caller must set it
before a `Search` that succeeds.

The database handle is a value `Db<T>` of three answers: the result of parsing
the entity type's schema, the rows (and error) of a filtered find at a given
offset and limit, and the count (and error) of a filtered count. `Search` and
`SearchAll` return, as a ghost output, the list of queries they issue, so that
"the count is not issued after a failed find" and "`SearchAll` asks for offset
-1 and limit -1" are stated in their contracts.

The errors are the exact messages the code builds (`"data struct parse
error: "` + the parser's message, `"no primary key found"`, and
`"impossible to retrieve primary key: "` + the resolver's message), and a
failed search returns the zero `Pagination`, with no criteria and no
repository. The criteria a search keeps are the query condition alone, as in
the source, which stores the condition and not its arguments.

## Model

| member | source | states |
|---|---|---|
| `GoInt.ToInt64` | search.go:137 | the `int`/`int64` conversion keeps every value already in range, differs from its argument by a multiple of 2^64, and maps a non-zero value below 2^64 to a non-zero value |
| `GoInt.ToUint64` | search.go:137 | the wrapping `uint` product keeps every value already in range and otherwise differs from the exact value by a multiple of 2^64 |
| `GoInt.Quo64` | search.go:151 | Go's `/` on `int64`: the floor quotient for a non-negative dividend and positive divisor; `MinInt64 / -1` wraps to `MinInt64`; a zero divisor is excluded (a panic) |
| `GoInt.Quo64Truncates` | search.go:151 | outside the one overflowing case, the quotient truncates toward zero: the remainder is smaller than the divisor in magnitude and has the dividend's sign |
| `Paging.GetOffset` | search.go:132-138 | page 0 gives -1 (no offset); page `p >= 1` gives `pageSize * (p - 1)` whenever that fits in `int64` |
| `Paging.GetLimit` | search.go:141-147 | page size 0 gives -1 (no limit); a page size up to MaxInt64 gives itself; the limit is never 0 |
| `Paging.CountTotalPages` | search.go:150-152 | defined only for a non-zero page size; for a non-negative count and a positive limit without overflow it is `(totalCount + limit - 1) / pageSize` |
| `Paging.GetHasNextPage` | search.go:155-157 | when `page * limit` fits in `int64`, true exactly when `page * limit < totalCount` |
| `Paging.GetHasPreviousPage` | search.go:160-162 | true exactly when the page before this one is itself a numbered page (at least 1), so pages 0 and 1 have none |
| `Paging.PagesAreContiguous` | search.go:132-147 | for page size > 0 and page >= 1, page `p + 1` starts exactly at the offset of page `p` plus the limit, and offsets of real pages are never negative |
| `Paging.RowOnExactlyOnePage` | search.go:132-147 | for pages `p >= 1`, position `row` of one fixed order of the matching rows lies in page `p`'s offset-limit window if and only if `p` is `row / pageSize + 1`: the windows never overlap and leave no gap |
| `Paging.TotalPagesIsCeiling` | search.go:150-152 | with limit = page size > 0 and count >= 0, the page count `n` is the ceiling of count / page size: `count <= n * pageSize < count + pageSize` |
| `Paging.HasNextPageIffBeforeLastPage` | search.go:155-157 | the next-page flag holds exactly when the page is before the last page, and exactly when the next page's offset is below the count |
| `Paging.HasPreviousPageIffOffsetPositive` | search.go:160-162 | the previous-page flag holds exactly when the page's offset is positive (page 0 has offset -1, page 1 offset 0) |
| `Paging.RowOnCountedPage` | search.go:132-152 | every row below the count lies on a page no later than the last counted page |
| `Paging.CountedPageNotEmpty` | search.go:132-152 | each of the pages 1 to the page count starts below the count, so none is empty |
| `Paging.PageAfterLastIsEmpty` | search.go:132-152 | the page after the last counted page starts at or past the count |
| `Paging.HundredRowsInPagesOfTen` | search_test.go:56-65 | 100 rows in pages of 10 make 10 pages, 101 rows 11; pages 0 and 1 have a next page and no previous page, page 10 starts at row 90 and has no next page, page 2 has a previous page |
| `Schema.FirstPrimaryKey` | repository.go:146-151 | the index found is that of a flagged field with no flagged field before it; none is found only when no field is flagged |
| `Schema.PrimaryKeyResolution` | repository.go:135-155 | a parse failure gives "data struct parse error: " + its message; no flagged field gives "no primary key found"; success names a flagged field with no flagged field before it; a parsed schema resolves exactly when some field is flagged |
| `Schema.GetPrimaryKeyFieldName` | repository.go:135-155 | the scan returns no error exactly when resolution succeeds, and then the column name of a flagged field of the schema; on error it returns "" and the resolver's message; the answer depends on the parsed schema alone |
| `Schema.LaterFieldsIgnored` | repository.go:146-151 | once a flagged field is found, any fields appended after it leave the answer unchanged: composite keys resolve to their first column |
| `Schema.UnflaggedFieldsSkipped` | repository.go:146-151 | unflagged fields in front of the schema do not change the answer |
| `Gormet.ZeroPagination` | search.go:54-60 | the zero `Pagination` of a failed search: no entities, every figure 0 or false, no criteria and no repository |
| `Gormet.SearchHundredRows` | search_test.go:52-66 | with 100 matching rows, a `New` repository whose page size is set to 10 answers `Search(0, …)` without error, with the first 10 rows (the handle's find keeps at most the limit's worth), a count of 100, 10 pages, page 0 and page size 10, a next page and no previous page |
| `Gormet.Repository.constructor` | repository.go:105-108 | the new repository holds the given handle and primary-key name and a page size of 0 |
| `Gormet.Repository.Search` | search.go:46-94 | needs a non-zero page size only when both queries succeed; issues the find for the page's offset and limit, and the count only if the find succeeded; the error is the first one met, and with an error the result is the zero value (no entities, every figure 0 or false, no criteria, no repository); on success the criteria are the query condition, the repository is this one, and the response carries the find's entities, the count, the page, the page size and the derived figures, and when nothing overflows its page count is the ceiling of count / page size, its next-page flag holds exactly before the last page and its previous-page flag exactly when the page's offset is positive |
| `Gormet.Repository.SearchAll` | search.go:120-129 | issues one find with offset -1 and limit -1; returns its error, and its entities only when there is no error (empty otherwise) |
| `Gormet.New` | repository.go:86-112 | when the primary key cannot be resolved, no repository and "impossible to retrieve primary key: " + the resolver's message; otherwise a fresh repository on the given handle with the resolved name and page size 0 |

## Left out

- The ORM itself (`Find`, `Count`, `Where`, `Offset`, `Limit`, `Debug`, `Model`, `stmt.Parse`): a foreign library, modelled only by the answers held in `Backend.Db`. What a negative offset or limit means to it is not modelled.
- Query arguments are arbitrary Go values in the source; the model gives them as text.
- The CRUD wrappers of get.go, create.go, update.go, write.go, actions.go and delete.go (a nil check and one ORM call each, plus delete.go's "no register found" on zero affected rows): they have no logic beyond what the ORM's table semantics would decide, which is not modelled.
- The other revisions of `getPrimaryKeyFieldName`, `Update`, `Get`, `GetById` and `DeleteById` in utils.go, actions.go and write.go: only repository.go's resolver is modelled.
- Entity validation (`isValid`, delegated to a third-party validator) and config.go's `DefaultConfig`, which repository.go does not use.
- Concurrency: the mutable `PageSize` shared between callers is a plain field read during one `Search`.
- The debug logging of the find query.
- The find carries no ordering clause, so the row order is the database's; the page lemmas speak of positions in one fixed order of the matching rows, which the source does not guarantee between two queries.
- Page 0 is a sentinel: its offset is -1 while its limit is still the page size; what the ORM makes of offset -1 is not modelled, and the window lemmas take pages from 1 on.
- `Gormet.Repository.Search`: the page-count and flag meanings are stated only when the count is non-negative and the page size, `count + pageSize - 1` and `page * pageSize` fit in `int64`; outside that the response holds the wrapped values the Go code computes, which the model gives but does not characterise.
- Integer widths assume a 64-bit target, where Go's `int` and `uint` are 64 bits wide.
