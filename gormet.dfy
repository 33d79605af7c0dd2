/** The repository of package gormet: a database handle bound to one entity
    type, with the primary-key column resolved once at construction and a
    page size that callers set between searches. */
module Gormet {

  import opened Wrappers
  import opened GoInt
  import opened Paging
  import opened Schema
  import opened Backend

  const NewErrorPrefix: string := "impossible to retrieve primary key: "

  /** The page of a search and the figures derived from it. */
  datatype Response<T> = Response(
    entities: seq<T>,
    totalCount: Int64,
    page: Uint64,
    pageSize: Uint64,
    totalPages: Int64,
    hasNextPage: bool,
    hasPrevPage: bool)

  /** A search result with the criteria and the repository it came from
      (both unexported in the source). The criteria are the query condition
      alone: the arguments bound to it are not kept, and `None` is the nil
      condition of the zero value. */
  datatype Pagination<T> = Pagination(
    response: Response<T>,
    criteria: Option<string>,
    repository: Repository?<T>)

  /** Go's zero value `Pagination[T]{}`: no entities, every figure 0 or
      false, no criteria and no repository. */
  function ZeroPagination<T>(): (z: Pagination<T>)
    ensures z.response.entities == [] && z.response.totalCount == 0 && z.response.totalPages == 0
    ensures z.response.page == 0 && z.response.pageSize == 0
    ensures !z.response.hasNextPage && !z.response.hasPrevPage
    ensures z.criteria.None? && z.repository == null
  {
    Pagination(Response([], 0, 0, 0, 0, false, false), None, null)
  }

  class Repository<T> {
    const db: Db<T>
    var PageSize: Uint64
    const pkName: string

    /** The struct literal `&Repository[T]{db: db, pkName: pkName}`; the page
        size keeps its zero value. */
    constructor (db: Db<T>, pkName: string)
      ensures this.db == db && this.pkName == pkName && PageSize == 0
    {
      this.db := db;
      this.pkName := pkName;
      PageSize := 0;
    }

    /** `Search`: one find for the page, then one count of all matching rows,
        packed into a `Pagination`. On the first failure it stops and returns
        the zero value with that error; the count is not issued when the find
        failed. `calls` records the queries issued. Only a search whose two
        queries both succeed divides by the page size, so the page size may be
        0 only when one of them fails. */
    method Search(page: Uint64, query: Query) returns (p: Pagination<T>, err: Option<string>, ghost calls: seq<Call>)
      requires || PageSize != 0
               || db.find(query, GetOffset(page, PageSize), GetLimit(PageSize)).err.Some?
               || db.count(query).err.Some?
      ensures |calls| >= 1 && calls[0] == FindCall(query, GetOffset(page, PageSize), GetLimit(PageSize))
      ensures var found := db.find(query, GetOffset(page, PageSize), GetLimit(PageSize));
        && calls == (if found.err.Some? then [calls[0]] else [calls[0], CountCall(query)])
        && err == (if found.err.Some? then found.err else db.count(query).err)
      ensures err.Some? ==> p == ZeroPagination()
      ensures err.None? ==>
        var found, counted := db.find(query, GetOffset(page, PageSize), GetLimit(PageSize)), db.count(query);
        && p.criteria == Some(query.condition) && p.repository == this
        && p.response == Response(found.entities, counted.count, page, PageSize,
          CountTotalPages(counted.count, GetLimit(PageSize), PageSize),
          GetHasNextPage(page, GetLimit(PageSize), counted.count),
          GetHasPreviousPage(page))
      ensures
        (err.None? && CountFits(p.response.totalCount, PageSize) && PageFits(page, PageSize)) ==>
        var r := p.response;
        && r.totalCount <= r.totalPages * PageSize < r.totalCount + PageSize
        && (r.hasNextPage <==> page < r.totalPages)
        && (r.hasPrevPage <==> 0 < GetOffset(page, PageSize))
    {
      var offset := GetOffset(page, PageSize);
      var limit := GetLimit(PageSize);
      var found := db.find(query, offset, limit);
      calls := [FindCall(query, offset, limit)];
      if found.err.Some? {
        return ZeroPagination(), found.err, calls;
      }
      var counted := db.count(query);
      calls := calls + [CountCall(query)];
      if counted.err.Some? {
        return ZeroPagination(), counted.err, calls;
      }
      p := Pagination(
        Response(found.entities, counted.count, page, PageSize,
          CountTotalPages(counted.count, limit, PageSize),
          GetHasNextPage(page, limit, counted.count),
          GetHasPreviousPage(page)),
        Some(query.condition), this);
      err := None;
      if CountFits(counted.count, PageSize) && PageFits(page, PageSize) {
        TotalPagesIsCeiling(counted.count, PageSize);
        HasNextPageIffBeforeLastPage(page, counted.count, PageSize);
        HasPreviousPageIffOffsetPositive(page, PageSize);
      }
    }

    /** `SearchAll`: one find with offset -1 and limit -1, that is without
        pagination; on failure the entities are empty. */
    method SearchAll(query: Query) returns (entities: seq<T>, err: Option<string>, ghost calls: seq<Call>)
      ensures calls == [FindCall(query, -1, -1)]
      ensures err == db.find(query, -1, -1).err
      ensures err.Some? ==> entities == []
      ensures err.None? ==> entities == db.find(query, -1, -1).entities
    {
      var found := db.find(query, -1, -1);
      calls := [FindCall(query, -1, -1)];
      if found.err.Some? {
        return [], found.err, calls;
      }
      return found.entities, None, calls;
    }
  }

  /** `New`: resolve the primary key of the entity type through the handle
      and build a repository around it, with page size 0. If the key cannot
      be resolved there is no repository and the resolver's message is
      reported behind a prefix. */
  method New<T>(db: Db<T>) returns (repo: Repository?<T>, err: Option<string>)
    ensures PrimaryKeyResolution(db.parse).Failure? ==>
      repo == null && err == Some(NewErrorPrefix + PrimaryKeyResolution(db.parse).error)
    ensures PrimaryKeyResolution(db.parse).Success? ==>
      && err.None? && repo != null && fresh(repo)
      && repo.db == db && repo.pkName == PrimaryKeyResolution(db.parse).value && repo.PageSize == 0
  {
    var pkName, e := GetPrimaryKeyFieldName(db.parse);
    if e.Some? {
      return null, Some(NewErrorPrefix + e.value);
    }
    repo := new Repository(db, pkName);
    err := None;
  }

  /** The hundred-row search of the package's tests, against a handle whose
      schema has `id` as primary key and whose queries all succeed. The find
      skips a non-negative offset and keeps at most a non-negative limit of
      rows, as a SQL `OFFSET`/`LIMIT` does; -1 leaves either out. After `New`
      and setting the page size to 10, page 0 reports the first 10 of the 100
      rows, a count of 100 in 10 pages, no previous page and a next one. */
  method SearchHundredRows<T>(rows: seq<T>, query: Query) returns (r: Response<T>, err: Option<string>)
    requires |rows| == 100
    ensures err.None?
    ensures r.entities == rows[..10] && r.totalCount == 100 && r.totalPages == 10
    ensures r.page == 0 && r.pageSize == 10
    ensures r.hasNextPage && !r.hasPrevPage
  {
    var db: Db<T> := Db(
      Success([Field("id", true), Field("email", false), Field("filter", false)]),
      (q: Query, offset: Int64, limit: Int64) =>
        var start := if offset < 0 then 0 else if offset < |rows| then offset else |rows|;
        var rest := rows[start..];
        Found(if 0 <= limit < |rest| then rest[..limit] else rest, None),
      (q: Query) => Counted(100, None));
    assert PrimaryKeyResolution(db.parse) == Success("id");
    var repo, e := New(db);
    assert e.None? && repo.pkName == "id";
    repo.PageSize := 10;
    var p; ghost var calls;
    p, err, calls := repo.Search(0, query);
    assert calls[0] == FindCall(query, -1, 10);
    HundredRowsInPagesOfTen();
    r := p.response;
  }
}
