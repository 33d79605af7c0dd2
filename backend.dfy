/** The storage backend as the core sees it. Every answer of the ORM that
    the core consumes is a field of `Db`: the parsed schema of the entity
    type, the rows a filtered, offset and limited find returns, and the count
    of a filtered count query. Each answer carries the ORM's error, if any, as
    Go does: a value and an error side by side. */
module Backend {

  import opened Wrappers
  import opened GoInt
  import Schema

  /** A query condition and its arguments, as passed to the ORM's `Where`.
      Argument values are modelled by their text. */
  datatype Query = Query(condition: string, args: seq<string>)

  /** Result of a find: the rows read into the destination slice, and the
      error of the statement. */
  datatype Found<T> = Found(entities: seq<T>, err: Option<string>)

  /** Result of a count: the count written to the destination, and the
      error of the statement. */
  datatype Counted = Counted(count: Int64, err: Option<string>)

  /** A database handle. `find(q, offset, limit)` is
      `Where(q).Offset(offset).Limit(limit).Find(...)`, where -1 means no
      offset or no limit; `count(q)` is `Model(new(T)).Where(q).Count(...)`. */
  datatype Db<T> = Db(
    parse: Schema.Parsed,
    find: (Query, Int64, Int64) -> Found<T>,
    count: Query -> Counted)

  /** A query the core issues to the backend, recorded in call order. */
  datatype Call = FindCall(query: Query, offset: Int64, limit: Int64) | CountCall(query: Query)
}
