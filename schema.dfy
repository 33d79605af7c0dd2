/** The primary-key resolver of repository.go. The parsed schema of an
    entity type is the ordered sequence of its fields, each with its
    storage-level column name and its primary-key flag; parsing itself is
    done by the ORM and arrives here as a result value. */
module Schema {

  import opened Wrappers

  datatype Field = Field(dbName: string, primaryKey: bool)

  /** What the ORM's `stmt.Parse(model)` yields: the schema's fields in
      declaration order, or the text of the parse error. */
  type Parsed = Result<seq<Field>, string>

  const ParseErrorPrefix: string := "data struct parse error: "
  const NoPrimaryKeyMessage: string := "no primary key found"

  /** Index of the first field flagged as primary key, if any. */
  function FirstPrimaryKey(fields: seq<Field>): (k: Option<nat>)
    ensures k.Some? ==> k.value < |fields| && fields[k.value].primaryKey
    ensures k.Some? ==> forall j :: 0 <= j < k.value ==> !fields[j].primaryKey
    ensures k.None? ==> forall j :: 0 <= j < |fields| ==> !fields[j].primaryKey
  {
    if |fields| == 0 then None
    else if fields[0].primaryKey then Some(0)
    else match FirstPrimaryKey(fields[1..])
      case None => None
      case Some(k) => Some(k + 1)
  }

  /** The resolver's answer as a value: the column name of the first
      primary-key field, or the error message `getPrimaryKeyFieldName`
      reports. */
  function PrimaryKeyResolution(parsed: Parsed): (r: Result<string, string>)
    ensures parsed.Failure? ==> r == Failure(ParseErrorPrefix + parsed.error)
    ensures parsed.Success? && (forall j :: 0 <= j < |parsed.value| ==> !parsed.value[j].primaryKey)
      ==> r == Failure(NoPrimaryKeyMessage)
    ensures r.Success? ==> parsed.Success? && exists k ::
      && 0 <= k < |parsed.value| && parsed.value[k].primaryKey && parsed.value[k].dbName == r.value
      && forall j :: 0 <= j < k ==> !parsed.value[j].primaryKey
    ensures parsed.Success? ==>
      (r.Success? <==> exists j :: 0 <= j < |parsed.value| && parsed.value[j].primaryKey)
  {
    match parsed
    case Failure(msg) => Failure(ParseErrorPrefix + msg)
    case Success(fields) =>
      match FirstPrimaryKey(fields)
      case None => Failure(NoPrimaryKeyMessage)
      case Some(k) => Success(fields[k].dbName)
  }

  /** `getPrimaryKeyFieldName`: scan the fields in order and return the
      column name of the first one flagged as primary key. Returns `""` and an
      error when parsing failed (without looking at any field) or when no
      field is flagged. */
  method GetPrimaryKeyFieldName(parsed: Parsed) returns (name: string, err: Option<string>)
    ensures err.None? <==> PrimaryKeyResolution(parsed).Success?
    ensures err.None? ==> name == PrimaryKeyResolution(parsed).value
    ensures err.Some? ==> name == "" && err.value == PrimaryKeyResolution(parsed).error
    ensures err.None? ==> parsed.Success? && exists k ::
      0 <= k < |parsed.value| && parsed.value[k].primaryKey && parsed.value[k].dbName == name
  {
    if parsed.Failure? {
      return "", Some(ParseErrorPrefix + parsed.error);
    }
    var fields := parsed.value;
    var i := 0;
    while i < |fields|
      invariant 0 <= i <= |fields|
      invariant forall j :: 0 <= j < i ==> !fields[j].primaryKey
    {
      if fields[i].primaryKey {
        return fields[i].dbName, None;
      }
      i := i + 1;
    }
    return "", Some(NoPrimaryKeyMessage);
  }

  /** First match wins: fields after the first primary-key field, flagged or
      not, do not change the answer, so a composite key resolves to its first
      column. */
  lemma {:induction false} LaterFieldsIgnored(front: seq<Field>, back: seq<Field>)
    requires FirstPrimaryKey(front).Some?
    ensures FirstPrimaryKey(front + back) == FirstPrimaryKey(front)
    ensures PrimaryKeyResolution(Success(front + back)) == PrimaryKeyResolution(Success(front))
  {
    if !front[0].primaryKey {
      assert (front + back)[1..] == front[1..] + back;
      LaterFieldsIgnored(front[1..], back);
    }
  }

  /** Fields without the flag before the first primary-key field are skipped:
      the answer is the one for the rest of the schema. */
  lemma {:induction false} UnflaggedFieldsSkipped(front: seq<Field>, back: seq<Field>)
    requires forall j :: 0 <= j < |front| ==> !front[j].primaryKey
    ensures PrimaryKeyResolution(Success(front + back)) == PrimaryKeyResolution(Success(back))
  {
    if |front| > 0 {
      assert (front + back)[1..] == front[1..] + back;
      UnflaggedFieldsSkipped(front[1..], back);
    } else {
      assert front + back == back;
    }
  }
}
