/** The generic request of the paper-metadata client: a page window plus
    a field projection, turned into query parameters. */
module Base {
  import opened Text

  /** `BaseRequest[T]`: `offset`, `limit` and the fields to project. */
  datatype Request<T> = Request(offset: int, limit: int, fields: seq<T>)

  /** The parameter dictionary `to_params` builds: the request's own
      entries with `fields` replaced by one comma-separated string. */
  datatype Params = Params(offset: int, limit: int, fields: string)

  /** The `.value` strings of the fields, in iteration order. */
  function FieldValues<T>(fields: seq<T>, value: T -> string): (r: seq<string>)
    ensures |r| == |fields|
    ensures forall i :: 0 <= i < |fields| ==> r[i] == value(fields[i])
  {
    if |fields| == 0 then [] else [value(fields[0])] + FieldValues(fields[1..], value)
  }

  /** `BaseRequest.to_params`. */
  function ToParams<T>(req: Request<T>, value: T -> string): (r: Params)
    ensures r.offset == req.offset && r.limit == req.limit
    ensures |req.fields| == 0 ==> r.fields == ""
    ensures |req.fields| == 1 ==> r.fields == value(req.fields[0])
  {
    Params(req.offset, req.limit, Join(FieldValues(req.fields, value), ','))
  }

  /** When no field value contains a comma, splitting the `fields`
      parameter on "," recovers the value of every requested field, in
      order; with no fields the parameter is "" and splits to `[""]`. */
  lemma ParamsSplit<T>(req: Request<T>, value: T -> string)
    requires forall i :: 0 <= i < |req.fields| ==> ',' !in value(req.fields[i])
    ensures |req.fields| >= 1 ==>
      Split(ToParams(req, value).fields, ',') == FieldValues(req.fields, value)
    ensures |req.fields| == 0 ==> Split(ToParams(req, value).fields, ',') == [""]
  {
    if |req.fields| >= 1 {
      SplitJoin(FieldValues(req.fields, value), ',');
    }
  }
}
