/** Values shared by every part of the decoder: optional and fallible results, the decoded
    answer a field yields, and the ways decoding can fail. */
module Values {

  /** Ruby's `nil` versus a present value. */
  datatype Option<+T> = None | Some(value: T)

  /** A decoder either produces a value or raises. */
  datatype Result<+T> = Ok(value: T) | Err(error: Error)

  /** A decoded answer: nil, a boolean, a string, an array, or a hash. Hash keys are choice
      labels, and a label is nil for a choice pair the parser rejected. */
  datatype Value =
    | Absent
    | Bool(b: bool)
    | Str(s: string)
    | List(items: seq<Value>)
    | Dict(entries: map<Option<string>, Value>)

  /** The exceptions the decoding engine can raise. */
  datatype Error =
    | NoChoices(field: string)     // `split` called on a missing choice string
    | NoOptions(field: string)     // `has_key?` called on options that were never assigned
    | NoAssociates(field: string)  // `select` called on associated fields that were never wired
    | ArityError(field: string)    // a private helper called without its one argument
    | FieldNotFound(name: string)  // a lookup by a name the data dictionary does not hold
    | NoResponses                  // a lookup on a form whose response record was never assigned

  /** The string Ruby's interpolation `"#{x}"` gives for an optional string. */
  function Interpolate(o: Option<string>): string
  {
    if o.Some? then o.value else ""
  }

  /** A raw optional string as a decoded answer. */
  function OfRaw(o: Option<string>): (v: Value)
    ensures v.Absent? <==> o.None?
    ensures v.Str? ==> o == Some(v.s)
  {
    if o.Some? then Str(o.value) else Absent
  }

  /** `map` over results that may raise: the values when none raises, else the error of
      the first that does. */
  function AllOk<T>(rs: seq<Result<T>>): (r: Result<seq<T>>)
    ensures r.Ok? <==> forall k :: 0 <= k < |rs| ==> rs[k].Ok?
    ensures r.Ok? ==> |r.value| == |rs| && forall k :: 0 <= k < |rs| ==> rs[k] == Ok(r.value[k])
    ensures r.Err? ==> exists k :: 0 <= k < |rs| && rs[k] == Err(r.error) && forall j :: 0 <= j < k ==> rs[j].Ok?
  {
    if rs == [] then Ok([])
    else if rs[0].Err? then Err(rs[0].error)
    else
      var rest := AllOk(rs[1..]);
      assert forall k :: 1 <= k < |rs| ==> rs[k] == rs[1..][k - 1];
      if rest.Err? then
        var k :| 0 <= k < |rs[1..]| && rs[1..][k] == Err(rest.error) && forall j :: 0 <= j < k ==> rs[1..][j].Ok?;
        assert rs[k + 1] == Err(rest.error);
        Err(rest.error)
      else
        Ok([rs[0].value] + rest.value)
  }

  /** The value stored under `k`, or nil. */
  function Get<K, V>(m: map<K, V>, k: K): Option<V>
  {
    if k in m then Some(m[k]) else None
  }
}
