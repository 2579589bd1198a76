/** Request normalisation for a partial offering update
    (UpdateOfferingRequest.prepareForValidation): drop the fields whose value
    is exactly null or the empty string, require that one of the updatable
    fields survives, and merge the survivors back into the request input. */
module OfferingUpdateRequest {
  import opened Common

  /** A request input value, as PHP sees it. */
  datatype Field = Null | Str(s: string) | Num(n: int) | Bool(b: bool) | Upload(name: string)

  type Input = map<string, Field>

  /** The filter callback: `$value !== null && $value !== ''`, strict, so
      whitespace, `0` and `false` survive. */
  predicate Kept(v: Field) {
    v != Null && v != Str("")
  }

  /** `array_filter($this->all(), …)`: the kept fields, values untouched. */
  function Filtered(input: Input): (r: Input)
    ensures r.Keys <= input.Keys
    ensures forall k :: k in r ==> r[k] == input[k] && Kept(r[k])
    ensures forall k :: k in input && Kept(input[k]) ==> k in r
  {
    map k | k in input && Kept(input[k]) :: input[k]
  }

  /** The fields whose presence allows an update, in the order scanned. */
  const UpdatableFields: seq<string> := ["title", "description", "price", "address_info"]

  predicate HasUpdatable(fields: Input) {
    exists i :: 0 <= i < |UpdatableFields| && UpdatableFields[i] in fields
  }

  /** The strict filter keeps whitespace, zero and false, and drops exactly
      null and the empty string. */
  lemma FilterIsStrict(input: Input, k: string)
    requires k in input
    ensures k !in Filtered(input) <==> input[k] == Null || input[k] == Str("")
    ensures input[k] == Str(" ") || input[k] == Num(0) || input[k] == Bool(false) ==> Filtered(input)[k] == input[k]
  {
  }

  /** Keys outside the four updatable ones, such as `image` or `video`, never
      satisfy the at-least-one-field rule. */
  lemma OtherKeysDoNotCount(fields: Input)
    requires forall k :: k in fields ==> k != "title" && k != "description" && k != "price" && k != "address_info"
    ensures !HasUpdatable(fields)
  {
    forall i | 0 <= i < |UpdatableFields| ensures UpdatableFields[i] !in fields {
      assert UpdatableFields[i] in {"title", "description", "price", "address_info"};
    }
  }

  /** The scan for an updatable field, stopping at the first one found. */
  method HasUpdatableField(filtered: Input) returns (found: bool)
    ensures found <==> HasUpdatable(filtered)
  {
    found := false;
    var i := 0;
    while i < |UpdatableFields|
      invariant 0 <= i <= |UpdatableFields|
      invariant !found
      invariant forall j :: 0 <= j < i ==> UpdatableFields[j] !in filtered
    {
      if UpdatableFields[i] in filtered {
        found := true;
        break;
      }
      i := i + 1;
    }
  }

  /** `merge`: the given fields overwrite the input's, other keys stay. */
  function Merge(input: Input, fields: Input): (r: Input)
    ensures r.Keys == input.Keys + fields.Keys
    ensures forall k :: k in r ==> r[k] == if k in fields then fields[k] else input[k]
  {
    input + fields
  }

  /** `prepareForValidation` as written: the outcome, and the input after
      merging the kept fields back. */
  function PreparedAsWritten(input: Input): (Input, Outcome<Error>) {
    var filtered := Filtered(input);
    if !HasUpdatable(filtered) then (input, Fail(InvalidRequest))
    else (Merge(input, filtered), Pass)
  }

  /** Merging the kept fields back changes nothing: every kept field already
      has that value, and the dropped ones are never removed. So a null or
      empty field survives preparation, as the input `title: null, price: 10`
      shows. */
  lemma MergeKeepsDroppedFields(input: Input)
    ensures PreparedAsWritten(input).0 == input
    ensures var example := map["title" := Null, "price" := Num(10)];
      PreparedAsWritten(example) == (example, Pass) && PreparedAsWritten(example).0["title"] == Null
  {
    var example := map["title" := Null, "price" := Num(10)];
    assert UpdatableFields[2] in Filtered(example);
    assert Merge(input, Filtered(input)) == input;
    assert Merge(example, Filtered(example)) == example;
  }

  /** `prepareForValidation` as intended: the input becomes the kept fields
      alone. */
  function Prepared(input: Input): (Input, Outcome<Error>) {
    var filtered := Filtered(input);
    if !HasUpdatable(filtered) then (input, Fail(InvalidRequest))
    else (filtered, Pass)
  }

  /** Preparation fails with `InvalidRequest` exactly when no updatable field
      has a kept value, leaving the input alone; when it passes, no field is
      null or empty, and every field with another value is kept unchanged. */
  lemma PreparedLeavesNoEmpty(input: Input)
    ensures var (after, o) := Prepared(input);
      && (o == Fail(InvalidRequest) <==> forall i :: 0 <= i < |UpdatableFields| ==>
            UpdatableFields[i] !in input || !Kept(input[UpdatableFields[i]]))
      && (o.Fail? ==> after == input)
      && (o == Pass ==>
            && (forall k :: k in after ==> after[k] != Null && after[k] != Str(""))
            && (forall k :: k in input && Kept(input[k]) ==> k in after && after[k] == input[k])
            && after.Keys <= input.Keys)
  {
    var filtered := Filtered(input);
    if HasUpdatable(filtered) {
      var i :| 0 <= i < |UpdatableFields| && UpdatableFields[i] in filtered;
      assert UpdatableFields[i] in input && Kept(input[UpdatableFields[i]]);
    } else {
      forall i | 0 <= i < |UpdatableFields| && UpdatableFields[i] in input
        ensures !Kept(input[UpdatableFields[i]])
      {
        assert UpdatableFields[i] !in filtered;
      }
    }
  }

  /** The request's input, which preparation rewrites. */
  class UpdateOfferingRequest {
    var input: Input

    constructor (input: Input)
      ensures this.input == input
    {
      this.input := input;
    }

    /** `prepareForValidation` as written: the kept fields are merged back
        into the input, so the input is left as it was (see
        `MergeKeepsDroppedFields`); only the outcome agrees with `Prepared`. */
    method PrepareForValidation() returns (o: Outcome<Error>)
      modifies this
      ensures (input, o) == PreparedAsWritten(old(input))
      ensures input == old(input) && o == Prepared(old(input)).1
    {
      var filtered := Filtered(input);
      var found := HasUpdatableField(filtered);
      if !found {
        return Fail(InvalidRequest);
      }
      MergeKeepsDroppedFields(input);
      input := Merge(input, filtered);
      o := Pass;
    }
  }
}
