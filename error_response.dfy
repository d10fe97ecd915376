/** Turning validation errors into a field-to-message map. */
module ErrorResponse {

  /** One failed tag: the field's name, the tag and the tag's parameter (`4` in `len=4`). */
  datatype FieldError = FieldError(field: string, tag: string, param: string)

  /** What validation returned: a list of failed tags, or some other error. */
  datatype ValidationError =
    | ValidationErrors(errors: seq<FieldError>)
    | OtherError(message: string)

  datatype ErrorResponseBody = ErrorResponseBody(errors: map<string, string>)

  /** The message for one failed tag. */
  function ErrorMessage(e: FieldError): (msg: string)
    ensures e.tag == "required" ==> msg == e.field + " is required"
    ensures e.tag == "gt" ==> msg == e.field + " must be greater than " + e.param
    ensures e.tag == "len" ==> msg == e.field + " must be exactly " + e.param + " characters"
    ensures e.tag == "numeric" ==> msg == e.field + " must contain only numeric characters"
    ensures e.tag !in {"required", "gt", "len", "numeric"} ==> msg == e.field + " is invalid"
    ensures msg[..|e.field|] == e.field
  {
    match e.tag
    case "required" => e.field + " is required"
    case "gt" => e.field + " must be greater than " + e.param
    case "len" => e.field + " must be exactly " + e.param + " characters"
    case "numeric" => e.field + " must contain only numeric characters"
    case _ => e.field + " is invalid"
  }

  /** The map built by writing each error's message under its field, first to last. */
  function MessagesByField(errors: seq<FieldError>): map<string, string>
  {
    if errors == [] then map[]
    else
      var last := errors[|errors| - 1];
      MessagesByField(errors[..|errors| - 1])[last.field := ErrorMessage(last)]
  }

  function FieldNames(errors: seq<FieldError>): set<string> {
    set e | e in errors :: e.field
  }

  /** The keys are exactly the fields that have an error; there are at most as many keys as errors. */
  lemma {:induction false} MessagesByFieldKeys(errors: seq<FieldError>)
    ensures MessagesByField(errors).Keys == FieldNames(errors)
    ensures |MessagesByField(errors)| <= |errors|
  {
    if errors != [] {
      var init := errors[..|errors| - 1];
      var last := errors[|errors| - 1];
      MessagesByFieldKeys(init);
      assert errors == init + [last];
      assert FieldNames(errors) == FieldNames(init) + {last.field};
    }
  }

  /** A field's message is that of its LAST error: a later error overwrites an earlier one. */
  lemma {:induction false} MessagesByFieldLastWins(errors: seq<FieldError>, i: nat)
    requires i < |errors|
    requires forall j | i < j < |errors| :: errors[j].field != errors[i].field
    ensures errors[i].field in MessagesByField(errors)
    ensures MessagesByField(errors)[errors[i].field] == ErrorMessage(errors[i])
  {
    if i < |errors| - 1 {
      var init := errors[..|errors| - 1];
      MessagesByFieldLastWins(init, i);
    }
  }

  /** Builds the response body: messages by field for a list of failed tags, nothing otherwise. */
  method FormatValidationErrors(err: ValidationError) returns (body: ErrorResponseBody)
    ensures err.OtherError? ==> body.errors == map[]
    ensures err.ValidationErrors? ==> body.errors == MessagesByField(err.errors)
  {
    var errors: map<string, string> := map[];
    if err.ValidationErrors? {
      var list := err.errors;
      var i := 0;
      while i < |list|
        invariant 0 <= i <= |list|
        invariant errors == MessagesByField(list[..i])
      {
        var e := list[i];
        assert list[..i + 1][..i] == list[..i];
        errors := errors[e.field := ErrorMessage(e)];
        i := i + 1;
      }
      assert list[..|list|] == list;
    }
    body := ErrorResponseBody(errors);
  }
}
