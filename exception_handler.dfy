/**
 * The global exception handler: turns each failure into the response the
 * client receives. Every failure becomes status 400 with a string-to-string
 * body; the detail carried by a service exception is only logged.
 */
module ExceptionHandler {
  import opened Model

  const BadRequest: int := 400
  const EmailExistsMessage: string := "Email already exists!"
  const NotFoundMessage: string := "Patient not found!"

  /** One failed field of a request that did not pass validation. */
  datatype FieldError = FieldError(field: string, defaultMessage: string)

  /** A status code and a JSON object body of string values. */
  datatype ErrorResponse = ErrorResponse(status: int, body: map<string, string>)

  /** The fields that have at least one error. */
  ghost function FailedFields(errors: seq<FieldError>): set<string> {
    set e | e in errors :: e.field
  }

  /** The map left after putting every field error into an empty map, in
      order, each put overwriting an earlier message for the same field. */
  function Collected(errors: seq<FieldError>): map<string, string>
    decreases |errors|
  {
    if errors == [] then map[]
    else
      var last := errors[|errors| - 1];
      Collected(errors[..|errors| - 1])[last.field := last.defaultMessage]
  }

  /** The body's keys are exactly the fields that failed. */
  lemma {:induction false} CollectedKeys(errors: seq<FieldError>)
    ensures Collected(errors).Keys == FailedFields(errors)
    decreases |errors|
  {
    if errors != [] {
      var init := errors[..|errors| - 1];
      CollectedKeys(init);
      assert errors == init + [errors[|errors| - 1]];
      assert FailedFields(errors) == FailedFields(init) + {errors[|errors| - 1].field};
    }
  }

  /** No error after the `i`th is for the same field. */
  ghost predicate LastForField(errors: seq<FieldError>, i: nat)
    requires i < |errors|
  {
    forall j :: i < j < |errors| ==> errors[j].field != errors[i].field
  }

  /** A field with several errors keeps the message of the last one. */
  lemma {:induction false} CollectedKeepsLast(errors: seq<FieldError>, i: nat)
    requires i < |errors|
    requires LastForField(errors, i)
    ensures errors[i].field in Collected(errors)
    ensures Collected(errors)[errors[i].field] == errors[i].defaultMessage
    decreases |errors|
  {
    if i < |errors| - 1 {
      CollectedKeepsLast(errors[..|errors| - 1], i);
    }
  }

  /** `handleValidationException`: a 400 whose body maps each failed field to
      the message of its last error. */
  method HandleValidationException(fieldErrors: seq<FieldError>) returns (response: ErrorResponse)
    ensures response.status == BadRequest
    ensures response.body == Collected(fieldErrors)
    ensures response.body.Keys == FailedFields(fieldErrors)
    ensures forall i :: 0 <= i < |fieldErrors| && LastForField(fieldErrors, i) ==>
              response.body[fieldErrors[i].field] == fieldErrors[i].defaultMessage
  {
    var errors: map<string, string> := map[];
    for i := 0 to |fieldErrors|
      invariant errors == Collected(fieldErrors[..i])
    {
      var fieldError := fieldErrors[i];
      assert fieldErrors[..i + 1][..i] == fieldErrors[..i];
      errors := errors[fieldError.field := fieldError.defaultMessage];
    }
    assert fieldErrors[..|fieldErrors|] == fieldErrors;
    CollectedKeys(fieldErrors);
    forall i | 0 <= i < |fieldErrors| && LastForField(fieldErrors, i)
      ensures errors[fieldErrors[i].field] == fieldErrors[i].defaultMessage
    {
      CollectedKeepsLast(fieldErrors, i);
    }
    response := ErrorResponse(BadRequest, errors);
  }

  /** `handleEmailAlreadyExistsException`: a 400 whose body holds one fixed
      message, whatever email the exception carries. */
  function HandleEmailAlreadyExists(ex: ServiceError): (r: ErrorResponse)
    requires ex.EmailAlreadyExists?
    ensures r.status == BadRequest
    ensures r.body.Keys == {"message"} && r.body["message"] == EmailExistsMessage
  {
    ErrorResponse(BadRequest, map["message" := EmailExistsMessage])
  }

  /** `handlePatientNotFoundException`: a 400 (not a 404) whose body holds
      one fixed message, whatever id the exception carries. */
  function HandlePatientNotFound(ex: ServiceError): (r: ErrorResponse)
    requires ex.PatientNotFound?
    ensures r.status == BadRequest
    ensures r.body.Keys == {"message"} && r.body["message"] == NotFoundMessage
  {
    ErrorResponse(BadRequest, map["message" := NotFoundMessage])
  }

  /** The handler chosen by the exception's class. */
  function Handle(e: ServiceError): (r: ErrorResponse)
    ensures r.status == BadRequest
    ensures r.body.Keys == {"message"}
    ensures r.body["message"] == (if e.EmailAlreadyExists? then EmailExistsMessage else NotFoundMessage)
  {
    match e
    case EmailAlreadyExists(_) => HandleEmailAlreadyExists(e)
    case PatientNotFound(_) => HandlePatientNotFound(e)
  }

  /** The response depends on the failure's kind only: the email or id in the
      exception never reaches the body. */
  lemma ResponseHidesDetail(e1: ServiceError, e2: ServiceError)
    requires e1.EmailAlreadyExists? == e2.EmailAlreadyExists?
    ensures Handle(e1) == Handle(e2)
  {
  }
}
