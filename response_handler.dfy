/** ResponseHandler: turns service outcomes and validation failures into HTTP
    responses whose bodies are JSON objects of string values. */
module ResponseHandler {
  import opened Errors

  /** A JSON object whose values are all strings. */
  type JsonMap = map<string, string>

  /** A ResponseEntity: a body and an HTTP status. */
  datatype Response<D> = Response(body: D, status: HttpStatus)

  /** A field error of a failed @Valid binding: the field's name and its constraint message. */
  datatype FieldError = FieldError(field: string, defaultMessage: string)

  /** A constraint violation of a @Validated parameter, reduced to its message. */
  datatype ConstraintViolation = ConstraintViolation(message: string)

  /** handleMessageResponses(message, status): a body holding exactly one key,
      "message", bound to the text, at the given status. */
  function HandleMessageResponses(message: string, status: HttpStatus): (r: Response<JsonMap>)
    ensures r.body.Keys == {"message"} && r.body["message"] == message
    ensures r.status == status
  {
    var jsonResponse: JsonMap := map[];
    Response(jsonResponse["message" := message], status)
  }

  /** handleDataResponses(data, status): the entity and the status, passed through. */
  function HandleDataResponses<D>(data: D, status: HttpStatus): (r: Response<D>)
    ensures r.body == data && r.status == status
  {
    Response(data, status)
  }

  /** handleStatusExceptions(e): {"message": reason} at the status that the
      exception's numeric code resolves to, which is the exception's own status. */
  function HandleStatusExceptions(e: ServiceError): (r: Response<JsonMap>)
    requires e.StatusError?
    ensures r.status == e.status
    ensures r.body.Keys == {"message"} && r.body["message"] == e.reason
  {
    ResolveCode(e.status);
    HandleMessageResponses(e.reason, Resolve(e.status.Code()).value)
  }

  /** The body the field errors build when put in turn: each error binds its
      field to its message, over whatever an earlier error put there. */
  function FieldMessages(errors: seq<FieldError>): (r: JsonMap)
    ensures forall f :: f in r ==>
              exists i :: 0 <= i < |errors| && errors[i].field == f && r[f] == errors[i].defaultMessage
  {
    if |errors| == 0 then map[]
    else
      var init, last := errors[..|errors| - 1], errors[|errors| - 1];
      assert forall i :: 0 <= i < |init| ==> init[i] == errors[i];
      FieldMessages(init)[last.field := last.defaultMessage]
  }

  /** The body's keys are exactly the fields that have an error. */
  lemma {:induction false} FieldMessagesKeys(errors: seq<FieldError>)
    ensures FieldMessages(errors).Keys == set i | 0 <= i < |errors| :: errors[i].field
  {
    if |errors| > 0 {
      var init := errors[..|errors| - 1];
      FieldMessagesKeys(init);
      assert forall i :: 0 <= i < |init| ==> init[i] == errors[i];
      var fields := set i | 0 <= i < |errors| :: errors[i].field;
      var initFields := set i | 0 <= i < |init| :: init[i].field;
      assert fields == initFields + {errors[|errors| - 1].field} by {
        forall f | f in fields ensures f in initFields + {errors[|errors| - 1].field} {
          var i :| 0 <= i < |errors| && errors[i].field == f;
          if i < |init| {
            assert init[i].field == f;
          }
        }
      }
    }
  }

  /** The error a field's message comes from is that field's last error. */
  predicate LastOfField(errors: seq<FieldError>, j: int)
  {
    0 <= j < |errors| && forall k :: j < k < |errors| ==> errors[k].field != errors[j].field
  }

  /** For a repeated field, the later error's message wins. */
  lemma {:induction false} FieldMessagesLastWins(errors: seq<FieldError>, j: int)
    requires LastOfField(errors, j)
    ensures errors[j].field in FieldMessages(errors)
    ensures FieldMessages(errors)[errors[j].field] == errors[j].defaultMessage
  {
    var n := |errors|;
    if j < n - 1 {
      var init := errors[..n - 1];
      assert forall k :: 0 <= k < |init| ==> init[k] == errors[k];
      assert LastOfField(init, j);
      FieldMessagesLastWins(init, j);
      assert errors[n - 1].field != errors[j].field;
    }
  }

  /** handleValidationExceptions(e): puts each field error's message under its
      field, in the order the binding result lists them, and answers BAD_REQUEST. */
  method HandleValidationExceptions(errors: seq<FieldError>) returns (r: Response<JsonMap>)
    ensures r.status == BadRequest
    ensures r.body == FieldMessages(errors)
    ensures r.body.Keys == set i | 0 <= i < |errors| :: errors[i].field
    ensures forall j :: LastOfField(errors, j) ==> r.body[errors[j].field] == errors[j].defaultMessage
  {
    var jsonResponse: JsonMap := map[];
    var i := 0;
    while i < |errors|
      invariant 0 <= i <= |errors|
      invariant jsonResponse == FieldMessages(errors[..i])
    {
      var error := errors[i];
      assert errors[..i + 1][..i] == errors[..i];
      jsonResponse := jsonResponse[error.field := error.defaultMessage];
      i := i + 1;
    }
    assert errors[..i] == errors;
    FieldMessagesKeys(errors);
    forall j | LastOfField(errors, j)
      ensures jsonResponse[errors[j].field] == errors[j].defaultMessage
    {
      FieldMessagesLastWins(errors, j);
    }
    r := Response(jsonResponse, BadRequest);
  }

  /** handleConstraintValidationExceptions(e): puts each violation's message
      under "message", in iteration order, and answers BAD_REQUEST; the body is
      empty when there is no violation and otherwise holds the last message. */
  method HandleConstraintValidationExceptions(violations: seq<ConstraintViolation>) returns (r: Response<JsonMap>)
    ensures r.status == BadRequest
    ensures |violations| == 0 <==> r.body == map[]
    ensures |violations| > 0 ==>
              r.body.Keys == {"message"} && r.body["message"] == violations[|violations| - 1].message
  {
    var jsonResponse: JsonMap := map[];
    var i := 0;
    while i < |violations|
      invariant 0 <= i <= |violations|
      invariant i == 0 ==> jsonResponse == map[]
      invariant i > 0 ==> jsonResponse == map["message" := violations[i - 1].message]
    {
      var message := violations[i].message;
      jsonResponse := jsonResponse["message" := message];
      i := i + 1;
    }
    if i > 0 {
      assert "message" in jsonResponse;
    }
    r := Response(jsonResponse, BadRequest);
  }
}
