/**
 * The failure kinds the services raise and the REST exception handler that
 * turns them into HTTP responses.
 */
module Exceptions {
  import opened Entities

  /**
   * The exceptions that can leave a service call. The four domain kinds carry
   * the id their message mentions (the message text is fixed per kind);
   * `NullPointer` stands for the unboxing of a null `Integer`, which no
   * handler catches.
   */
  datatype ServiceError =
    | AuthorAlreadyExists
    | BookAlreadyExists
    | AuthorNotFound(authorId: int)
    | BookNotFound(bookId: int)
    | NullPointer

  /** Outcome of a `void` service call: it returns or it throws. */
  datatype Outcome = Success | Failure(error: ServiceError)

  /** Outcome of a service call that returns a value. */
  datatype Result<+T> = Ok(value: T) | Err(error: ServiceError)

  const CONFLICT: int := 409
  const NOT_FOUND: int := 404

  /** A handled failure: a status and, as body, the exception's message. */
  datatype ErrorResponse = ErrorResponse(status: int, body: ServiceError)

  predicate IsConflictKind(e: ServiceError) {
    e.AuthorAlreadyExists? || e.BookAlreadyExists?
  }

  predicate IsNotFoundKind(e: ServiceError) {
    e.AuthorNotFound? || e.BookNotFound?
  }

  /**
   * The four `@ExceptionHandler` methods: the "already exists" kinds answer
   * 409, the "not found" kinds 404, each with the exception's message as
   * body. Any other failure has no handler (`None`) and propagates.
   */
  function Handle(e: ServiceError): (r: Option<ErrorResponse>)
    ensures r.Some? <==> IsConflictKind(e) || IsNotFoundKind(e)
    ensures r.Some? ==> r.value.body == e
    ensures r.Some? ==> (r.value.status == CONFLICT <==> IsConflictKind(e))
    ensures r.Some? ==> (r.value.status == NOT_FOUND <==> IsNotFoundKind(e))
  {
    match e
    case AuthorAlreadyExists => Some(ErrorResponse(CONFLICT, e))
    case BookAlreadyExists => Some(ErrorResponse(CONFLICT, e))
    case AuthorNotFound(_) => Some(ErrorResponse(NOT_FOUND, e))
    case BookNotFound(_) => Some(ErrorResponse(NOT_FOUND, e))
    case NullPointer => None
  }

  /** A conflict and a not-found failure never share a status code. */
  lemma StatusSeparatesKinds(e1: ServiceError, e2: ServiceError)
    requires IsConflictKind(e1) && IsNotFoundKind(e2)
    ensures Handle(e1).Some? && Handle(e2).Some?
    ensures Handle(e1).value.status != Handle(e2).value.status
  {
  }

  /** One binding failure: the offending field and its default message. */
  datatype FieldError = FieldError(field: string, message: string)

  /** A value of the validation response's linked map. */
  datatype ResponseValue = Timestamp(millis: int) | Errors(messages: map<string, string>)

  /**
   * The map a sequence of `put(field, message)` calls leaves behind, starting
   * from an empty map.
   */
  function PutAll(errs: seq<FieldError>): (r: map<string, string>)
    ensures forall f :: f in r ==> exists i :: 0 <= i < |errs| && errs[i].field == f && errs[i].message == r[f]
  {
    if errs == [] then map[]
    else PutAll(errs[..|errs| - 1])[errs[|errs| - 1].field := errs[|errs| - 1].message]
  }

  /** `msg` is the message of the last error in `errs` about `field`. */
  ghost predicate IsLastMessage(errs: seq<FieldError>, field: string, msg: string)
  {
    exists i :: 0 <= i < |errs| && errs[i].field == field && errs[i].message == msg
      && forall j :: i < j < |errs| ==> errs[j].field != field
  }

  /** The fields that have at least one error. */
  ghost function ErrorFields(errs: seq<FieldError>): set<string>
  {
    set i | 0 <= i < |errs| :: errs[i].field
  }

  lemma {:induction false} PutAllKeys(errs: seq<FieldError>)
    ensures PutAll(errs).Keys == ErrorFields(errs)
  {
    if errs != [] {
      var init := errs[..|errs| - 1];
      PutAllKeys(init);
      assert ErrorFields(errs) == ErrorFields(init) + {errs[|errs| - 1].field} by {
        forall f | f in ErrorFields(errs) ensures f in ErrorFields(init) + {errs[|errs| - 1].field} {
          var i :| 0 <= i < |errs| && errs[i].field == f;
          if i < |errs| - 1 { assert init[i] == errs[i]; }
        }
        forall f | f in ErrorFields(init) ensures f in ErrorFields(errs) {
          var i :| 0 <= i < |init| && init[i].field == f;
          assert errs[i] == init[i];
        }
      }
    }
  }

  lemma {:induction false} PutAllLastWins(errs: seq<FieldError>, field: string)
    requires field in PutAll(errs)
    ensures IsLastMessage(errs, field, PutAll(errs)[field])
  {
    var last := errs[|errs| - 1];
    var init := errs[..|errs| - 1];
    if last.field == field {
      assert errs[|errs| - 1].field == field;
    } else {
      PutAllLastWins(init, field);
      var i :| 0 <= i < |init| && init[i].field == field && init[i].message == PutAll(init)[field]
        && forall j :: i < j < |init| ==> init[j].field != field;
      assert errs[i] == init[i];
      assert forall j :: i < j < |errs| ==> errs[j].field != field by {
        forall j | i < j < |errs| ensures errs[j].field != field {
          if j < |errs| - 1 { assert errs[j] == init[j]; }
        }
      }
    }
  }

  /**
   * `handleValidationErrors`: collects the field errors into a map, one entry
   * per field, the last error for a field overwriting earlier ones, then
   * answers the linked map {"timestamp": now, "errors": that map}. No status
   * is attached to this response.
   */
  method HandleValidationErrors(fieldErrors: seq<FieldError>, now: int)
    returns (response: seq<(string, ResponseValue)>)
    ensures |response| == 2
    ensures response[0] == ("timestamp", Timestamp(now))
    ensures response[1].0 == "errors" && response[1].1.Errors?
    ensures response[1].1.messages.Keys == ErrorFields(fieldErrors)
    ensures forall f :: f in response[1].1.messages ==>
              IsLastMessage(fieldErrors, f, response[1].1.messages[f])
    ensures fieldErrors == [] ==> response[1].1.messages == map[]
  {
    var errors: map<string, string> := map[];
    var i := 0;
    while i < |fieldErrors|
      invariant 0 <= i <= |fieldErrors|
      invariant errors == PutAll(fieldErrors[..i])
    {
      assert fieldErrors[..i + 1][..i] == fieldErrors[..i];
      errors := errors[fieldErrors[i].field := fieldErrors[i].message];
      i := i + 1;
    }
    assert fieldErrors[..i] == fieldErrors;
    PutAllKeys(fieldErrors);
    forall f | f in errors ensures IsLastMessage(fieldErrors, f, errors[f]) {
      PutAllLastWins(fieldErrors, f);
    }
    response := [("timestamp", Timestamp(now)), ("errors", Errors(errors))];
  }
}
