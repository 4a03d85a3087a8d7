/** The JSON envelopes of the API: `success_response` and `error_response` build a dict
    and return it with the HTTP status code. The dict is modelled as it is before
    `jsonify` serialises it. */
module Responses {
  import opened Prelude
  import opened Values

  const DefaultSuccessStatus: int := 200
  const DefaultErrorStatus: int := 400

  /** `success_response(data=None, message=None, status_code=200)`. */
  function SuccessResponse(data: Value := Null, message: Value := Null, statusCode: int := DefaultSuccessStatus): (Entries, int)
  {
    var response := [("success", Bool(true))];
    var withData := if data != Null then Set(response, "data", data) else response;
    var withMessage := if Truthy(message) then Set(withData, "message", message) else withData;
    (withMessage, statusCode)
  }

  /** The dict under `error`: the code, the message and, when truthy, the details. */
  function ErrorBody(code: Value, message: Value, details: Value): Entries
  {
    var error := [("code", code), ("message", message)];
    if Truthy(details) then Set(error, "details", details) else error
  }

  /** `error_response(code, message, details=None, status_code=400)`; the details are
      written into the nested dict after it is built. */
  function ErrorResponse(code: Value, message: Value, details: Value := Null, statusCode: int := DefaultErrorStatus): (Entries, int)
  {
    ([("success", Bool(false)), ("error", Dict(ErrorBody(code, message, details)))], statusCode)
  }

  /** A one-entry dict. */
  lemma OneEntry(k0: string, v0: Value)
    ensures Keys([(k0, v0)]) == [k0] && DistinctKeys([(k0, v0)])
    ensures Get([(k0, v0)], k0) == Some(v0)
  {
  }

  /** A dict of two distinct keys. */
  lemma TwoEntries(k0: string, v0: Value, k1: string, v1: Value)
    requires k0 != k1
    ensures [(k0, v0)] + [(k1, v1)] == [(k0, v0), (k1, v1)]
    ensures Keys([(k0, v0), (k1, v1)]) == [k0, k1] && DistinctKeys([(k0, v0), (k1, v1)])
    ensures Get([(k0, v0), (k1, v1)], k0) == Some(v0) && Get([(k0, v0), (k1, v1)], k1) == Some(v1)
  {
    var d := [(k0, v0), (k1, v1)];
    Concat3((k0, v0), (k1, v1), (k1, v1));
    GetEntry(d, 0);
    GetEntry(d, 1);
  }

  /** A dict of three distinct keys. */
  lemma ThreeEntries(k0: string, v0: Value, k1: string, v1: Value, k2: string, v2: Value)
    requires k0 != k1 && k0 != k2 && k1 != k2
    ensures [(k0, v0)] + [(k1, v1)] + [(k2, v2)] == [(k0, v0), (k1, v1), (k2, v2)]
    ensures [(k0, v0), (k1, v1)] + [(k2, v2)] == [(k0, v0), (k1, v1), (k2, v2)]
    ensures Keys([(k0, v0), (k1, v1), (k2, v2)]) == [k0, k1, k2] && DistinctKeys([(k0, v0), (k1, v1), (k2, v2)])
    ensures Get([(k0, v0), (k1, v1), (k2, v2)], k0) == Some(v0)
    ensures Get([(k0, v0), (k1, v1), (k2, v2)], k1) == Some(v1)
    ensures Get([(k0, v0), (k1, v1), (k2, v2)], k2) == Some(v2)
  {
    var d := [(k0, v0), (k1, v1), (k2, v2)];
    Concat3((k0, v0), (k1, v1), (k2, v2));
    ThreeKeysOf(d, k0, k1, k2);
    GetEntry(d, 0);
    GetEntry(d, 1);
    GetEntry(d, 2);
  }

  lemma Concat3<T>(a: T, b: T, c: T)
    ensures [a] + [b] == [a, b]
    ensures [a] + [b] + [c] == [a, b, c] && [a, b] + [c] == [a, b, c]
  {
  }

  lemma ThreeKeysOf(d: Entries, k0: string, k1: string, k2: string)
    requires |d| == 3 && d[0].0 == k0 && d[1].0 == k1 && d[2].0 == k2
    requires k0 != k1 && k0 != k2 && k1 != k2
    ensures Keys(d) == [k0, k1, k2] && DistinctKeys(d)
  {
  }

  /** The success dict in the order its keys are written: `success`, then `data` when
      given, then `message` when given. */
  lemma SuccessShape(data: Value, message: Value, statusCode: int)
    ensures SuccessResponse(data, message, statusCode).0
         == [("success", Bool(true))] + (if data != Null then [("data", data)] else [])
            + (if Truthy(message) then [("message", message)] else [])
  {
    var d0 := [("success", Bool(true))];
    if data != Null {
      SetAppends(d0, "data", data);
    }
    var d1 := d0 + (if data != Null then [("data", data)] else []);
    if Truthy(message) {
      assert "message" !in Keys(d1);
      SetAppends(d1, "message", message);
    }
  }

  /** A success always says `success: true`; `data` is present exactly when it is not None
      (so `{}`, `[]` and 0 are sent), `message` exactly when it is truthy (so '' is
      dropped); no other key appears and the status code is passed through. */
  lemma SuccessResponseSpec(data: Value, message: Value, statusCode: int)
    ensures SuccessResponse(data, message, statusCode).1 == statusCode
    ensures DistinctKeys(SuccessResponse(data, message, statusCode).0)
    ensures Get(SuccessResponse(data, message, statusCode).0, "success") == Some(Bool(true))
    ensures Get(SuccessResponse(data, message, statusCode).0, "data") == if data != Null then Some(data) else None
    ensures Get(SuccessResponse(data, message, statusCode).0, "message") == if Truthy(message) then Some(message) else None
    ensures forall k :: k in Keys(SuccessResponse(data, message, statusCode).0) ==> k == "success" || k == "data" || k == "message"
  {
    SuccessShape(data, message, statusCode);
    if data != Null && Truthy(message) {
      ThreeEntries("success", Bool(true), "data", data, "message", message);
    } else if data != Null {
      TwoEntries("success", Bool(true), "data", data);
    } else if Truthy(message) {
      TwoEntries("success", Bool(true), "message", message);
    } else {
      OneEntry("success", Bool(true));
    }
  }

  /** The dict under `error` holds the code and the message, and the details exactly
      when they are truthy. */
  lemma ErrorBodySpec(code: Value, message: Value, details: Value)
    ensures DistinctKeys(ErrorBody(code, message, details))
    ensures Get(ErrorBody(code, message, details), "code") == Some(code)
    ensures Get(ErrorBody(code, message, details), "message") == Some(message)
    ensures Get(ErrorBody(code, message, details), "details") == if Truthy(details) then Some(details) else None
    ensures forall k :: k in Keys(ErrorBody(code, message, details)) ==> k == "code" || k == "message" || k == "details"
  {
    var e := [("code", code), ("message", message)];
    TwoEntries("code", code, "message", message);
    if Truthy(details) {
      SetAppends(e, "details", details);
      ThreeEntries("code", code, "message", message, "details", details);
    }
  }

  /** An error says `success: false` and holds the error dict under `error`, and nothing
      else; the status code is passed through. */
  lemma ErrorResponseSpec(code: Value, message: Value, details: Value, statusCode: int)
    ensures ErrorResponse(code, message, details, statusCode).1 == statusCode
    ensures Keys(ErrorResponse(code, message, details, statusCode).0) == ["success", "error"]
    ensures DistinctKeys(ErrorResponse(code, message, details, statusCode).0)
    ensures Get(ErrorResponse(code, message, details, statusCode).0, "success") == Some(Bool(false))
    ensures Get(ErrorResponse(code, message, details, statusCode).0, "error") == Some(Dict(ErrorBody(code, message, details)))
  {
    TwoEntries("success", Bool(false), "error", Dict(ErrorBody(code, message, details)));
  }

  /** The defaults: an empty success is `{success: true}` with 200, and an error without
      details has just code and message, with 400. */
  lemma Defaults(code: Value, message: Value)
    ensures SuccessResponse() == ([("success", Bool(true))], 200)
    ensures ErrorResponse(code, message) == ([("success", Bool(false)), ("error", Dict([("code", code), ("message", message)]))], 400)
  {
  }

  /** A client reading `success` tells the two envelopes apart. */
  predicate Succeeded(body: Entries)
  {
    Get(body, "success") == Some(Bool(true))
  }

  lemma SucceededSeparates(data: Value, message: Value, code: Value, detail: Value, details: Value, s1: int, s2: int)
    ensures Succeeded(SuccessResponse(data, message, s1).0)
    ensures !Succeeded(ErrorResponse(code, detail, details, s2).0)
  {
    SuccessResponseSpec(data, message, s1);
    ErrorResponseSpec(code, detail, details, s2);
  }
}
