/** What the route handlers share: a JSON response, the validator's error
    entries, and the application's final error-handling middleware
    (backend/src/server.js, the handler installed after the routers). */
module Http {
  import opened Wrappers

  /** `res.status(status).json(body)`. */
  datatype Response<B> = Response(status: int, body: B)

  /** One entry of express-validator's `errors.array()`: the body field whose
      check failed. */
  datatype FieldError = FieldError(path: string)

  /** What a handler passes to `next(err)`: an error with optional `status`
      and `message` properties. */
  datatype Error = Error(status: Option<int>, message: Option<string>)

  const DefaultErrorMessage := "Server error"

  /** express-validator's `notEmpty()`: the field is present and not "". */
  predicate NotEmpty(v: Option<string>) {
    v.Some? && v.value != ""
  }

  /** express-validator's `isEmail()`, with the library's check given as
      `isEmail`; an absent field fails it. */
  predicate ValidEmail(email: Option<string>, isEmail: string -> bool) {
    email.Some? && isEmail(email.value)
  }

  /** The error-handling middleware: `err.status || 500` and
      `err.message || "Server error"` (a status of 0 and an empty message are
      falsy in JavaScript and fall back to the defaults). The response always
      carries a non-zero status and a non-empty message. */
  function HandleError(err: Error): (r: Response<string>)
    ensures r.status != 0 && r.body != ""
    ensures r.status == 500 <==> (err.status.None? || err.status.value in {0, 500})
    ensures r.body == DefaultErrorMessage <==>
              (err.message.None? || err.message.value in {"", DefaultErrorMessage})
    ensures err.status.Some? && err.status.value != 0 ==> r.status == err.status.value
    ensures err.message.Some? && err.message.value != "" ==> r.body == err.message.value
  {
    var status := if err.status.Some? && err.status.value != 0 then err.status.value else 500;
    var message := if err.message.Some? && err.message.value != "" then err.message.value
                   else DefaultErrorMessage;
    Response(status, message)
  }
}
