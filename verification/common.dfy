/** Shared value types of the booking service: optional values, HTTP-style
    responses and the handful of JavaScript value rules the routes rely on. */
module Common {

  /** An optional value; `None` stands for a JavaScript `undefined` field. */
  datatype Option<+T> = None | Some(value: T)

  /** The outcome of a route handler: a JSON body, or a status code with a message. */
  datatype Response<+T> = Ok(body: T) | Fail(code: nat, msg: string)

  /** Milliseconds since the epoch, the unit of `Date.now()`. */
  type Time = int

  /** JavaScript truthiness of a string: every string but the empty one is truthy. */
  predicate Truthy(s: string) {
    s != ""
  }

  /** JavaScript truthiness of a possibly absent string (`undefined` is falsy). */
  predicate TruthyOpt(s: Option<string>) {
    s.Some? && s.value != ""
  }

  /** `a || b` on a possibly absent string. */
  function OrElse(a: Option<string>, b: Option<string>): (r: Option<string>)
    ensures TruthyOpt(a) ==> r == a
    ensures !TruthyOpt(a) ==> r == b
  {
    if TruthyOpt(a) then a else b
  }

  function Min(a: int, b: int): (r: int)
    ensures r <= a && r <= b
    ensures r == a || r == b
  {
    if a <= b then a else b
  }
}
