/** Row shapes of the two tables, the outcome of a request handler, and the
    value checks the request schemas apply to identifiers and e-mail
    addresses. */
module Records {

  type Id = string

  /** A row of the `users` table. */
  datatype User = User(id: Id, sessionId: string, name: string, password: string, email: string)

  /** A row of the `meals` table. `date` is the meal's time in integer
      milliseconds since the epoch; `updatedAt` is the stamp the update
      handler writes (None until a meal is first updated). */
  datatype Meal = Meal(
    id: Id,
    userId: Id,
    name: string,
    description: string,
    date: int,
    inDiet: bool,
    updatedAt: Option<int>)

  datatype Option<+T> = None | Some(value: T)

  /** How a handler fails: a request that does not match its schema, or an
      HTTP error carrying its status code. */
  datatype Failure = Invalid | Http(status: nat)

  datatype Result<+T> = Ok(value: T) | Fail(error: Failure)

  const UNAUTHORIZED: nat := 401
  const FORBIDDEN: nat := 403
  const NOT_FOUND: nat := 404
  const CONFLICT: nat := 409

  predicate IsHexDigit(c: char) {
    '0' <= c <= '9' || 'a' <= c <= 'f' || 'A' <= c <= 'F'
  }

  /** The 8-4-4-4-12 hexadecimal shape of a UUID. */
  predicate IsUuid(s: string) {
    |s| == 36 &&
    forall i :: 0 <= i < 36 ==>
      if i == 8 || i == 13 || i == 18 || i == 23 then s[i] == '-' else IsHexDigit(s[i])
  }

  /** The length of s as JavaScript counts it, in UTF-16 code units: a
      character beyond U+FFFF takes two (a surrogate pair). */
  function Utf16Length(s: string): (n: nat)
    ensures |s| <= n <= 2 * |s|
    ensures n == 0 <==> s == []
  {
    if s == [] then 0
    else (if s[0] as int > 0xFFFF then 2 else 1) + Utf16Length(s[1..])
  }

  /** An e-mail address: a non-empty local part, an '@', a non-empty domain. */
  predicate IsEmail(s: string) {
    exists i :: 0 < i < |s| - 1 && s[i] == '@'
  }
}
