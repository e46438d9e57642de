/** The request validator placed in front of /login and /register: which
    check runs first on each path, and which rejection it gives. */
module ValidInfo {
  import opened Email

  /** A request body field as JSON parsing can produce it. Numbers are
      integers here; `Composite` is an array or object, with the text its
      string conversion gives. */
  datatype Value = Undefined | Null | Bool(b: bool) | Number(n: int) | Str(s: string) | Composite(text: string)

  /** `Boolean(v)`, as `every(Boolean)` applies it. */
  predicate Truthy(v: Value) {
    match v
    case Undefined => false
    case Null => false
    case Bool(b) => b
    case Number(n) => n != 0
    case Str(s) => s != []
    case Composite(_) => true
  }

  function DigitChar(d: int): char
    requires 0 <= d < 10
  {
    "0123456789"[d]
  }

  /** The decimal digits of `n`. */
  function Digits(n: nat): (r: string)
    ensures |r| > 0
    ensures forall k :: 0 <= k < |r| ==> '0' <= r[k] <= '9'
  {
    if n < 10 then [DigitChar(n)] else Digits(n / 10) + [DigitChar(n % 10)]
  }

  /** `String(v)`, the conversion `RegExp.prototype.test` applies. */
  function ToJsString(v: Value): string {
    match v
    case Undefined => "undefined"
    case Null => "null"
    case Bool(b) => if b then "true" else "false"
    case Number(n) => if n < 0 then "-" + Digits(-n) else Digits(n)
    case Str(s) => s
    case Composite(text) => text
  }

  /** `validEmail(userEmail)` */
  predicate ValidEmailValue(v: Value) {
    ValidEmail(ToJsString(v))
  }

  datatype Body = Body(username: Value, email: Value, password: Value)

  /** `next()`, or a response with a status and a message. */
  datatype Verdict = Next | Reject(status: int, message: string)

  const FillAllFields: string := "Lütfen bütün alanları doldurun."
  const NotAnEmail: string := "Bu geçerli bir e-posta değil."

  /** The middleware's decision for a request to `path` with `body`. */
  function Check(path: string, body: Body): (v: Verdict)
    ensures v == Next || v == Reject(401, FillAllFields) || v == Reject(401, NotAnEmail)
    ensures path == "/login" ==>
      (v == Next <==> Truthy(body.email) && Truthy(body.password)) &&
      v != Reject(401, NotAnEmail)
    ensures path == "/register" ==>
      && (v == Reject(401, NotAnEmail) <==> !ValidEmailValue(body.email))
      && (v == Next <==>
            ValidEmailValue(body.email) && Truthy(body.username) && Truthy(body.email) && Truthy(body.password))
    ensures path != "/login" && path != "/register" ==> v == Next
  {
    if path == "/login" then
      if !(Truthy(body.email) && Truthy(body.password)) then Reject(401, FillAllFields) else Next
    else if path == "/register" then
      if !ValidEmailValue(body.email) then Reject(401, NotAnEmail)
      else if !(Truthy(body.username) && Truthy(body.email) && Truthy(body.password)) then Reject(401, FillAllFields)
      else Next
    else Next
  }

  lemma DigitsHaveNoAt(n: nat)
    ensures '@' !in Digits(n)
  {
  }

  /** The string conversion of a falsy value never contains '@'. */
  lemma FalsyHasNoAt(v: Value)
    requires !Truthy(v)
    ensures '@' !in ToJsString(v)
  {
    match v
    case Number(n) =>
      DigitsHaveNoAt(0);
      assert ToJsString(v) == Digits(0);
    case Bool(b) =>
      assert ToJsString(v) == "false";
    case _ =>
  }

  /** A value whose string conversion is a valid email is truthy, so the
      email part of the second /register check can never fire. */
  lemma ValidEmailTruthy(v: Value)
    requires ValidEmailValue(v)
    ensures Truthy(v)
  {
    if !Truthy(v) {
      FalsyHasNoAt(v);
      NoAtRejected(ToJsString(v));
    }
  }

  /** On /register a missing, empty or otherwise falsy email gets the
      invalid-email message, not the fill-all-fields one. */
  lemma RegisterFalsyEmail(body: Body)
    requires !Truthy(body.email)
    ensures Check("/register", body) == Reject(401, NotAnEmail)
  {
    FalsyHasNoAt(body.email);
    NoAtRejected(ToJsString(body.email));
  }

  /** On /register a well-formed email with a falsy username or password
      gets the fill-all-fields message. */
  lemma RegisterMissingField(body: Body)
    requires ValidEmailValue(body.email)
    ensures Check("/register", body) == Reject(401, FillAllFields) <==>
      !(Truthy(body.username) && Truthy(body.password))
  {
    ValidEmailTruthy(body.email);
  }

  /** What /register lets through has an email of the accepted shape. */
  lemma RegisterPassesShape(body: Body)
    requires Check("/register", body) == Next
    ensures var s := ToJsString(body.email);
      multiset(s)['@'] == 1 && EndsWithTld(s) &&
      exists i :: 0 <= i < |s| && s[i] == '@' && Dotted(s[..i]) && Dotted(s[i + 1..])
  {
    ValidEmailProperties(ToJsString(body.email));
  }

  /** /login does not look at the email's format: a truthy password lets a
      malformed email through. */
  lemma LoginIgnoresFormat(password: Value)
    requires Truthy(password)
    ensures !ValidEmailValue(Str("not-an-email"))
    ensures Check("/login", Body(Undefined, Str("not-an-email"), password)) == Next
  {
    NoAtRejected("not-an-email");
  }
}
