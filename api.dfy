/**
 * api.py: the username validator and the request checks and status codes
 * of `POST /api/auth/login` and `POST /api/orders`. Flask, the JSON
 * decoder and JWT are not modelled: a request body is a decoded JSON
 * object (or none), a response is a status code and a JSON object, and
 * `auth.authenticate_user`, `orders.create_order` and
 * `create_access_token` are function parameters. An exception Flask turns
 * into a 500 page is `InternalError`.
 */
module Api {
  import opened Wrappers
  import opened Text
  import opened Accounts

  /** A decoded JSON value; lists and objects are `JOther`. */
  datatype Json = JString(s: string) | JInt(n: int) | JReal(r: real) | JBool(b: bool) | JNull | JOther

  /** `request.get_json()`: nothing, or an object. */
  datatype Body = NoJson | Object(fields: map<string, Json>)

  datatype Response = Respond(code: int, json: map<string, Json>) | InternalError

  /** `jsonify({"error": message}), code`. */
  function Error(code: int, message: string): Response
  {
    Respond(code, map["error" := JString(message)])
  }

  /** The checks before the call into the business layer: its arguments, or the early response. */
  datatype Step<T> = Proceed(args: T) | Stop(response: Response)

  // ----- is_valid_username -----

  predicate IsWordChar(c: char)
  {
    ('a' <= c <= 'z') || ('A' <= c <= 'Z') || ('0' <= c <= '9') || c == '_'
  }

  predicate AllWordChars(s: string)
  {
    forall i :: 0 <= i < |s| ==> IsWordChar(s[i])
  }

  /** How many characters the greedy `[a-zA-Z0-9_]+` consumes from the start. */
  function WordRun(s: string): (n: nat)
    ensures n <= |s|
    ensures forall i :: 0 <= i < n ==> IsWordChar(s[i])
    ensures n < |s| ==> !IsWordChar(s[n])
  {
    if s == [] || !IsWordChar(s[0]) then 0 else 1 + WordRun(s[1..])
  }

  /**
   * `re.match(r'^[a-zA-Z0-9_]+$', username) is not None`: after the run of
   * word characters, `$` matches at the end or just before a final "\n".
   */
  predicate IsValidUsername(u: string)
  {
    var n := WordRun(u);
    n >= 1 && (n == |u| || (n == |u| - 1 && u[n] == '\n'))
  }

  /**
   * The accepted usernames are exactly the non-empty strings of word
   * characters, alone or followed by one newline.
   */
  lemma IsValidUsernameSpec(u: string)
    ensures IsValidUsername(u) <==>
      || (u != [] && AllWordChars(u))
      || (|u| >= 2 && u[|u| - 1] == '\n' && AllWordChars(u[..|u| - 1]))
  {
    var n := WordRun(u);
    if |u| >= 2 && u[|u| - 1] == '\n' && AllWordChars(u[..|u| - 1]) {
      assert forall i :: 0 <= i < |u| - 1 ==> u[i] == u[..|u| - 1][i];
    }
  }

  // ----- login -----

  /** `not data or a not in data or b not in data` is false. */
  predicate HasFields(body: Body, a: string, b: string)
  {
    body.Object? && a in body.fields && b in body.fields
  }

  const LoginAlert: string := "⚠️ SÉCURITÉ : Votre mot de passe est compromis (Pwned API). Changez-le rapidement."

  /**
   * `login()` up to `auth.authenticate_user(username, password)`: missing
   * fields, a malformed username, and values that are not strings (which
   * raise inside the regex or the hash) end the request first.
   */
  function LoginCheck(body: Body): (r: Step<(string, string)>)
    ensures !HasFields(body, "username", "password") ==> r == Stop(Error(400, "Champs manquants"))
    ensures r.Proceed? ==> IsValidUsername(r.args.0)
    ensures r.Proceed? ==> body.fields["username"] == JString(r.args.0) && body.fields["password"] == JString(r.args.1)
    ensures HasFields(body, "username", "password") && body.fields["username"].JString?
            && !IsValidUsername(body.fields["username"].s)
            ==> r == Stop(Error(400, "Format invalide. Utilisez uniquement lettres, chiffres et '_'"))
    ensures HasFields(body, "username", "password") && !body.fields["username"].JString? ==> r == Stop(InternalError)
    ensures HasFields(body, "username", "password") && body.fields["username"].JString?
            && IsValidUsername(body.fields["username"].s)
            ==> r == if body.fields["password"].JString?
                     then Proceed((body.fields["username"].s, body.fields["password"].s))
                     else Stop(InternalError)
  {
    if !HasFields(body, "username", "password") then Stop(Error(400, "Champs manquants"))
    else
      var username := body.fields["username"];
      var password := body.fields["password"];
      if !username.JString? then Stop(InternalError)
      else if !IsValidUsername(username.s) then
        Stop(Error(400, "Format invalide. Utilisez uniquement lettres, chiffres et '_'"))
      else if !password.JString? then Stop(InternalError)
      else Proceed((username.s, password.s))
  }

  /**
   * `login()`: 200 with a token and the admin flag for SUCCESS or WARNING,
   * with an `alert` exactly for WARNING; 401 for FAIL.
   */
  function Login(body: Body, authenticate: (string, string) -> (Status, bool), createToken: string -> string)
    : (r: Response)
    ensures LoginCheck(body).Stop? ==> r == LoginCheck(body).response
    ensures LoginCheck(body).Proceed? ==>
      var (username, password) := LoginCheck(body).args;
      var (status, isAdmin) := authenticate(username, password);
      && (status == Fail ==> r == Error(401, "Identifiants incorrects"))
      && (status != Fail ==>
            && r.Respond? && r.code == 200
            && r.json.Keys == {"message", "token", "is_admin"} + (if status == Warning then {"alert"} else {})
            && r.json["message"] == JString("Connexion réussie")
            && r.json["token"] == JString(createToken(username))
            && r.json["is_admin"] == JBool(isAdmin))
  {
    match LoginCheck(body)
    case Stop(response) => response
    case Proceed((username, password)) =>
      var (status, isAdmin) := authenticate(username, password);
      if status == Success || status == Warning then
        var response := map["message" := JString("Connexion réussie"),
                            "token" := JString(createToken(username)),
                            "is_admin" := JBool(isAdmin)];
        Respond(200, if status == Warning then response["alert" := JString(LoginAlert)] else response)
      else Error(401, "Identifiants incorrects")
  }

  /**
   * A request the checks reject gets the same answer whatever
   * `authenticate_user` and the token function would do: they are not
   * reached.
   */
  lemma LoginRejectsBeforeAuthentication(body: Body, auth1: (string, string) -> (Status, bool),
                                         auth2: (string, string) -> (Status, bool),
                                         token1: string -> string, token2: string -> string)
    requires LoginCheck(body).Stop?
    ensures Login(body, auth1, token1) == Login(body, auth2, token2)
    ensures Login(body, auth1, token1).Respond? ==> Login(body, auth1, token1).code == 400
  {
  }

  // ----- add_order -----

  /** Why `int(value)` fails: ValueError (answered 400) or TypeError (a 500). */
  datatype IntFailure = NotAnInteger | WrongType

  /** `int(x)` on a float: truncation toward zero. */
  function Truncate(x: real): (n: int)
    ensures 0.0 <= x ==> n as real <= x < n as real + 1.0
    ensures x < 0.0 ==> n as real - 1.0 < x <= n as real
  {
    if x >= 0.0 then x.Floor else -((-x).Floor)
  }

  /** `int(value)` for a decoded JSON value. */
  function IntOf(v: Json): Result<int, IntFailure>
  {
    match v
    case JInt(n) => Ok(n)
    case JBool(b) => Ok(if b then 1 else 0)
    case JReal(x) => Ok(Truncate(x))
    case JString(s) => (match ParseInt(s) case Some(n) => Ok(n) case None => Err(NotAnInteger))
    case _ => Err(WrongType)
  }

  /**
   * `add_order()` up to `orders.create_order(current_user, nom_prod, qty)`:
   * missing fields, a quantity `int()` rejects, and a quantity <= 0 end the
   * request first, so the order layer only ever sees a positive quantity.
   */
  function OrderCheck(body: Body): (r: Step<(Json, int)>)
    ensures !HasFields(body, "produit", "quantité") ==> r == Stop(Error(400, "Il faut 'produit' et 'quantité'"))
    ensures r.Proceed? ==> r.args.1 > 0
    ensures r.Proceed? ==> body.fields["produit"] == r.args.0 && IntOf(body.fields["quantité"]) == Ok(r.args.1)
    ensures HasFields(body, "produit", "quantité") && IntOf(body.fields["quantité"]) == Err(NotAnInteger)
            ==> r == Stop(Error(400, "La quantité doit être un nombre entier"))
    ensures HasFields(body, "produit", "quantité") && IntOf(body.fields["quantité"]).Ok?
            && IntOf(body.fields["quantité"]).value <= 0
            ==> r == Stop(Error(400, "La quantité doit être positive"))
    ensures HasFields(body, "produit", "quantité") && IntOf(body.fields["quantité"]) == Err(WrongType)
            ==> r == Stop(InternalError)
    ensures HasFields(body, "produit", "quantité") && IntOf(body.fields["quantité"]).Ok?
            && IntOf(body.fields["quantité"]).value > 0
            ==> r == Proceed((body.fields["produit"], IntOf(body.fields["quantité"]).value))
  {
    if !HasFields(body, "produit", "quantité") then Stop(Error(400, "Il faut 'produit' et 'quantité'"))
    else match IntOf(body.fields["quantité"])
      case Err(NotAnInteger) => Stop(Error(400, "La quantité doit être un nombre entier"))
      case Err(WrongType) => Stop(InternalError)
      case Ok(qty) =>
        if qty <= 0 then Stop(Error(400, "La quantité doit être positive"))
        else Proceed((body.fields["produit"], qty))
  }

  /** `add_order()`: 201 with the order layer's message on success, 409 with it on failure. */
  function AddOrder(body: Body, currentUser: string, createOrder: (string, Json, int) -> (bool, string))
    : (r: Response)
    ensures OrderCheck(body).Stop? ==> r == OrderCheck(body).response
    ensures OrderCheck(body).Proceed? ==>
      var (product, qty) := OrderCheck(body).args;
      var (ok, message) := createOrder(currentUser, product, qty);
      r == (if ok then Respond(201, map["message" := JString(message)]) else Error(409, message))
  {
    match OrderCheck(body)
    case Stop(response) => response
    case Proceed((product, qty)) =>
      var (ok, message) := createOrder(currentUser, product, qty);
      if ok then Respond(201, map["message" := JString(message)]) else Error(409, message)
  }

  /** A rejected order request is answered the same whatever `create_order` would do. */
  lemma AddOrderRejectsBeforeCreate(body: Body, user: string,
                                    create1: (string, Json, int) -> (bool, string),
                                    create2: (string, Json, int) -> (bool, string))
    requires OrderCheck(body).Stop?
    ensures AddOrder(body, user, create1) == AddOrder(body, user, create2)
    ensures AddOrder(body, user, create1).Respond? ==> AddOrder(body, user, create1).code == 400
  {
  }
}
