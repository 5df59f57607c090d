/** Identity: the bearer branch of the request context and the `login` mutation.
    Token signing and verification are outside the model; they enter as the functions
    `sign` and `verify`. */
module Auth {
  import opened Wrappers
  import opened Seqs
  import opened Records

  /** `toLowerCase` on one character, for the ASCII letters. */
  function LowerChar(c: char): char {
    if 'A' <= c <= 'Z' then (c as int + 32) as char else c
  }

  /** `toLowerCase` on a string. */
  function Lower(s: string): (r: string)
    ensures |r| == |s|
    ensures forall i :: 0 <= i < |s| ==> r[i] == LowerChar(s[i])
  {
    seq(|s|, i requires 0 <= i < |s| => LowerChar(s[i]))
  }

  const Scheme := "bearer"

  /** `auth && auth.toLowerCase().startsWith("bearer")`. */
  function IsBearer(auth: Option<string>): (r: bool)
    ensures r <==> auth.Some? && |auth.value| >= |Scheme| && forall i :: 0 <= i < |Scheme| ==> LowerChar(auth.value[i]) == Scheme[i]
  {
    auth.Some? && Scheme <= Lower(auth.value)
  }

  /** `auth.substring(7)`: a start past the end gives the empty string. */
  function TokenOf(auth: string): (r: string)
    ensures |auth| >= 7 ==> auth == auth[..7] + r
    ensures |auth| < 7 ==> r == ""
  {
    if |auth| < 7 then "" else auth[7..]
  }

  /** The claims a token carries: `{ username, id }`. */
  datatype Claims = Claims(username: string, id: Id)

  /** A signed token, `{ value: jwt.sign(...) }`. */
  datatype Token = Token(value: string)

  /** `User.findById(id)`. */
  function FindUserById(users: seq<User>, id: Id): (r: Option<User>)
    ensures r.Some? ==> r.value in users && r.value.id == id
    ensures r.None? <==> forall u :: u in users ==> u.id != id
  {
    match IndexWhere(users, (u: User) => u.id == id)
    case None => None
    case Some(i) => Some(users[i])
  }

  /** `User.findOne({ username })`. */
  function FindUserByUsername(users: seq<User>, username: string): (r: Option<User>)
    ensures r.Some? ==> r.value in users && r.value.username == username
    ensures r.None? <==> forall u :: u in users ==> u.username != username
  {
    match IndexWhere(users, (u: User) => u.username == username)
    case None => None
    case Some(i) => Some(users[i])
  }

  /** The `context` function: the current user of a request, from its authorization header.
      A missing header, or one that is not a bearer header, gives no user; a bearer token that
      does not verify fails the request; a verified token gives the user its id names, or no
      user when there is none. */
  function ResolveContext(auth: Option<string>, verify: string -> Option<Claims>, users: seq<User>): (r: Result<Option<User>, Error>)
    ensures !IsBearer(auth) ==> r == Ok(None)
    ensures r.Err? <==> IsBearer(auth) && verify(TokenOf(auth.value)).None?
    ensures r.Err? ==> r.error == InvalidToken
    ensures r.Ok? && r.value.Some? ==>
      && IsBearer(auth)
      && verify(TokenOf(auth.value)).Some?
      && r.value.value in users
      && r.value.value.id == verify(TokenOf(auth.value)).value.id
    ensures IsBearer(auth) && verify(TokenOf(auth.value)).Some?
            && (exists u :: u in users && u.id == verify(TokenOf(auth.value)).value.id) ==>
      r.Ok? && r.value.Some?
  {
    if IsBearer(auth) then
      match verify(TokenOf(auth.value))
      case None => Err(InvalidToken)
      case Some(decoded) => Ok(FindUserById(users, decoded.id))
    else
      Ok(None)
  }

  /** The one password every user logs in with. */
  const SharedPassword := "secret"

  /** `Mutation.login`: the same error whether the user is missing or the password is
      wrong; on success, a token signed over exactly the user's username and id. */
  function Login(users: seq<User>, username: string, password: string, sign: Claims -> string): (r: Result<Token, Error>)
    ensures r.Err? ==> r.error == IncorrectCredentials
    ensures r.Ok? <==> password == SharedPassword && exists u :: u in users && u.username == username
    ensures r.Ok? ==> exists u :: u in users && u.username == username && r.value == Token(sign(Claims(u.username, u.id)))
  {
    match FindUserByUsername(users, username)
    case None => Err(IncorrectCredentials)
    case Some(user) =>
      if password != SharedPassword then Err(IncorrectCredentials)
      else Ok(Token(sign(Claims(user.username, user.id))))
  }

  /** "Bearer " and "bearer " both pass the check, and the token starts right after them. */
  lemma BearerHeader(token: string)
    ensures IsBearer(Some("Bearer " + token)) && TokenOf("Bearer " + token) == token
    ensures IsBearer(Some("bearer " + token)) && TokenOf("bearer " + token) == token
  {
    var upper, lower := "Bearer " + token, "bearer " + token;
    assert upper[..7] == "Bearer " && lower[..7] == "bearer ";
    assert Lower(upper)[..6] == Scheme;
    assert Lower(lower)[..6] == Scheme;
    assert upper[7..] == token && lower[7..] == token;
  }

  /** A header with another scheme leaves the request anonymous. */
  lemma BasicHeaderIsAnonymous(credentials: string, verify: string -> Option<Claims>, users: seq<User>)
    ensures ResolveContext(Some("Basic " + credentials), verify, users) == Ok(None)
  {
    var h := "Basic " + credentials;
    assert Lower(h)[0] == 'b' && Lower(h)[1] == 'a';
    assert !(Scheme <= Lower(h));
  }

  /** Logging in and sending the token back as "Bearer <token>" authenticates the user the
      token was issued for, when `verify` accepts what `sign` produced and user ids are distinct. */
  lemma LoginThenAuthenticate(users: seq<User>, username: string, password: string,
                              sign: Claims -> string, verify: string -> Option<Claims>)
    requires forall c :: verify(sign(c)) == Some(c)
    requires UserIdsDistinct(users)
    requires Login(users, username, password, sign).Ok?
    ensures exists u :: (u in users && u.username == username &&
                         ResolveContext(Some("Bearer " + Login(users, username, password, sign).value.value), verify, users) == Ok(Some(u)))
  {
    var user := FindUserByUsername(users, username).value;
    var token := sign(Claims(user.username, user.id));
    assert Login(users, username, password, sign).value.value == token;
    BearerHeader(token);
    assert verify(token) == Some(Claims(user.username, user.id));
    assert FindUserById(users, user.id) == Some(user);
  }
}
