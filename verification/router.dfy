/** One connection's worth of work: parse the request, pick the endpoint
    from the verb and the path, run it against the repository and answer.
    JSON decoding and encoding, password hashing and token handling are
    parameters of the model (Env); everything else is the dispatcher's own
    logic. */
module Router {
  import opened Results
  import opened GoStrings
  import opened Users
  import opened MemoryStore
  import opened Multipart
  import opened HttpRequest
  import opened HttpResponse
  import opened Auth
  import opened Assoc
  import opened HttpClient

  /** The login form: the login to look up and the password to check. */
  datatype Credentials = Credentials(login: string, password: string)

  /** What a JSON answer carries. The login answer names the user by id,
      username and role and never includes the password. */
  datatype Payload =
    | UserList(users: seq<User>)
    | OneUser(user: User)
    | UploadList(files: seq<Upload>)
    | LoginReply(id: int, username: string, role: string, token: string)

  /** An answer: a status with a JSON body, or a bare status. */
  datatype Reply = Json(status: int, payload: Payload) | Bare(status: int)

  /** The collaborators the dispatcher calls without this model looking
      inside: the configured base path, token validation, JSON decoding
      of a user and of login credentials, password hashing and checking,
      token issuing and JSON encoding. A None result stands for the Go
      call returning an error. */
  datatype Env = Env(
    basePath: string,
    tokenValid: string -> bool,
    decodeUser: string -> Option<User>,
    decodeCredentials: string -> Option<Credentials>,
    hash: string -> Option<string>,
    verifyPassword: (string, string) -> bool,
    issueToken: int -> Option<string>,
    encode: Payload -> string)

  /** The statuses a connection can be answered with. */
  const Statuses: set<int> := {200, 201, 204, 400, 401, 404, 405, 500}

  // ---------------------------------------------------------------------
  // Choosing the endpoint

  datatype Endpoint =
    | ListUsers
    | ShowUser(idText: string)
    | AddUser
    | EditUser(idText: string)
    | RemoveUser(idText: string)
    | UploadFiles
    | Login
    | NotAllowed

  function UsersPath(base: string): string { base + "/users" }
  function UserPrefix(base: string): string { base + "/users/" }
  function UploadPath(base: string): string { base + "/users/upload" }
  function LoginPath(base: string): string { base + "/users/login" }

  /** The switch: its cases are tried in this order and the first that
      matches wins; the id routes take whatever follows the prefix. */
  function EndpointOf(base: string, verb: string, path: string): Endpoint {
    if verb == "GET" && path == UsersPath(base) then ListUsers
    else if verb == "GET" && HasPrefix(path, UserPrefix(base)) then ShowUser(TrimPrefix(path, UserPrefix(base)))
    else if verb == "POST" && path == UsersPath(base) then AddUser
    else if verb == "PUT" && HasPrefix(path, UserPrefix(base)) then EditUser(TrimPrefix(path, UserPrefix(base)))
    else if verb == "DELETE" && HasPrefix(path, UserPrefix(base)) then RemoveUser(TrimPrefix(path, UserPrefix(base)))
    else if verb == "POST" && path == UploadPath(base) then UploadFiles
    else if verb == "POST" && path == LoginPath(base) then Login
    else NotAllowed
  }

  /** The routes the server knows, grouped by verb. */
  predicate Served(base: string, verb: string, path: string) {
    || (verb == "GET" && (path == UsersPath(base) || HasPrefix(path, UserPrefix(base))))
    || (verb == "POST" && (path == UsersPath(base) || path == UploadPath(base) || path == LoginPath(base)))
    || ((verb == "PUT" || verb == "DELETE") && HasPrefix(path, UserPrefix(base)))
  }

  /** A request is refused with "not allowed" exactly when no route serves
      its verb and path. */
  lemma NotAllowedIffUnserved(base: string, verb: string, path: string)
    ensures EndpointOf(base, verb, path) == NotAllowed <==> !Served(base, verb, path)
  {
  }

  /** The path of the collection is not under the item prefix, so the
      collection route and the item routes never compete. */
  lemma UsersPathIsNotAnItem(base: string)
    ensures !HasPrefix(UsersPath(base), UserPrefix(base))
  {
  }

  /** The item routes hand the segment after the prefix, verbatim, to the
      id parser; the upload and login paths are items too for every verb
      but POST. */
  lemma ItemRoutes(base: string, segment: string)
    ensures EndpointOf(base, "GET", UserPrefix(base) + segment) == ShowUser(segment)
    ensures EndpointOf(base, "PUT", UserPrefix(base) + segment) == EditUser(segment)
    ensures EndpointOf(base, "DELETE", UserPrefix(base) + segment) == RemoveUser(segment)
    ensures EndpointOf(base, "GET", UploadPath(base)) == ShowUser("upload")
    ensures EndpointOf(base, "DELETE", LoginPath(base)) == RemoveUser("login")
  {
    PrefixSegment(UserPrefix(base), segment);
    assert UploadPath(base) == UserPrefix(base) + "upload";
    assert LoginPath(base) == UserPrefix(base) + "login";
    PrefixSegment(UserPrefix(base), "upload");
    PrefixSegment(UserPrefix(base), "login");
  }

  lemma PrefixSegment(prefix: string, segment: string)
    ensures HasPrefix(prefix + segment, prefix) && TrimPrefix(prefix + segment, prefix) == segment
  {
    assert (prefix + segment)[..|prefix|] == prefix;
  }

  /** The fixed POST paths are matched exactly and reach their own routes. */
  lemma PostRoutes(base: string)
    ensures EndpointOf(base, "POST", UsersPath(base)) == AddUser
    ensures EndpointOf(base, "POST", UploadPath(base)) == UploadFiles
    ensures EndpointOf(base, "POST", LoginPath(base)) == Login
  {
    assert |UploadPath(base)| != |UsersPath(base)|;
    assert |LoginPath(base)| != |UsersPath(base)|;
    assert UploadPath(base)[|base| + 7] != LoginPath(base)[|base| + 7];
  }

  // ---------------------------------------------------------------------
  // The endpoints

  /** The "role" query parameter; a missing one reads as empty. */
  function RoleOf(query: map<string, string>): string {
    if "role" in query then query["role"] else ""
  }

  /** GET on the collection: every record when the role is empty, else the
      records with exactly that role. */
  function Listing(s: Store, role: string): (r: seq<User>)
    ensures forall u :: u in r <==> u in s.users.Values && (role == "" || u.role == role)
    ensures Valid(s) ==> IdsDistinct(r)
    ensures Valid(s) ==> IdsAscending(r)
    ensures role == "" ==> |r| == |s.users|
    ensures Valid(s) && role != "" ==> |r| == |RoleKeys(s, role)|
  {
    if role == "" then
      var all := GetUsers(s);
      assert forall u :: u in s.users.Values ==> u in all by {
        forall u | u in s.users.Values ensures u in all {
          ValueHasKey(s.users, u);
        }
      }
      all
    else GetUsersByRole(s, role)
  }

  /** GET on an item. */
  function Show(s: Store, idText: string): (r: Reply)
    ensures r.status == 400 <==> Atoi(idText).None?
    ensures r.status == 404 <==> Atoi(idText).Some? && Atoi(idText).value !in s.users
    ensures r.status == 200 <==> Atoi(idText).Some? && Atoi(idText).value in s.users
    ensures r.status == 200 ==> r == Json(200, OneUser(s.users[Atoi(idText).value]))
  {
    match Atoi(idText)
    case None => Bare(400)
    case Some(id) =>
      var (u, ok) := GetUser(s, id);
      if !ok then Bare(404) else Json(200, OneUser(u))
  }

  /** POST on the collection: only an authorised request whose body decodes
      and whose password hashes creates a record, under the next id and
      with the hash in place of the password. */
  function Add(env: Env, s: Store, req: Request): (r: (Store, Reply))
    ensures r.1.status == 401 <==> !Authorized(env.tokenValid, req.headers)
    ensures r.1.status == 400 <==> Authorized(env.tokenValid, req.headers) && env.decodeUser(req.body).None?
    ensures r.1.status == 500 <==> Authorized(env.tokenValid, req.headers) && env.decodeUser(req.body).Some?
                                   && env.hash(env.decodeUser(req.body).value.password).None?
    ensures r.1.status in {201, 400, 401, 500}
    ensures r.1.status != 201 ==> r.0 == s
    ensures Valid(s) ==> Valid(r.0)
    ensures r.1.status == 201 ==>
      var u := env.decodeUser(req.body).value;
      var stored := u.(id := s.nextID, password := env.hash(u.password).value);
      && r.1 == Json(201, OneUser(stored))
      && GetUser(r.0, s.nextID) == (stored, true)
      && (forall k :: k != s.nextID ==> GetUser(r.0, k) == GetUser(s, k))
      && r.0.nextID == s.nextID + 1
  {
    if !Authorized(env.tokenValid, req.headers) then (s, Bare(401))
    else match env.decodeUser(req.body)
      case None => (s, Bare(400))
      case Some(u) =>
        match env.hash(u.password)
        case None => (s, Bare(500))
        case Some(h) =>
          var (s', created) := CreateUser(s, u.(password := h, id := 0));
          (s', Json(201, OneUser(created)))
  }

  /** PUT on an item: replaces the record, keeping its id. The decoded
      record's password is stored without hashing; Go's decoder never fills
      it, so in the server it is always empty (see EditClearsPassword). */
  function Edit(env: Env, s: Store, idText: string, body: string): (r: (Store, Reply))
    ensures r.1.status == 400 <==> Atoi(idText).None? || env.decodeUser(body).None?
    ensures r.1.status == 404 <==> Atoi(idText).Some? && env.decodeUser(body).Some? && Atoi(idText).value !in s.users
    ensures r.1.status in {200, 400, 404}
    ensures r.1.status != 200 ==> r.0 == s
    ensures Valid(s) ==> Valid(r.0)
    ensures r.1.status == 200 ==>
      var id := Atoi(idText).value;
      var u := env.decodeUser(body).value;
      && id in s.users
      && r.0.users.Keys == s.users.Keys && r.0.nextID == s.nextID
      && (forall k :: k != id ==> GetUser(r.0, k) == GetUser(s, k))
      && (Valid(s) ==> r.1 == Json(200, OneUser(u.(id := id))) && GetUser(r.0, id) == (u.(id := id), true))
  {
    match Atoi(idText)
    case None => (s, Bare(400))
    case Some(id) =>
      match env.decodeUser(body)
      case None => (s, Bare(400))
      case Some(u) =>
        var (s', (updated, ok)) := UpdateUser(s, id, u);
        if !ok then (s, Bare(404)) else (s', Json(200, OneUser(updated)))
  }

  /** DELETE on an item. */
  function Remove(s: Store, idText: string): (r: (Store, Reply))
    ensures r.1.status == 400 <==> Atoi(idText).None?
    ensures r.1.status == 404 <==> Atoi(idText).Some? && Atoi(idText).value !in s.users
    ensures r.1.status == 204 <==> Atoi(idText).Some? && Atoi(idText).value in s.users
    ensures r.1.status in {204, 400, 404}
    ensures r.1.status != 204 ==> r.0 == s
    ensures Valid(s) ==> Valid(r.0)
    ensures r.1.status == 204 ==>
      var id := Atoi(idText).value;
      && r.1 == Bare(204)
      && !GetUser(r.0, id).1
      && (forall k :: k != id ==> GetUser(r.0, k) == GetUser(s, k))
      && r.0.nextID == s.nextID
  {
    match Atoi(idText)
    case None => (s, Bare(400))
    case Some(id) =>
      var (s', ok) := DeleteUser(s, id);
      if !ok then (s, Bare(404)) else (s', Bare(204))
  }

  /** POST on the upload path: the files the request carried, or 400 when
      it carried none. */
  function Uploads(req: Request): (r: Reply)
    ensures r.status == 400 <==> |req.uploads| == 0
    ensures r.status != 400 ==> r == Json(200, UploadList(req.uploads))
  {
    if |req.uploads| == 0 then Bare(400) else Json(200, UploadList(req.uploads))
  }

  /** POST on the login path: a token for a stored user whose password
      checks against the stored hash. */
  function SignIn(env: Env, s: Store, body: string): (r: Reply)
    ensures r.status == 400 <==> env.decodeCredentials(body).None?
    ensures r.status == 401 <==>
      var c := env.decodeCredentials(body);
      c.Some? && (!GetUserByLogin(s, c.value.login).1
                  || !env.verifyPassword(GetUserByLogin(s, c.value.login).0.password, c.value.password))
    ensures r.status == 200 ==>
      var c := env.decodeCredentials(body).value;
      var u := GetUserByLogin(s, c.login).0;
      && u in s.users.Values && u.login == c.login
      && env.verifyPassword(u.password, c.password)
      && env.issueToken(u.id).Some?
      && r == Json(200, LoginReply(u.id, u.username, u.role, env.issueToken(u.id).value))
    ensures r.status == 500 <==>
      var c := env.decodeCredentials(body);
      c.Some? && (var found := GetUserByLogin(s, c.value.login);
                  found.1 && env.verifyPassword(found.0.password, c.value.password)
                  && env.issueToken(found.0.id).None?)
    ensures r.status in {200, 400, 401, 500}
  {
    match env.decodeCredentials(body)
    case None => Bare(400)
    case Some(c) =>
      var (u, ok) := GetUserByLogin(s, c.login);
      if !ok then Bare(401)
      else if !env.verifyPassword(u.password, c.password) then Bare(401)
      else match env.issueToken(u.id)
        case None => Bare(500)
        case Some(token) => Json(200, LoginReply(u.id, u.username, u.role, token))
  }

  /** The dispatcher: the endpoint's answer and the repository after it. */
  function Route(env: Env, s: Store, req: Request): (Store, Reply) {
    match EndpointOf(env.basePath, req.verb, req.path)
    case ListUsers => (s, Json(200, UserList(Listing(s, RoleOf(req.query)))))
    case ShowUser(t) => (s, Show(s, t))
    case AddUser => Add(env, s, req)
    case EditUser(t) => Edit(env, s, t, req.body)
    case RemoveUser(t) => Remove(s, t)
    case UploadFiles => (s, Uploads(req))
    case Login => (s, SignIn(env, s, req.body))
    case NotAllowed => (s, Bare(405))
  }

  /** One connection: a request that does not parse is answered 400 and
      leaves the repository alone. */
  function Handle(env: Env, s: Store, input: string): (Store, Reply) {
    match ParseRequest(input)
    case Err(_) => (s, Bare(400))
    case Ok(req) => Route(env, s, req)
  }

  /** The bytes written back: a JSON answer through sendJSON, a bare
      status through sendStatus. */
  function Wire(env: Env, reply: Reply): string {
    match reply
    case Json(status, p) => SendJson(status, env.encode(p))
    case Bare(status) => SendStatus(status)
  }

  /** The repository after a connection and the text written back. */
  function Serve(env: Env, s: Store, input: string): (Store, string) {
    var (s', reply) := Handle(env, s, input);
    (s', Wire(env, reply))
  }

  // ---------------------------------------------------------------------
  // Properties of the dispatcher

  /** The only writes are a created, an updated and a deleted record; every
      other outcome, every error included, leaves the repository as it was. */
  lemma {:induction false} OnlyWritesChangeTheStore(env: Env, s: Store, req: Request)
    ensures var (s', reply) := Route(env, s, req);
      var e := EndpointOf(env.basePath, req.verb, req.path);
      s' != s ==>
        || (e == AddUser && reply.status == 201)
        || (e.EditUser? && reply.status == 200)
        || (e.RemoveUser? && reply.status == 204)
  {
  }

  /** Every error status leaves the repository unchanged. */
  lemma {:induction false} ErrorsChangeNothing(env: Env, s: Store, req: Request)
    ensures var (s', reply) := Route(env, s, req);
      reply.status !in {200, 201, 204} ==> s' == s
  {
  }

  /** Every answer of the switch uses one of the known statuses, and the
      repository invariant survives it. */
  lemma {:induction false} RouteKeepsValid(env: Env, s: Store, req: Request)
    requires Valid(s)
    ensures var (s', reply) := Route(env, s, req);
      Valid(s') && reply.status in Statuses
  {
    match EndpointOf(env.basePath, req.verb, req.path)
    case ListUsers =>
    case ShowUser(t) =>
    case AddUser =>
      assert Route(env, s, req) == Add(env, s, req);
    case EditUser(t) =>
      assert Route(env, s, req) == Edit(env, s, t, req.body);
    case RemoveUser(t) =>
      assert Route(env, s, req) == Remove(s, t);
    case UploadFiles =>
    case Login =>
    case NotAllowed =>
  }

  /** The same for a whole connection, unparsable requests included. */
  lemma HandleKeepsValid(env: Env, s: Store, input: string)
    requires Valid(s)
    ensures var (s', reply) := Handle(env, s, input);
      Valid(s') && reply.status in Statuses
  {
    if ParseRequest(input).Ok? {
      RouteKeepsValid(env, s, ParseRequest(input).value);
    }
  }

  /** A request with no line feed at all never reaches the switch. */
  lemma UnterminatedIsBadRequest(env: Env, s: Store, input: string)
    requires '\n' !in input
    ensures Handle(env, s, input) == (s, Bare(400))
  {
  }

  /** Without a valid bearer token, POST on the collection is refused with
      401 before the body is looked at. */
  lemma CreateNeedsToken(env: Env, s: Store, req: Request)
    requires EndpointOf(env.basePath, req.verb, req.path) == AddUser
    requires !Authorized(env.tokenValid, req.headers)
    ensures Route(env, s, req) == (s, Bare(401))
  {
  }

  /** The item routes do not check a token: an update or a delete of a
      stored id goes through whatever the headers say. */
  lemma ItemWritesNeedNoToken(env: Env, s: Store, req: Request, id: int)
    requires id in s.users && MinInt <= id <= MaxInt
    requires req.path == UserPrefix(env.basePath) + Itoa(id)
    ensures req.verb == "DELETE" ==> Route(env, s, req).1 == Bare(204)
    ensures req.verb == "PUT" && env.decodeUser(req.body).Some? ==> Route(env, s, req).1.status == 200
  {
    ItemRoutes(env.basePath, Itoa(id));
    AtoiItoa(id);
  }

  /** Deleting the same id twice: 204, then 404 with nothing changed. */
  lemma {:induction false} DeleteThenNotFound(env: Env, s: Store, req: Request)
    requires EndpointOf(env.basePath, req.verb, req.path).RemoveUser?
    requires Route(env, s, req).1.status == 204
    ensures var s1 := Route(env, s, req).0; Route(env, s1, req) == (s1, Bare(404))
  {
    var t := EndpointOf(env.basePath, req.verb, req.path).idText;
    assert Route(env, s, req) == Remove(s, t);
    var s1 := Remove(s, t).0;
    assert Atoi(t).value !in s1.users by {
      assert !GetUser(s1, Atoi(t).value).1;
    }
  }

  /** Listing with no role, or an empty one, returns every record; a role
      selects exactly the records that carry it. */
  lemma ListingByRole(env: Env, s: Store, req: Request)
    requires EndpointOf(env.basePath, req.verb, req.path) == ListUsers
    ensures var reply := Route(env, s, req).1;
      && reply.Json? && reply.status == 200 && reply.payload.UserList?
      && (RoleOf(req.query) == "" ==> forall u :: u in reply.payload.users <==> u in s.users.Values)
      && (RoleOf(req.query) != "" ==>
            forall u :: u in reply.payload.users <==> u in s.users.Values && u.role == RoleOf(req.query))
      && (Valid(s) ==> IdsDistinct(reply.payload.users))
      && (Valid(s) ==> IdsAscending(reply.payload.users))
      && (RoleOf(req.query) == "" ==> |reply.payload.users| == |s.users|)
      && (Valid(s) && RoleOf(req.query) != "" ==> |reply.payload.users| == |RoleKeys(s, RoleOf(req.query))|)
  {
  }

  /** Go's JSON decoder as the handler uses it: the record's password is
      tagged to be skipped, so a decoded user never carries one. */
  ghost predicate HidesPassword(env: Env) {
    forall b :: env.decodeUser(b).Some? ==> env.decodeUser(b).value.password == ""
  }

  /** With such a decoder a successful PUT clears the stored password. */
  lemma EditClearsPassword(env: Env, s: Store, req: Request)
    requires Valid(s) && HidesPassword(env)
    requires EndpointOf(env.basePath, req.verb, req.path).EditUser?
    requires Route(env, s, req).1.status == 200
    ensures var id := Atoi(EndpointOf(env.basePath, req.verb, req.path).idText).value;
      id in Route(env, s, req).0.users && Route(env, s, req).0.users[id].password == ""
  {
    var t := EndpointOf(env.basePath, req.verb, req.path).idText;
    assert Route(env, s, req) == Edit(env, s, t, req.body);
    var id := Atoi(t).value;
    var s' := Edit(env, s, t, req.body).0;
    assert GetUser(s', id) == (env.decodeUser(req.body).value.(id := id), true);
  }

  /** With such a decoder a successful create stores the hash of the empty
      password. */
  lemma CreateHashesEmptyPassword(env: Env, s: Store, req: Request)
    requires HidesPassword(env)
    requires EndpointOf(env.basePath, req.verb, req.path) == AddUser
    requires Route(env, s, req).1.status == 201
    ensures s.nextID in Route(env, s, req).0.users
    ensures Some(Route(env, s, req).0.users[s.nextID].password) == env.hash("")
  {
    assert Route(env, s, req) == Add(env, s, req);
    var u := env.decodeUser(req.body).value;
    assert u.password == "";
    assert GetUser(Add(env, s, req).0, s.nextID).1;
  }

  /** An upload request that carried no files is refused. */
  lemma NoFilesIsBadRequest(env: Env, s: Store, req: Request)
    requires req.verb == "POST" && req.path == UploadPath(env.basePath)
    ensures Route(env, s, req) == (s, if |req.uploads| == 0 then Bare(400) else Json(200, UploadList(req.uploads)))
  {
    PostRoutes(env.basePath);
  }

  /** A well-formed login for an account with a checking password answers
      with a token issued for that account's id. */
  lemma LoginIssuesToken(env: Env, s: Store, req: Request)
    requires Valid(s)
    requires req.verb == "POST" && req.path == LoginPath(env.basePath)
    requires Route(env, s, req).1.status == 200
    ensures var reply := Route(env, s, req).1;
      && reply.Json? && reply.payload.LoginReply?
      && reply.payload.id in s.users
      && s.users[reply.payload.id].login == env.decodeCredentials(req.body).value.login
      && env.verifyPassword(s.users[reply.payload.id].password, env.decodeCredentials(req.body).value.password)
      && Some(reply.payload.token) == env.issueToken(reply.payload.id)
    ensures Route(env, s, req).0 == s
  {
    PostRoutes(env.basePath);
    var reply := SignIn(env, s, req.body);
    assert Route(env, s, req) == (s, reply);
    var u := GetUserByLogin(s, env.decodeCredentials(req.body).value.login).0;
    ValueHasKey(s.users, u);
    var k :| k in s.users && s.users[k] == u;
    assert u.id == k;
  }

  /** A login whose credentials decode to the one stored account with that
      login, whose password checks and for which a token is issued, is
      answered 200 with that account's id, name, role and token. */
  lemma GoodLoginSucceeds(env: Env, s: Store, req: Request, k: int)
    requires Valid(s)
    requires req.verb == "POST" && req.path == LoginPath(env.basePath)
    requires env.decodeCredentials(req.body).Some?
    requires k in s.users && s.users[k].login == env.decodeCredentials(req.body).value.login
    requires forall j :: j in s.users && s.users[j].login == s.users[k].login ==> j == k
    requires env.verifyPassword(s.users[k].password, env.decodeCredentials(req.body).value.password)
    requires env.issueToken(k).Some?
    ensures Route(env, s, req)
      == (s, Json(200, LoginReply(k, s.users[k].username, s.users[k].role, env.issueToken(k).value)))
  {
    PostRoutes(env.basePath);
    assert Route(env, s, req) == (s, SignIn(env, s, req.body));
    UniqueLoginFound(s, s.users[k].login, k);
  }

  /** A login held by one stored record alone finds that record. */
  lemma UniqueLoginFound(s: Store, login: string, k: int)
    requires Valid(s)
    requires k in s.users && s.users[k].login == login
    requires forall j :: j in s.users && s.users[j].login == login ==> j == k
    ensures GetUserByLogin(s, login) == (s.users[k], true)
    ensures s.users[k].id == k
  {
    var u := GetUserByLogin(s, login).0;
    ValueHasKey(s.users, u);
    var j :| j in s.users && s.users[j] == u;
  }

  /** The seeded administrator signs in: on a fresh repository seeded with
      a hash that the password check accepts, POST of admin/12345 to the
      login path is answered 200 for id 1 with role "admin". */
  lemma AdminSignsIn(env: Env, req: Request)
    requires env.hash("12345").Some? && env.verifyPassword(env.hash("12345").value, "12345")
    requires req.verb == "POST" && req.path == LoginPath(env.basePath)
    requires env.decodeCredentials(req.body) == Some(Credentials("admin", "12345"))
    requires env.issueToken(1).Some?
    ensures var r := Route(env, SeedUsers(NewStorage(), env.hash), req).1;
      r == Json(200, LoginReply(1, SeedUsers(NewStorage(), env.hash).users[1].username, "admin", env.issueToken(1).value))
  {
    var s := SeedUsers(NewStorage(), env.hash);
    SeedFresh(env.hash);
    GoodLoginSucceeds(env, s, req, 1);
  }

  // ---------------------------------------------------------------------
  // On the wire

  /** What a client reads from the bytes written back: the reply's status;
      a bare status carries its reason phrase and an empty body, a JSON
      answer the phrase "OK" whatever its status and the encoded payload. */
  lemma WireRead(env: Env, reply: Reply)
    requires MinInt <= reply.status <= MaxInt
    requires reply.Json? ==> |env.encode(reply.payload)| <= MaxInt
    ensures var r := ReadResponse(Wire(env, reply));
      && r.Some? && r.value.status == reply.status
      && (reply.Bare? ==> r.value.reason == StatusText(reply.status) && r.value.body == "")
      && (reply.Json? ==> r.value.reason == "OK" && r.value.body == env.encode(reply.payload))
  {
    match reply
    case Json(status, p) => SendJsonRead(status, env.encode(p));
    case Bare(status) => SendStatusRead(status);
  }

  /** The refusals that have no entry in the reason table, 401 and 500, go
      out with the reason phrase "Unknown". */
  lemma UnlistedReasons()
    ensures StatusText(401) == "Unknown" && StatusText(500) == "Unknown"
    ensures forall st :: st in Statuses - {401, 500} ==> StatusText(st) != "Unknown"
  {
  }

  /** A connection whose request is a DELETE on a stored id removes that
      record, keeps the rest of the repository, and is answered with bytes
      a client reads as "204 No Content". ParsePlain gives such requests
      as a client writes them. */
  lemma DeleteOverTheWire(env: Env, s: Store, input: string, id: int)
    requires id in s.users && MinInt <= id <= MaxInt
    requires ParseRequest(input).Ok?
    requires ParseRequest(input).value.verb == "DELETE"
    requires ParseRequest(input).value.path == UserPrefix(env.basePath) + Itoa(id)
    ensures var (s', text) := Serve(env, s, input);
      && id !in s'.users
      && (forall k :: k != id ==> GetUser(s', k) == GetUser(s, k))
      && ReadResponse(text).Some?
      && ReadResponse(text).value.status == 204
      && ReadResponse(text).value.reason == "No Content"
  {
    DeleteRouted(env, s, input, id);
    RemoveStored(s, id);
    var (s', reply) := Remove(s, Itoa(id));
    WireRead(env, reply);
    var text := Wire(env, reply);
    assert ReadResponse(text).value.reason == StatusText(reply.status);
    NoContentReason(reply.status);
    assert Serve(env, s, input) == (s', text);
  }

  lemma DeleteRouted(env: Env, s: Store, input: string, id: int)
    requires ParseRequest(input).Ok?
    requires ParseRequest(input).value.verb == "DELETE"
    requires ParseRequest(input).value.path == UserPrefix(env.basePath) + Itoa(id)
    ensures Handle(env, s, input) == Remove(s, Itoa(id))
  {
    var req := ParseRequest(input).value;
    HandleParsed(env, s, input, req);
    RouteDelete(env, s, req, id);
  }

  lemma RouteDelete(env: Env, s: Store, req: Request, id: int)
    requires req.verb == "DELETE" && req.path == UserPrefix(env.basePath) + Itoa(id)
    ensures Route(env, s, req) == Remove(s, Itoa(id))
  {
    ItemRoutes(env.basePath, Itoa(id));
  }

  lemma NoContentReason(status: int)
    requires status == 204
    ensures StatusText(status) == "No Content"
  {
  }

  lemma RemoveStored(s: Store, id: int)
    requires id in s.users && MinInt <= id <= MaxInt
    ensures var (s', reply) := Remove(s, Itoa(id));
      && reply == Bare(204) && id !in s'.users
      && (forall k :: k != id ==> GetUser(s', k) == GetUser(s, k))
  {
    AtoiItoa(id);
    var (s', reply) := Remove(s, Itoa(id));
    assert !GetUser(s', id).1;
  }

  /** A request that parses is handed to the switch as parsed. */
  lemma HandleParsed(env: Env, s: Store, input: string, req: Request)
    requires ParseRequest(input) == Ok(req)
    ensures Handle(env, s, input) == Route(env, s, req)
  {
  }

  /** A request without a query or a content type, written by a client,
      parses to its verb, its path, no query, its body and no uploads. */
  lemma ParsePlain(verb: string, target: string, version: string, fs: seq<(string, string)>)
    requires FieldLike(verb) && FieldLike(target) && '?' !in target
    requires FieldLike(version) && PlainFields(fs)
    requires forall j :: 0 <= j < |fs| ==> ToLower(fs[j].0) != ContentTypeName
    ensures ParseRequest(EncodeRequest(verb, target, version, fs, "")) ==
      Ok(Request(verb, target, version, map[], "", [], PutAll(map[], Somes(SentFields(fs, "")))))
  {
    PlainRequestRoundTrip(verb, target, version, fs, "");
  }
}
