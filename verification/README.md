# A verified model of a small hand-written HTTP user service

The service reads one HTTP/1.1 request from a raw TCP connection and parses
it by hand: the request line, the header block, a body framed by
Content-Length, the query string, and a multipart/form-data body with
uploaded files. It then dispatches on the method and the path to a CRUD API
over an in-memory user repository. There is also a file-upload echo and a
login that issues a bearer token. Answers are written by hand as a JSON
response or as a bare status line.

This project models that core in Dafny as pure functions over immutable
values. Each operation is paired with a partner: a reader for every writer,
an invariant the repository keeps, or a reference definition. Lemmas
connect the two.

| file | module | what it holds |
|---|---|---|
| `results.dfy` | `Results` | `Option`, `Result` |
| `gostrings.dfy` | `GoStrings` | the Go `strings`/`strconv` functions the parser uses (`TrimSpace`, `TrimRight`, `Fields`, `Split`, `Index`, `Cut`, `Atoi`, `Itoa`, `ToLower`), with their defining properties |
| `assoc.dfy` | `Assoc` | writing a sequence of key/value pairs into a map; the last write wins |
| `users.dfy` | `Users` | the `User` record and its zero value |
| `memory.dfy` | `MemoryStore` | the repository: a map from id to user plus the next id, and its invariant `Valid` |
| `request.dfy` | `HttpRequest` | `parseRequest`, split into its stages |
| `multipart.dfy` | `Multipart` | `parseMultipart` |
| `multipart_form.dfy` | `MultipartForm` | a writer of multipart bodies; the partner of `parseMultipart` |
| `client.dfy` | `HttpClient` | a writer of requests; the partner of `parseRequest` |
| `response.dfy` | `HttpResponse` | `sendStatus`, `sendJSON`, and a reader of their output |
| `auth.dfy` | `Auth` | reading the bearer token from the `Authorization` header |
| `router.dfy` | `Router` | the endpoints, the dispatch switch, and a whole connection from request text to response text |

Some collaborators are parameters of the model, gathered in `Router.Env`:

- JSON decoding and encoding;
- bcrypt hashing and checking;
- JWT signing and validation;
- the configured API base path.

A `None` from a parameter stands for the Go call returning an error.

Where the service's documented behaviour and its code differ, the model follows the code. The points below are all kept exactly as the code has them:

- An empty or missing `role` query lists every user. The handler calls `GetUsers` in that case. `MemoryStore.GetUsersByRole` itself matches the role exactly.
- Logins are not checked for uniqueness. `GetUserByLogin` returns some user with that login.
- PUT stores the decoded record's password without hashing it. Go's decoder never fills that field (see the point on the `User` record below), so a successful PUT sets the stored password to the empty string (`Router.EditClearsPassword`).
- PUT and DELETE on an item need no token. Only POST on the collection checks one.
- 401 and 500 are missing from `sendStatus`'s table. They go out with the reason phrase "Unknown".
- `sendJSON` writes the reason "OK" whatever the status, including 201.
- The `User` record's password field has the JSON tag `-`. Go's decoder therefore never fills it from a request body. `decodeUser` is a parameter here. `Router.HidesPassword` states this property of the decoder, and the lemmas that need it take it as a requirement. Under it, a user created over the API is stored with the hash of the empty password (`Router.CreateHashesEmptyPassword`).

## Model

| member | source | states |
|---|---|---|
| MemoryStore.NewStorage | internal/storage/memory.go:29-34 | a new repository is empty, will hand out id 1, and satisfies the invariant (every key is below the next id and is the record's own id) |
| MemoryStore.CreateUser | internal/storage/memory.go:36-51 | the record is stored under the old next id and carries that id; the next id goes up by one; every other id reads as before; the invariant holds and the size grows by one |
| MemoryStore.GetUser | internal/storage/memory.go:61-64 | found exactly when the id is stored; the result is then the stored record, and otherwise the zero user |
| MemoryStore.GetUsers | internal/storage/memory.go:53-59 | one entry per stored record: as many entries as records, every stored record is listed, every listed user is stored, and under the invariant no two entries share an id; the model's order is ascending id |
| MemoryStore.GetUserByLogin | internal/storage/memory.go:66-73 | found exactly when some stored record has that login; the result is then such a record, and otherwise the zero user |
| MemoryStore.UpdateUser | internal/storage/memory.go:75-91 | found exactly when the id is stored; a missing id changes nothing; a present one is replaced by the new record carrying the old id; other ids, the key set and the next id are unchanged; the invariant is kept |
| MemoryStore.DeleteUser | internal/storage/memory.go:93-103 | true exactly when the id was stored; afterwards the id is absent, other ids read as before, the next id is unchanged and the invariant is kept |
| MemoryStore.DeleteTwice | internal/storage/memory.go:93-103 | deleting the same id a second time reports false and changes nothing |
| MemoryStore.GetUsersByRole | internal/storage/memory.go:105-113 | exactly the stored records whose role equals the one asked for; under the invariant no two share an id, the list's ids are exactly the ids of that role, and its length is their number; the model's order is ascending id |
| MemoryStore.SingleOfRole | internal/storage/memory.go:105-113 | when exactly one stored record carries a role, listing that role gives that record alone, whatever the other records are |
| MemoryStore.SeedFrom | internal/storage/memory.go:122-131 | seeding keeps the invariant and never lowers the next id |
| MemoryStore.SeedFresh | internal/storage/memory.go:115-132 | seeding a new repository gives ids 1, 2, 3 to the logins admin, andrey and xd with roles admin, user and moderator, each with the hash of "12345", and the next id becomes 4 |
| MemoryStore.RunKeepsValid | internal/storage/memory.go:36-103 | any sequence of creates, updates and deletes keeps the invariant and never lowers the next id |
| MemoryStore.IdsNeverReused | internal/storage/memory.go:40-42 | whatever ran in between, a later create hands out an id that no earlier record had, deleted or not |
| GoStrings.AtoiItoa | internal/handler/handler.go:220-223 | the decimal text of any 64-bit integer is read back as that integer by the id parser |
| GoStrings.FieldsOfJoin | internal/handler/handler.go:44-49 | words joined by single spaces are split back into the same words |
| GoStrings.SplitJoin | internal/handler/handler.go:141 | pieces joined by a separator are split back into the same pieces when each piece but the last holds no occurrence of the separator, not even one that runs into the separator after it, and the last piece holds none |
| Assoc.PutAllLastWins | internal/handler/handler.go:76-79 | after writing a sequence of pairs into a map, a key is present exactly when some pair has it, and it holds the value of the last such pair |
| HttpRequest.ReadLine | internal/handler/handler.go:40-43 | no line exactly when the input holds no newline; otherwise the line ends with the first newline, has no other, and the line followed by the rest is the input |
| HttpRequest.ParseRequestLine | internal/handler/handler.go:44-56 | an error exactly when the trimmed line has fewer than three words; otherwise the method, target and version are the first three words |
| HttpRequest.RequestLineRoundTrip | internal/handler/handler.go:44-56 | a request line written from three space-free words is read back as those words |
| HttpRequest.HeaderField | internal/handler/handler.go:71-75 | a header line holds no field exactly when it has no colon |
| HttpRequest.HeaderFieldSplit | internal/handler/handler.go:71-78 | the name is the trimmed text before the first colon and the value the trimmed text after it, later colons included |
| HttpRequest.Absorb | internal/handler/handler.go:76-87 | a header line adds its field to the map, sets the content length when its name is content-length in any case and its value is an integer, and sets the content type likewise |
| HttpRequest.ReadHeaderBlock | internal/handler/handler.go:59-88 | a block of header lines ended by a blank line is consumed up to that line, the rest is left for the body, and every field is absorbed in order |
| HttpRequest.AbsorbAllFraming | internal/handler/handler.go:80-87 | the body length is the last valid content-length, or 0; the content type is the last content-type header, or empty |
| HttpRequest.ReadBody | internal/handler/handler.go:91-98 | an error exactly when a positive length is announced and fewer bytes follow; otherwise the body is the first `length` bytes, or empty for a length of 0 or less |
| HttpRequest.ReadUploads | internal/handler/handler.go:100-105 | a multipart/form-data content type (in any case) without "boundary=" is an error; a body of another type has no uploads; otherwise the uploads are the multipart reader's |
| HttpRequest.QueryLastWins | internal/handler/handler.go:108-117 | a query key is present exactly when some pair names it, and it holds the last such pair's value |
| HttpRequest.SplitTarget | internal/handler/handler.go:108-117 | the path has no '?'; a target without '?' is the whole path with no query; otherwise the path and the raw query around the first '?' make up the target, and the query is parsed from that raw text |
| HttpRequest.ParseRequest | internal/handler/handler.go:36-132 | the request-line-unterminated error comes exactly when the input has no newline; a parsed path never holds '?' |
| HttpRequest.RequestLineTokens | internal/handler/handler.go:40-56 | when the first line has fewer than three words the request is refused with the request-line error, and when it has three they become method, target and version |
| HttpRequest.NoBlankLineFails | internal/handler/handler.go:61-69 | header lines that are never followed by a blank line run the loop out of input: the header block is unterminated, however many complete lines it had |
| HttpRequest.HeadersUnterminated | internal/handler/handler.go:40-69 | a valid request line followed by complete header lines and then input without a line feed, and so without the blank line, is refused with the header error |
| HttpRequest.BodyFraming | internal/handler/handler.go:91-98 | a parsed head is followed by a body read exactly as its framing says |
| HttpRequest.UploadsFollowContentType | internal/handler/handler.go:100-105 | the uploads are read from the body exactly when the content type names multipart/form-data |
| Multipart.ParsePartSpec | internal/handler/handler.go:149-182 | a part's filename is the last unquoted `filename=` in its header lines, its content type the last `Content-Type:` line or `application/octet-stream`, and its content everything after the first blank line |
| Multipart.ParseSegments | internal/handler/handler.go:141-147 | the loop over the segments yields exactly the segments that are not empty or "--" after trimming, each trimmed and read, in order |
| Multipart.ParseMultipart | internal/handler/handler.go:134-186 | no result exactly when the content type lacks "boundary="; otherwise the body is cut at "--" plus everything after "boundary=" and each kept segment is read |
| MultipartForm.PartRoundTrip | internal/handler/handler.go:149-182 | a part written with a plain filename and type and non-empty content not ending in CR or LF is read back as the same filename, type and content |
| MultipartForm.TrailingLineFeedLost | internal/handler/handler.go:144-182 | a file whose content ends in a line feed is read back without it: the trim around each segment eats the line end |
| MultipartForm.EmptyFileReadsHeader | internal/handler/handler.go:144-182 | a file with empty content loses its blank line to the same trim, so its content is read as the disposition line |
| MultipartForm.MultipartRoundTrip | internal/handler/handler.go:134-186 | files written into a multipart body come back as the same files in order, when none holds the delimiter and each is well formed: a filename and type without white space or quotes at either end, and non-empty content not ending in CR or LF |
| HttpClient.ReadHeaderText | internal/handler/handler.go:59-88 | header lines written as `name: value` plus a blank line are read back as those fields, in order |
| HttpClient.QueryRoundTrip | internal/handler/handler.go:110-116 | a query written from plain pairs is parsed back into those pairs, the last value winning for a repeated key |
| HttpClient.TargetRoundTrip | internal/handler/handler.go:108-117 | a target written as path, '?' and a query is split back into the path and the query's pairs |
| HttpClient.RequestRoundTrip | internal/handler/handler.go:36-132 | a request written with a plain request line, plain headers and a body framed by its length parses back to the same method and version, the target split into path and query, exactly the body, and the sent headers plus Content-Length; a multipart type without a boundary is the missing-boundary error |
| HttpClient.PlainRequestRoundTrip | internal/handler/handler.go:36-132 | a written request without a content type parses back to itself with no uploads |
| HttpClient.FormRequestRoundTrip | internal/handler/handler.go:100-186 | a written multipart request parses back with the files it carried, in order, under the same restrictions on the files as MultipartForm.MultipartRoundTrip |
| HttpResponse.StatusText | internal/handler/handler.go:385-396 | the phrase is a single non-empty line, and it is "Unknown" exactly when the status is outside the table |
| HttpResponse.SendStatusRead | internal/handler/handler.go:384-397 | the bare answer reads back as the status, its phrase, Content-Length 0, Connection close and an empty body |
| HttpResponse.SendJsonRead | internal/handler/handler.go:368-381 | the JSON answer reads back as the status, the phrase "OK", the JSON content type, and exactly the body, framed by its length |
| Auth.BearerToken | pkg/jwt/jwt.go:33-38 | a token exactly when the `Authorization` header, spelled exactly so, starts with "Bearer "; the header is then "Bearer " followed by the token |
| Auth.BearerRoundTrip | pkg/jwt/jwt.go:34-38 | whatever token a client sends after "Bearer " is the token read back |
| Auth.HeaderNameIsCaseSensitive | pkg/jwt/jwt.go:34-37 | a lower-case header name or a lower-case scheme word presents no token |
| Router.NotAllowedIffUnserved | internal/handler/handler.go:204-361 | a request gets 405 exactly when no route serves its method and path |
| Router.ItemRoutes | internal/handler/handler.go:220-290 | GET, PUT and DELETE under `/users/` pass the rest of the path, verbatim, to the id parser; GET on the upload path and DELETE on the login path are item requests |
| Router.PostRoutes | internal/handler/handler.go:238-314 | POST on the collection, upload and login paths reaches the create, upload and login endpoints |
| Router.Listing | internal/handler/handler.go:206-218 | the listed users are exactly the stored ones, filtered by role when a role is given; with no role as many as are stored; under the invariant no two share an id, so with a role as many as carry it |
| Router.Show | internal/handler/handler.go:220-236 | 400 exactly when the id does not parse, 404 exactly when it parses but is absent, and otherwise 200 with the stored record |
| Router.Add | internal/handler/handler.go:238-262 | 401 exactly without a valid token, 400 exactly when the body does not decode, 500 exactly when hashing fails; any failure leaves the repository unchanged; 201 stores the record under the next id with the hashed password and answers with it |
| Router.Edit | internal/handler/handler.go:264-286 | 400 exactly when the id or the body does not parse, 404 exactly when the id is absent; a failure changes nothing; 200 replaces only that record, keeping its id, and answers with it |
| Router.Remove | internal/handler/handler.go:288-303 | 400, 404 and 204 exactly as the id fails to parse, is absent, or is present; 204 removes only that record and keeps the next id; a failure changes nothing |
| Router.Uploads | internal/handler/handler.go:305-312 | 400 exactly when the request carried no files; otherwise 200 with those files |
| Router.SignIn | internal/handler/handler.go:314-357 | 400 exactly when the credentials do not decode, 401 exactly when the login is unknown or the password does not check, 500 exactly when all of that passes but no token is issued, and so 200 otherwise; 200 names a stored user with that login whose password checks, with the token issued for its id |
| Router.EditClearsPassword | internal/handler/handler.go:264-286 | with Go's decoder, which never fills the password, a successful PUT leaves the stored record with an empty password |
| Router.CreateHashesEmptyPassword | internal/handler/handler.go:238-262 | with the same decoder, a successful create stores the hash of the empty password |
| Router.OnlyWritesChangeTheStore | internal/handler/handler.go:204-361 | only a successful create, edit or delete changes the repository |
| Router.ErrorsChangeNothing | internal/handler/handler.go:204-361 | every 4xx or 5xx answer leaves the repository as it was |
| Router.HandleKeepsValid | internal/handler/handler.go:189-361 | handling any input keeps the repository's invariant and answers with one of the known statuses |
| Router.UnterminatedIsBadRequest | internal/handler/handler.go:193-198 | input without a newline is answered 400 and changes nothing |
| Router.CreateNeedsToken | internal/handler/handler.go:238-243 | a create without a valid bearer token is answered 401 and changes nothing |
| Router.ItemWritesNeedNoToken | internal/handler/handler.go:264-303 | DELETE of a stored id answers 204, and PUT with a decodable body answers 200, whatever the headers |
| Router.DeleteThenNotFound | internal/handler/handler.go:288-303 | repeating a successful DELETE answers 404 and changes nothing |
| Router.ListingByRole | internal/handler/handler.go:206-218 | GET on the collection answers 200 with every stored user, as many as are stored, when the role is empty, and otherwise with exactly those of that role, no two sharing an id and as many as carry it |
| Router.NoFilesIsBadRequest | internal/handler/handler.go:305-312 | POST on the upload path answers 400 without files and echoes the files otherwise |
| Router.GoodLoginSucceeds | internal/handler/handler.go:314-357 | credentials for the one stored account with that login, whose password checks and which gets a token, are answered 200 with that account's id, name, role and token, and the repository is unchanged |
| Router.AdminSignsIn | internal/handler/handler.go:314-357 | on a freshly seeded repository, admin with password 12345 signs in: 200 for id 1 with role admin and the token issued for id 1 |
| Router.LoginIssuesToken | internal/handler/handler.go:314-357 | a 200 login answers with the id of a stored user whose login is the one sent and whose stored hash checks against the sent password, together with the token issued for that id; the repository is unchanged |
| Router.WireRead | internal/handler/handler.go:368-397 | a reply put on the wire reads back with its status; a bare reply carries the table's phrase and an empty body, and a JSON reply carries "OK" and the encoded payload |
| Router.UnlistedReasons | internal/handler/handler.go:385-396 | 401 and 500 go out as "Unknown" and every other status the server sends has its own phrase |
| Router.DeleteOverTheWire | internal/handler/handler.go:189-303 | a parsed DELETE of a stored id removes that record only and is answered with the text of a 204 No Content response |

## Left out

- Sockets, the buffered reader, `conn.Write`, deferred close and logging are not modelled. The model takes the request text as a string and returns the response text.
- The debug prints of the parsed request (handler.go:119-129) are not modelled because they do not affect the answer.
- The repository's mutex is not modelled. The model handles one connection at a time, as pure functions.
- JSON encoding and decoding, bcrypt (`HashPassword`, `VerifyPassword`) and JWT signing, parsing and expiry are parameters of `Router.Env`. Only the header side of `ParseToken` is modelled (`Auth.BearerToken`).
- The configuration is not modelled. The config file in this repository has no API base path or JWT secret, so the base path is `Env.basePath`.
- The SQL storage backend, the server's accept loop and the program's entry point are not part of this model.
- MemoryStore.SeedFresh: hashing is modelled as a function, so the three seeded accounts get the same hash and either all hash or none does. bcrypt salts every call, so in the server the three stored hashes differ and a failure skips only that account. `MemoryStore.SeedFrom` does skip accounts one by one; only this lemma's equal-hash conclusion and its single requirement depend on the function model.
- Router.Add: the hash is a function of the password for the same reason. Which salt bcrypt picks is not modelled.
- MemoryStore.CreateUser: the id counter is an unbounded integer. Go's int would wrap after 2^63 creates.
- Whitespace and case folding are ASCII only. Go's `TrimSpace`, `Fields` and `ToLower` also treat Unicode spaces and letters.
- The text is a sequence of characters with one character per byte. UTF-8 is not modelled.
- HttpRequest.ReadBody: Go allocates the announced length before reading (handler.go:92). A huge Content-Length makes that allocation panic or exhaust memory. Nothing recovers the panic in the connection's goroutine, so it ends the whole server process, not only this request. The model does not model memory and returns the truncated-body error instead.
- The text of error messages is not modelled. Errors are a datatype, and every parse error becomes a 400.
- MemoryStore.GetUsers, MemoryStore.GetUsersByRole, Router.Listing, Router.ListingByRole: Go ranges over the map, so the server lists users in an unspecified order. The model lists them in ascending id order, which is one of those orders. The `IdsAscending` clauses hold of the model only. What carries over to the server is `IdsDistinct` together with the id set and the counts. `MemoryStore.GetUserByLogin` likewise picks the lowest matching id here, and its contract promises only some match.
- MultipartForm.MultipartRoundTrip: the round trip is promised only for well-formed files. The reader trims CR and LF from both ends of every segment, so content that is empty or ends in a line end does not come back as written. `MultipartForm.TrailingLineFeedLost` and `MultipartForm.EmptyFileReadsHeader` state what the reader makes of such files instead. File names and types with white space or quotes at their ends are trimmed or unquoted by the reader and are excluded for the same reason.
- Multipart.ParseMultipart: the boundary is taken verbatim after `boundary=`. Quotes and any following parameters are kept, exactly as the code does.
- Multipart.ParsePart: its own contract is light. The full statement is `Multipart.ParsePartSpec`.
- Router.DeleteOverTheWire: it is stated over any input that parses to a DELETE of that id, not over the text of a specific client request. `Router.ParsePlain` and `HttpClient.PlainRequestRoundTrip` connect written requests to parsed ones.
- Router.Edit: the echoed record equals the decoded one with its id only when the repository satisfies its invariant, which every reachable repository does (`Router.HandleKeepsValid`).
