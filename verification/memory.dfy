/** The in-memory user repository: a map from id to record and the next id
    to hand out. Every operation is one atomic transition from a store to
    a store; the mutex that serialises them in the server is not modelled. */
module MemoryStore {
  import opened Results
  import opened Users

  datatype Store = Store(users: map<int, User>, nextID: int)

  /** The repository invariant: each record sits under its own id, ids
      start at 1, and every id in use is below the next one to be issued. */
  predicate Valid(s: Store) {
    && 1 <= s.nextID
    && forall k :: k in s.users ==> s.users[k].id == k && 1 <= k < s.nextID
  }

  /** A fresh, empty repository. */
  function NewStorage(): (s: Store)
    ensures Valid(s)
    ensures |s.users| == 0 && s.nextID == 1
  {
    Store(map[], 1)
  }

  // ---------------------------------------------------------------------
  // Point operations

  /** Looks a record up by id; (ZeroUser, false) when there is none. */
  function GetUser(s: Store, id: int): (r: (User, bool))
    ensures r.1 <==> id in s.users
    ensures r.1 ==> r.0 == s.users[id]
    ensures !r.1 ==> r.0 == ZeroUser
  {
    if id in s.users then (s.users[id], true) else (ZeroUser, false)
  }

  /** Stores u under the next id, with its id field set to that id. */
  function CreateUser(s: Store, u: User): (r: (Store, User))
    ensures r.1 == u.(id := s.nextID)
    ensures r.0.nextID == s.nextID + 1
    ensures GetUser(r.0, s.nextID) == (r.1, true)
    ensures forall k :: k != s.nextID ==> GetUser(r.0, k) == GetUser(s, k)
    ensures Valid(s) ==> Valid(r.0) && s.nextID !in s.users && |r.0.users| == |s.users| + 1
  {
    var created := u.(id := s.nextID);
    (Store(s.users[s.nextID := created], s.nextID + 1), created)
  }

  /** Replaces the whole record under id, keeping its id; (ZeroUser, false)
      and no change when id is absent. */
  function UpdateUser(s: Store, id: int, u: User): (r: (Store, (User, bool)))
    ensures r.1.1 <==> id in s.users
    ensures !r.1.1 ==> r.0 == s && r.1.0 == ZeroUser
    ensures r.1.1 && Valid(s) ==> r.1.0 == u.(id := id) && GetUser(r.0, id) == (r.1.0, true)
    ensures forall k :: k != id ==> GetUser(r.0, k) == GetUser(s, k)
    ensures r.0.nextID == s.nextID && r.0.users.Keys == s.users.Keys
    ensures Valid(s) ==> Valid(r.0)
  {
    if id !in s.users then (s, (ZeroUser, false))
    else
      var updated := u.(id := s.users[id].id);
      (s.(users := s.users[id := updated]), (updated, true))
  }

  /** Removes the record under id; false and no change when it is absent. */
  function DeleteUser(s: Store, id: int): (r: (Store, bool))
    ensures r.1 <==> id in s.users
    ensures !GetUser(r.0, id).1
    ensures forall k :: k != id ==> GetUser(r.0, k) == GetUser(s, k)
    ensures r.0.nextID == s.nextID
    ensures Valid(s) ==> Valid(r.0)
  {
    if id !in s.users then (s, false)
    else (s.(users := s.users - {id}), true)
  }

  /** Deleting twice: the second delete reports false and changes nothing. */
  lemma DeleteTwice(s: Store, id: int)
    ensures var (s1, _) := DeleteUser(s, id); DeleteUser(s1, id) == (s1, false)
  {
  }

  // ---------------------------------------------------------------------
  // Listing. Go visits map entries in an unspecified order; the model
  // visits them by ascending id, and no contract below depends on the order.

  /** A non-empty set has a member. */
  lemma HasMember(ks: set<int>)
    requires ks != {}
    ensures exists x :: x in ks
  {
    if forall x :: x !in ks {
      assert false;
    }
  }

  /** A value of a map sits under some key. */
  lemma ValueHasKey(m: map<int, User>, u: User)
    requires u in m.Values
    ensures exists k :: k in m && m[k] == u
  {
    if forall k :: k in m ==> m[k] != u {
      assert false;
    }
  }

  lemma {:induction false} HasMinimum(ks: set<int>)
    requires ks != {}
    ensures exists k :: k in ks && forall j :: j in ks ==> k <= j
    decreases |ks|
  {
    HasMember(ks);
    var x :| x in ks;
    var rest := ks - {x};
    assert |rest| == |ks| - 1;
    if rest == {} {
      forall j | j in ks ensures x <= j {
        assert j == x || j in rest;
      }
      assert x in ks && forall j :: j in ks ==> x <= j;
    } else {
      HasMinimum(rest);
      var m :| m in rest && forall j :: j in rest ==> m <= j;
      var least := if x < m then x else m;
      forall j | j in ks ensures least <= j {
        if j != x {
          assert j in rest;
        }
      }
      assert least in ks && forall j :: j in ks ==> least <= j;
    }
  }

  function MinOf(ks: set<int>): (k: int)
    requires ks != {}
    ensures k in ks && forall j :: j in ks ==> k <= j
  {
    HasMinimum(ks);
    var k :| k in ks && forall j :: j in ks ==> k <= j;
    k
  }

  /** The keys in ascending order, each exactly once. */
  function SortedKeys(ks: set<int>): (r: seq<int>)
    ensures |r| == |ks|
    ensures forall i :: 0 <= i < |r| ==> r[i] in ks
    ensures forall k :: k in ks ==> k in r
    ensures forall i, j :: 0 <= i < j < |r| ==> r[i] < r[j]
    decreases |ks|
  {
    if ks == {} then []
    else
      var k := MinOf(ks);
      [k] + SortedKeys(ks - {k})
  }

  /** No two entries of a list share an id: no record is listed twice.
      This is what the server's listings promise; their order follows Go's
      map iteration, which is unspecified. */
  predicate IdsDistinct(us: seq<User>) {
    forall i, j :: 0 <= i < j < |us| ==> us[i].id != us[j].id
  }

  /** Ids strictly increasing along a list. The model lists records in
      this order; it is one of the orders Go's map iteration may produce. */
  predicate IdsAscending(us: seq<User>) {
    forall i, j :: 0 <= i < j < |us| ==> us[i].id < us[j].id
  }

  /** The ids of the users in a list. */
  function IdSet(us: seq<User>): set<int> {
    set u | u in us :: u.id
  }

  /** The ids whose record carries exactly that role. */
  function RoleKeys(s: Store, role: string): set<int> {
    set k | k in s.users && s.users[k].role == role
  }

  /** A list with strictly increasing ids has as many distinct ids as
      entries. */
  lemma {:induction false} AscendingIdsCount(us: seq<User>)
    requires IdsAscending(us)
    ensures |IdSet(us)| == |us|
    decreases |us|
  {
    if us != [] {
      AscendingTail(us);
      AscendingIdsCount(us[1..]);
      IdSetCons(us);
      HeadBelowTail(us);
    }
  }

  lemma IdSetCons(us: seq<User>)
    requires us != []
    ensures IdSet(us) == {us[0].id} + IdSet(us[1..])
  {
    assert us == [us[0]] + us[1..];
    assert forall u :: u in us <==> u == us[0] || u in us[1..];
  }

  /** The first entry's id is below every later one. */
  lemma HeadBelowTail(us: seq<User>)
    requires us != [] && IdsAscending(us)
    ensures forall u :: u in us[1..] ==> us[0].id < u.id
    ensures us[0].id !in IdSet(us[1..])
  {
    forall u | u in us[1..] ensures us[0].id < u.id {
      var i :| 0 <= i < |us[1..]| && us[1..][i] == u;
      assert u == us[i + 1];
    }
  }

  lemma AscendingTail(us: seq<User>)
    requires us != [] && IdsAscending(us)
    ensures IdsAscending(us[1..])
  {
    var tail := us[1..];
    forall i, j | 0 <= i < j < |tail| ensures tail[i].id < tail[j].id {
      assert tail[i] == us[i + 1] && tail[j] == us[j + 1];
    }
  }

  /** A user below every id of an ascending list may go in front of it. */
  lemma ConsAscending(x: User, rest: seq<User>)
    requires IdsAscending(rest)
    requires forall u :: u in rest ==> x.id < u.id
    ensures IdsAscending([x] + rest)
  {
    var r := [x] + rest;
    forall i, j | 0 <= i < j < |r| ensures r[i].id < r[j].id {
      assert r[j] == rest[j - 1];
      if i > 0 {
        assert r[i] == rest[i - 1];
      }
    }
  }

  /** The records read at every key, in key order: each stored record is
      listed, nothing else is, and under the invariant ids ascend. */
  lemma ListedAtKeys(s: Store, keys: seq<int>, r: seq<User>)
    requires |r| == |keys|
    requires forall i :: 0 <= i < |keys| ==> keys[i] in s.users && r[i] == s.users[keys[i]]
    requires forall k :: k in s.users ==> k in keys
    requires forall i, j :: 0 <= i < j < |keys| ==> keys[i] < keys[j]
    ensures forall k :: k in s.users ==> s.users[k] in r
    ensures forall u :: u in r ==> u in s.users.Values
    ensures Valid(s) ==> IdsAscending(r)
  {
    forall k | k in s.users ensures s.users[k] in r {
      var i :| 0 <= i < |keys| && keys[i] == k;
      assert r[i] == s.users[k];
    }
    if Valid(s) {
      AscendingAtKeys(s, keys, r);
    }
  }

  /** Records read at strictly increasing keys of a valid store have
      strictly increasing ids. */
  lemma AscendingAtKeys(s: Store, keys: seq<int>, r: seq<User>)
    requires Valid(s)
    requires |r| == |keys|
    requires forall i :: 0 <= i < |keys| ==> keys[i] in s.users && r[i] == s.users[keys[i]]
    requires forall i, j :: 0 <= i < j < |keys| ==> keys[i] < keys[j]
    ensures IdsAscending(r)
  {
    forall i, j | 0 <= i < j < |r| ensures r[i].id < r[j].id {
      assert r[i].id == keys[i] && r[j].id == keys[j];
    }
  }

  /** Every stored record, one per key; the model picks ascending id
      order. */
  function GetUsers(s: Store): (r: seq<User>)
    ensures |r| == |s.users|
    ensures forall k :: k in s.users ==> s.users[k] in r
    ensures forall u :: u in r ==> u in s.users.Values
    ensures Valid(s) ==> IdsDistinct(r)
    ensures Valid(s) ==> IdsAscending(r)
  {
    var keys := SortedKeys(s.users.Keys);
    var r := seq(|keys|, i requires 0 <= i < |keys| => s.users[keys[i]]);
    ListedAtKeys(s, keys, r);
    r
  }

  /** The users of us whose role is exactly role, in order. */
  function WithRole(us: seq<User>, role: string): (r: seq<User>)
    ensures |r| <= |us|
    ensures forall u :: u in r <==> u in us && u.role == role
    ensures IdsAscending(us) ==> IdsAscending(r)
    decreases |us|
  {
    if us == [] then []
    else
      var rest := WithRole(us[1..], role);
      assert forall u :: u in us <==> u == us[0] || u in us[1..];
      assert IdsAscending(us) ==> IdsAscending(rest) && forall u :: u in rest ==> us[0].id < u.id by {
        if IdsAscending(us) {
          AscendingTail(us);
          HeadBelowTail(us);
        }
      }
      if us[0].role == role then
        assert IdsAscending(us) ==> IdsAscending([us[0]] + rest) by {
          if IdsAscending(us) {
            ConsAscending(us[0], rest);
          }
        }
        [us[0]] + rest
      else rest
  }

  /** The stored records whose role equals role exactly, each once; an
      empty role selects the records with an empty role, not every
      record. */
  function GetUsersByRole(s: Store, role: string): (r: seq<User>)
    ensures |r| <= |s.users|
    ensures forall u :: u in r <==> u in s.users.Values && u.role == role
    ensures Valid(s) ==> IdsDistinct(r) && IdSet(r) == RoleKeys(s, role) && |r| == |RoleKeys(s, role)|
    ensures Valid(s) ==> IdsAscending(r)
  {
    var all := GetUsers(s);
    assert forall u :: u in all <==> u in s.users.Values by {
      forall u | u in s.users.Values ensures u in all {
        var k :| k in s.users && s.users[k] == u;
      }
    }
    var r := WithRole(all, role);
    assert Valid(s) ==> IdSet(r) == RoleKeys(s, role) && |IdSet(r)| == |r| by {
      if Valid(s) {
        RoleIds(s, r, role);
        AscendingIdsCount(r);
      }
    }
    r
  }

  /** When exactly one stored record carries a role, the listing for that
      role is that record alone, however many other records there are. */
  lemma SingleOfRole(s: Store, role: string, k: int)
    requires Valid(s)
    requires RoleKeys(s, role) == {k}
    ensures GetUsersByRole(s, role) == [s.users[k]]
  {
    var r := GetUsersByRole(s, role);
    assert |RoleKeys(s, role)| == 1;
    OnlyRecord(s, r, role, k);
  }

  lemma OnlyRecord(s: Store, r: seq<User>, role: string, k: int)
    requires Valid(s) && RoleKeys(s, role) == {k} && |r| == 1
    requires forall u :: u in r <==> u in s.users.Values && u.role == role
    ensures r == [s.users[k]]
  {
    assert r[0] in r;
    ValueHasKey(s.users, r[0]);
    var j :| j in s.users && s.users[j] == r[0];
    assert j in RoleKeys(s, role);
  }

  /** Under the invariant, a list holding exactly the stored records of a
      role holds exactly the ids of that role. */
  lemma RoleIds(s: Store, r: seq<User>, role: string)
    requires Valid(s)
    requires forall u :: u in r <==> u in s.users.Values && u.role == role
    ensures IdSet(r) == RoleKeys(s, role)
  {
    forall x | x in IdSet(r) ensures x in RoleKeys(s, role) {
      var u :| u in r && u.id == x;
      ValueHasKey(s.users, u);
      var k :| k in s.users && s.users[k] == u;
    }
    forall k | k in RoleKeys(s, role) ensures k in IdSet(r) {
      assert s.users[k] in s.users.Values;
      assert s.users[k] in r;
    }
  }

  /** The first user of us with that login, if any. */
  function FindLogin(us: seq<User>, login: string): (r: (User, bool))
    ensures r.1 <==> exists i :: 0 <= i < |us| && us[i].login == login
    ensures r.1 ==> r.0 in us && r.0.login == login
    ensures !r.1 ==> r.0 == ZeroUser
    decreases |us|
  {
    if us == [] then (ZeroUser, false)
    else if us[0].login == login then (us[0], true)
    else
      var r := FindLogin(us[1..], login);
      assert forall i :: 1 <= i < |us| ==> us[i] == us[1..][i - 1];
      r
  }

  /** A stored record with that login, when one exists. Logins are not
      required to be unique, so which of several matches comes back is not
      part of the contract. */
  function GetUserByLogin(s: Store, login: string): (r: (User, bool))
    ensures r.1 <==> exists k :: k in s.users && s.users[k].login == login
    ensures r.1 ==> r.0 in s.users.Values && r.0.login == login
    ensures !r.1 ==> r.0 == ZeroUser
  {
    var all := GetUsers(s);
    LoginListed(s, all, login);
    FindLogin(all, login)
  }

  lemma LoginListed(s: Store, all: seq<User>, login: string)
    requires all == GetUsers(s)
    ensures (exists i :: 0 <= i < |all| && all[i].login == login)
        <==> (exists k :: k in s.users && s.users[k].login == login)
  {
    if exists k :: k in s.users && s.users[k].login == login {
      StoredIsListed(s, all, login);
    }
    if exists i :: 0 <= i < |all| && all[i].login == login {
      ListedIsStored(s, all, login);
    }
  }

  lemma StoredIsListed(s: Store, all: seq<User>, login: string)
    requires forall k :: k in s.users ==> s.users[k] in all
    requires exists k :: k in s.users && s.users[k].login == login
    ensures exists i :: 0 <= i < |all| && all[i].login == login
  {
    var k :| k in s.users && s.users[k].login == login;
    var u := s.users[k];
    assert u in all;
    var i :| 0 <= i < |all| && all[i] == u;
  }

  lemma ListedIsStored(s: Store, all: seq<User>, login: string)
    requires forall u :: u in all ==> u in s.users.Values
    requires exists i :: 0 <= i < |all| && all[i].login == login
    ensures exists k :: k in s.users && s.users[k].login == login
  {
    var i :| 0 <= i < |all| && all[i].login == login;
    var u := all[i];
    ValueHasKey(s.users, u);
    var k :| k in s.users && s.users[k] == u;
  }

  // ---------------------------------------------------------------------
  // Seeding

  /** The three built-in accounts, before their passwords are hashed. */
  const SeedAccounts: seq<User> := [
    User(0, "Леха", "admin", "admin", "12345"),
    User(0, "Андрей", "user", "andrey", "12345"),
    User(0, "xd", "moderator", "xd", "12345")
  ]

  /** Creates each account whose password hashes; an account whose hash
      fails is skipped. */
  function SeedFrom(s: Store, accounts: seq<User>, hash: string -> Option<string>): (r: Store)
    ensures Valid(s) ==> Valid(r)
    ensures s.nextID <= r.nextID
    decreases |accounts|
  {
    if accounts == [] then s
    else
      var u := accounts[0];
      match hash(u.password)
      case None => SeedFrom(s, accounts[1..], hash)
      case Some(h) => SeedFrom(CreateUser(s, u.(password := h)).0, accounts[1..], hash)
  }

  function SeedUsers(s: Store, hash: string -> Option<string>): Store {
    SeedFrom(s, SeedAccounts, hash)
  }

  /** Seeding a fresh repository with a working hash gives ids 1, 2, 3 to
      the logins admin, andrey and xd, each with the hashed password. */
  lemma SeedFresh(hash: string -> Option<string>)
    requires hash("12345").Some?
    ensures var s := SeedUsers(NewStorage(), hash);
      && s.users.Keys == {1, 2, 3} && s.nextID == 4
      && s.users[1].login == "admin" && s.users[1].role == "admin"
      && s.users[2].login == "andrey" && s.users[2].role == "user"
      && s.users[3].login == "xd" && s.users[3].role == "moderator"
      && forall k :: k in s.users ==> s.users[k].password == hash("12345").value
  {
    var h := hash("12345").value;
    var s1 := CreateUser(NewStorage(), SeedAccounts[0].(password := h)).0;
    var s2 := CreateUser(s1, SeedAccounts[1].(password := h)).0;
    var s3 := CreateUser(s2, SeedAccounts[2].(password := h)).0;
    assert SeedAccounts[1..][1..] == [SeedAccounts[2]];
    assert SeedUsers(NewStorage(), hash) == s3;
  }

  // ---------------------------------------------------------------------
  // Runs of mutations

  datatype Op = Create(user: User) | Update(id: int, user: User) | Delete(id: int)

  function Apply(s: Store, op: Op): Store {
    match op
    case Create(u) => CreateUser(s, u).0
    case Update(id, u) => UpdateUser(s, id, u).0
    case Delete(id) => DeleteUser(s, id).0
  }

  function Run(s: Store, ops: seq<Op>): Store
    decreases |ops|
  {
    if ops == [] then s else Run(Apply(s, ops[0]), ops[1..])
  }

  /** Every run of creates, updates and deletes keeps the invariant and
      never lowers the next id. */
  lemma {:induction false} RunKeepsValid(s: Store, ops: seq<Op>)
    requires Valid(s)
    ensures Valid(Run(s, ops)) && s.nextID <= Run(s, ops).nextID
    decreases |ops|
  {
    if ops != [] {
      RunKeepsValid(Apply(s, ops[0]), ops[1..]);
    }
  }

  /** Ids are never reused: whatever ran in between, a later create hands
      out an id that no record of the earlier store had and that is at or
      above the earlier next id, even if that record was deleted since. */
  lemma IdsNeverReused(s: Store, ops: seq<Op>, u: User)
    requires Valid(s)
    ensures var created := CreateUser(Run(s, ops), u).1;
      created.id >= s.nextID && created.id !in s.users
  {
    RunKeepsValid(s, ops);
  }
}
