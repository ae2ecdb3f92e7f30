/** The user resolvers: the `searchUsers` query and the `createUsername` mutation. */
module UserResolvers {
  import opened Types
  import opened Db

  // ---------------------------------------------------------------------------
  // Query: searchUsers

  /** ASCII lower case; letters outside A-Z are left as they are. */
  function LowerChar(c: char): char
  {
    if 'A' <= c <= 'Z' then (c as int + 32) as char else c
  }

  function Lower(s: string): string
  {
    seq(|s|, i requires 0 <= i < |s| => LowerChar(s[i]))
  }

  /** `part` occurs in `s` starting at index `i`. */
  predicate OccursAt(s: string, part: string, i: int)
  {
    0 <= i <= |s| - |part| && s[i..i + |part|] == part
  }

  /** `part` occurs in `s` as a contiguous run (the empty string occurs in every string). */
  predicate Contains(s: string, part: string)
  {
    exists i :: 0 <= i <= |s| - |part| && OccursAt(s, part, i)
  }

  /** The `where` clause on `username`: `contains: search` and `not: currentName`,
      both under `mode: "insensitive"`. */
  predicate Matches(u: User, search: string, currentName: string)
  {
    Contains(Lower(u.username), Lower(search)) && Lower(u.username) != Lower(currentName)
  }

  /** `findMany` with that clause: the matching users, in table order. */
  function Matching(users: seq<User>, search: string, currentName: string): (r: seq<User>)
    ensures |r| <= |users|
    ensures forall u :: u in r <==> u in users && Matches(u, search, currentName)
  {
    if users == [] then []
    else
      var rest := Matching(users[1..], search, currentName);
      assert users == [users[0]] + users[1..];
      if Matches(users[0], search, currentName) then [users[0]] + rest else rest
  }

  /** Query `searchUsers`: refused without a signed-in user; otherwise every stored
      user whose username contains the searched text, ignoring case, except those
      whose username equals the caller's own, ignoring case. */
  function SearchUsers(db: Store, session: Option<Session>, search: string): (r: Result<seq<User>>)
    reads db
    ensures !SignedIn(session) <==> r == Err(NotAuthorizedUser)
    ensures r.Ok? ==> forall u :: u in r.value <==>
              && u in db.users
              && Contains(Lower(u.username), Lower(search))
              && Lower(u.username) != Lower(session.value.user.value.username)
  {
    if !SignedIn(session) then Err(NotAuthorizedUser)
    else Ok(Matching(db.users, search, session.value.user.value.username))
  }

  /** The search text is compared case-insensitively: two texts equal up to case
      find the same users in the same order. */
  lemma {:induction false} SearchIgnoresCase(users: seq<User>, a: string, b: string, currentName: string)
    requires Lower(a) == Lower(b)
    ensures Matching(users, a, currentName) == Matching(users, b, currentName)
  {
    if users != [] {
      SearchIgnoresCase(users[1..], a, b, currentName);
    }
  }

  /** An empty search text finds every user except those named like the caller. */
  lemma EmptySearchFindsOthers(users: seq<User>, currentName: string)
    ensures forall u :: u in Matching(users, "", currentName) <==> u in users && Lower(u.username) != Lower(currentName)
  {
    forall u | u in users
      ensures Contains(Lower(u.username), Lower(""))
    {
      assert OccursAt(Lower(u.username), Lower(""), 0);
    }
  }

  // ---------------------------------------------------------------------------
  // Mutation: createUsername

  /** Mutation `createUsername`: every failure is returned as `{error}` and writes
      nothing. Refused without a signed-in user; refused when any user, the caller
      included, already has the username; the update of a user id missing from the
      table fails with the store's message; otherwise only the caller's username
      changes. */
  method CreateUsername(db: Store, session: Option<Session>, username: string) returns (r: CreateUsernameResponse)
    requires db.Valid()
    modifies db
    ensures db.Valid()
    ensures db.conversations == old(db.conversations) && db.participants == old(db.participants)
    ensures db.messages == old(db.messages) && db.nextRowId == old(db.nextRowId) && db.published == old(db.published)
    ensures !SignedIn(session) ==> r == CreateUsernameResponse(None, Some(NotAuthorizedUser)) && unchanged(db)
    ensures SignedIn(session) && UsernameTaken(old(db.users), username) ==>
              r == CreateUsernameResponse(None, Some(UserAlreadyExists)) && unchanged(db)
    ensures SignedIn(session) && !UsernameTaken(old(db.users), username) && !HasUser(old(db.users), session.value.user.value.id) ==>
              r == CreateUsernameResponse(None, Some(RecordNotFound)) && unchanged(db)
    ensures SignedIn(session) && !UsernameTaken(old(db.users), username) && HasUser(old(db.users), session.value.user.value.id) ==>
              && r == CreateUsernameResponse(Some(true), None)
              && db.users == SetUsername(old(db.users), session.value.user.value.id, username)
  {
    if !SignedIn(session) {
      return CreateUsernameResponse(None, Some(NotAuthorizedUser));
    }
    var userId := session.value.user.value.id;
    if UsernameTaken(db.users, username) {
      return CreateUsernameResponse(None, Some(UserAlreadyExists));
    }
    var ok := db.UpdateUsername(userId, username);
    if !ok {
      return CreateUsernameResponse(None, Some(RecordNotFound));
    }
    return CreateUsernameResponse(Some(true), None);
  }

  /** After a successful `createUsername`: the caller, and no one else, carries the
      new username, so the same request by anyone is refused next time; every other
      user is unchanged; the caller's previous username is free again. */
  lemma UsernameChange(users: seq<User>, userId: Id, username: string)
    requires UsersConsistent(users)
    requires HasUser(users, userId)
    requires !UsernameTaken(users, username)
    ensures forall u :: u in SetUsername(users, userId, username) && u.username == username <==>
              u in SetUsername(users, userId, username) && u.id == userId
    ensures UsernameTaken(SetUsername(users, userId, username), username)
    ensures forall u :: u in users && u.id != userId ==> u in SetUsername(users, userId, username)
    ensures forall u :: u in users && u.id == userId ==> !UsernameTaken(SetUsername(users, userId, username), u.username)
  {
    var users' := SetUsername(users, userId, username);
    var k :| 0 <= k < |users| && users[k].id == userId;
    assert users'[k] in users';
    forall u | u in users && u.id != userId
      ensures u in users'
    {
      var i :| 0 <= i < |users| && users[i] == u;
      assert users'[i] == u;
    }
    forall u | u in users' && u.username == username
      ensures u.id == userId
    {
      var i :| 0 <= i < |users'| && users'[i] == u;
      assert users[i] in users;
    }
    forall u | u in users && u.id == userId
      ensures !UsernameTaken(users', u.username)
    {
      var j :| 0 <= j < |users| && users[j] == u;
      assert j == k;
      forall v | v in users'
        ensures v.username != u.username
      {
        var i :| 0 <= i < |users'| && users'[i] == v;
        assert users[i] in users;
      }
    }
  }
}
