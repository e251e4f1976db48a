/**
 * The read-only part of the admin controller, and the names the state-changing
 * admin handlers of `Handlers.Store` use. Every admin route runs
 * `authenticate` and then `isAdmin`, so each handler requires that the
 * caller's identity passes the admin gate.
 */
module AdminController {
  import opened Wrappers
  import opened Http
  import opened ObjectIds
  import opened Libraries
  import opened UserModel
  import opened AuthMiddleware
  import ChatController

  const InvalidUserId := "Invalid user ID"
  const UserNotFound := "User not found"
  const UserDeleted := "User deleted successfully"
  const UserPromoted := "User promoted to admin"

  /** `isValidObjectId`: the id check every admin handler starts with. Ids the store hands out pass it. */
  predicate IsValidObjectId(rules: ObjectIdRules, id: string): (b: bool)
    ensures ObjectIdSound(rules) && (exists n: nat :: HexId(n) == id) ==> b
  {
    rules.isValid(id)
  }

  /** Every key of a table whose keys came from the id counter passes the admin id check. */
  lemma StoredIdsValid(rules: ObjectIdRules, users: Table, next: nat, id: Id)
    requires ObjectIdSound(rules) && KeysIssued(users, next) && id in users
    ensures IsValidObjectId(rules, id)
  {
    var k: nat :| k < next && HexId(k) == id;
  }

  /** A user as an admin sees it: every field but the password. */
  datatype UserView = UserView(id: Id, username: string, email: string, isAdmin: bool, chats: seq<Chat>)

  /** The `-password` projection. */
  function View(id: Id, u: User): UserView {
    UserView(id, u.username, u.email, u.isAdmin, u.chats)
  }

  /** The projection forgets exactly the password: two users look the same iff they differ at most in it. */
  lemma ViewForgetsOnlyPassword(id: Id, u: User, w: User)
    ensures View(id, u) == View(id, w) <==> u.(passwordHash := w.passwordHash) == w
  {
  }

  /** The body of a successful `GET /users/:id/chats`. */
  datatype UserChats = UserChats(chats: seq<Chat>, username: string, email: string)

  /** `getAllUsers`: one password-free view per stored user, keyed by id. */
  function GetAllUsers(users: Table, caller: Identity): (r: Reply<map<Id, UserView>>)
    requires IsAdmin(Some(caller)).Pass?
    ensures r.status == StatusOk && r.body.Some?
    ensures r.body.value.Keys == users.Keys
    ensures forall id | id in r.body.value ::
      var v, u := r.body.value[id], users[id];
      v.id == id && v.username == u.username && v.email == u.email && v.isAdmin == u.isAdmin && v.chats == u.chats
  {
    Reply(StatusOk, "", Some(map id | id in users :: View(id, users[id])))
  }

  /** `getUserChats` for an admin: the target's turns, username and email. */
  function GetUserChats(rules: ObjectIdRules, users: Table, caller: Identity, id: string): (r: Reply<UserChats>)
    requires IsAdmin(Some(caller)).Pass?
    ensures !IsValidObjectId(rules, id) ==> r == Reply(StatusBadRequest, InvalidUserId, None)
    ensures IsValidObjectId(rules, id) && id !in users ==> r == Reply(StatusNotFound, UserNotFound, None)
    ensures r.status == StatusOk <==> IsValidObjectId(rules, id) && id in users
    ensures r.status == StatusOk ==>
      r.body == Some(UserChats(users[id].chats, users[id].username, users[id].email))
  {
    if !IsValidObjectId(rules, id) then Reply(StatusBadRequest, InvalidUserId, None)
    else if id !in users then Reply(StatusNotFound, UserNotFound, None)
    else Reply(StatusOk, "", Some(UserChats(users[id].chats, users[id].username, users[id].email)))
  }

  /** What an admin reads of a user's chats is what that user reads of their own. */
  lemma AdminSeesOwnChats(rules: ObjectIdRules, users: Table, next: nat, admin: Identity, owner: Identity)
    requires IsAdmin(Some(admin)).Pass?
    requires ObjectIdSound(rules) && KeysIssued(users, next) && Resolves(users, owner.id)
    ensures GetUserChats(rules, users, admin, owner.id.value).status == StatusOk
    ensures GetUserChats(rules, users, admin, owner.id.value).body.value.chats
         == ChatController.GetUserChats(users, owner).body.value.chats
  {
    StoredIdsValid(rules, users, next, owner.id.value);
  }

  /** The row an admin promotion writes: the target's `isAdmin` set, everything else as it was. */
  function Promoted(users: Table, id: Id): (r: Table)
    requires id in users
    ensures r.Keys == users.Keys
    ensures r[id].isAdmin
    ensures View(id, r[id]).(isAdmin := false) == View(id, users[id]).(isAdmin := false)
    ensures r[id].passwordHash == users[id].passwordHash
    ensures forall other | other in users && other != id :: r[other] == users[other]
    ensures UniqueEmails(users) ==> UniqueEmails(r)
    ensures WellFormed(users) ==> WellFormed(r)
  {
    ReplaceKeepsWellFormed(users, id, users[id].(isAdmin := true));
    users[id := users[id].(isAdmin := true)]
  }

  /** Promoting twice is promoting once. */
  lemma PromoteIdempotent(users: Table, id: Id)
    requires id in users
    ensures Promoted(Promoted(users, id), id) == Promoted(users, id)
  {
  }
}
