/**
 * The `User` document and its embedded `Chat` turns, with the schema's
 * defaults, its required fields and the unique index on `email`.
 */
module UserModel {
  import opened Wrappers
  import opened ObjectIds

  /** One conversation turn: the user's message, the bot's reply, and when. */
  datatype Chat = Chat(id: Id, user: string, bot: string, timestamp: nat)

  /** A stored user. `passwordHash` is the schema's `password` field. */
  datatype User = User(
    username: string,
    email: string,
    passwordHash: string,
    isAdmin: bool,
    chats: seq<Chat>)

  /** The users collection: documents keyed by their `_id`. */
  type Table = map<Id, User>

  /** A new chat turn; `timestamp` defaults to the moment of creation. */
  function MakeChat(id: Id, user: string, bot: string, timestamp: Option<nat>, now: nat): Chat {
    Chat(id, user, bot, timestamp.GetOr(now))
  }

  /** Mongoose's `required` check on a string field rejects "" as well as a missing value. */
  predicate HasRequired(u: User) {
    u.username != "" && u.email != "" && u.passwordHash != ""
  }

  /**
   * `new User({...})` followed by validation: fails when a required field is
   * empty; otherwise `isAdmin` defaults to false and `chats` to none.
   */
  function NewUser(username: string, email: string, passwordHash: string, isAdmin: Option<bool>): (r: Option<User>)
    ensures r.Some? <==> username != "" && email != "" && passwordHash != ""
    ensures r.Some? ==> HasRequired(r.value)
    ensures r.Some? ==> r.value.username == username && r.value.email == email && r.value.passwordHash == passwordHash
    ensures r.Some? ==> r.value.isAdmin == (isAdmin == Some(true)) && r.value.chats == []
  {
    if username == "" || email == "" || passwordHash == "" then None
    else Some(User(username, email, passwordHash, isAdmin.GetOr(false), []))
  }

  /** The unique index on `email`: no two documents share one. */
  ghost predicate UniqueEmails(users: Table) {
    forall a, b | a in users && b in users && users[a].email == users[b].email :: a == b
  }

  /** What every stored document satisfies. */
  ghost predicate WellFormed(users: Table) {
    (forall id | id in users :: HasRequired(users[id])) && UniqueEmails(users)
  }

  /** `findOne({ email })` finds something. */
  predicate EmailTaken(users: Table, email: string) {
    exists id | id in users :: users[id].email == email
  }

  /** `findById(id)` finds something; a missing id finds nothing. */
  predicate Resolves(users: Table, id: Option<Id>) {
    id.Some? && id.value in users
  }

  /** Every stored key was drawn from the id counter before its value `next`. */
  ghost predicate KeysIssued(users: Table, next: nat) {
    forall id | id in users :: exists k: nat | k < next :: HexId(k) == id
  }

  /** Inserting under the counter's current value and advancing it keeps every key issued. */
  lemma IssueKeepsKeysIssued(users: Table, next: nat, u: User)
    requires KeysIssued(users, next)
    ensures KeysIssued(users[HexId(next) := u], next + 1)
  {
    var after := users[HexId(next) := u];
    forall id | id in after
      ensures exists k: nat | k < next + 1 :: HexId(k) == id
    {
      if id != HexId(next) {
        var k: nat :| k < next && HexId(k) == id;
        assert k < next + 1;
      }
    }
  }

  /** Inserting a valid document under a fresh key with an unused email keeps the table well formed. */
  lemma InsertKeepsWellFormed(users: Table, id: Id, u: User)
    requires WellFormed(users) && HasRequired(u)
    requires id !in users && !EmailTaken(users, u.email)
    ensures WellFormed(users[id := u])
  {
  }

  /** Replacing a document by one with the same email keeps emails unique, and keeps the table well formed when the new one has the required fields. */
  lemma ReplaceKeepsWellFormed(users: Table, id: Id, u: User)
    requires id in users && u.email == users[id].email
    ensures UniqueEmails(users) ==> UniqueEmails(users[id := u])
    ensures WellFormed(users) && HasRequired(u) ==> WellFormed(users[id := u])
  {
  }

  /** Removing documents keeps the table well formed. */
  lemma RemoveKeepsWellFormed(users: Table, id: Id)
    requires WellFormed(users)
    ensures WellFormed(users - {id})
  {
  }
}
