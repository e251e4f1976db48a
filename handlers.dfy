/**
 * The users collection and the handlers that change it. `Store` owns the
 * table and the supply of fresh object ids; each handler returns the reply
 * the controller sends and changes the table as the controller's database
 * calls do. The read-only handlers are the functions of ChatController,
 * AdminController and AuthController applied to `users`.
 */
module Handlers {
  import opened Wrappers
  import opened Http
  import opened ObjectIds
  import opened Libraries
  import opened UserModel
  import opened ChatLog
  import opened AuthMiddleware
  import ChatController
  import AdminController
  import AuthController

  class Store {
    var users: Table
    /** The next value of the id counter; ids from it on have never been handed out. */
    var nextSerial: nat

    ghost predicate Valid()
      reads this
    {
      && WellFormed(users)
      && KeysIssued(users, nextSerial)
      && (forall k: nat | nextSerial <= k :: HexId(k) !in users)
    }

    constructor ()
      ensures Valid() && users == map[] && nextSerial == 0
    {
      users := map[];
      nextSerial := 0;
    }

    /** Hands out a never-used id, as Mongoose does when it creates a document or subdocument. */
    method FreshId() returns (id: Id)
      requires Valid()
      modifies this`nextSerial
      ensures Valid()
      ensures id == HexId(old(nextSerial)) && id !in users && nextSerial == old(nextSerial) + 1
    {
      id := HexId(nextSerial);
      nextSerial := nextSerial + 1;
    }

    /**
     * `register`: a taken email is refused before anything else; otherwise the
     * password is hashed and a new document with a fresh id is validated and
     * inserted.
     */
    method Register(username: string, email: string, password: string, salt: string, bcrypt: Bcrypt)
      returns (r: Reply<()>)
      requires Valid()
      modifies this
      ensures Valid()
      ensures EmailTaken(old(users), email) ==>
        r == Reply(StatusBadRequest, AuthController.EmailRegistered, None) && unchanged(this)
      ensures !EmailTaken(old(users), email) ==>
        var newId := HexId(old(nextSerial));
        var created := NewUser(username, email, bcrypt.hash(password, AuthController.SaltRounds, salt), None);
        && newId !in old(users)
        && nextSerial == old(nextSerial) + 1
        && (created.None? ==> r == Reply(StatusServerError, AuthController.ServerError, None) && users == old(users))
        && (created.Some? ==>
              r == Reply(StatusCreated, AuthController.UserRegistered, None) && users == old(users)[newId := created.value])
      ensures !EmailTaken(old(users), email) && BcryptSound(bcrypt) && username != "" && email != "" ==>
        r.status == StatusCreated && |users| == |old(users)| + 1
    {
      var existing := AuthController.FindByEmail(users, email);
      if existing.Some? {
        return Reply(StatusBadRequest, AuthController.EmailRegistered, None);
      }
      var hashed := bcrypt.hash(password, AuthController.SaltRounds, salt);
      var id := FreshId();
      var created := NewUser(username, email, hashed, None);
      if created.None? {
        return Reply(StatusServerError, AuthController.ServerError, None);
      }
      InsertKeepsWellFormed(users, id, created.value);
      IssueKeepsKeysIssued(users, nextSerial - 1, created.value);
      FreshAfterInsert(users, nextSerial - 1, created.value);
      users := users[id := created.value];
      r := Reply(StatusCreated, AuthController.UserRegistered, None);
    }

    /**
     * `saveChat`: both texts must be present and non-empty, and the caller
     * must still exist; then one turn with a fresh id is appended to the
     * caller's log and its id is returned. No other user is touched.
     */
    method SaveChat(caller: Identity, userMessage: Option<string>, botReply: Option<string>, now: nat)
      returns (r: Reply<Id>)
      requires Valid()
      modifies this
      ensures Valid()
      ensures !(Truthy(userMessage) && Truthy(botReply)) ==>
        r == Reply(StatusBadRequest, ChatController.MissingText, None) && unchanged(this)
      ensures Truthy(userMessage) && Truthy(botReply) && !Resolves(old(users), caller.id) ==>
        r == Reply(StatusNotFound, ChatController.UserNotFound, None) && unchanged(this)
      ensures Truthy(userMessage) && Truthy(botReply) && Resolves(old(users), caller.id) ==>
        var id := caller.id.value;
        var turn := MakeChat(HexId(old(nextSerial)), userMessage.value, botReply.value, Some(now), now);
        && users == old(users)[id := old(users)[id].(chats := old(users)[id].chats + [turn])]
        && nextSerial == old(nextSerial) + 1
        && r == Reply(StatusOk, ChatController.ChatSaved, Some(turn.id))
        && turn.id == users[id].chats[|users[id].chats| - 1].id
    {
      if !Truthy(userMessage) || !Truthy(botReply) {
        return Reply(StatusBadRequest, ChatController.MissingText, None);
      }
      if !Resolves(users, caller.id) {
        return Reply(StatusNotFound, ChatController.UserNotFound, None);
      }
      var id := caller.id.value;
      var user := users[id];
      var chatId := FreshId();
      var chats := user.chats + [MakeChat(chatId, userMessage.value, botReply.value, Some(now), now)];
      ReplaceKeepsWellFormed(users, id, user.(chats := chats));
      users := users[id := user.(chats := chats)];
      r := Reply(StatusOk, ChatController.ChatSaved, Some(chats[|chats| - 1].id));
    }

    /**
     * `deleteChat`: the caller's log loses every turn with the given id and
     * keeps the rest in order; an id that matches nothing still succeeds.
     */
    method DeleteChat(caller: Identity, chatId: string) returns (r: Reply<()>)
      requires Valid()
      modifies this
      ensures Valid() && nextSerial == old(nextSerial)
      ensures !Resolves(old(users), caller.id) ==>
        r == Reply(StatusNotFound, ChatController.UserNotFound, None) && users == old(users)
      ensures Resolves(old(users), caller.id) ==>
        var id := caller.id.value;
        && users == old(users)[id := old(users)[id].(chats := WithoutChat(old(users)[id].chats, chatId))]
        && r == Reply(StatusOk, ChatController.ChatDeleted, None)
      ensures Resolves(old(users), caller.id) ==>
        var before := old(users)[caller.id.value].chats;
        (forall i | 0 <= i < |before| :: before[i].id != chatId) ==> users == old(users)
    {
      if !Resolves(users, caller.id) {
        return Reply(StatusNotFound, ChatController.UserNotFound, None);
      }
      var id := caller.id.value;
      var user := users[id];
      if forall i | 0 <= i < |user.chats| :: user.chats[i].id != chatId {
        WithoutChatNoMatch(user.chats, chatId);
        assert user.(chats := WithoutChat(user.chats, chatId)) == user;
      }
      ReplaceKeepsWellFormed(users, id, user.(chats := WithoutChat(user.chats, chatId)));
      users := users[id := user.(chats := WithoutChat(user.chats, chatId))];
      r := Reply(StatusOk, ChatController.ChatDeleted, None);
    }

    /** `deleteUser`: removes exactly the target document, its chats with it. */
    method DeleteUser(caller: Identity, rules: ObjectIdRules, id: string) returns (r: Reply<()>)
      requires Valid()
      requires IsAdmin(Some(caller)).Pass?
      modifies this
      ensures Valid() && nextSerial == old(nextSerial)
      ensures !AdminController.IsValidObjectId(rules, id) ==>
        r == Reply(StatusBadRequest, AdminController.InvalidUserId, None) && users == old(users)
      ensures AdminController.IsValidObjectId(rules, id) && id !in old(users) ==>
        r == Reply(StatusNotFound, AdminController.UserNotFound, None) && users == old(users)
      ensures AdminController.IsValidObjectId(rules, id) && id in old(users) ==>
        r == Reply(StatusOk, AdminController.UserDeleted, None) && users == old(users) - {id}
      ensures ObjectIdSound(rules) && id in old(users) ==> r.status == StatusOk
    {
      if ObjectIdSound(rules) && id in users {
        AdminController.StoredIdsValid(rules, users, nextSerial, id);
      }
      if !AdminController.IsValidObjectId(rules, id) {
        return Reply(StatusBadRequest, AdminController.InvalidUserId, None);
      }
      if id !in users {
        return Reply(StatusNotFound, AdminController.UserNotFound, None);
      }
      RemoveKeepsWellFormed(users, id);
      users := users - {id};
      r := Reply(StatusOk, AdminController.UserDeleted, None);
    }

    /** `promoteToAdmin`: sets the target's `isAdmin` and answers with the updated user, password excluded. */
    method PromoteToAdmin(caller: Identity, rules: ObjectIdRules, id: string)
      returns (r: Reply<AdminController.UserView>)
      requires Valid()
      requires IsAdmin(Some(caller)).Pass?
      modifies this
      ensures Valid() && nextSerial == old(nextSerial)
      ensures !AdminController.IsValidObjectId(rules, id) ==>
        r == Reply(StatusBadRequest, AdminController.InvalidUserId, None) && users == old(users)
      ensures AdminController.IsValidObjectId(rules, id) && id !in old(users) ==>
        r == Reply(StatusNotFound, AdminController.UserNotFound, None) && users == old(users)
      ensures AdminController.IsValidObjectId(rules, id) && id in old(users) ==>
        && users == AdminController.Promoted(old(users), id)
        && r == Reply(StatusOk, AdminController.UserPromoted, Some(AdminController.View(id, users[id])))
      ensures ObjectIdSound(rules) && id in old(users) ==> r.status == StatusOk
    {
      if ObjectIdSound(rules) && id in users {
        AdminController.StoredIdsValid(rules, users, nextSerial, id);
      }
      if !AdminController.IsValidObjectId(rules, id) {
        return Reply(StatusBadRequest, AdminController.InvalidUserId, None);
      }
      if id !in users {
        return Reply(StatusNotFound, AdminController.UserNotFound, None);
      }
      users := AdminController.Promoted(users, id);
      r := Reply(StatusOk, AdminController.UserPromoted, Some(AdminController.View(id, users[id])));
    }
  }

  /** Inserting under the id counter value `n` leaves every later counter value unused. */
  lemma FreshAfterInsert(users: Table, n: nat, u: User)
    requires forall k: nat | n <= k :: HexId(k) !in users
    ensures forall k: nat | n + 1 <= k :: HexId(k) !in users[HexId(n) := u]
  {
    forall k: nat | n + 1 <= k
      ensures HexId(k) != HexId(n)
    {
      if HexId(k) == HexId(n) {
        HexIdInjective(k, n);
      }
    }
  }
}
