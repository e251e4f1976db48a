/**
 * The read-only part of the chat controller, and the names the state-changing
 * chat handlers of `Handlers.Store` use. Every chat route runs `authenticate`
 * first, so each handler is given the identity it established.
 */
module ChatController {
  import opened Wrappers
  import opened Http
  import opened UserModel
  import opened AuthMiddleware

  const MissingText := "User message and bot reply are required"
  const UserNotFound := "User not found"
  const ChatSaved := "Chat saved successfully"
  const ChatDeleted := "Chat deleted successfully"

  /** The body of a successful `GET /chats`: the `select('chats username')` projection. */
  datatype ChatList = ChatList(username: string, chats: seq<Chat>)

  /** `getUserChats`: the caller's own username and turns, in stored order. */
  function GetUserChats(users: Table, caller: Identity): (r: Reply<ChatList>)
    ensures r.status == StatusOk <==> Resolves(users, caller.id)
    ensures !Resolves(users, caller.id) ==> r == Reply(StatusNotFound, UserNotFound, None)
    ensures Resolves(users, caller.id) ==>
      r.body.Some? && r.body.value.username == users[caller.id.value].username
      && r.body.value.chats == users[caller.id.value].chats
  {
    if !Resolves(users, caller.id) then Reply(StatusNotFound, UserNotFound, None)
    else
      var u := users[caller.id.value];
      Reply(StatusOk, "", Some(ChatList(u.username, u.chats)))
  }

  /** A turn appended by `saveChat` is listed last, its texts as given, after the earlier turns unchanged. */
  lemma SaveThenList(users: Table, caller: Identity, turn: Chat)
    requires Resolves(users, caller.id)
    ensures var id := caller.id.value;
      var after := users[id := users[id].(chats := users[id].chats + [turn])];
      var listed := GetUserChats(after, caller).body.value.chats;
      && GetUserChats(after, caller).status == StatusOk
      && |listed| == |users[id].chats| + 1
      && listed[|listed| - 1] == turn
      && listed[..|listed| - 1] == users[id].chats
  {
  }
}
