/**
 * A user's chat log: the ordered sequence of turns, and the filter that
 * `deleteChat` applies to it.
 */
module ChatLog {
  import opened UserModel

  /** `chats.filter(chat => chat._id.toString() !== chatId)`. */
  function WithoutChat(chats: seq<Chat>, chatId: string): (r: seq<Chat>)
    ensures |r| <= |chats|
    ensures forall c :: c in r <==> c in chats && c.id != chatId
  {
    if chats == [] then []
    else (if chats[0].id == chatId then [] else [chats[0]]) + WithoutChat(chats[1..], chatId)
  }

  /** `sub` is `s` with some elements left out and the rest in their original order. */
  ghost predicate Subsequence(sub: seq<Chat>, s: seq<Chat>)
    decreases |s|
  {
    if sub == [] then true
    else if s == [] then false
    else (sub[0] == s[0] && Subsequence(sub[1..], s[1..])) || Subsequence(sub, s[1..])
  }

  /** Filtering keeps the surviving turns in their original relative order. */
  lemma {:induction false} WithoutChatKeepsOrder(chats: seq<Chat>, chatId: string)
    ensures Subsequence(WithoutChat(chats, chatId), chats)
  {
    if chats != [] {
      WithoutChatKeepsOrder(chats[1..], chatId);
      var rest := WithoutChat(chats[1..], chatId);
      if chats[0].id == chatId {
        assert WithoutChat(chats, chatId) == rest;
        if rest != [] {
          assert Subsequence(rest, chats[1..]);
        }
      } else {
        assert WithoutChat(chats, chatId) == [chats[0]] + rest;
        assert ([chats[0]] + rest)[1..] == rest;
      }
    }
  }

  /** The filter splits over concatenation, so each turn is kept or dropped on its own. */
  lemma {:induction false} WithoutChatAppend(a: seq<Chat>, b: seq<Chat>, chatId: string)
    ensures WithoutChat(a + b, chatId) == WithoutChat(a, chatId) + WithoutChat(b, chatId)
  {
    if a == [] {
      assert a + b == b;
    } else {
      assert (a + b)[0] == a[0];
      assert (a + b)[1..] == a[1..] + b;
      WithoutChatAppend(a[1..], b, chatId);
    }
  }

  /** An id that matches no turn leaves the log as it was. */
  lemma {:induction false} WithoutChatNoMatch(chats: seq<Chat>, chatId: string)
    requires forall i | 0 <= i < |chats| :: chats[i].id != chatId
    ensures WithoutChat(chats, chatId) == chats
  {
    if chats != [] {
      WithoutChatNoMatch(chats[1..], chatId);
      assert [chats[0]] + chats[1..] == chats;
    }
  }

  /** Deleting the same id twice is the same as deleting it once. */
  lemma {:induction false} WithoutChatIdempotent(chats: seq<Chat>, chatId: string)
    ensures WithoutChat(WithoutChat(chats, chatId), chatId) == WithoutChat(chats, chatId)
  {
    var once := WithoutChat(chats, chatId);
    forall i | 0 <= i < |once|
      ensures once[i].id != chatId
    {
      assert once[i] in once;
    }
    WithoutChatNoMatch(once, chatId);
  }

  /** How many turns of the log will be removed. */
  function CountMatching(chats: seq<Chat>, chatId: string): (n: nat)
    ensures n <= |chats|
  {
    if chats == [] then 0
    else (if chats[0].id == chatId then 1 else 0) + CountMatching(chats[1..], chatId)
  }

  /** Exactly the matching turns are removed. */
  lemma {:induction false} WithoutChatLength(chats: seq<Chat>, chatId: string)
    ensures |WithoutChat(chats, chatId)| + CountMatching(chats, chatId) == |chats|
  {
    if chats != [] {
      WithoutChatLength(chats[1..], chatId);
    }
  }
}
