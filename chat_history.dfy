/**
 * The browser-side chat history: `ChatStorage` keeps every conversation as
 * one JSON array under a single local-storage key, at most MaxChats of them,
 * and derives a display title from a conversation's first user turn.
 *
 * The key's contents are the field `stored` of a ChatStorage object: None
 * while nothing was ever written, otherwise the array of chats last written.
 */
module ChatHistory {
  import opened Wrappers

  const MaxChats := 300
  const TitleLength := 50
  const Placeholder := "Chat mới"

  datatype Turn = Turn(role: string, content: string)

  datatype Chat = Chat(id: string, title: string, messages: seq<Turn>, model: string, timestamp: int)

  /** No two chats share an id. */
  predicate UniqueIds(cs: seq<Chat>)
  {
    forall i, j :: 0 <= i < j < |cs| ==> cs[i].id != cs[j].id
  }

  /** `chats.findIndex(c => c.id === id)`: the first position holding `id`, or -1. */
  function FirstIndex(cs: seq<Chat>, id: string): (r: int)
    ensures -1 <= r < |cs|
    ensures r == -1 <==> forall k :: 0 <= k < |cs| ==> cs[k].id != id
    ensures r >= 0 ==> cs[r].id == id && forall k :: 0 <= k < r ==> cs[k].id != id
  {
    if cs == [] then -1
    else if cs[0].id == id then 0
    else
      var r := FirstIndex(cs[1..], id);
      if r == -1 then -1 else r + 1
  }

  /** `chats.find(c => c.id === id)`: the first chat with that id. */
  function Find(cs: seq<Chat>, id: string): (r: Option<Chat>)
  {
    var i := FirstIndex(cs, id);
    if i == -1 then None else Some(cs[i])
  }

  /** What `find` promises: a chat of the list with the id, the first one;
      nothing exactly when no chat has the id. */
  lemma FindFirst(cs: seq<Chat>, id: string)
    ensures Find(cs, id).Some? ==> Find(cs, id).value in cs && Find(cs, id).value.id == id
    ensures Find(cs, id).None? <==> forall c :: c in cs ==> c.id != id
    ensures forall k :: 0 <= k < |cs| && cs[k].id == id ==> Find(cs, id) == Some(cs[FirstIndex(cs, id)])
  {
    if Find(cs, id).None? {
      forall c | c in cs ensures c.id != id {
        var k :| 0 <= k < |cs| && cs[k] == c;
      }
    }
  }

  /** A position holding the id with no earlier one is the first index. */
  lemma FirstIndexAt(cs: seq<Chat>, id: string, i: nat)
    requires i < |cs| && cs[i].id == id
    requires forall k :: 0 <= k < i ==> cs[k].id != id
    ensures FirstIndex(cs, id) == i
  {
  }

  /** `find` on a list with a known first element. */
  lemma FindCons(c: Chat, rest: seq<Chat>, id: string)
    ensures Find([c] + rest, id) == if c.id == id then Some(c) else Find(rest, id)
  {
    assert ([c] + rest)[1..] == rest;
  }

  /** The eviction step of `saveChat`: a store holding MaxChats or more keeps
      only its newest MaxChats - 1 entries. */
  function Evict(cs: seq<Chat>): (r: seq<Chat>)
    ensures |r| < MaxChats && |r| <= |cs|
    ensures r == cs[|cs| - |r|..]
    ensures |cs| < MaxChats ==> r == cs
    ensures |cs| >= MaxChats ==> |r| == MaxChats - 1
  {
    if |cs| >= MaxChats then cs[|cs| - (MaxChats - 1)..] else cs
  }

  /** Replace the first chat with the same id, or append. */
  function Upsert(cs: seq<Chat>, chat: Chat): (r: seq<Chat>)
  {
    var i := FirstIndex(cs, chat.id);
    if i >= 0 then cs[i := chat] else cs + [chat]
  }

  /** Upsert adds a slot exactly when the id is new, puts the chat at the
      first position holding its id, and leaves every other position alone,
      later chats with the same id included. */
  lemma UpsertShape(cs: seq<Chat>, chat: Chat)
    ensures Find(cs, chat.id).Some? ==> |Upsert(cs, chat)| == |cs|
    ensures Find(cs, chat.id).None? ==> |Upsert(cs, chat)| == |cs| + 1 && Upsert(cs, chat)[..|cs|] == cs
    ensures forall k :: 0 <= k < |cs| && cs[k].id != chat.id ==> Upsert(cs, chat)[k] == cs[k]
    ensures forall k :: 0 <= k < |cs| && k != FirstIndex(cs, chat.id) ==> Upsert(cs, chat)[k] == cs[k]
    ensures FirstIndex(cs, chat.id) >= 0 ==> Upsert(cs, chat)[FirstIndex(cs, chat.id)] == chat
  {
  }

  /** After an upsert, looking the id up gives the saved chat... */
  lemma FindAfterUpsert(cs: seq<Chat>, chat: Chat)
    ensures Find(Upsert(cs, chat), chat.id) == Some(chat)
  {
    var i := FirstIndex(cs, chat.id);
    var r := Upsert(cs, chat);
    if i == -1 {
      assert r[|cs|] == chat;
      assert FirstIndex(r, chat.id) == |cs|;
    } else {
      assert forall k :: 0 <= k < i ==> r[k] == cs[k];
      FirstIndexAt(r, chat.id, i);
    }
  }

  /** ... and looking up any other id gives what it gave before. */
  lemma FindOtherAfterUpsert(cs: seq<Chat>, chat: Chat, id: string)
    requires id != chat.id
    ensures Find(Upsert(cs, chat), id) == Find(cs, id)
  {
    var r := Upsert(cs, chat);
    var i := FirstIndex(cs, id);
    var j := FirstIndex(r, id);
    if i == -1 {
      assert forall k :: 0 <= k < |r| ==> r[k].id != id by {
        forall k | 0 <= k < |r| ensures r[k].id != id {
          if k < |cs| && r[k] != chat { assert r[k] == cs[k]; }
        }
      }
    } else {
      assert r[i] == cs[i];
      assert forall k :: 0 <= k < i ==> r[k].id != id by {
        forall k | 0 <= k < i ensures r[k].id != id {
          if r[k] != chat { assert r[k] == cs[k]; }
        }
      }
      assert j == i;
    }
  }

  /** Saving keeps the ids unique. */
  lemma UpsertKeepsUnique(cs: seq<Chat>, chat: Chat)
    requires UniqueIds(cs)
    ensures UniqueIds(Upsert(cs, chat))
  {
  }

  /** `chats.filter(c => c.id !== id)`. */
  function Without(cs: seq<Chat>, id: string): (r: seq<Chat>)
    ensures |r| <= |cs|
    ensures forall c :: c in r ==> c in cs && c.id != id
  {
    if cs == [] then []
    else if cs[0].id == id then Without(cs[1..], id)
    else [cs[0]] + Without(cs[1..], id)
  }

  /** Filtering removes exactly the chats with the id: every other chat stays,
      and nothing changes when the id is absent (WithoutAppend states that the
      kept chats also keep their order). */
  lemma {:induction false} WithoutKeepsOthers(cs: seq<Chat>, id: string)
    ensures forall c :: c in cs && c.id != id ==> c in Without(cs, id)
    ensures (forall c :: c in cs ==> c.id != id) ==> Without(cs, id) == cs
    ensures |Without(cs, id)| == |cs| ==> Without(cs, id) == cs
    decreases |cs|
  {
    if cs != [] {
      WithoutKeepsOthers(cs[1..], id);
      assert forall c :: c in cs ==> c == cs[0] || c in cs[1..];
    }
  }

  /** Filtering a single chat keeps it exactly when its id differs. */
  lemma WithoutSingle(c: Chat, id: string)
    ensures Without([c], id) == if c.id == id then [] else [c]
  {
    assert [c][1..] == [];
  }

  /** Filtering distributes over concatenation; with WithoutSingle this pins
      Without down as `filter`: the kept chats stay in their order, each
      exactly as often as it was stored. */
  lemma {:induction false} WithoutAppend(x: seq<Chat>, y: seq<Chat>, id: string)
    ensures Without(x + y, id) == Without(x, id) + Without(y, id)
    decreases |x|
  {
    if x != [] {
      assert (x + y)[0] == x[0];
      assert (x + y)[1..] == x[1..] + y;
      WithoutAppend(x[1..], y, id);
    } else {
      assert x + y == y;
    }
  }

  /** After a delete the id is gone and every other lookup is unchanged. */
  lemma {:induction false} FindAfterWithout(cs: seq<Chat>, id: string, other: string)
    ensures Find(Without(cs, id), id).None?
    ensures other != id ==> Find(Without(cs, id), other) == Find(cs, other)
    decreases |cs|
  {
    if cs != [] {
      var rest := cs[1..];
      assert cs == [cs[0]] + rest;
      FindAfterWithout(rest, id, other);
      FindCons(cs[0], rest, id);
      FindCons(cs[0], rest, other);
      if cs[0].id != id {
        FindCons(cs[0], Without(rest, id), id);
        FindCons(cs[0], Without(rest, id), other);
      }
    }
  }

  /** Deleting keeps the ids unique. */
  lemma {:induction false} WithoutKeepsUnique(cs: seq<Chat>, id: string)
    requires UniqueIds(cs)
    ensures UniqueIds(Without(cs, id))
    decreases |cs|
  {
    if cs != [] {
      WithoutKeepsUnique(cs[1..], id);
      var r := Without(cs, id);
      if cs[0].id != id {
        forall j | 0 < j < |r| ensures r[0].id != r[j].id {
          assert r[j] in Without(cs[1..], id);
          assert r[j] in cs[1..];
        }
      }
    }
  }

  /** The turn whose content becomes the title: the first with role `user`. */
  function FirstUser(messages: seq<Turn>): (r: Option<Turn>)
    ensures r.Some? ==> r.value in messages && r.value.role == "user"
    ensures r.Some? ==> exists k :: 0 <= k < |messages| && messages[k] == r.value &&
                          forall j :: 0 <= j < k ==> messages[j].role != "user"
    ensures r.None? <==> forall k :: 0 <= k < |messages| ==> messages[k].role != "user"
  {
    if messages == [] then None
    else if messages[0].role == "user" then Some(messages[0])
    else FirstUser(messages[1..])
  }

  class ChatStorage {
    /** The chats stored under the history key; None while nothing was stored. */
    var stored: Option<seq<Chat>>

    /** A browser that has never stored a chat. */
    constructor()
      ensures stored == None
    {
      stored := None;
    }

    /** `getAllChats()`: the stored array, or an empty one when nothing was
        stored yet. */
    function GetAllChats(): (r: seq<Chat>)
      reads this
      ensures stored.None? ==> r == []
      ensures stored.Some? ==> r == stored.value
    {
      if stored.None? then [] else stored.value
    }

    /** `getChat(id)`: the first stored chat with that id. */
    function GetChat(id: string): (r: Option<Chat>)
      reads this
      ensures r.Some? ==> r.value in GetAllChats() && r.value.id == id
      ensures r.None? <==> forall c :: c in GetAllChats() ==> c.id != id
    {
      FindFirst(GetAllChats(), id);
      Find(GetAllChats(), id)
    }

    /** `saveChat(chat)`: evict down to MaxChats - 1 entries when the store is
        full, then replace the chat with the same id or append it, and write
        the array back. The eviction happens before the lookup, so it also
        happens when the chat replaces an existing one. */
    method SaveChat(chat: Chat) returns (saved: Chat)
      modifies this
      ensures saved == chat
      ensures stored == Some(Upsert(Evict(old(GetAllChats())), chat))
      ensures |GetAllChats()| <= MaxChats
      ensures GetChat(chat.id) == Some(chat)
    {
      var chats := GetAllChats();
      if |chats| >= MaxChats {
        chats := chats[|chats| - (MaxChats - 1)..];
      }
      ghost var evicted := chats;
      assert evicted == Evict(old(GetAllChats()));
      var idx := FirstIndex(chats, chat.id);
      if idx >= 0 {
        chats := chats[idx := chat];
      } else {
        chats := chats + [chat];
      }
      assert chats == Upsert(evicted, chat);
      UpsertShape(evicted, chat);
      FindAfterUpsert(evicted, chat);
      stored := Some(chats);
      return chat;
    }

    /** `deleteChat(id)`: write back the array without the chats with that id. */
    method DeleteChat(id: string)
      modifies this
      ensures stored == Some(Without(old(GetAllChats()), id))
      ensures GetChat(id).None?
      ensures forall other :: other != id ==> GetChat(other) == old(GetChat(other))
    {
      stored := Some(Without(GetAllChats(), id));
      FindAfterWithout(old(GetAllChats()), id, id);
      forall other | other != id
        ensures GetChat(other) == old(GetChat(other))
      {
        FindAfterWithout(old(GetAllChats()), id, other);
      }
    }

    /** `getChatTitle(messages)`: the content of the first user turn, cut to
        TitleLength characters with `...` appended when it was longer; the
        placeholder when there is no message or no user turn. */
    static function GetChatTitle(messages: Option<seq<Turn>>): (t: string)
      ensures messages.None? || FirstUser(messages.value).None? ==> t == Placeholder
      ensures messages.Some? && FirstUser(messages.value).Some? ==>
                var c := FirstUser(messages.value).value.content;
                && (|c| <= TitleLength ==> t == c)
                && (|c| > TitleLength ==> t == c[..TitleLength] + "...")
    {
      if messages.None? || |messages.value| == 0 then Placeholder
      else
        var first := FirstUser(messages.value);
        if first.None? then Placeholder
        else
          var c := first.value.content;
          var cut := if |c| <= TitleLength then c else c[..TitleLength];
          if |c| > TitleLength then cut + "..." else cut
    }
  }

  /** A saved store never holds more than MaxChats chats and keeps its ids
      unique. */
  lemma SaveBoundAndUnique(cs: seq<Chat>, chat: Chat)
    requires UniqueIds(cs)
    ensures |Upsert(Evict(cs), chat)| <= MaxChats
    ensures UniqueIds(Upsert(Evict(cs), chat))
  {
    UpsertShape(Evict(cs), chat);
    UpsertKeepsUnique(Evict(cs), chat);
  }

  /** Saving a new chat into a full store drops exactly the oldest chat and
      appends the new one at the end. */
  lemma SaveIntoFullStore(cs: seq<Chat>, chat: Chat)
    requires |cs| == MaxChats && Find(cs, chat.id).None?
    ensures Upsert(Evict(cs), chat) == cs[1..] + [chat]
  {
    FindFirst(cs, chat.id);
    assert Find(Evict(cs), chat.id).None?;
  }

  /** Saving an existing chat into a full store also drops the oldest chat,
      unless it is that chat: the store shrinks to MaxChats - 1 entries. */
  lemma UpdateInFullStore(cs: seq<Chat>, chat: Chat)
    requires |cs| == MaxChats && UniqueIds(cs)
    requires exists k :: 1 <= k < |cs| && cs[k].id == chat.id
    ensures |Upsert(Evict(cs), chat)| == MaxChats - 1
    ensures cs[0] !in Upsert(Evict(cs), chat)
  {
    var k :| 1 <= k < |cs| && cs[k].id == chat.id;
    var e := Evict(cs);
    assert e[k - 1] == cs[k];
    var r := Upsert(e, chat);
    assert cs[0] !in e by {
      forall j | 0 <= j < |e| ensures e[j] != cs[0] {
        assert e[j] == cs[j + 1];
      }
    }
    assert cs[0].id != chat.id;
  }

  /** The title is never longer than TitleLength characters plus the marker,
      and it starts with the content it was cut from. */
  lemma TitleBounds(messages: seq<Turn>)
    requires FirstUser(messages).Some?
    ensures var c := FirstUser(messages).value.content;
      var t := ChatStorage.GetChatTitle(Some(messages));
      && |t| <= TitleLength + 3
      && (|t| > TitleLength <==> |c| > TitleLength)
      && (|c| <= TitleLength ==> t == c)
      && t[..if |c| <= TitleLength then |c| else TitleLength] == c[..if |c| <= TitleLength then |c| else TitleLength]
  {
  }
}
