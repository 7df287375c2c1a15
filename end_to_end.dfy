/** What the server and the browser client promise each other: the room
    names the server builds are read back by the client, a broadcast line
    parses back into its author and text, and the delete button the client
    shows is one the server honours. */
module EndToEnd {
  import opened Common
  import opened Text
  import ChatServer
  import ChatClient

  /** In a private room both participants see the other as the peer. */
  lemma PrivateRoomSeenByBoth(a: string, b: string)
    requires a != b && a != "" && b != "" && '_' !in a && '_' !in b
    ensures var room := ChatServer.PrivateRoomName(a, b);
      && ChatClient.Classify(room) == ChatClient.Private
      && ChatClient.PeerOf(room, a) == b
      && ChatClient.PeerOf(room, b) == a
  {
    var room := ChatServer.PrivateRoomName(a, b);
    ChatServer.PrivateRoomNameParts(a, b);
    assert ChatClient.RoomParts(room) == ChatServer.SortedPair(a, b);
    PeerOfTwo(room, a, b);
  }

  /** The peer in a room of two different, nonempty parts. */
  lemma PeerOfTwo(room: string, a: string, b: string)
    requires StartsWith(room, PrivatePrefix)
    requires a != b && a != "" && b != ""
    requires ChatClient.RoomParts(room) == [a, b] || ChatClient.RoomParts(room) == [b, a]
    ensures ChatClient.PeerOf(room, a) == b && ChatClient.PeerOf(room, b) == a
  {
    var parts := ChatClient.RoomParts(room);
    assert parts[1..] == [parts[1]];
  }

  /** The first occurrence of `c` in `a + [c] + b` is right after `a` when
      `a` has none. */
  lemma IndexOfAfter(a: string, c: char, b: string)
    requires c !in a
    ensures IndexOf(a + [c] + b, c) == |a|
  {
    var s := a + [c] + b;
    assert s[|a|] == c;
    assert s[..|a|] == a;
  }

  /** A leading space is lost when an already stripped text is stripped. */
  lemma StripAfterSpace(t: string)
    requires Strip(t) == t
    ensures Strip(" " + t) == t
  {
    assert (" " + t)[1..] == t;
    assert TrimStart(" " + t) == TrimStart(t);
  }

  /** The line `on_message` broadcasts, `nick: text` with the stripped
      text, is parsed by the client into the same author and text, unless
      the nickname holds a colon. */
  lemma BroadcastParsesBack(nick: string, text: string)
    requires nick != "" && ':' !in nick
    ensures ChatClient.ParsePush(nick + ": " + Strip(text)) == Some(ChatClient.Push(nick, Strip(text)))
  {
    var msg := nick + ": " + Strip(text);
    assert msg == nick + [':'] + (" " + Strip(text));
    IndexOfAfter(nick, ':', " " + Strip(text));
    assert msg[..|nick|] == nick;
    assert msg[|nick| + 1..] == " " + Strip(text);
    StripIdempotent(text);
    StripAfterSpace(Strip(text));
  }

  /** A nickname with a colon is read back as a different author (or the
      line is dropped). */
  lemma BroadcastWithColonNick(nick: string, text: string)
    requires ':' in nick
    ensures ChatClient.ParsePush(nick + ": " + text) != Some(ChatClient.Push(nick, text))
  {
    var msg := nick + ": " + text;
    var k := IndexOf(nick, ':');
    var i := IndexOf(msg, ':');
    assert msg[k] == ':';
    assert msg[..|nick|] == nick;
    assert msg[..i] == nick[..k];
  }

  /** What the client sends (its stripped input) reaches the room's other
      members unchanged: `on_message` stores and broadcasts it without
      further change, and their clients parse back the sender and text. */
  lemma SentMessageArrives(nick: string, input: string)
    requires nick != "" && ':' !in nick
    ensures ChatClient.ParsePush(nick + ": " + Strip(Strip(input))) == Some(ChatClient.Push(nick, Strip(input)))
  {
    StripIdempotent(input);
    BroadcastParsesBack(nick, Strip(input));
  }

  /** The list `get_messages` sends `caller` for a room they may read: the
      stored messages without those `caller` hid. The client shows it, and
      a message's delete button carries its position in this list. */
  function Displayed(messages: map<string, seq<ChatServer.Message>>, hidden: map<string, map<string, seq<int>>>,
                     caller: string, room: string): seq<ChatServer.Message>
  {
    ChatServer.PopEach(ChatServer.MessagesIn(messages, room),
                       ChatServer.SortedDescending(ChatServer.HiddenFor(hidden, caller, room)))
  }

  /** With nothing hidden the client shows the stored list itself. */
  lemma DisplayedWithoutHidden(messages: map<string, seq<ChatServer.Message>>, hidden: map<string, map<string, seq<int>>>,
                               caller: string, room: string)
    requires ChatServer.HiddenFor(hidden, caller, room) == []
    ensures Displayed(messages, hidden, caller, room) == ChatServer.MessagesIn(messages, room)
  {
    var order := ChatServer.SortedDescending([]);
    assert |order| == |multiset(order)| == 0;
  }

  /** As written, while `caller` has hidden nothing in the room, every delete
      button the client shows asks for the deletion for everyone (no type is
      sent, so the server takes `all`) of the message shown there, another
      user's, which the server refuses to anyone but the admin. */
  lemma DeleteButtonAsWrittenRefused(messages: map<string, seq<ChatServer.Message>>, hidden: map<string, map<string, seq<int>>>,
                                     caller: string, room: string, index: int)
    requires caller != ChatServer.Admin
    requires ChatServer.HiddenFor(hidden, caller, room) == []
    requires 0 <= index < |Displayed(messages, hidden, caller, room)|
    requires ChatClient.ShowDeleteButtonAsWritten(room, Displayed(messages, hidden, caller, room)[index].nick == caller, index)
    ensures ChatServer.DeleteMode(None) == "all"
    ensures room in messages && index < |messages[room]|
    ensures messages[room][index] == Displayed(messages, hidden, caller, room)[index]
    ensures !ChatServer.MayDeleteForAll(caller, room, messages[room][index])
  {
    DisplayedWithoutHidden(messages, hidden, caller, room);
  }

  /** A concrete refused click: `bob` in room `team` deletes `alice`'s message. */
  lemma DeleteButtonAsWrittenExample()
    ensures var m := ChatServer.Message("alice", "hi", 0);
      && ChatClient.ShowDeleteButtonAsWritten("team", m.nick == "bob", 0)
      && !ChatServer.MayDeleteForAll("bob", "team", m)
  {
  }

  /** As written, a delete button carries the displayed position, but
      `delete_message` indexes the stored list. Once `bob` has hidden his own
      first message in `team`, the button on `alice`'s message, the only one
      shown, deletes `bob`'s hidden message instead, and the server grants it. */
  lemma DeleteButtonHitsHiddenMessage()
    ensures var mine := ChatServer.Message("bob", "mine", 0);
      var hers := ChatServer.Message("alice", "hi", 1);
      var messages := map["team" := [mine, hers]];
      var hidden := map["bob" := map["team" := [0]]];
      && Displayed(messages, hidden, "bob", "team") == [hers]
      && ChatClient.ShowDeleteButtonAsWritten("team", hers.nick == "bob", 0)
      && messages["team"][0] == mine
      && ChatServer.MayDeleteForAll("bob", "team", messages["team"][0])
  {
    var mine := ChatServer.Message("bob", "mine", 0);
    var hers := ChatServer.Message("alice", "hi", 1);
    var messages := map["team" := [mine, hers]];
    var hidden := map["bob" := map["team" := [0]]];
    var order := ChatServer.SortedDescending([0]);
    assert |order| == |multiset(order)| == 1;
    assert order[0] in multiset(order);
    assert order == [0];
    assert ChatServer.PopEach([mine, hers], [0]) == ChatServer.PopEach([hers], []);
  }

  /** The stored index of the message shown at position `d`: the `d`-th
      stored position the user has not hidden. With it, a delete request
      names the message the user clicked. */
  lemma DisplayedIsStored(messages: map<string, seq<ChatServer.Message>>, hidden: map<string, map<string, seq<int>>>,
                          caller: string, room: string, d: int)
    requires Distinct(ChatServer.HiddenFor(hidden, caller, room))
    requires 0 <= d < |Displayed(messages, hidden, caller, room)|
    ensures var stored := ChatServer.MessagesIn(messages, room);
      var ps := ChatServer.Positions(|stored|, ChatServer.InRange(ChatServer.HiddenFor(hidden, caller, room), |stored|));
      && d < |ps| && 0 <= ps[d] < |stored|
      && stored[ps[d]] == Displayed(messages, hidden, caller, room)[d]
  {
    var stored := ChatServer.MessagesIn(messages, room);
    var gone := ChatServer.InRange(ChatServer.HiddenFor(hidden, caller, room), |stored|);
    ChatServer.HiddenFilterRemovesExactly(stored, ChatServer.HiddenFor(hidden, caller, room));
    ChatServer.WithoutAtPositions(stored, gone);
  }

  /** With the corrected condition and the stored index of the clicked
      message, the client shows a button only where the server grants the
      deletion of that very message, and for anyone but the admin exactly
      there. */
  lemma DeleteButtonMatchesPermission(messages: map<string, seq<ChatServer.Message>>, hidden: map<string, map<string, seq<int>>>,
                                      caller: string, room: string, d: int)
    requires Distinct(ChatServer.HiddenFor(hidden, caller, room))
    requires 0 <= d < |Displayed(messages, hidden, caller, room)|
    ensures var stored := ChatServer.MessagesIn(messages, room);
      var ps := ChatServer.Positions(|stored|, ChatServer.InRange(ChatServer.HiddenFor(hidden, caller, room), |stored|));
      var shown := Displayed(messages, hidden, caller, room)[d];
      && d < |ps| && 0 <= ps[d] < |stored|
      && (ChatClient.ShowDeleteButton(room, shown.nick == caller, d) ==> ChatServer.MayDeleteForAll(caller, room, stored[ps[d]]))
      && (caller != ChatServer.Admin ==>
            (ChatClient.ShowDeleteButton(room, shown.nick == caller, d) <==> ChatServer.MayDeleteForAll(caller, room, stored[ps[d]])))
  {
    DisplayedIsStored(messages, hidden, caller, room, d);
  }
}
