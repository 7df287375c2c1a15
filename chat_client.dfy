/** The browser client (static/main.js): which room is open, the per-room
    message cache and the time of the last accepted send. DOM updates are
    left out; what a handler would display is returned, and each completion
    of a `fetch` is an operation of its own. */
module ChatClient {
  import opened Common
  import opened Text

  /** Milliseconds between two sends in the general room. */
  const SpamThreshold := 1500

  /** A cached message: fetched ones carry the server's timestamp, pushed
      ones only a nickname and a text. */
  datatype Entry = Entry(nick: string, text: string, timestamp: Option<int>)

  /** A push parsed into its author and text. */
  datatype Push = Push(nick: string, text: string)

  datatype RoomKind = Public | Private | Group

  /** A room's name and type as displayed. */
  datatype RoomView = RoomView(name: string, kind: string)

  /** What submitting the message form does. */
  datatype SendOutcome =
    | Ignored                                              // nothing but whitespace
    | Throttled                                            // "Slow down!" notification
    | Emitted(room: string, nickname: string, message: string)  // the `message` event sent

  /** Whether a room is the public one, a private chat or a group. */
  function Classify(room: string): (k: RoomKind)
    ensures k == Private <==> StartsWith(room, PrivatePrefix)
    ensures k == Public <==> room == General
  {
    if StartsWith(room, PrivatePrefix) then Private
    else if room == General then Public
    else Group
  }

  /** `users.find(u => u !== nickname)`: the index of the first part that
      is not `nickname`, or -1. */
  function FindOther(parts: seq<string>, nickname: string): (i: int)
    ensures -1 <= i < |parts|
    ensures i >= 0 ==> parts[i] != nickname && forall k :: 0 <= k < i ==> parts[k] == nickname
    ensures i == -1 ==> forall k :: 0 <= k < |parts| ==> parts[k] == nickname
    decreases |parts|
  {
    if |parts| == 0 then -1
    else if parts[0] != nickname then 0
    else
      var i := FindOther(parts[1..], nickname);
      if i == -1 then -1 else i + 1
  }

  /** The parts of a private room's name: the prefix is removed once, the
      rest split at `_`. */
  function RoomParts(room: string): (parts: seq<string>)
    requires StartsWith(room, PrivatePrefix)
    ensures |parts| >= 1
  {
    Split(room[|PrivatePrefix|..], '_')
  }

  /** The other participant shown for a private room: the first part that
      is not `nickname`, or when there is none (or it is the empty string,
      which JavaScript's `||` treats as missing) the first part. */
  function PeerOf(room: string, nickname: string): (peer: string)
    requires StartsWith(room, PrivatePrefix)
    ensures peer in RoomParts(room)
    ensures peer == nickname ==> peer == RoomParts(room)[0]
    ensures (forall k :: 0 <= k < |RoomParts(room)| ==> RoomParts(room)[k] == nickname) ==> peer == nickname
    ensures var parts := RoomParts(room); var i := FindOther(parts, nickname);
      peer == if i >= 0 && parts[i] != "" then parts[i] else parts[0]
  {
    var parts := RoomParts(room);
    var i := FindOther(parts, nickname);
    if i >= 0 && parts[i] != "" then parts[i] else parts[0]
  }

  /** The heading `joinRoom` shows. */
  function RoomHeading(room: string, nickname: string): RoomView
  {
    match Classify(room)
    case Private => RoomView("@ " + PeerOf(room, nickname), "Private Chat")
    case Public => RoomView("# general", "Public Chat")
    case Group => RoomView("# " + room, "Group Chat")
  }

  /** The entry `loadRooms` shows in the room list. */
  function RoomListItem(room: string, nickname: string): RoomView
  {
    match Classify(room)
    case Private => RoomView("@ " + PeerOf(room, nickname), "Private")
    case Public => RoomView("# general", "Public")
    case Group => RoomView("# " + room, "Group")
  }

  /** The list and the heading agree on a room's displayed name, and the
      heading's type is the list's followed by " Chat". */
  lemma HeadingMatchesListItem(room: string, nickname: string)
    ensures RoomHeading(room, nickname).name == RoomListItem(room, nickname).name
    ensures RoomHeading(room, nickname).kind == RoomListItem(room, nickname).kind + " Chat"
  {
  }

  /** `addMessage`'s condition for a per-message delete button, as written:
      outside general, on other users' messages, for displayed positions. */
  predicate ShowDeleteButtonAsWritten(currentRoom: string, isOwnMessage: bool, index: int)
  {
    currentRoom != General && !isOwnMessage && index >= 0
  }

  /** The condition meant: the button sends a delete for everyone, which the
      server grants a non-admin for their own messages outside general. */
  predicate ShowDeleteButton(currentRoom: string, isOwnMessage: bool, index: int)
  {
    currentRoom != General && isOwnMessage && index >= 0
  }

  /** The delete buttons `displayMessages` shows, one flag per message: as
      written, on the messages of other users outside general. */
  function DeleteButtons(currentRoom: string, nickname: string, messages: seq<Entry>): (buttons: seq<bool>)
    ensures |buttons| == |messages|
    ensures forall i :: 0 <= i < |messages| ==>
      (buttons[i] <==> currentRoom != General && messages[i].nick != nickname)
  {
    seq(|messages|, i requires 0 <= i < |messages| => ShowDeleteButtonAsWritten(currentRoom, messages[i].nick == nickname, i))
  }

  /** The `message` handler's parsing of `"nick: text"`: accepted only when
      the first `:` is not at the start; the text is the trimmed rest. */
  function ParsePush(msg: string): (p: Option<Push>)
    ensures p.Some? <==> IndexOf(msg, ':') > 0
    ensures p.Some? ==> |p.value.nick| > 0 && ':' !in p.value.nick
    ensures p.Some? ==> exists rest :: msg == p.value.nick + ":" + rest && p.value.text == Strip(rest)
  {
    var colon := IndexOf(msg, ':');
    if colon > 0 then
      assert msg == msg[..colon] + ":" + msg[colon + 1..];
      Some(Push(msg[..colon], Strip(msg[colon + 1..])))
    else None
  }

  /** `messageHistory[room] || []`. */
  function Cached(history: map<string, seq<Entry>>, room: string): seq<Entry>
  {
    if room in history then history[room] else []
  }

  class Client {
    /** The logged-in user's nickname, fixed for the page's lifetime. */
    const nickname: string
    var currentRoom: string
    /** The per-room cache, kept in `localStorage`. */
    var messageHistory: map<string, seq<Entry>>
    /** When the last message was sent, in milliseconds. */
    var lastMessageTime: int

    /** Page load: the general room, the cache read from storage, no send yet. */
    constructor (nickname: string, stored: map<string, seq<Entry>>)
      ensures this.nickname == nickname
      ensures currentRoom == General && messageHistory == stored && lastMessageTime == 0
    {
      this.nickname := nickname;
      currentRoom := General;
      messageHistory := stored;
      lastMessageTime := 0;
    }

    /** `joinRoom`: whatever was open before, `room` becomes the current room;
        the heading is returned. Loading its history is `HistoryLoaded`. */
    method JoinRoom(room: string) returns (heading: RoomView)
      modifies this`currentRoom
      ensures currentRoom == room
      ensures heading == RoomHeading(room, nickname)
    {
      currentRoom := room;
      heading := RoomHeading(room, nickname);
    }

    /** The completion of `loadMessages(room)`: the fetched list replaces the
        cached one, whichever room is open by then. */
    method HistoryLoaded(room: string, fetched: seq<Entry>) returns (buttons: seq<bool>)
      modifies this`messageHistory
      ensures messageHistory == old(messageHistory)[room := fetched]
      ensures buttons == DeleteButtons(currentRoom, nickname, fetched)
    {
      messageHistory := messageHistory[room := fetched];
      buttons := DeleteButtons(currentRoom, nickname, fetched);
    }

    /** `messageForm.onsubmit` at time `now`: empty input is ignored; in the
        general room a send within `SpamThreshold` of the last one is
        refused; otherwise the message is emitted and the time recorded.
        The cache is not touched. */
    method Submit(input: string, now: int) returns (outcome: SendOutcome)
      modifies this`lastMessageTime
      ensures Strip(input) == "" ==> outcome == Ignored
      ensures Strip(input) != "" && currentRoom == General && now - old(lastMessageTime) < SpamThreshold ==>
        outcome == Throttled
      ensures outcome.Emitted? <==>
        Strip(input) != "" && (currentRoom == General ==> now - old(lastMessageTime) >= SpamThreshold)
      ensures outcome.Emitted? ==> outcome == Emitted(currentRoom, nickname, Strip(input)) && lastMessageTime == now
      ensures !outcome.Emitted? ==> lastMessageTime == old(lastMessageTime)
    {
      var message := Strip(input);
      if message == "" {
        return Ignored;
      }
      if currentRoom == General && now - lastMessageTime < SpamThreshold {
        return Throttled;
      }
      outcome := Emitted(currentRoom, nickname, message);
      lastMessageTime := now;
    }

    /** `socket.on('message')`: a well-formed push from someone else is
        appended to the cache of the room that is open now; the user's own
        pushes and malformed ones change nothing. */
    method ReceivePush(msg: string) returns (shown: Option<Push>)
      modifies this`messageHistory
      ensures shown.Some? <==> ParsePush(msg).Some? && ParsePush(msg).value.nick != nickname
      ensures shown.Some? ==> shown == ParsePush(msg)
      ensures shown.Some? ==>
        messageHistory == old(messageHistory)[currentRoom := Cached(old(messageHistory), currentRoom) + [Entry(shown.value.nick, shown.value.text, None)]]
      ensures shown.None? ==> messageHistory == old(messageHistory)
    {
      var colonIndex := IndexOf(msg, ':');
      if colonIndex > 0 {
        var nick := msg[..colonIndex];
        var text := Strip(msg[colonIndex + 1..]);
        if nick != nickname {
          var list := if currentRoom in messageHistory then messageHistory[currentRoom] else [];
          messageHistory := messageHistory[currentRoom := list + [Entry(nick, text, None)]];
          return Some(Push(nick, text));
        }
      }
      return None;
    }

    /** `deleteRoomBtn.onclick`: nothing in the general room or when the
        dialog is declined; otherwise the room whose deletion is requested. */
    method RequestRoomDeletion(confirmed: bool) returns (request: Option<string>)
      ensures request.Some? <==> currentRoom != General && confirmed
      ensures request.Some? ==> request.value == currentRoom
    {
      if currentRoom == General {
        return None;
      }
      if !confirmed {
        return None;
      }
      return Some(currentRoom);
    }

    /** The completion of the deletion request. On success the cache entry of
        the room open at that moment is dropped and the general room is
        joined; all other entries stay. On failure nothing changes. */
    method RoomDeletionCompleted(success: bool) returns (heading: Option<RoomView>)
      modifies this`messageHistory, this`currentRoom
      ensures !success ==> heading.None? && messageHistory == old(messageHistory) && currentRoom == old(currentRoom)
      ensures success ==> messageHistory == old(messageHistory) - {old(currentRoom)}
      ensures success ==> currentRoom == General && heading == Some(RoomHeading(General, nickname))
    {
      if !success {
        return None;
      }
      messageHistory := messageHistory - {currentRoom};
      var view := JoinRoom(General);
      return Some(view);
    }
  }
}
