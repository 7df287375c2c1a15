/** The chat server's store (app.py): rooms, messages, block lists, bans and
    per-user hidden messages. Each JSON file the handlers load and save is a
    field of `Server`; `users` holds the lines of users.txt. Request bodies,
    the session's nickname and the current time are parameters, and what a
    handler sends back is its result. */
module ChatServer {
  import opened Common
  import opened Text

  const Admin := "Wixxy"
  /** Messages kept per room. */
  const MaxMessages := 1000
  /** Longest message accepted in the general room. */
  const MaxGeneralLength := 500

  /** A record of rooms.json. */
  datatype Room = Room(members: seq<string>, admins: seq<string>, kind: string)

  /** A record of messages.json. */
  datatype Message = Message(nick: string, text: string, timestamp: int)

  /** A record of the `users` list of banned.json. `untilTimestamp` is -1 for
      a permanent ban. */
  datatype Ban = Ban(username: string, ip: string, reason: string, until: string,
                     untilTimestamp: int, bannedAt: int, bannedBy: string)

  /** The JSON reply of an HTTP handler: `success=True` (with the room where
      one is returned), `success=False` with an HTTP status and an error, or
      an unhandled exception. */
  datatype Reply = Ok | OkRoom(room: string) | Refused(status: int, error: string) | Crashed

  datatype LoginReply = LoginRefused(error: string) | LoggedIn(nick: string)

  /** What `on_message` does with a message: nothing, an `error` event to the
      sender, or the line sent to the room. */
  datatype Delivery = Dropped | Rejected(error: string) | Broadcast(line: string)

  datatype JoinReply = Joined | JoinRefused(error: string)

  /** Which bans stop a user: `login` matches the nickname or the address,
      `on_message` only the nickname. */
  datatype BanMatch = ByName(name: string) | ByNameOrIp(name: string, ip: string)

  // ---------------------------------------------------------------------
  // Private rooms
  // ---------------------------------------------------------------------

  /** Python `sorted([a, b])`. */
  function SortedPair(a: string, b: string): (pair: seq<string>)
    ensures |pair| == 2 && multiset(pair) == multiset{a, b}
    ensures !StrLess(pair[1], pair[0])
  {
    if StrLess(b, a) then
      StrLessAsymmetric(b, a);
      [b, a]
    else [a, b]
  }

  /** The name of the private room of `a` and `b`: the prefix and the two
      nicknames in order, joined by `_`. */
  function PrivateRoomName(a: string, b: string): (room: string)
    ensures StartsWith(room, PrivatePrefix)
    ensures room != General
  {
    var pair := SortedPair(a, b);
    assert (PrivatePrefix + pair[0] + "_" + pair[1])[..|PrivatePrefix|] == PrivatePrefix;
    assert (PrivatePrefix + pair[0] + "_" + pair[1])[0] == 'p';
    PrivatePrefix + pair[0] + "_" + pair[1]
  }

  /** Both participants derive the same room name. */
  lemma PrivateRoomNameSymmetric(a: string, b: string)
    ensures PrivateRoomName(a, b) == PrivateRoomName(b, a)
  {
    if a != b {
      StrLessTotal(a, b);
      if StrLess(a, b) {
        StrLessAsymmetric(a, b);
      } else {
        StrLessAsymmetric(b, a);
      }
    }
  }

  /** Two nicknames without `_` can be read back from their room's name. */
  lemma PrivateRoomNameParts(a: string, b: string)
    requires '_' !in a && '_' !in b
    ensures var room := PrivateRoomName(a, b);
      Split(room[|PrivatePrefix|..], '_') == SortedPair(a, b)
  {
    var pair := SortedPair(a, b);
    PrivateRoomNameRest(a, b);
    assert pair[0] in multiset{a, b} && pair[1] in multiset{a, b};
    SplitAtSep(pair[0], '_', pair[1]);
    SplitWithoutSep(pair[1], '_');
  }

  /** What follows the prefix in a private room's name. */
  lemma PrivateRoomNameRest(a: string, b: string)
    ensures var pair := SortedPair(a, b);
      PrivateRoomName(a, b)[|PrivatePrefix|..] == pair[0] + ['_'] + pair[1]
  {
    var pair := SortedPair(a, b);
    var rest := pair[0] + "_" + pair[1];
    assert PrivateRoomName(a, b) == PrivatePrefix + rest;
  }

  /** The record `create_private` stores for a new room. */
  function NewPrivateRoom(caller: string, target: string): (r: Room)
    ensures caller in r.members && target in r.members && |r.members| == 2
    ensures r.members == SortedPair(caller, target)
    ensures r.admins == [caller] && r.kind == "private"
  {
    var pair := SortedPair(caller, target);
    assert caller in multiset(pair) && target in multiset(pair);
    Room(pair, [caller], "private")
  }

  // ---------------------------------------------------------------------
  // Users, blocks and bans
  // ---------------------------------------------------------------------

  /** `get_user_list()`: the second field of every line that has one.
      Comment lines are not skipped. */
  function UserList(lines: seq<string>): set<string>
  {
    set i | 0 <= i < |lines| && |Fields(lines[i])| >= 2 :: Fields(lines[i])[1]
  }

  /** `is_user_blocked(from, to)`: `to` has blocked `from`. */
  predicate IsUserBlocked(blocks: map<string, seq<string>>, from: string, to: string)
  {
    to in blocks && from in blocks[to]
  }

  /** `who` adds `other` to their block list, once. */
  function WithBlock(blocks: map<string, seq<string>>, who: string, other: string): (r: map<string, seq<string>>)
    ensures IsUserBlocked(r, other, who)
    ensures forall u :: u in r <==> u in blocks || u == who
    ensures forall u :: u in blocks && u != who ==> r[u] == blocks[u]
    ensures who in blocks && other in blocks[who] ==> r == blocks
    ensures forall u :: u in r[who] <==> u == other || (who in blocks && u in blocks[who])
  {
    var list := if who in blocks then blocks[who] else [];
    if other in list then blocks else blocks[who := list + [other]]
  }

  /** The peer `block_user` reads from a room name, as written: every
      `private_` is removed (Python's `replace` replaces all occurrences),
      the rest is split at `_`, and the caller's peer is the first part when
      the second is the caller, otherwise the second. `None` when there is
      no second part (an `IndexError`). */
  function BlockTargetAsWritten(room: string, caller: string): Option<string>
  {
    var parts := Split(RemoveAll(room, PrivatePrefix), '_');
    if |parts| < 2 then None else Some(if parts[1] == caller then parts[0] else parts[1])
  }

  /** A user called `private` cannot block anyone: with `zed`, their room's
      name loses both `private_` and `block_user` fails with an `IndexError`. */
  lemma BlockTargetAsWrittenCrashes()
    ensures PrivateRoomName("private", "zed") == "private_private_zed"
    ensures BlockTargetAsWritten(PrivateRoomName("private", "zed"), "zed").None?
    ensures BlockTargetAsWritten(PrivateRoomName("private", "zed"), "private").None?
  {
    CrashingRoom();
    SplitWithoutSep("zed", '_');
  }

  /** The room of `private` and `zed`, and what is left of its name once
      every `private_` is removed. */
  lemma CrashingRoom()
    ensures PrivateRoomName("private", "zed") == "private_private_zed"
    ensures RemoveAll(PrivateRoomName("private", "zed"), PrivatePrefix) == "zed"
  {
    CrashingRoomName();
    RemoveAllAtPattern(PrivatePrefix, PrivatePrefix + "zed");
    RemoveAllAtPattern(PrivatePrefix, "zed");
    RemoveAllWithoutPattern("zed", PrivatePrefix);
  }

  /** That room name, built from its parts. */
  lemma CrashingRoomName()
    ensures PrivateRoomName("private", "zed") == PrivatePrefix + (PrivatePrefix + "zed")
    ensures PrivatePrefix + (PrivatePrefix + "zed") == "private_private_zed"
  {
    assert !StrLess("zed", "private");
  }

  /** The pattern at the front is removed whole. */
  lemma RemoveAllAtPattern(pattern: string, rest: string)
    requires |pattern| > 0
    ensures RemoveAll(pattern + rest, pattern) == RemoveAll(rest, pattern)
  {
    assert (pattern + rest)[..|pattern|] == pattern;
    assert (pattern + rest)[|pattern|..] == rest;
  }

  /** A string shorter than the pattern keeps all its characters. */
  lemma {:induction false} RemoveAllWithoutPattern(s: string, pattern: string)
    requires 0 < |pattern| && |s| < |pattern|
    ensures RemoveAll(s, pattern) == s
    decreases |s|
  {
    if |s| > 0 {
      RemoveAllWithoutPattern(s[1..], pattern);
      assert [s[0]] + s[1..] == s;
    }
  }

  /** The peer `block_user` is meant to read: only the leading `private_`
      is removed. */
  function BlockTarget(room: string, caller: string): Option<string>
    requires StartsWith(room, PrivatePrefix)
  {
    var parts := Split(room[|PrivatePrefix|..], '_');
    if |parts| < 2 then None else Some(if parts[1] == caller then parts[0] else parts[1])
  }

  /** The handler's reading and the intended one agree on every private
      room whose name does not contain `private_` again after its prefix. */
  lemma BlockTargetReadingsAgree(room: string, caller: string)
    requires StartsWith(room, PrivatePrefix)
    requires forall k :: !OccursAt(room[|PrivatePrefix|..], PrivatePrefix, k)
    ensures BlockTargetAsWritten(room, caller) == BlockTarget(room, caller)
  {
    var rest := room[|PrivatePrefix|..];
    assert room == PrivatePrefix + rest;
    RemoveAllAtPattern(PrivatePrefix, rest);
    RemoveAllWithoutOccurrence(rest, PrivatePrefix);
  }

  /** In a private room of two different nicknames without `_`, each
      participant blocks the other. */
  lemma BlockTargetFindsPeer(a: string, b: string)
    requires a != b && '_' !in a && '_' !in b
    ensures BlockTarget(PrivateRoomName(a, b), a) == Some(b)
    ensures BlockTarget(PrivateRoomName(a, b), b) == Some(a)
  {
    PrivateRoomNameParts(a, b);
    var pair := SortedPair(a, b);
    assert pair[0] in multiset{a, b} && pair[1] in multiset{a, b};
    assert multiset(pair) == multiset{pair[0], pair[1]};
  }

  /** `is_user_banned`: listed under `general` in banned.json. */
  predicate IsUserBanned(generalBans: seq<string>, nick: string)
  {
    nick in generalBans
  }

  /** A ban is in force while permanent or not yet expired. */
  predicate BanActive(b: Ban, now: int)
  {
    b.untilTimestamp == -1 || b.untilTimestamp > now
  }

  predicate Matches(m: BanMatch, b: Ban)
  {
    match m
    case ByName(name) => b.username == name
    case ByNameOrIp(name, ip) => b.username == name || b.ip == ip
  }

  /** The first ban, in list order, that matches and is in force. */
  function FirstBlocking(bans: seq<Ban>, m: BanMatch, now: int): Option<Ban>
    decreases |bans|
  {
    if |bans| == 0 then None
    else if Matches(m, bans[0]) && BanActive(bans[0], now) then Some(bans[0])
    else FirstBlocking(bans[1..], m, now)
  }

  /** `FirstBlocking` finds a matching ban in force iff there is one, and it
      finds the first. */
  lemma {:induction false} FirstBlockingIsFirst(bans: seq<Ban>, m: BanMatch, now: int)
    ensures FirstBlocking(bans, m, now).None? <==> forall i :: 0 <= i < |bans| ==> !(Matches(m, bans[i]) && BanActive(bans[i], now))
    ensures FirstBlocking(bans, m, now).Some? ==>
      exists i :: (0 <= i < |bans| && bans[i] == FirstBlocking(bans, m, now).value
        && Matches(m, bans[i]) && BanActive(bans[i], now)
        && forall k :: 0 <= k < i ==> !(Matches(m, bans[k]) && BanActive(bans[k], now)))
    decreases |bans|
  {
    if |bans| > 0 && !(Matches(m, bans[0]) && BanActive(bans[0], now)) {
      var rest := bans[1..];
      FirstBlockingIsFirst(rest, m, now);
      assert forall i :: 0 <= i < |rest| ==> rest[i] == bans[i + 1];
      if FirstBlocking(rest, m, now).Some? {
        var i :| 0 <= i < |rest| && rest[i] == FirstBlocking(rest, m, now).value
          && Matches(m, rest[i]) && BanActive(rest[i], now)
          && forall k :: 0 <= k < i ==> !(Matches(m, rest[k]) && BanActive(rest[k], now));
        assert bans[i + 1] == rest[i];
        assert forall k :: 0 <= k < i + 1 ==> !(Matches(m, bans[k]) && BanActive(bans[k], now)) by {
          forall k | 0 <= k < i + 1 ensures !(Matches(m, bans[k]) && BanActive(bans[k], now)) {
            if k > 0 {
              assert bans[k] == rest[k - 1];
            }
          }
        }
      } else {
        forall i | 0 <= i < |bans| ensures !(Matches(m, bans[i]) && BanActive(bans[i], now)) {
          if i > 0 {
            assert bans[i] == rest[i - 1];
          }
        }
      }
    }
  }

  /** The loop of `login` and `on_message` over the bans. */
  method FindBlockingBan(bans: seq<Ban>, m: BanMatch, now: int) returns (found: Option<Ban>)
    ensures found == FirstBlocking(bans, m, now)
  {
    var i := 0;
    while i < |bans|
      invariant 0 <= i <= |bans|
      invariant FirstBlocking(bans, m, now) == FirstBlocking(bans[i..], m, now)
    {
      assert bans[i..][1..] == bans[i + 1..];
      if Matches(m, bans[i]) && BanActive(bans[i], now) {
        return Some(bans[i]);
      }
      i := i + 1;
    }
    return None;
  }

  /** The bans in force, in order (`get_banned_users`). */
  function ActiveBans(bans: seq<Ban>, now: int): (r: seq<Ban>)
    ensures |r| <= |bans|
    decreases |bans|
  {
    if |bans| == 0 then []
    else
      var init := ActiveBans(bans[..|bans| - 1], now);
      var last := bans[|bans| - 1];
      if BanActive(last, now) then init + [last] else init
  }

  /** The listed bans are exactly those in force. */
  lemma {:induction false} ActiveBansMembers(bans: seq<Ban>, now: int)
    ensures forall b :: b in ActiveBans(bans, now) <==> b in bans && BanActive(b, now)
    decreases |bans|
  {
    if |bans| > 0 {
      var init := bans[..|bans| - 1];
      ActiveBansMembers(init, now);
      assert bans == init + [bans[|bans| - 1]];
    }
  }

  /** Filtering one more ban. */
  lemma ActiveBansStep(bans: seq<Ban>, i: nat, now: int)
    requires i < |bans|
    ensures ActiveBans(bans[..i + 1], now) ==
      ActiveBans(bans[..i], now) + if BanActive(bans[i], now) then [bans[i]] else []
  {
    assert bans[..i + 1][..i] == bans[..i];
  }


  /** The bans of other users (`unban_user`). */
  function Unbanned(bans: seq<Ban>, username: string): (r: seq<Ban>)
    ensures |r| <= |bans|
    ensures forall b :: b in r <==> b in bans && b.username != username
    decreases |bans|
  {
    if |bans| == 0 then []
    else
      var init := Unbanned(bans[..|bans| - 1], username);
      var last := bans[|bans| - 1];
      assert forall b :: b in bans <==> b in bans[..|bans| - 1] || b == last by {
        assert bans == bans[..|bans| - 1] + [last];
      }
      if last.username != username then init + [last] else init
  }

  /** The bans naming neither the user nor the address. */
  function Unrelated(bans: seq<Ban>, username: string, ip: string): (r: seq<Ban>)
    ensures forall b :: b in r <==> b in bans && b.username != username && b.ip != ip
    decreases |bans|
  {
    if |bans| == 0 then []
    else
      var init := Unrelated(bans[..|bans| - 1], username, ip);
      var last := bans[|bans| - 1];
      assert forall b :: b in bans <==> b in bans[..|bans| - 1] || b == last by {
        assert bans == bans[..|bans| - 1] + [last];
      }
      if last.username != username && last.ip != ip then init + [last] else init
  }

  /** `admin_ban_user`'s update of the list: earlier bans of that user or
      that address are replaced by the new one, which comes last. */
  function WithBan(bans: seq<Ban>, ban: Ban): (r: seq<Ban>)
    ensures |r| > 0 && r[|r| - 1] == ban
    ensures forall i :: 0 <= i < |r| && (r[i].username == ban.username || r[i].ip == ban.ip) ==> i == |r| - 1
    ensures forall b :: b in r && b != ban <==> b in bans && b.username != ban.username && b.ip != ban.ip
  {
    var kept := Unrelated(bans, ban.username, ban.ip);
    assert forall i :: 0 <= i < |kept| ==> kept[i] in kept;
    kept + [ban]
  }

  /** The ban `admin_ban_user` records: `duration` hours from `now`, or
      permanent for -1. `formatDate` stands for `time.strftime` of
      `time.localtime`, `None` where they raise (a timestamp out of range);
      then there is no ban. */
  function NewBan(username: string, ip: string, reason: string, duration: int, now: int,
                  formatDate: int -> Option<string>, admin: string): Option<Ban>
  {
    if duration == -1 then Some(Ban(username, ip, reason, "Permanent", -1, now, admin))
    else
      var untilTimestamp := now + duration * 3600;
      var until := formatDate(untilTimestamp);
      if until.None? then None
      else Some(Ban(username, ip, reason, until.value, untilTimestamp, now, admin))
  }

  /** A new ban is in force until `duration` hours have passed; a
      permanent one always is. A ban of 0 hours is never in force. */
  lemma NewBanActive(username: string, ip: string, reason: string, duration: int, now: int,
                     formatDate: int -> Option<string>, admin: string, t: int)
    ensures NewBan(username, ip, reason, duration, now, formatDate, admin).None? <==>
      duration != -1 && formatDate(now + duration * 3600).None?
    ensures NewBan(username, ip, reason, duration, now, formatDate, admin).Some? ==>
      (BanActive(NewBan(username, ip, reason, duration, now, formatDate, admin).value, t) <==>
       duration == -1 || now + duration * 3600 == -1 || t < now + duration * 3600)
  {
  }

  /** `user_ip` of `admin_ban_user`: the first field of the first line with
      at least three fields whose second is `username`. */
  function UserIp(lines: seq<string>, username: string): Option<string>
    decreases |lines|
  {
    if |lines| == 0 then None
    else
      var parts := Fields(lines[0]);
      if |parts| >= 3 && parts[1] == username then Some(parts[0]) else UserIp(lines[1..], username)
  }

  predicate AccountLineOf(line: string, username: string)
  {
    |Fields(line)| >= 3 && Fields(line)[1] == username
  }

  /** `UserIp` is the address of the first line for that user. */
  lemma {:induction false} UserIpIsFirst(lines: seq<string>, username: string)
    ensures UserIp(lines, username).None? <==> forall i :: 0 <= i < |lines| ==> !AccountLineOf(lines[i], username)
    ensures UserIp(lines, username).Some? ==>
      exists i :: (0 <= i < |lines| && AccountLineOf(lines[i], username)
        && UserIp(lines, username).value == Fields(lines[i])[0]
        && forall k :: 0 <= k < i ==> !AccountLineOf(lines[k], username))
    decreases |lines|
  {
    if |lines| > 0 && !AccountLineOf(lines[0], username) {
      var rest := lines[1..];
      UserIpIsFirst(rest, username);
      if UserIp(rest, username).Some? {
        var i :| 0 <= i < |rest| && AccountLineOf(rest[i], username)
          && UserIp(rest, username).value == Fields(rest[i])[0]
          && forall k :: 0 <= k < i ==> !AccountLineOf(rest[k], username);
        assert lines[i + 1] == rest[i];
        forall k | 0 <= k < i + 1 ensures !AccountLineOf(lines[k], username) {
          if k > 0 {
            assert lines[k] == rest[k - 1];
          }
        }
      } else {
        forall i | 0 <= i < |lines| ensures !AccountLineOf(lines[i], username) {
          if i > 0 {
            assert lines[i] == rest[i - 1];
          }
        }
      }
    }
  }

  /** The lookup loop of `admin_ban_user`. */
  method FindUserIp(lines: seq<string>, username: string) returns (ip: Option<string>)
    ensures ip == UserIp(lines, username)
  {
    var i := 0;
    while i < |lines|
      invariant 0 <= i <= |lines|
      invariant UserIp(lines, username) == UserIp(lines[i..], username)
    {
      assert lines[i..][1..] == lines[i + 1..];
      var parts := Split(Strip(lines[i]), ',');
      if |parts| >= 3 && parts[1] == username {
        return Some(parts[0]);
      }
      i := i + 1;
    }
    return None;
  }

  // ---------------------------------------------------------------------
  // Messages
  // ---------------------------------------------------------------------

  /** `messages_data.get(room, [])`. */
  function MessagesIn(messages: map<string, seq<Message>>, room: string): seq<Message>
  {
    if room in messages then messages[room] else []
  }

  /** `len(set(text)) < 3 and len(text) > 10`. */
  predicate IsSpam(text: string)
  {
    |DistinctChars(text)| < 3 && |text| > 10
  }

  /** Only a long text made of fewer than three characters is spam: a text
      of at most ten characters, or one with three different characters,
      never is. */
  lemma SpamNeedsRepetition(text: string, i: int, j: int, k: int)
    ensures |text| <= 10 ==> !IsSpam(text)
    ensures (0 <= i < |text| && 0 <= j < |text| && 0 <= k < |text|
      && text[i] != text[j] && text[j] != text[k] && text[i] != text[k]) ==> !IsSpam(text)
  {
    if 0 <= i < |text| && 0 <= j < |text| && 0 <= k < |text|
      && text[i] != text[j] && text[j] != text[k] && text[i] != text[k] {
      var three := {text[i], text[j], text[k]};
      assert |three| == 3;
      DistinctCharsMembers(text);
      SubsetCardinality(three, DistinctChars(text));
    }
  }

  /** A subset is no larger than its superset. */
  lemma {:induction false} SubsetCardinality<T>(a: set<T>, b: set<T>)
    requires a <= b
    ensures |a| <= |b|
    decreases a
  {
    if a != {} {
      var x :| x in a;
      SubsetCardinality(a - {x}, b - {x});
    }
  }

  /** The last `MaxMessages` messages, or all of them when there are fewer. */
  function Capped(s: seq<Message>): (r: seq<Message>)
    ensures |r| == if |s| > MaxMessages then MaxMessages else |s|
    ensures r == s[|s| - |r|..]
  {
    if |s| > MaxMessages then s[|s| - MaxMessages..] else s
  }

  /** A room's list after a new message: it is last, at most `MaxMessages`
      are kept, and nothing is dropped while there is room. */
  function Appended(s: seq<Message>, m: Message): (r: seq<Message>)
    ensures 0 < |r| <= MaxMessages && r[|r| - 1] == m
    ensures |s| < MaxMessages ==> r == s + [m]
    ensures r[..|r| - 1] == s[|s| + 1 - |r|..]
  {
    var all := s + [m];
    var r := Capped(all);
    assert r[..|r| - 1] == all[|all| - |r|..|all| - 1];
    r
  }

  /** `list.pop(i)`. */
  function RemoveAt<T>(s: seq<T>, i: int): (r: seq<T>)
    requires 0 <= i < |s|
    ensures |r| == |s| - 1
    ensures forall k :: 0 <= k < i ==> r[k] == s[k]
    ensures forall k :: i <= k < |r| ==> r[k] == s[k + 1]
  {
    s[..i] + s[i + 1..]
  }

  // ---------------------------------------------------------------------
  // Hidden messages
  // ---------------------------------------------------------------------

  predicate Descending(s: seq<int>)
  {
    forall i, j :: 0 <= i < j < |s| ==> s[i] >= s[j]
  }

  predicate StrictlyDescending(s: seq<int>)
  {
    forall i, j :: 0 <= i < j < |s| ==> s[i] > s[j]
  }

  /** A bound on the elements of `u` and on `x` bounds every element of a
      sequence holding exactly those. */
  lemma BoundedByMultiset(t: seq<int>, u: seq<int>, x: int, b: int)
    requires multiset(t) == multiset(u) + multiset{x}
    requires x <= b && forall k :: 0 <= k < |u| ==> u[k] <= b
    ensures forall j :: 0 <= j < |t| ==> t[j] <= b
  {
    forall j | 0 <= j < |t| ensures t[j] <= b {
      assert t[j] in multiset(t);
      if t[j] != x {
        assert t[j] in multiset(u);
      }
    }
  }

  /** A head no smaller than any element keeps a descending tail descending. */
  lemma DescendingCons(h: int, t: seq<int>)
    requires Descending(t) && forall j :: 0 <= j < |t| ==> t[j] <= h
    ensures Descending([h] + t)
  {
    var r := [h] + t;
    forall i, j | 0 <= i < j < |r| ensures r[i] >= r[j] {
      assert r[j] == t[j - 1];
      if i > 0 {
        assert r[i] == t[i - 1];
      }
    }
  }

  function InsertDescending(x: int, s: seq<int>): (r: seq<int>)
    requires Descending(s)
    ensures Descending(r)
    ensures multiset(r) == multiset(s) + multiset{x}
    decreases |s|
  {
    if |s| == 0 || s[0] <= x then [x] + s
    else
      var tail := InsertDescending(x, s[1..]);
      assert s == [s[0]] + s[1..];
      BoundedByMultiset(tail, s[1..], x, s[0]);
      DescendingCons(s[0], tail);
      [s[0]] + tail
  }

  /** Python `sorted(xs, reverse=True)`. */
  function SortedDescending(xs: seq<int>): (r: seq<int>)
    ensures Descending(r)
    ensures multiset(r) == multiset(xs)
    decreases |xs|
  {
    if |xs| == 0 then []
    else
      assert xs == [xs[0]] + xs[1..];
      InsertDescending(xs[0], SortedDescending(xs[1..]))
  }

  /** `for index in order: if 0 <= index < len(s): s.pop(index)`. */
  function PopEach<T>(s: seq<T>, order: seq<int>): (r: seq<T>)
    ensures |r| <= |s|
    decreases |order|
  {
    if |order| == 0 then s
    else
      var i := order[0];
      PopEach(if 0 <= i < |s| then RemoveAt(s, i) else s, order[1..])
  }

  /** The elements of `s` at the positions not in `gone`, in order. */
  function Without<T>(s: seq<T>, gone: set<int>): (r: seq<T>)
    ensures |r| <= |s|
    decreases |s|
  {
    if |s| == 0 then []
    else
      var n := |s| - 1;
      Without(s[..n], gone) + if n in gone then [] else [s[n]]
  }

  /** The positions below `n` that are not in `gone`, in ascending order: the
      stored index of each entry `Without` keeps. */
  function Positions(n: nat, gone: set<int>): (ps: seq<int>)
    ensures forall d :: 0 <= d < |ps| ==> 0 <= ps[d] < n && ps[d] !in gone
    ensures forall d, e :: 0 <= d < e < |ps| ==> ps[d] < ps[e]
    ensures forall p :: 0 <= p < n && p !in gone ==> p in ps
    decreases n
  {
    if n == 0 then []
    else Positions(n - 1, gone) + if n - 1 in gone then [] else [n - 1]
  }

  /** The `d`-th entry `Without` keeps is the entry stored at the `d`-th
      position that is not dropped. */
  lemma {:induction false} WithoutAtPositions<T>(s: seq<T>, gone: set<int>)
    ensures |Positions(|s|, gone)| == |Without(s, gone)|
    ensures forall d :: 0 <= d < |Without(s, gone)| ==> Without(s, gone)[d] == s[Positions(|s|, gone)[d]]
    decreases |s|
  {
    if |s| > 0 {
      var n := |s| - 1;
      WithoutAtPositions(s[..n], gone);
      var w, ps := Without(s[..n], gone), Positions(n, gone);
      forall d | 0 <= d < |Without(s, gone)| ensures Without(s, gone)[d] == s[Positions(|s|, gone)[d]] {
        if d < |w| {
          assert Without(s, gone)[d] == w[d];
          assert Positions(|s|, gone)[d] == ps[d];
        }
      }
    }
  }

  /** The indices of `order` that are positions of a list of length `n`. */
  function InRange(order: seq<int>, n: int): set<int>
  {
    set j | j in order && 0 <= j < n
  }

  /** Only the positions of `s` matter to `Without`. */
  lemma {:induction false} WithoutSameInRange<T>(s: seq<T>, a: set<int>, b: set<int>)
    requires forall j :: 0 <= j < |s| ==> (j in a <==> j in b)
    ensures Without(s, a) == Without(s, b)
    decreases |s|
  {
    if |s| > 0 {
      WithoutSameInRange(s[..|s| - 1], a, b);
    }
  }

  /** Popping a position above all of `gone` and then dropping `gone` drops
      both. */
  lemma {:induction false} WithoutRemoveAt<T>(s: seq<T>, i: int, gone: set<int>)
    requires 0 <= i < |s|
    requires forall j :: j in gone ==> j < i
    ensures Without(RemoveAt(s, i), gone) == Without(s, gone + {i})
    decreases |s|
  {
    var n := |s| - 1;
    if i == n {
      assert RemoveAt(s, i) == s[..n];
      WithoutSameInRange(s[..n], gone + {i}, gone);
    } else {
      var t := RemoveAt(s, i);
      assert t[..n - 1] == RemoveAt(s[..n], i);
      assert t[n - 1] == s[n];
      WithoutRemoveAt(s[..n], i, gone);
    }
  }

  /** For strictly descending indices, popping one after the other removes
      exactly the positions in range and keeps the order of the rest. */
  lemma {:induction false} PopEachDescending<T>(s: seq<T>, order: seq<int>)
    requires StrictlyDescending(order)
    ensures PopEach(s, order) == Without(s, InRange(order, |s|))
    decreases |order|
  {
    if |order| == 0 {
      assert InRange(order, |s|) == {};
      assert Without(s, {}) == s by {
        WithoutNothing(s);
      }
    } else {
      var i := order[0];
      var rest := order[1..];
      StrictlyDescendingTail(order);
      if 0 <= i < |s| {
        var t := RemoveAt(s, i);
        PopEachDescending(t, rest);
        WithoutSameInRange(t, InRange(rest, |t|), InRange(rest, |s|));
        WithoutRemoveAt(s, i, InRange(rest, |s|));
        assert InRange(rest, |s|) + {i} == InRange(order, |s|);
      } else {
        PopEachDescending(s, rest);
        assert InRange(rest, |s|) == InRange(order, |s|);
      }
    }
  }

  /** The tail of a strictly descending sequence is strictly descending and
      below its head. */
  lemma StrictlyDescendingTail(order: seq<int>)
    requires StrictlyDescending(order) && |order| > 0
    ensures StrictlyDescending(order[1..])
    ensures forall j :: j in order[1..] ==> j < order[0]
  {
    var rest := order[1..];
    assert forall k :: 0 <= k < |rest| ==> rest[k] == order[k + 1];
  }

  /** `Without` of no positions is the identity. */
  lemma {:induction false} WithoutNothing<T>(s: seq<T>)
    ensures Without(s, {}) == s
    decreases |s|
  {
    if |s| > 0 {
      WithoutNothing(s[..|s| - 1]);
      assert s == s[..|s| - 1] + [s[|s| - 1]];
    }
  }

  /** Sorting indices without repeats gives a strictly descending order. */
  lemma SortedDistinctIsStrict(hidden: seq<int>)
    requires Distinct(hidden)
    ensures StrictlyDescending(SortedDescending(hidden))
  {
    var order := SortedDescending(hidden);
    DistinctPermutation(hidden, order);
    forall i, j | 0 <= i < j < |order| ensures order[i] > order[j] {
      assert order[i] >= order[j] && order[i] != order[j];
    }
  }

  /** Without repeated indices, the hidden filter removes exactly the hidden
      positions in range. */
  lemma HiddenFilterRemovesExactly<T>(s: seq<T>, hidden: seq<int>)
    requires Distinct(hidden)
    ensures PopEach(s, SortedDescending(hidden)) == Without(s, InRange(hidden, |s|))
  {
    var order := SortedDescending(hidden);
    SortedDistinctIsStrict(hidden);
    PopEachDescending(s, order);
    forall j ensures j in order <==> j in hidden {
      assert j in multiset(order) <==> j in multiset(hidden);
    }
    assert InRange(order, |s|) == InRange(hidden, |s|);
  }

  /** The filtering loop of `get_messages`. */
  method HideMessages<T>(s: seq<T>, hidden: seq<int>) returns (visible: seq<T>)
    ensures visible == PopEach(s, SortedDescending(hidden))
    ensures Distinct(hidden) ==> visible == Without(s, InRange(hidden, |s|))
  {
    var order := SortedDescending(hidden);
    visible := s;
    var k := 0;
    while k < |order|
      invariant 0 <= k <= |order|
      invariant PopEach(visible, order[k..]) == PopEach(s, order)
    {
      assert order[k..][1..] == order[k + 1..];
      var index := order[k];
      if 0 <= index < |visible| {
        visible := RemoveAt(visible, index);
      }
      k := k + 1;
    }
    if Distinct(hidden) {
      HiddenFilterRemovesExactly(s, hidden);
    }
  }

  /** `hidden_data.get(nick, {}).get(room, [])`. */
  function HiddenFor(hidden: map<string, map<string, seq<int>>>, nick: string, room: string): seq<int>
  {
    if nick in hidden && room in hidden[nick] then hidden[nick][room] else []
  }

  /** Hiding `index` of `room` for `nick`. */
  function WithHidden(hidden: map<string, map<string, seq<int>>>, nick: string, room: string, index: int)
    : (r: map<string, map<string, seq<int>>>)
    ensures HiddenFor(r, nick, room) == HiddenFor(hidden, nick, room) + [index]
    ensures forall u, x :: (u != nick || x != room) ==> HiddenFor(r, u, x) == HiddenFor(hidden, u, x)
  {
    var rooms := if nick in hidden then hidden[nick] else map[];
    hidden[nick := rooms[room := HiddenFor(hidden, nick, room) + [index]]]
  }

  /** `on_join`: general is closed to banned users, any other room to
      non-members. */
  function JoinVerdict(generalBans: seq<string>, rooms: map<string, Room>, room: string, nick: string): (r: JoinReply)
    ensures r == Joined <==>
      if room == General then !IsUserBanned(generalBans, nick) else room in rooms && nick in rooms[room].members
    ensures r.JoinRefused? ==> r.error == (if room == General then "You are banned from this chat" else "Access denied")
  {
    if room == General && IsUserBanned(generalBans, nick) then JoinRefused("You are banned from this chat")
    else if room != General && (room !in rooms || nick !in rooms[room].members) then JoinRefused("Access denied")
    else Joined
  }

  /** `delete_message`'s `type`, `'all'` when absent. */
  function DeleteMode(mode: Option<string>): string
  {
    if mode.Some? then mode.value else "all"
  }

  /** Who may delete a message for everyone. */
  predicate MayDeleteForAll(caller: string, room: string, m: Message)
  {
    caller == Admin || (room != General && m.nick == caller)
  }

  /** No room holds more than `MaxMessages` messages. */
  predicate WithinCap(messages: map<string, seq<Message>>)
  {
    forall r :: r in messages ==> |messages[r]| <= MaxMessages
  }

  // ---------------------------------------------------------------------
  // The server
  // ---------------------------------------------------------------------

  class Server {
    /** users.txt, one string per line. */
    var users: seq<string>
    /** rooms.json */
    var rooms: map<string, Room>
    /** messages.json */
    var messages: map<string, seq<Message>>
    /** blocks.json: who each user has blocked. */
    var blocks: map<string, seq<string>>
    /** The `users` list of banned.json. */
    var bans: seq<Ban>
    /** The `general` list of banned.json, read by `on_join`. */
    var generalBans: seq<string>
    /** hidden_messages.json: per user and room, the hidden indices. */
    var hidden: map<string, map<string, seq<int>>>

    /** No room record is called `general`, and no room holds more than
        `MaxMessages` messages. */
    ghost predicate Valid()
      reads this
    {
      General !in rooms && WithinCap(messages)
    }

    /** The state after start-up: every file empty. */
    constructor ()
      ensures users == [] && rooms == map[] && messages == map[] && blocks == map[]
      ensures bans == [] && generalBans == [] && hidden == map[]
      ensures Valid()
    {
      users, rooms, messages, blocks := [], map[], map[], map[];
      bans, generalBans, hidden := [], [], map[];
    }

    /** `login` (POST): `nick` is stripped; a ban in force on the nickname or
        the address refuses the login; otherwise the line `ip,nick,password`
        is appended to users.txt. */
    method Login(nick: string, password: string, ip: string, now: int) returns (reply: LoginReply)
      modifies this`users
      ensures Strip(nick) == "" || password == "" ==> reply == LoginRefused("Please fill all fields") && users == old(users)
      ensures Strip(nick) != "" && password != "" && FirstBlocking(bans, ByNameOrIp(Strip(nick), ip), now).Some? ==>
        var b := FirstBlocking(bans, ByNameOrIp(Strip(nick), ip), now).value;
        reply == LoginRefused("You are banned. Reason: " + b.reason + ". Until: " + b.until) && users == old(users)
      ensures Strip(nick) != "" && password != "" && FirstBlocking(bans, ByNameOrIp(Strip(nick), ip), now).None? ==>
        reply == LoggedIn(Strip(nick)) && users == old(users) + [ip + "," + Strip(nick) + "," + password]
    {
      var name := Strip(nick);
      if name == "" || password == "" {
        return LoginRefused("Please fill all fields");
      }
      var ban := FindBlockingBan(bans, ByNameOrIp(name, ip), now);
      if ban.Some? {
        return LoginRefused("You are banned. Reason: " + ban.value.reason + ". Until: " + ban.value.until);
      }
      users := users + [ip + "," + name + "," + password];
      return LoggedIn(name);
    }

    /** `get_rooms`: `general`, then every room `nick` is a member of (in
        the dictionary's order, which is not modelled). */
    method GetRooms(nick: string) returns (userRooms: seq<string>)
      ensures |userRooms| >= 1 && userRooms[0] == General
      ensures forall r :: r in userRooms[1..] <==> r in rooms && nick in rooms[r].members
      ensures Distinct(userRooms[1..])
      ensures Valid() ==> Distinct(userRooms)
    {
      userRooms := [General];
      var rest := rooms.Keys;
      while rest != {}
        invariant rest <= rooms.Keys
        invariant |userRooms| >= 1 && userRooms[0] == General
        invariant forall r :: r in userRooms[1..] <==> r in rooms && nick in rooms[r].members && r !in rest
        invariant Distinct(userRooms[1..])
        decreases rest
      {
        var name :| name in rest;
        if nick in rooms[name].members {
          assert name !in userRooms[1..];
          assert (userRooms + [name])[1..] == userRooms[1..] + [name];
          userRooms := userRooms + [name];
        }
        rest := rest - {name};
      }
      if Valid() {
        forall i, j | 0 <= i < j < |userRooms| ensures userRooms[i] != userRooms[j] {
          if i == 0 {
            assert userRooms[j] == userRooms[1..][j - 1];
          } else {
            assert userRooms[i] == userRooms[1..][i - 1] && userRooms[j] == userRooms[1..][j - 1];
          }
        }
      }
    }

    /** `get_messages`: nothing for a room other than general that `nick`
        cannot see; otherwise the room's messages without those `nick` hid. */
    method GetMessages(nick: string, room: string) returns (visible: seq<Message>)
      ensures room != General && (room !in rooms || nick !in rooms[room].members) ==> visible == []
      ensures room == General || (room in rooms && nick in rooms[room].members) ==>
        visible == PopEach(MessagesIn(messages, room), SortedDescending(HiddenFor(hidden, nick, room)))
      ensures room == General || (room in rooms && nick in rooms[room].members) ==>
        Distinct(HiddenFor(hidden, nick, room)) ==>
        visible == Without(MessagesIn(messages, room), InRange(HiddenFor(hidden, nick, room), |MessagesIn(messages, room)|))
    {
      if room != General && (room !in rooms || nick !in rooms[room].members) {
        return [];
      }
      var all := if room in messages then messages[room] else [];
      var userHidden := HiddenFor(hidden, nick, room);
      visible := HideMessages(all, userHidden);
    }

    /** `create_private`: the target is stripped; it must differ from the
        caller, be a registered nickname and not have blocked the caller.
        An existing room of that name is kept as it is. */
    method CreatePrivate(caller: string, nick: string) returns (reply: Reply)
      modifies this`rooms
      ensures Strip(nick) == "" || Strip(nick) == caller ==> reply == Refused(200, "Invalid username")
      ensures Strip(nick) != "" && Strip(nick) != caller && Strip(nick) !in UserList(users) ==>
        reply == Refused(200, "User not found")
      ensures Strip(nick) != "" && Strip(nick) != caller && Strip(nick) in UserList(users) && IsUserBlocked(blocks, caller, Strip(nick)) ==>
        reply == Refused(200, "You are blocked by this user")
      ensures reply.OkRoom? <==>
        Strip(nick) != "" && Strip(nick) != caller && Strip(nick) in UserList(users) && !IsUserBlocked(blocks, caller, Strip(nick))
      ensures reply.OkRoom? ==> reply.room == PrivateRoomName(caller, Strip(nick))
      ensures reply.OkRoom? && reply.room in old(rooms) ==> rooms == old(rooms)
      ensures reply.OkRoom? && reply.room !in old(rooms) ==> rooms == old(rooms)[reply.room := NewPrivateRoom(caller, Strip(nick))]
      ensures !reply.OkRoom? ==> rooms == old(rooms)
      ensures old(Valid()) ==> Valid()
    {
      var target := Strip(nick);
      if target == "" || target == caller {
        return Refused(200, "Invalid username");
      }
      if target !in UserList(users) {
        return Refused(200, "User not found");
      }
      if IsUserBlocked(blocks, caller, target) {
        return Refused(200, "You are blocked by this user");
      }
      var room := PrivateRoomName(caller, target);
      if room !in rooms {
        rooms := rooms[room := NewPrivateRoom(caller, target)];
      }
      return OkRoom(room);
    }

    /** `create_group`: the stripped name must be non-empty, not `general`
        and not taken; the creator is the only member and admin. */
    method CreateGroup(caller: string, name: string) returns (reply: Reply)
      modifies this`rooms
      ensures Strip(name) == "" || Strip(name) == General ==> reply == Refused(200, "Invalid group name") && rooms == old(rooms)
      ensures Strip(name) != "" && Strip(name) != General && Strip(name) in old(rooms) ==>
        reply == Refused(200, "Group already exists") && rooms == old(rooms)
      ensures Strip(name) != "" && Strip(name) != General && Strip(name) !in old(rooms) ==>
        reply == OkRoom(Strip(name)) && rooms == old(rooms)[Strip(name) := Room([caller], [caller], "group")]
      ensures old(Valid()) ==> Valid()
    {
      var groupName := Strip(name);
      if groupName == "" || groupName == General {
        return Refused(200, "Invalid group name");
      }
      if groupName in rooms {
        return Refused(200, "Group already exists");
      }
      rooms := rooms[groupName := Room([caller], [caller], "group")];
      return OkRoom(groupName);
    }

    /** `delete_room`: only an admin of an existing room other than general
        may delete it; the room and its messages go, nothing else changes. */
    method DeleteRoom(caller: string, room: string) returns (reply: Reply)
      modifies this`rooms, this`messages
      ensures room == General ==> reply == Refused(400, "Cannot delete general chat")
      ensures room != General && room !in old(rooms) ==> reply == Refused(404, "Room not found")
      ensures room != General && room in old(rooms) && caller !in old(rooms)[room].admins ==>
        reply == Refused(403, "Only admins can delete rooms")
      ensures reply == Ok <==> room != General && room in old(rooms) && caller in old(rooms)[room].admins
      ensures reply == Ok ==> rooms == old(rooms) - {room} && messages == old(messages) - {room}
      ensures reply != Ok ==> rooms == old(rooms) && messages == old(messages)
      ensures old(Valid()) ==> Valid()
    {
      if room == General {
        return Refused(400, "Cannot delete general chat");
      }
      if room !in rooms {
        return Refused(404, "Room not found");
      }
      if caller !in rooms[room].admins {
        return Refused(403, "Only admins can delete rooms");
      }
      rooms := rooms - {room};
      messages := messages - {room};
      return Ok;
    }

    /** `block_user`: in a room whose name starts with `private_`, the caller
        blocks the peer read from the name as the handler reads it
        (`BlockTargetAsWritten`: every `private_` is removed). When the name
        then has no second part, the handler fails with an `IndexError`. */
    method BlockUser(caller: string, room: string) returns (reply: Reply)
      modifies this`blocks
      ensures !StartsWith(room, PrivatePrefix) ==>
        reply == Refused(200, "Can only block users in private chats") && blocks == old(blocks)
      ensures StartsWith(room, PrivatePrefix) && BlockTargetAsWritten(room, caller).None? ==>
        reply == Crashed && blocks == old(blocks)
      ensures StartsWith(room, PrivatePrefix) && BlockTargetAsWritten(room, caller).Some? ==>
        reply == Ok && blocks == WithBlock(old(blocks), caller, BlockTargetAsWritten(room, caller).value)
    {
      if room == "" || !StartsWith(room, PrivatePrefix) {
        return Refused(200, "Can only block users in private chats");
      }
      var parts := Split(RemoveAll(room, PrivatePrefix), '_');
      if |parts| < 2 {
        return Crashed;
      }
      var other := if parts[1] == caller then parts[0] else parts[1];
      var list := if caller in blocks then blocks[caller] else [];
      if other !in list {
        blocks := blocks[caller := list + [other]];
      }
      return Ok;
    }

    /** `admin_ban_user`: the admin bans a registered user (and their address)
        for `duration` hours, -1 meaning permanently. */
    method AdminBanUser(caller: string, username: string, reason: string, duration: int, now: int,
                        formatDate: int -> Option<string>) returns (reply: Reply)
      modifies this`bans
      ensures caller != Admin ==> reply == Refused(403, "Access denied") && bans == old(bans)
      ensures caller == Admin && (username == "" || reason == "") ==>
        reply == Refused(200, "Username and reason required") && bans == old(bans)
      ensures caller == Admin && username != "" && reason != "" && (UserIp(users, username) in {None, Some("")}) ==>
        reply == Refused(200, "User not found") && bans == old(bans)
      ensures caller == Admin && username != "" && reason != "" && UserIp(users, username).Some? && UserIp(users, username).value != "" ==>
        var ban := NewBan(username, UserIp(users, username).value, reason, duration, now, formatDate, caller);
        && (ban.None? ==> reply == Crashed && bans == old(bans))
        && (ban.Some? ==> reply == Ok && bans == WithBan(old(bans), ban.value))
      ensures reply == Ok || reply == Crashed <==>
        caller == Admin && username != "" && reason != "" && UserIp(users, username).Some? && UserIp(users, username).value != ""
    {
      if caller != Admin {
        return Refused(403, "Access denied");
      }
      if username == "" || reason == "" {
        return Refused(200, "Username and reason required");
      }
      var userIp := FindUserIp(users, username);
      if userIp.None? || userIp.value == "" {
        return Refused(200, "User not found");
      }
      var ban := NewBan(username, userIp.value, reason, duration, now, formatDate, caller);
      if ban.None? {
        return Crashed;
      }
      bans := WithBan(bans, ban.value);
      return Ok;
    }

    /** `get_banned_users`: the bans in force, for the admin only. */
    method GetBannedUsers(caller: string, now: int) returns (reply: Reply, active: seq<Ban>)
      ensures caller != Admin ==> reply == Refused(403, "Access denied") && active == []
      ensures caller == Admin ==> reply == Ok && active == ActiveBans(bans, now)
    {
      if caller != Admin {
        return Refused(403, "Access denied"), [];
      }
      active := [];
      var i := 0;
      while i < |bans|
        invariant 0 <= i <= |bans|
        invariant active == ActiveBans(bans[..i], now)
      {
        ActiveBansStep(bans, i, now);
        if BanActive(bans[i], now) {
          active := active + [bans[i]];
        }
        i := i + 1;
      }
      assert bans[..|bans|] == bans;
      return Ok, active;
    }

    /** `unban_user`: the admin removes every ban of `username`. */
    method UnbanUser(caller: string, username: string) returns (reply: Reply)
      modifies this`bans
      ensures caller != Admin ==> reply == Refused(403, "Access denied") && bans == old(bans)
      ensures caller == Admin ==> reply == Ok && bans == Unbanned(old(bans), username)
    {
      if caller != Admin {
        return Refused(403, "Access denied");
      }
      bans := Unbanned(bans, username);
      return Ok;
    }

    /** `delete_message`: `'all'` removes the message for everyone (the
        admin anywhere, the author outside general); `'me'` hides it for the
        caller; any other mode does nothing and succeeds. */
    method DeleteMessage(caller: string, room: string, index: int, mode: Option<string>) returns (reply: Reply)
      modifies this`messages, this`hidden
      ensures room !in old(messages) || index < 0 || index >= |old(messages)[room]| ==>
        reply == Refused(200, "Message not found") && messages == old(messages) && hidden == old(hidden)
      ensures room in old(messages) && 0 <= index < |old(messages)[room]| ==>
        var message := old(messages)[room][index];
        && (DeleteMode(mode) == "all" && !MayDeleteForAll(caller, room, message) ==>
              reply == Refused(200, "Permission denied") && messages == old(messages) && hidden == old(hidden))
        && (DeleteMode(mode) == "all" && MayDeleteForAll(caller, room, message) ==>
              reply == Ok && messages == old(messages)[room := RemoveAt(old(messages)[room], index)] && hidden == old(hidden))
        && (DeleteMode(mode) == "me" ==>
              reply == Ok && messages == old(messages) && hidden == WithHidden(old(hidden), caller, room, index))
        && (DeleteMode(mode) != "all" && DeleteMode(mode) != "me" ==>
              reply == Ok && messages == old(messages) && hidden == old(hidden))
      ensures old(Valid()) ==> Valid()
    {
      var deleteType := if mode.Some? then mode.value else "all";
      if room !in messages || index < 0 || index >= |messages[room]| {
        return Refused(200, "Message not found");
      }
      var message := messages[room][index];
      var isOwnMessage := message.nick == caller;
      var isAdmin := caller == Admin;
      if deleteType == "all" {
        if !(isAdmin || (room != General && isOwnMessage)) {
          return Refused(200, "Permission denied");
        }
        messages := messages[room := RemoveAt(messages[room], index)];
      } else if deleteType == "me" {
        hidden := WithHidden(hidden, caller, room, index);
      }
      return Ok;
    }

    /** `on_message`: the text is stripped; empty text is dropped; a ban in
        force on the nickname, or in general an over-long or repetitive
        text, is answered with an error; otherwise the message is stored
        (the room keeps its last `MaxMessages`) and `nick: text` is sent. */
    method OnMessage(room: string, nick: string, text: string, now: int) returns (result: Delivery)
      modifies this`messages
      ensures Strip(text) == "" ==> result == Dropped
      ensures Strip(text) != "" && FirstBlocking(bans, ByName(nick), now).Some? ==>
        var b := FirstBlocking(bans, ByName(nick), now).value;
        result == Rejected("You are banned: " + b.reason + " Until: " + b.until)
      ensures Strip(text) != "" && FirstBlocking(bans, ByName(nick), now).None? && room == General ==>
        (|Strip(text)| > MaxGeneralLength ==> result == Rejected("Message too long")) &&
        (|Strip(text)| <= MaxGeneralLength && IsSpam(Strip(text)) ==> result == Rejected("Spam detected"))
      ensures result.Broadcast? <==>
        Strip(text) != "" && FirstBlocking(bans, ByName(nick), now).None? &&
        (room == General ==> |Strip(text)| <= MaxGeneralLength && !IsSpam(Strip(text)))
      ensures result.Broadcast? ==> result.line == nick + ": " + Strip(text)
      ensures result.Broadcast? ==>
        messages == old(messages)[room := Appended(MessagesIn(old(messages), room), Message(nick, Strip(text), now))]
      ensures !result.Broadcast? ==> messages == old(messages)
      ensures old(Valid()) ==> Valid()
    {
      var message := Strip(text);
      if message == "" {
        return Dropped;
      }
      var ban := FindBlockingBan(bans, ByName(nick), now);
      if ban.Some? {
        return Rejected("You are banned: " + ban.value.reason + " Until: " + ban.value.until);
      }
      if room == General {
        if |message| > MaxGeneralLength {
          return Rejected("Message too long");
        }
        if |DistinctChars(message)| < 3 && |message| > 10 {
          return Rejected("Spam detected");
        }
      }
      var roomMessages := if room in messages then messages[room] else [];
      ghost var before := roomMessages;
      roomMessages := roomMessages + [Message(nick, message, now)];
      if |roomMessages| > MaxMessages {
        roomMessages := roomMessages[|roomMessages| - MaxMessages..];
      }
      assert roomMessages == Appended(before, Message(nick, message, now));
      messages := messages[room := roomMessages];
      return Broadcast(nick + ": " + message);
    }
  }
}
