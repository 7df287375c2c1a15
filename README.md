# March chat: a verified model of its data logic

March is a small Flask and Socket.IO chat application. Users log in with a
nickname. They chat in the public `general` room, in private rooms named
`private_<a>_<b>`, and in named groups. An administrator (`Wixxy`) can ban
users. Anyone can hide a message for themselves. The administrator can
delete any message for everyone. Outside `general`, a message's author can
delete it for everyone too. This project models three parts of
it in Dafny and proves properties of them.

- `chat_server.dfy` (module `ChatServer`) models the server (`app.py`) as a
  class `Server`. Its fields hold the contents of the JSON files (rooms,
  messages, block lists, bans, hidden messages) and the lines of `users.txt`.
  Each HTTP or Socket.IO handler is a method. It takes the session's
  nickname, the request fields and the current time as parameters, and
  returns the handler's reply. The pure rules are functions with lemmas:
  - private-room naming;
  - whether a ban is in force;
  - the ban and unban filters;
  - the hidden-message filter;
  - the 1000-message cap.
- `users_manager.dfy` (module `UsersManager`) models the `users.txt` tools
  (`users_manager.py`) as methods over the file's lines. Each method has a
  loop and is proved against a specification function:
  - `clean_users_file` keeps the newest entry per nickname and rewrites the
    file sorted by nickname;
  - `update_user_nickname` renames a nickname in place;
  - `get_user_stats` counts distinct nicknames and addresses.

  The lemmas show a cleaned file reads back to the same accounts, cleaning
  twice changes nothing, renaming there and back restores a line, and the
  statistics of a cleaned file count each kept account once.
- `chat_client.dfy` (module `ChatClient`) models the browser client
  (`static/main.js`) as a class `Client`. Its state is the open room, the
  per-room message cache and the time of the last send. Each event handler,
  and each completion of a `fetch`, is a method.
- `end_to_end.dfy` (module `EndToEnd`) connects server and client:
  - both participants of a private room see each other as its peer;
  - a message the server broadcasts parses back on the client to the same
    author and text;
  - while the user has hidden nothing, the client's delete buttons, as
    written, ask for deletions the server refuses;
  - a button carries the displayed position while the server indexes the
    stored list, so after a hide it can delete another message; the
    corrected condition, with the stored index, agrees with the server's
    rule.
- `text.dfy` (module `Text`) and `common.dfy` (module `Common`) model the
  string operations the sources rely on and a few shared helpers:
  - Python `strip`, `split`, `join`, `replace`, `sorted` and `int`/`str`;
  - JavaScript `trim` and `indexOf`.

Files are passed in and returned as values. `users.txt` is `Option<seq<string>>`:
`None` when the file does not exist. The current time is a parameter `now`.
Date formatting (`strftime`) is a partial function parameter `formatDate`.
It gives `None` where the library raises.

## Model

| member | source | states |
|---|---|---|
| Text.Strip | users_manager.py:16 | the stripped string has no leading or trailing whitespace and is no longer than the input |
| Text.StripIdempotent | app.py:433 | stripping twice is the same as stripping once |
| Text.StripEmptyIffBlank | app.py:435-436 | a string strips to empty exactly when every character is whitespace |
| Text.TrimStartIsSuffix | users_manager.py:16 | stripping leading whitespace leaves a suffix of the input |
| Text.TrimEndIsPrefix | users_manager.py:16 | stripping trailing whitespace leaves a prefix of the input |
| Text.IndexOf | static/main.js:434 | the result is the first position of the character, or -1 exactly when it does not occur |
| Text.Split | users_manager.py:20 | splitting gives at least one part, and no part contains the separator |
| Text.JoinSplit | users_manager.py:57 | joining the parts of a split with the same separator restores the string |
| Text.SplitJoin | users_manager.py:57 | splitting a join of separator-free parts gives the parts back |
| Text.SplitAtSep | users_manager.py:20 | a split at the first separator gives the part before it followed by the split of the rest |
| Text.RemoveAll | app.py:245 | removing every occurrence of a non-empty pattern never lengthens the string |
| Text.RemoveAllWithoutOccurrence | app.py:245 | a string in which the pattern occurs nowhere is left unchanged |
| ChatServer.RemoveAllAtPattern | app.py:245 | an occurrence of the pattern at the start is removed and the rest is processed in the same way |
| ChatServer.RemoveAllWithoutPattern | app.py:245 | a string shorter than the pattern is left unchanged |
| Text.StrLessTotal | app.py:174 | any two distinct strings are ordered one way or the other |
| Text.StrLessTransitive | users_manager.py:38 | the string order is transitive |
| Text.StrLessAsymmetric | app.py:174 | the string order is asymmetric |
| Text.Insert | users_manager.py:38 | inserting a new key into a strictly sorted list keeps it strictly sorted, with exactly one more element |
| Text.Ordered | users_manager.py:38 | the keys of a map in strictly ascending order, each exactly once |
| Text.SortedUnique | users_manager.py:38 | two strictly sorted lists with the same elements are equal, so the sorted order is unique |
| Text.IntToString | users_manager.py:40 | a written timestamp is non-empty, made of digits and `-`, and ends in a digit |
| Text.IntRoundTrip | users_manager.py:23 | `int()` reads back every timestamp that `str()` wrote |
| Text.DistinctChars | app.py:457 | a message has no more distinct characters than it is long |
| Text.DistinctCharsMembers | app.py:457 | the set of a message's characters holds exactly the characters that occur in it |
| Text.StripIsSlice | app.py:433 | the stripped text is a slice of the input with only whitespace before and after it |
| UsersManager.LatestKeys | users_manager.py:27-33 | the kept accounts belong exactly to the nicknames that occur in the file |
| UsersManager.LatestKeepsNewest | users_manager.py:27-33 | each kept account has the largest timestamp for its nickname; on equal timestamps the first one seen wins |
| UsersManager.LatestStoredByNick | users_manager.py:28 | each account is stored under its own nickname and comes from the file |
| UsersManager.AccountsFailurePersists | users_manager.py:23 | once a timestamp fails to parse, the whole run fails |
| UsersManager.AccountLines | users_manager.py:38-40 | one output line per nickname, in the order given, each formatted from that nickname's account |
| UsersManager.SortedNicks | users_manager.py:38 | the nicknames of the kept accounts, strictly ascending, each exactly once |
| UsersManager.ReadLatest | users_manager.py:13-33 | the reading loop gives the newest account per nickname, or fails when some timestamp does not parse |
| UsersManager.WriteAccounts | users_manager.py:36-40 | the writing loop emits the header followed by one line per nickname, in order |
| UsersManager.CleanUsersFile | users_manager.py:8-40 | no file: nothing happens; a timestamp that does not parse, or that cannot be formatted as a missing date: the file is not rewritten; otherwise the header and one line per nickname with its newest account, sorted by nickname |
| UsersManager.AccountLineStripped | users_manager.py:16-17 | a written account line is unchanged by stripping and is neither blank nor a comment |
| UsersManager.AccountLineFields | users_manager.py:40 | a written account line splits back into its five fields |
| UsersManager.ParseAccountLine | users_manager.py:20-33 | a written account line parses back to the same account |
| UsersManager.HeaderIsComment | users_manager.py:37 | the header line is skipped as a comment when the file is read again |
| UsersManager.ReadBackAccountLines | users_manager.py:14-40 | reading the cleaned output gives back the written accounts in order |
| UsersManager.LatestOfEntries | users_manager.py:27-40 | with distinct nicknames, re-reading the output keeps every written account unchanged |
| UsersManager.CleanedOutputIsStable | users_manager.py:8-40 | cleaning a cleaned file rewrites it to exactly the same lines |
| UsersManager.CleanTwice | users_manager.py:8-40 | running the cleaner twice gives the same file as running it once |
| UsersManager.RenamedLines | users_manager.py:52-60 | the renamed file has the same number of lines, each renamed independently |
| UsersManager.AnyMentionsIff | users_manager.py:54-58 | the `found` flag is set exactly when some line's second field is the old nickname |
| UsersManager.UpdateUserNickname | users_manager.py:42-73 | no file: false and no change; true exactly when some line's second field is the old nickname, and then every line is renamed or stripped in order; otherwise the file is not rewritten |
| UsersManager.RenamedLineFields | users_manager.py:53-57 | in a matching line only the second field changes, to the new nickname |
| UsersManager.RenameBack | users_manager.py:53-60 | renaming a line to an unused nickname and back restores the stripped line |
| UsersManager.RenameToSameNick | users_manager.py:53-60 | renaming a nickname to itself only strips the lines |
| UsersManager.NicksOfFields | users_manager.py:83-91 | the counted nicknames are exactly the second fields of the non-comment lines that have at least two fields |
| UsersManager.IpsOfFields | users_manager.py:83-91 | the counted addresses are exactly the first fields of those lines |
| UsersManager.GetUserStats | users_manager.py:75-93 | no file: zero and zero; otherwise the number of distinct nicknames and distinct addresses |
| UsersManager.AccountLinesNicks | users_manager.py:83-93 | the nicknames counted in a cleaned output are exactly those written |
| UsersManager.AccountLinesIps | users_manager.py:83-93 | the addresses counted in a cleaned output are exactly those of the written accounts |
| UsersManager.CleanedLinesCounted | users_manager.py:83-93 | a cleaned output counts one nickname per kept account, and the kept accounts' addresses |
| UsersManager.StatsAfterCleaning | users_manager.py:95-100 | after cleaning, the statistics count exactly the kept nicknames and their addresses |
| ChatServer.SortedPair | app.py:174 | the two nicknames, in ascending order |
| ChatServer.PrivateRoomName | app.py:175 | a private room name starts with `private_` and is never `general` |
| ChatServer.PrivateRoomNameSymmetric | app.py:174-175 | both participants derive the same room name |
| ChatServer.PrivateRoomNameRest | app.py:175 | after the prefix, the name is the smaller nickname, `_`, and the larger one |
| ChatServer.PrivateRoomNameParts | app.py:174-175 | for nicknames without `_`, the name after the prefix splits into the sorted pair |
| ChatServer.NewPrivateRoom | app.py:179-183 | a new private room has kind `private`, the two users in sorted order as its only members, and the creator as its only admin |
| ChatServer.WithBlock | app.py:248-254 | the peer is blocked afterwards, added once; other users' lists are unchanged |
| ChatServer.CrashingRoom | app.py:245 | removing every `private_` from `private_private_zed` leaves only `zed` |
| ChatServer.BlockTargetAsWrittenCrashes | app.py:245-246 | the room of `private` and `zed` has no second part after every `private_` is removed, so blocking fails for both users |
| ChatServer.BlockTargetFindsPeer | app.py:245-246 | with the prefix removed once, either participant of a private room finds the other |
| ChatServer.BlockTargetReadingsAgree | app.py:245-246 | the handler's reading and the prefix-only reading give the same peer unless `private_` occurs again after the prefix |
| ChatServer.FirstBlockingIsFirst | app.py:86-90 | the ban found is the first matching ban in force, and none is found exactly when no matching ban is in force |
| ChatServer.FindBlockingBan | app.py:86-90 | the loop over the ban list stops at the first matching ban in force |
| ChatServer.ActiveBans | app.py:336-338 | the active list is no longer than the ban list |
| ChatServer.ActiveBansMembers | app.py:336-338 | the active list holds exactly the bans that are permanent or not yet expired |
| ChatServer.ActiveBansStep | app.py:336-338 | the step equation of the active-ban filter: one more ban extends the active list by that ban exactly when it is in force, and leaves it unchanged otherwise |
| ChatServer.Unbanned | app.py:351 | after an unban, exactly the bans of other usernames remain |
| ChatServer.Unrelated | app.py:301 | exactly the bans sharing neither the username nor the address remain |
| ChatServer.WithBan | app.py:300-311 | the new ban is last and is the only entry with that username or that address; every other remaining ban shares neither |
| ChatServer.NewBanActive | app.py:286-293 | no ban is made exactly when the end time is not permanent and cannot be formatted; otherwise the ban is in force forever when permanent, or until `duration` hours have passed |
| ChatServer.UserIpIsFirst | app.py:272-279 | the address is taken from the first line with at least three fields for that user; none exactly when no line has them |
| ChatServer.FindUserIp | app.py:272-281 | the loop over `users.txt` finds that address |
| ChatServer.SpamNeedsRepetition | app.py:457-459 | a text of at most ten characters, or one with three different characters, is never rejected as spam |
| ChatServer.Capped | app.py:473-474 | at most 1000 messages are kept, the newest ones |
| ChatServer.Appended | app.py:466-474 | after an append the room holds at most 1000 messages, the new message last, after the newest earlier ones |
| ChatServer.RemoveAt | app.py:378 | deleting for everyone removes exactly the message at that index and keeps the order of the rest |
| ChatServer.InsertDescending | app.py:136 | inserting into a descending list keeps it descending and adds exactly that element |
| ChatServer.SortedDescending | app.py:136 | `sorted(..., reverse=True)` is a descending permutation of the hidden indices |
| ChatServer.PopEachDescending | app.py:135-138 | popping strictly descending indices skips those out of range and removes exactly the positions in range, keeping the order of the rest |
| ChatServer.Positions | app.py:135-138 | the positions a filtered list keeps: strictly ascending, each in range and not hidden, and every position in range that is not hidden among them |
| ChatServer.WithoutAtPositions | app.py:135-138 | the d-th message left by the filter is the stored message at the d-th position not hidden |
| ChatServer.SortedDistinctIsStrict | app.py:136 | distinct hidden indices sort into a strictly descending list |
| ChatServer.HiddenFilterRemovesExactly | app.py:135-138 | for distinct hidden indices, the filter removes exactly the in-range hidden positions |
| ChatServer.HideMessages | app.py:131-140 | the filtering loop pops the hidden indices from the highest down; for distinct indices exactly those positions go |
| ChatServer.WithHidden | app.py:390-398 | hiding appends the index to the caller's list for that room and changes no other list |
| ChatServer.JoinVerdict | app.py:405-422 | joining general is refused exactly when banned from it; joining another room is refused exactly when the room is unknown or the user is not a member |
| ChatServer.Server.constructor | app.py:19-27 | a fresh install: the start-up code creates every missing file empty, and here every file is missing |
| ChatServer.Server.Login | app.py:72-97 | an empty nickname or password is refused; a matching ban in force (by nickname or address) is refused with its reason; otherwise the credentials line is appended |
| ChatServer.Server.GetRooms | app.py:106-116 | `general` first, then exactly the rooms the user is a member of, each once |
| ChatServer.Server.GetMessages | app.py:118-142 | an empty list for a room other than general the user is not a member of; otherwise the room's messages without the user's hidden ones |
| ChatServer.Server.CreatePrivate | app.py:158-186 | refuses an empty or own nickname, an unknown user, or a user who blocked the caller; otherwise returns the canonical room name and creates the room only if it does not exist |
| ChatServer.Server.CreateGroup | app.py:188-207 | refuses an empty name, `general` or an existing name without change; otherwise adds a group with the creator as sole member and admin |
| ChatServer.Server.DeleteRoom | app.py:209-234 | refuses `general`, unknown rooms and non-admins with their statuses and no change; otherwise removes exactly that room and its messages |
| ChatServer.Server.BlockUser | app.py:236-256 | refuses non-private rooms; otherwise removes every `private_`, splits at `_` and fails with no change when there is no second part; otherwise adds the peer so read to the caller's block list once |
| ChatServer.Server.AdminBanUser | app.py:258-322 | only the admin, only with a username and reason, only for a user with an address; fails with no change when the end time cannot be formatted; otherwise the new ban replaces every ban with that username or address |
| ChatServer.Server.GetBannedUsers | app.py:324-340 | only the admin; the bans in force, in order |
| ChatServer.Server.UnbanUser | app.py:342-354 | only the admin; removes every ban with that username |
| ChatServer.Server.DeleteMessage | app.py:356-403 | an unknown room or an out-of-range index is not found; `all` needs the admin or the author outside general and removes exactly that message; `me` only hides it for the caller |
| ChatServer.Server.OnMessage | app.py:429-479 | drops blank text; refuses a banned author; in general refuses text over 500 characters or spam; otherwise stores the message within the cap and broadcasts `nick: text` |
| ChatClient.Classify | static/main.js:231-241 | a room is private exactly when it starts with `private_`, public exactly when it is `general`, otherwise a group |
| ChatClient.FindOther | static/main.js:233 | the first part that is not the user's nickname, or -1 when every part is |
| ChatClient.PeerOf | static/main.js:232-233 | the displayed peer is the first part that is not the user, or the first part when there is none or that part is empty; it is always one of the parts, and it is the first part whenever it is the user |
| ChatClient.HeadingMatchesListItem | static/main.js:194-211 | the room list and the heading show the same name, and the heading's type is the list's followed by ` Chat` |
| ChatClient.DeleteButtons | static/main.js:280-301 | one flag per message; a button exactly on other users' messages outside general |
| ChatClient.ParsePush | static/main.js:434-437 | a push is accepted exactly when its first `:` is after position 0; the nickname has no `:` and the text is the stripped rest |
| ChatClient.Client.constructor | static/main.js:21-22 | the page opens in general with the stored cache and no send yet |
| ChatClient.Client.JoinRoom | static/main.js:227-242 | the current room becomes the argument, whatever it was, and the heading is derived from it |
| ChatClient.Client.HistoryLoaded | static/main.js:269-276 | the fetched list replaces that room's cache entry and nothing else; the delete buttons shown are those `DeleteButtons` gives for the open room |
| ChatClient.Client.Submit | static/main.js:343-359 | blank input is ignored; in general a send less than 1500 ms after the last one is throttled; otherwise the stripped message is emitted and the time recorded; other rooms are never throttled |
| ChatClient.Client.ReceivePush | static/main.js:432-449 | another user's well-formed push is appended to the open room's cache, creating the entry; own and malformed pushes change nothing |
| ChatClient.Client.RequestRoomDeletion | static/main.js:376-386 | nothing in general or when not confirmed; otherwise the open room's deletion is requested |
| ChatClient.Client.RoomDeletionCompleted | static/main.js:388-396 | on success only the open room's cache entry is dropped and general is joined; on failure nothing changes |
| EndToEnd.PrivateRoomSeenByBoth | static/main.js:231-233 | in a room created by the server, each participant sees the other as its peer |
| EndToEnd.BroadcastParsesBack | app.py:479 | the line the server broadcasts parses on the client to the same author and text |
| EndToEnd.SentMessageArrives | static/main.js:356 | for a non-empty nickname without `:`, a sent message arrives at other clients with its author and its stripped text |
| EndToEnd.BroadcastWithColonNick | static/main.js:434-436 | an author whose nickname contains `:` is misread by the client |
| EndToEnd.DisplayedWithoutHidden | app.py:131-142 | with nothing hidden, the list the client shows is the stored list |
| EndToEnd.DeleteButtonAsWrittenRefused | static/main.js:300 | while the user has hidden nothing in the room, for anyone but the admin, every delete button the client shows names the message shown there, and the server refuses its deletion |
| EndToEnd.DeleteButtonAsWrittenExample | static/main.js:300 | bob sees a delete button on alice's message in the group `team`, and the server refuses bob's delete |
| EndToEnd.DeleteButtonHitsHiddenMessage | static/main.js:315 | once bob has hidden his own first message in `team`, the button on alice's message, shown at position 0, makes the server delete bob's hidden message, and the server grants it |
| EndToEnd.DisplayedIsStored | app.py:365-368 | for distinct hidden indices, the message shown at position d is the stored message at the d-th position not hidden |
| EndToEnd.DeleteButtonMatchesPermission | app.py:373-375 | for distinct hidden indices, the corrected button sent with the stored index is shown only where the server grants the deletion of the message shown, and for non-admins exactly there |

## Left out

- File and network I/O are left out: JSON loading and saving, `users.txt` reading and writing, Socket.IO rooms and events, HTTP routing, sessions, templates and the DOM. Each file is a field or a parameter, and each reply is a result.
- The current time is one parameter `now` per handler. The source calls `time.time()` more than once in `admin_ban_user` and `on_message`; the model assumes each call returns the same time.
- UsersManager.CleanUsersFile: one `now` serves every line without a timestamp. The source calls `time.time()` once per such line, so when two such lines share a nickname, the later one can win there. In the model the first one stays.
- Date formatting (`strftime` with `time.localtime` or `datetime.fromtimestamp`) is an opaque partial function `formatDate`. Where it gives `None` (the library raises, as for a timestamp out of range), `clean_users_file` does not rewrite the file and `admin_ban_user` replies `Crashed` with no ban saved. Which timestamps fail is not modelled.
- Python dictionary and set iteration order is not modelled. `get_rooms` is specified up to the order of the rooms after `general`.
- One `IsSpace` serves both Python `strip()` and JavaScript `trim()`: the six ASCII whitespace characters both remove. Python also strips U+001C to U+001F, which `trim()` keeps. Non-ASCII whitespace is not modelled.
- Text.RemoveAll: its contract states only that the result is no longer than the input. Text.RemoveAllWithoutOccurrence, ChatServer.RemoveAllAtPattern, ChatServer.RemoveAllWithoutPattern and ChatServer.CrashingRoom pin down the cases the model needs.
- Text.ParseInt: accepts surrounding whitespace, an optional `+` or `-` sign and ASCII decimal digits. It differs from Python's `int()` in three ways:
  - it refuses the underscores between digits that `int()` accepts;
  - it refuses the non-ASCII Unicode decimal digits that `int()` accepts, such as `１２` or `١٢`, so for such a timestamp UsersManager.CleanUsersFile leaves the file alone where the source rewrites it;
  - it accepts any number of digits, where current Pythons' `int()` raises `ValueError` beyond 4300 digits, so for such a timestamp the model rewrites the file where the source fails.
- ChatServer.Server.GetMessages: exact removal is proved only for hidden lists without repeated indices. A repeated index pops one message per repetition; the model computes that, but the lemmas do not describe it.
- Missing JSON fields and `.get` defaults are not modelled. Records always carry every field, and a ban always has `until_timestamp`.
- Request fields of other JSON types are not modelled: `duration` and `index` are integers. A float `duration` gives a float end time in the source. A string `duration`, or a missing or non-numeric `index`, raises `TypeError`. Integers are unbounded.
- An unhandled exception is the reply `Crashed` with no change of state. This covers the `IndexError` of `block_user` and a date `admin_ban_user` cannot format. The error page the server then sends is not modelled.
- The `general` ban list read by `on_join` (`is_user_banned`) is a field that no handler writes, as in the source.
- ChatServer.Server.Login: the credentials line `ip,nick,password` is appended as one element of `users`. In the source the password is not stripped, and the stripped nickname can still contain a line break. `f.write` then puts several lines into users.txt. For example, the password `x\n2.2.2.2,eve,y` registers a user `eve` with an address of the caller's choosing, which `get_user_list` and `admin_ban_user`'s address lookup then see. The model keeps one element and does not see `eve`.
- UsersManager.UpdateUserNickname: each renamed line is one element of the rewritten file. A new nickname containing a line break becomes several lines when users.txt is read again, which the model does not capture.
- The exception handler of `update_user_nickname` is not modelled. It only covers I/O errors, which are left out.
- The `/users` and `/search_users` routes are not modelled, nor the `chat` page route, the `leave` event, or the client's user search and suggestions. They hold no state beyond lookups and rendering.
- The `user_banned` and `message_deleted` socket notifications are not modelled, nor the `error` events beyond the returned message.
- The client's `loadRooms` and its `setTimeout` delays are not modelled. A delayed `joinRoom` is treated as immediate.
- `confirm()` dialogs are a boolean parameter. `localStorage` is the cache map itself.
- keepalive.py (a background ping loop) and gunicorn.conf.py (deployment constants) are not part of this model.
- EndToEnd.PrivateRoomSeenByBoth: stated for non-empty, distinct nicknames without `_`. Other names split into more than two parts.
- EndToEnd.BroadcastParsesBack: stated for non-empty nicknames without `:`. EndToEnd.BroadcastWithColonNick proves that other nicknames are misread.
- EndToEnd.SentMessageArrives: stated for non-empty nicknames without `:`, for the same reason.
- EndToEnd.DeleteButtonAsWrittenRefused: stated only while the user has hidden nothing in the room. Otherwise the displayed and the stored positions differ, and EndToEnd.DeleteButtonHitsHiddenMessage shows a click that is granted.
- EndToEnd.DeleteButtonMatchesPermission: stated for hidden lists without repeated indices, like the exact filter of `get_messages`.
- The client keeps no other link between the cache and the server:
  - sending does not echo the message into the local cache;
  - a completed history load does not check which room is open;
  - a push is cached under the room open when it arrives, since pushes carry no room.

## Findings

| source | as written | input that shows it | evidently intended | confidence | as-written member | corrected member |
|---|---|---|---|---|---|---|
| app.py:245 | `room.replace('private_', '')` removes every occurrence of `private_`, not only the prefix | nicknames `private` and `zed`: their room `private_private_zed` becomes `zed`, so `users[1]` raises `IndexError` for both | remove only the leading `private_`, as the client does (static/main.js:232); each participant then finds the other | high (not executed) | ChatServer.BlockTargetAsWrittenCrashes | ChatServer.BlockTargetFindsPeer |
| static/main.js:315 | the delete request carries the message's position in the displayed list, but `delete_message` indexes the stored list (app.py:365-368), from which `get_messages` removed the user's hidden messages (app.py:135-138) | bob hides his own first message in `team`, then clicks the button on alice's message, shown at position 0: the server deletes bob's hidden message at stored index 0 | the request names the message the user clicked, i.e. the stored index of the displayed position | medium (not executed) | EndToEnd.DeleteButtonHitsHiddenMessage | EndToEnd.DisplayedIsStored |
| static/main.js:300 | the per-message delete button is shown on other users' messages (`!isOwnMessage`) and sends type `all` | bob in group `team`, with nothing hidden, on alice's message: the button is shown, and the server refuses (app.py:373-375) | show the button on the user's own messages, which the server lets them delete for everyone outside general | medium (not executed) | EndToEnd.DeleteButtonAsWrittenRefused | EndToEnd.DeleteButtonMatchesPermission |
