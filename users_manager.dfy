/** The maintenance tools for `users.txt` (users_manager.py). The file is a
    sequence of lines `ip,nickname,password[,timestamp[,date]]`; here it is
    `Some(lines)` when it exists and `None` when it does not. Every tool reads
    the whole file and, where it rewrites it, returns the new contents. */
module UsersManager {
  import opened Common
  import opened Text

  /** The first line of a cleaned file. */
  const Header := "# IP,Username,Password,Timestamp,Date"

  /** One account as `clean_users_file` keeps it. */
  datatype Account = Account(ip: string, nick: string, password: string, timestamp: int, date: string)

  /** What one line of the file contributes to `clean_users_file`. */
  datatype LineKind = Skipped | BadTimestamp | Entry(account: Account)

  datatype CleanOutcome =
    | NoFile                         // the file does not exist: nothing happens
    | Failed                         // `int(...)` raised on a timestamp: the file is not rewritten
    | Rewritten(lines: seq<string>)  // the new contents of the file

  datatype Stats = Stats(total: nat, uniqueIps: nat)

  /** `line.startswith('#') or not line` on the stripped line. */
  predicate IsCommentOrBlank(line: string)
  {
    var t := Strip(line);
    t == "" || t[0] == '#'
  }

  // ---------------------------------------------------------------------
  // clean_users_file
  // ---------------------------------------------------------------------

  /** How one line is read. A missing timestamp is the current time `now`, a
      missing date is `formatDate(timestamp)` (`datetime.fromtimestamp` and
      `strftime`, left abstract; `None` where they raise, as for a timestamp
      out of range). */
  function ParseAccount(line: string, now: int, formatDate: int -> Option<string>): LineKind
  {
    if IsCommentOrBlank(line) then Skipped
    else
      var parts := Fields(line);
      if |parts| < 3 then Skipped
      else
        var timestamp := if |parts| > 3 then ParseInt(parts[3]) else Some(now);
        if timestamp.None? then BadTimestamp
        else
          var date := if |parts| > 4 then Some(parts[4]) else formatDate(timestamp.value);
          if date.None? then BadTimestamp
          else Entry(Account(parts[0], parts[1], parts[2], timestamp.value, date.value))
  }

  /** The accounts of the file in order, or `None` if some line's timestamp
      does not parse (the exception aborts the whole run). */
  function Accounts(lines: seq<string>, now: int, formatDate: int -> Option<string>): Option<seq<Account>>
    decreases |lines|
  {
    if |lines| == 0 then Some([])
    else
      match Accounts(lines[..|lines| - 1], now, formatDate)
      case None => None
      case Some(earlier) =>
        match ParseAccount(lines[|lines| - 1], now, formatDate)
        case Skipped => Some(earlier)
        case BadTimestamp => None
        case Entry(a) => Some(earlier + [a])
  }

  /** One step of the dictionary update: a later entry replaces the kept one
      only if its timestamp is strictly larger. */
  function KeepLatest(users: map<string, Account>, a: Account): map<string, Account>
  {
    if a.nick !in users || users[a.nick].timestamp < a.timestamp then users[a.nick := a] else users
  }

  /** The `users` dictionary after reading all accounts. */
  function Latest(accounts: seq<Account>): map<string, Account>
    decreases |accounts|
  {
    if |accounts| == 0 then map[]
    else KeepLatest(Latest(accounts[..|accounts| - 1]), accounts[|accounts| - 1])
  }

  /** `accounts[i]` is the entry kept for `nick`: its timestamp is the largest
      for that nickname, and every earlier entry for it has a smaller one. */
  ghost predicate IsLatest(accounts: seq<Account>, nick: string, i: int)
  {
    && 0 <= i < |accounts|
    && accounts[i].nick == nick
    && (forall j :: 0 <= j < |accounts| && accounts[j].nick == nick ==> accounts[j].timestamp <= accounts[i].timestamp)
    && (forall j :: 0 <= j < i && accounts[j].nick == nick ==> accounts[j].timestamp < accounts[i].timestamp)
  }

  /** The dictionary has one key per nickname that occurs in the accounts. */
  lemma {:induction false} LatestKeys(accounts: seq<Account>)
    ensures forall nick :: nick in Latest(accounts) <==> exists i :: 0 <= i < |accounts| && accounts[i].nick == nick
    decreases |accounts|
  {
    if |accounts| > 0 {
      var n := |accounts| - 1;
      var earlier := accounts[..n];
      LatestKeys(earlier);
      forall nick ensures nick in Latest(accounts) <==> exists i :: 0 <= i < |accounts| && accounts[i].nick == nick {
        if nick in Latest(earlier) {
          var i :| 0 <= i < n && earlier[i].nick == nick;
          assert accounts[i].nick == nick;
        }
        if exists i :: 0 <= i < |accounts| && accounts[i].nick == nick {
          var i :| 0 <= i < |accounts| && accounts[i].nick == nick;
          if i < n {
            assert earlier[i].nick == nick;
          }
        }
      }
    }
  }

  /** De-duplication: for each nickname the dictionary holds the latest entry,
      the first one among entries with equal timestamps. */
  lemma {:induction false} LatestKeepsNewest(accounts: seq<Account>, nick: string)
    requires nick in Latest(accounts)
    ensures exists i :: IsLatest(accounts, nick, i) && Latest(accounts)[nick] == accounts[i]
    decreases |accounts|
  {
    var n := |accounts| - 1;
    var earlier := accounts[..n];
    var a := accounts[n];
    var m := Latest(earlier);
    assert accounts == earlier + [a];
    if nick != a.nick {
      LatestKeepsNewest(earlier, nick);
      var i :| IsLatest(earlier, nick, i) && m[nick] == earlier[i];
      IsLatestKept(earlier, a, nick, i);
    } else if nick !in m {
      LatestKeys(earlier);
      IsLatestFirst(earlier, a);
    } else {
      LatestKeepsNewest(earlier, nick);
      var i :| IsLatest(earlier, nick, i) && m[nick] == earlier[i];
      if m[nick].timestamp < a.timestamp {
        IsLatestReplaced(earlier, a, i);
      } else {
        IsLatestKept(earlier, a, nick, i);
      }
    }
  }

  /** An entry that stays the latest when another one follows. */
  lemma IsLatestKept(earlier: seq<Account>, a: Account, nick: string, i: int)
    requires IsLatest(earlier, nick, i)
    requires a.nick == nick ==> a.timestamp <= earlier[i].timestamp
    ensures IsLatest(earlier + [a], nick, i)
  {
    var accounts := earlier + [a];
    assert forall j :: 0 <= j < |earlier| ==> accounts[j] == earlier[j];
  }

  /** The first entry for a nickname is its latest so far. */
  lemma IsLatestFirst(earlier: seq<Account>, a: Account)
    requires forall j :: 0 <= j < |earlier| ==> earlier[j].nick != a.nick
    ensures IsLatest(earlier + [a], a.nick, |earlier|)
  {
    var accounts := earlier + [a];
    assert forall j :: 0 <= j < |earlier| ==> accounts[j] == earlier[j];
  }

  /** A strictly newer entry replaces the latest one. */
  lemma IsLatestReplaced(earlier: seq<Account>, a: Account, i: int)
    requires IsLatest(earlier, a.nick, i) && earlier[i].timestamp < a.timestamp
    ensures IsLatest(earlier + [a], a.nick, |earlier|)
  {
    var accounts := earlier + [a];
    assert forall j :: 0 <= j < |earlier| ==> accounts[j] == earlier[j];
  }

  /** `f"{ip},{nick},{password},{timestamp},{date}"`. */
  function AccountLine(nick: string, a: Account): string
  {
    a.ip + "," + nick + "," + a.password + "," + IntToString(a.timestamp) + "," + a.date
  }

  /** The account lines for `nicks`, in that order. */
  function AccountLines(users: map<string, Account>, nicks: seq<string>): (lines: seq<string>)
    requires forall i :: 0 <= i < |nicks| ==> nicks[i] in users
    ensures |lines| == |nicks|
    ensures forall i :: 0 <= i < |nicks| ==> lines[i] == AccountLine(nicks[i], users[nicks[i]])
    decreases |nicks|
  {
    if |nicks| == 0 then []
    else
      var last := nicks[|nicks| - 1];
      AccountLines(users, nicks[..|nicks| - 1]) + [AccountLine(last, users[last])]
  }

  /** What `clean_users_file` leaves behind. */
  ghost function CleanedFile(file: Option<seq<string>>, now: int, formatDate: int -> Option<string>): CleanOutcome
  {
    match file
    case None => NoFile
    case Some(lines) =>
      match Accounts(lines, now, formatDate)
      case None => Failed
      case Some(accounts) =>
        var users := Latest(accounts);
        Rewritten([Header] + AccountLines(users, Ordered(users.Keys)))
  }

  /** Reading one more line. */
  lemma AccountsExtend(lines: seq<string>, i: nat, now: int, formatDate: int -> Option<string>)
    requires i < |lines|
    ensures Accounts(lines[..i + 1], now, formatDate) ==
      match Accounts(lines[..i], now, formatDate)
      case None => None
      case Some(earlier) =>
        match ParseAccount(lines[i], now, formatDate)
        case Skipped => Some(earlier)
        case BadTimestamp => None
        case Entry(a) => Some(earlier + [a])
  {
    assert lines[..i + 1][..i] == lines[..i];
    assert lines[..i + 1][i] == lines[i];
  }

  /** A line whose timestamp cannot be parsed aborts the run, wherever it is. */
  lemma {:induction false} AccountsFailurePersists(lines: seq<string>, k: nat, now: int, formatDate: int -> Option<string>)
    requires k <= |lines| && Accounts(lines[..k], now, formatDate).None?
    ensures Accounts(lines, now, formatDate).None?
    decreases |lines| - k
  {
    if k < |lines| {
      assert lines[..k + 1][..k] == lines[..k];
      AccountsFailurePersists(lines, k + 1, now, formatDate);
    } else {
      assert lines[..k] == lines;
    }
  }

  /** Python's `sorted(users.keys())`. */
  method SortedNicks(users: map<string, Account>) returns (nicks: seq<string>)
    ensures StrictlySorted(nicks)
    ensures forall n :: n in nicks <==> n in users
  {
    nicks := [];
    var rest := users.Keys;
    while rest != {}
      invariant rest <= users.Keys
      invariant StrictlySorted(nicks)
      invariant forall n :: n in nicks <==> n in users && n !in rest
      decreases rest
    {
      var n :| n in rest;
      nicks := Insert(nicks, n);
      rest := rest - {n};
    }
  }

  /** The reading loop of `clean_users_file`: the dictionary of latest
      entries, or `None` when a timestamp fails to parse. */
  method ReadLatest(lines: seq<string>, now: int, formatDate: int -> Option<string>) returns (result: Option<map<string, Account>>)
    ensures Accounts(lines, now, formatDate).None? ==> result.None?
    ensures Accounts(lines, now, formatDate).Some? ==> result == Some(Latest(Accounts(lines, now, formatDate).value))
  {
    var users: map<string, Account> := map[];
    ghost var accounts: seq<Account> := [];
    var i := 0;
    while i < |lines|
      invariant 0 <= i <= |lines|
      invariant Accounts(lines[..i], now, formatDate) == Some(accounts)
      invariant users == Latest(accounts)
    {
      var kind := ParseAccount(lines[i], now, formatDate);
      ReadStep(lines, i, now, formatDate, accounts);
      if kind.BadTimestamp? {
        return None;
      }
      if kind.Entry? {
        var entry := kind.account;
        // keep only the latest entry for each nickname
        if entry.nick !in users || users[entry.nick].timestamp < entry.timestamp {
          users := users[entry.nick := entry];
        }
        accounts := accounts + [entry];
      }
      i := i + 1;
    }
    assert lines[..|lines|] == lines;
    return Some(users);
  }

  /** One iteration of the reading loop: what the next line does to the
      accounts read so far and to their dictionary. */
  lemma ReadStep(lines: seq<string>, i: nat, now: int, formatDate: int -> Option<string>, accounts: seq<Account>)
    requires i < |lines| && Accounts(lines[..i], now, formatDate) == Some(accounts)
    ensures var kind := ParseAccount(lines[i], now, formatDate);
      && (kind.BadTimestamp? ==> Accounts(lines, now, formatDate).None?)
      && (kind.Skipped? ==> Accounts(lines[..i + 1], now, formatDate) == Some(accounts))
      && (kind.Entry? ==> Accounts(lines[..i + 1], now, formatDate) == Some(accounts + [kind.account]))
      && (kind.Entry? ==> Latest(accounts + [kind.account]) == KeepLatest(Latest(accounts), kind.account))
  {
    AccountsExtend(lines, i, now, formatDate);
    var kind := ParseAccount(lines[i], now, formatDate);
    if kind.BadTimestamp? {
      AccountsFailurePersists(lines, i + 1, now, formatDate);
    }
    if kind.Entry? {
      LatestSnoc(accounts, kind.account);
    }
  }

  /** The dictionary after one more account. */
  lemma LatestSnoc(accounts: seq<Account>, a: Account)
    ensures Latest(accounts + [a]) == KeepLatest(Latest(accounts), a)
  {
    assert (accounts + [a])[..|accounts|] == accounts;
  }

  /** The writing loop of `clean_users_file`: the header, then one line per
      nickname of `nicks`, in that order. */
  method WriteAccounts(users: map<string, Account>, nicks: seq<string>) returns (written: seq<string>)
    requires forall i :: 0 <= i < |nicks| ==> nicks[i] in users
    ensures written == [Header] + AccountLines(users, nicks)
  {
    written := [Header];
    var j := 0;
    while j < |nicks|
      invariant 0 <= j <= |nicks|
      invariant written == [Header] + AccountLines(users, nicks[..j])
    {
      WriteStep(users, nicks, j);
      written := written + [AccountLine(nicks[j], users[nicks[j]])];
      j := j + 1;
    }
    assert nicks[..|nicks|] == nicks;
  }

  /** One iteration of the writing loop. */
  lemma WriteStep(users: map<string, Account>, nicks: seq<string>, j: nat)
    requires forall i :: 0 <= i < |nicks| ==> nicks[i] in users
    requires j < |nicks|
    ensures [Header] + AccountLines(users, nicks[..j + 1]) ==
      [Header] + AccountLines(users, nicks[..j]) + [AccountLine(nicks[j], users[nicks[j]])]
  {
    assert nicks[..j + 1][..j] == nicks[..j];
  }

  /** `clean_users_file`: one line per nickname, latest entry kept, sorted. */
  method CleanUsersFile(file: Option<seq<string>>, now: int, formatDate: int -> Option<string>) returns (outcome: CleanOutcome)
    ensures outcome == CleanedFile(file, now, formatDate)
  {
    if file.None? {
      return NoFile;
    }
    var read := ReadLatest(file.value, now, formatDate);
    if read.None? {
      return Failed;
    }
    var users := read.value;
    var nicks := SortedNicks(users);
    SortedUnique(nicks, Ordered(users.Keys));
    var written := WriteAccounts(users, nicks);
    return Rewritten(written);
  }

  // ---------------------------------------------------------------------
  // Reading a cleaned file back
  // ---------------------------------------------------------------------

  /** An account whose line reads back as itself: no field holds a comma, the
      line neither starts with whitespace or `#` nor ends with whitespace. */
  predicate Writable(a: Account)
  {
    && ',' !in a.ip && ',' !in a.nick && ',' !in a.password && ',' !in a.date
    && (|a.ip| > 0 ==> !IsSpace(a.ip[0]) && a.ip[0] != '#')
    && (|a.date| > 0 ==> !IsSpace(a.date[|a.date| - 1]))
  }

  /** A written account line needs no stripping and is not a comment. */
  lemma AccountLineStripped(a: Account)
    requires Writable(a)
    ensures Strip(AccountLine(a.nick, a)) == AccountLine(a.nick, a)
    ensures !IsCommentOrBlank(AccountLine(a.nick, a))
  {
    var line := AccountLine(a.nick, a);
    var rest := a.nick + "," + a.password + "," + IntToString(a.timestamp) + ",";
    assert line == a.ip + "," + rest + a.date;
    assert line[0] == if |a.ip| > 0 then a.ip[0] else ',';
    assert line[|line| - 1] == if |a.date| > 0 then a.date[|a.date| - 1] else ',';
    StripUnchanged(line);
  }

  /** Splitting separator-free fields joined by commas. */
  lemma SplitFive(f0: string, f1: string, f2: string, f3: string, f4: string)
    requires ',' !in f0 && ',' !in f1 && ',' !in f2 && ',' !in f3 && ',' !in f4
    ensures Split(f0 + "," + f1 + "," + f2 + "," + f3 + "," + f4, ',') == [f0, f1, f2, f3, f4]
  {
    var s4 := f3 + [','] + f4;
    var s3 := f2 + [','] + s4;
    var s2 := f1 + [','] + s3;
    assert f0 + "," + f1 + "," + f2 + "," + f3 + "," + f4 == f0 + [','] + s2;
    SplitWithoutSep(f4, ',');
    SplitAtSep(f3, ',', f4);
    SplitAtSep(f2, ',', s4);
    SplitAtSep(f1, ',', s3);
    SplitAtSep(f0, ',', s2);
  }

  /** The fields of a written account line are the account's fields. */
  lemma AccountLineFields(a: Account)
    requires Writable(a)
    ensures !IsCommentOrBlank(AccountLine(a.nick, a))
    ensures Fields(AccountLine(a.nick, a)) == [a.ip, a.nick, a.password, IntToString(a.timestamp), a.date]
  {
    AccountLineStripped(a);
    var ts := IntToString(a.timestamp);
    assert ',' !in ts;
    SplitFive(a.ip, a.nick, a.password, ts, a.date);
  }

  /** A written account line is read back as the same account. */
  lemma ParseAccountLine(a: Account, now: int, formatDate: int -> Option<string>)
    requires Writable(a)
    ensures ParseAccount(AccountLine(a.nick, a), now, formatDate) == Entry(a)
  {
    AccountLineFields(a);
    IntRoundTrip(a.timestamp);
  }

  /** The header of a cleaned file is a comment. */
  lemma HeaderIsComment()
    ensures IsCommentOrBlank(Header)
  {
    StripUnchanged(Header);
  }

  /** The accounts `users[nicks[0]], users[nicks[1]], ...`. */
  function Entries(users: map<string, Account>, nicks: seq<string>): (r: seq<Account>)
    requires forall i :: 0 <= i < |nicks| ==> nicks[i] in users
    decreases |nicks|
  {
    if |nicks| == 0 then []
    else
      var last := nicks[|nicks| - 1];
      Entries(users, nicks[..|nicks| - 1]) + [users[last]]
  }

  /** A dictionary of writable accounts, each stored under its nickname. */
  ghost predicate WritableUsers(users: map<string, Account>)
  {
    forall n :: n in users ==> users[n].nick == n && Writable(users[n])
  }

  /** Reading the header and the account lines of `nicks` gives their accounts. */
  lemma {:induction false} ReadBackAccountLines(users: map<string, Account>, nicks: seq<string>, now: int, formatDate: int -> Option<string>)
    requires WritableUsers(users)
    requires forall i :: 0 <= i < |nicks| ==> nicks[i] in users
    ensures Accounts([Header] + AccountLines(users, nicks), now, formatDate) == Some(Entries(users, nicks))
    decreases |nicks|
  {
    var lines := [Header] + AccountLines(users, nicks);
    if |nicks| == 0 {
      assert lines == [Header];
      HeaderIsComment();
      assert lines[..0] == [];
    } else {
      var n := |nicks| - 1;
      ReadBackAccountLines(users, nicks[..n], now, formatDate);
      assert lines[..|lines| - 1] == [Header] + AccountLines(users, nicks[..n]);
      ParseAccountLine(users[nicks[n]], now, formatDate);
    }
  }

  /** Accounts with distinct nicknames are all kept. */
  lemma {:induction false} LatestOfEntries(users: map<string, Account>, nicks: seq<string>)
    requires WritableUsers(users)
    requires Distinct(nicks)
    requires forall i :: 0 <= i < |nicks| ==> nicks[i] in users
    ensures forall n :: n in Latest(Entries(users, nicks)) <==> n in nicks
    ensures forall n :: n in nicks ==> Latest(Entries(users, nicks))[n] == users[n]
    decreases |nicks|
  {
    if |nicks| > 0 {
      var n := |nicks| - 1;
      var earlier := nicks[..n];
      DistinctInit(nicks);
      LatestOfEntries(users, earlier);
      var prev := Entries(users, earlier);
      assert Entries(users, nicks) == prev + [users[nicks[n]]];
      LatestSnoc(prev, users[nicks[n]]);
    }
  }

  /** A strictly sorted sequence has no repetitions. */
  lemma SortedIsDistinct(s: seq<string>)
    requires StrictlySorted(s)
    ensures Distinct(s)
  {
    forall i, j | 0 <= i < j < |s| ensures s[i] != s[j] {
      StrLessIrreflexive(s[i]);
    }
  }

  /** Cleaning a cleaned dictionary of writable accounts changes nothing. */
  lemma CleanedOutputIsStable(users: map<string, Account>, now: int, formatDate: int -> Option<string>)
    requires WritableUsers(users)
    ensures var lines := [Header] + AccountLines(users, Ordered(users.Keys));
      CleanedFile(Some(lines), now, formatDate) == Rewritten(lines)
  {
    StableRead(users, now, formatDate);
  }

  /** The cleaned file of a dictionary reads back as entries whose dictionary
      is the same one. */
  lemma StableRead(users: map<string, Account>, now: int, formatDate: int -> Option<string>)
    requires WritableUsers(users)
    ensures var nicks := Ordered(users.Keys);
      && Accounts([Header] + AccountLines(users, nicks), now, formatDate) == Some(Entries(users, nicks))
      && Latest(Entries(users, nicks)) == users
  {
    ReadBackAccountLines(users, Ordered(users.Keys), now, formatDate);
    LatestOfOrdered(users);
  }

  /** The accounts of all keys, in ascending order, give back the dictionary. */
  lemma LatestOfOrdered(users: map<string, Account>)
    requires WritableUsers(users)
    ensures Latest(Entries(users, Ordered(users.Keys))) == users
  {
    SortedIsDistinct(Ordered(users.Keys));
    LatestOfAllKeys(users, Ordered(users.Keys));
  }

  /** The same for any order of the keys without repetitions. */
  lemma LatestOfAllKeys(users: map<string, Account>, nicks: seq<string>)
    requires WritableUsers(users) && Distinct(nicks)
    requires forall n :: n in nicks <==> n in users
    ensures Latest(Entries(users, nicks)) == users
  {
    LatestOfEntries(users, nicks);
    var m := Latest(Entries(users, nicks));
    assert m.Keys == users.Keys;
  }

  /** Every kept account is stored under its own nickname. */
  lemma LatestStoredByNick(accounts: seq<Account>)
    ensures forall n :: n in Latest(accounts) ==> Latest(accounts)[n].nick == n && Latest(accounts)[n] in accounts
  {
    forall n | n in Latest(accounts) ensures Latest(accounts)[n].nick == n && Latest(accounts)[n] in accounts {
      LatestKeepsNewest(accounts, n);
    }
  }

  /** `clean_users_file` is idempotent when every account it reads is writable:
      a second run rewrites the file with the same contents. */
  lemma CleanTwice(file: Option<seq<string>>, now: int, formatDate: int -> Option<string>)
    requires CleanedFile(file, now, formatDate).Rewritten?
    requires forall a :: a in Accounts(file.value, now, formatDate).value ==> Writable(a)
    ensures CleanedFile(Some(CleanedFile(file, now, formatDate).lines), now, formatDate) == CleanedFile(file, now, formatDate)
  {
    var users := Latest(Accounts(file.value, now, formatDate).value);
    LatestStoredByNick(Accounts(file.value, now, formatDate).value);
    CleanedOutputIsStable(users, now, formatDate);
  }

  // ---------------------------------------------------------------------
  // update_user_nickname
  // ---------------------------------------------------------------------

  /** The line's second field is `nick`. Comment lines are not exempt. */
  predicate MentionsNick(line: string, nick: string)
  {
    var parts := Fields(line);
    |parts| >= 2 && parts[1] == nick
  }

  /** The line `update_user_nickname` writes for `line`. */
  function RenamedLine(line: string, oldNick: string, newNick: string): string
  {
    var parts := Fields(line);
    if |parts| >= 2 && parts[1] == oldNick then Join(parts[1 := newNick], ',') else Strip(line)
  }

  /** The whole rewritten file. */
  function RenamedLines(lines: seq<string>, oldNick: string, newNick: string): (r: seq<string>)
    ensures |r| == |lines|
    ensures forall i :: 0 <= i < |lines| ==> r[i] == RenamedLine(lines[i], oldNick, newNick)
    decreases |lines|
  {
    if |lines| == 0 then []
    else
      var init := lines[..|lines| - 1];
      assert forall i :: 0 <= i < |init| ==> init[i] == lines[i];
      RenamedLines(init, oldNick, newNick) + [RenamedLine(lines[|lines| - 1], oldNick, newNick)]
  }

  /** Renaming one more line. */
  lemma RenamedLinesExtend(lines: seq<string>, i: nat, oldNick: string, newNick: string)
    requires i < |lines|
    ensures RenamedLines(lines[..i + 1], oldNick, newNick) == RenamedLines(lines[..i], oldNick, newNick) + [RenamedLine(lines[i], oldNick, newNick)]
  {
    assert lines[..i + 1][..i] == lines[..i];
  }

  /** Some line names `nick`, checked from the last line backwards. */
  function AnyMentions(lines: seq<string>, nick: string): bool
    decreases |lines|
  {
    |lines| > 0 && (AnyMentions(lines[..|lines| - 1], nick) || MentionsNick(lines[|lines| - 1], nick))
  }

  /** `AnyMentions` is the existential it abbreviates. */
  lemma {:induction false} AnyMentionsIff(lines: seq<string>, nick: string)
    ensures AnyMentions(lines, nick) <==> exists k :: 0 <= k < |lines| && MentionsNick(lines[k], nick)
    decreases |lines|
  {
    if |lines| > 0 {
      var init := lines[..|lines| - 1];
      AnyMentionsIff(init, nick);
      assert forall k :: 0 <= k < |init| ==> init[k] == lines[k];
    }
  }

  /** One iteration of the renaming loop, in terms of the line's fields. */
  lemma RenameStep(lines: seq<string>, i: nat, oldNick: string, newNick: string)
    requires i < |lines|
    ensures var parts := Split(Strip(lines[i]), ',');
      var hit := |parts| >= 2 && parts[1] == oldNick;
      && RenamedLines(lines[..i + 1], oldNick, newNick) ==
           RenamedLines(lines[..i], oldNick, newNick) + [if hit then Join(parts[1 := newNick], ',') else Strip(lines[i])]
      && AnyMentions(lines[..i + 1], oldNick) == (AnyMentions(lines[..i], oldNick) || hit)
  {
    RenamedLinesExtend(lines, i, oldNick, newNick);
    assert lines[..i + 1][..i] == lines[..i];
  }

  /** `update_user_nickname`: `updated` is the returned flag and `after` the
      file afterwards. The file is rewritten only if some line names
      `oldNick`; then every line is stripped and those lines are renamed. */
  method UpdateUserNickname(file: Option<seq<string>>, oldNick: string, newNick: string)
    returns (updated: bool, after: Option<seq<string>>)
    ensures file.None? ==> !updated && after.None?
    ensures file.Some? ==> (updated <==> exists i :: 0 <= i < |file.value| && MentionsNick(file.value[i], oldNick))
    ensures updated ==> after == Some(RenamedLines(file.value, oldNick, newNick))
    ensures !updated ==> after == file
  {
    if file.None? {
      return false, None;
    }
    var lines := file.value;
    var updatedLines: seq<string> := [];
    var found := false;
    var i := 0;
    while i < |lines|
      invariant 0 <= i <= |lines|
      invariant updatedLines == RenamedLines(lines[..i], oldNick, newNick)
      invariant found == AnyMentions(lines[..i], oldNick)
    {
      RenameStep(lines, i, oldNick, newNick);
      var parts := Split(Strip(lines[i]), ',');
      if |parts| >= 2 && parts[1] == oldNick {
        parts := parts[1 := newNick];
        updatedLines := updatedLines + [Join(parts, ',')];
        found := true;
      } else {
        updatedLines := updatedLines + [Strip(lines[i])];
      }
      i := i + 1;
    }
    assert lines[..|lines|] == lines;
    AnyMentionsIff(lines, oldNick);
    if found {
      return true, Some(updatedLines);
    }
    return false, file;
  }

  /** A joined line of at least two fields, taken apart at its second field. */
  lemma JoinAtSecond(parts: seq<string>)
    requires |parts| >= 2
    ensures Join(parts, ',') == parts[0] + [','] + parts[1] + (if |parts| == 2 then "" else [','] + Join(parts[2..], ','))
  {
    var rest := parts[1..];
    assert rest[0] == parts[1] && rest[1..] == parts[2..];
    assert Join(parts, ',') == parts[0] + [','] + Join(rest, ',');
    if |parts| > 2 {
      assert Join(rest, ',') == parts[1] + [','] + Join(parts[2..], ',');
    }
  }

  /** Renaming keeps the other fields: the renamed line's fields are the old
      ones with the second replaced, when the new nickname holds no comma
      and does not end in whitespace. */
  lemma RenamedLineFields(line: string, oldNick: string, newNick: string)
    requires MentionsNick(line, oldNick)
    requires ',' !in newNick && (|newNick| > 0 ==> !IsSpace(newNick[|newNick| - 1]))
    ensures Fields(RenamedLine(line, oldNick, newNick)) == Fields(line)[1 := newNick]
  {
    var parts := Fields(line);
    var renamed := parts[1 := newNick];
    var r := Join(renamed, ',');
    var t := Strip(line);
    JoinSplit(t, ',');
    JoinAtSecond(parts);
    JoinAtSecond(renamed);
    assert renamed[2..] == parts[2..];
    var tail := if |parts| == 2 then "" else [','] + Join(parts[2..], ',');
    assert t == parts[0] + [','] + oldNick + tail;
    assert r == parts[0] + [','] + newNick + tail;
    assert r[0] == if |parts[0]| > 0 then t[0] else ',';
    if |tail| > 0 {
      assert r[|r| - 1] == tail[|tail| - 1] == t[|t| - 1];
    } else {
      assert r[|r| - 1] == if |newNick| > 0 then newNick[|newNick| - 1] else ',';
    }
    StripUnchanged(r);
    SplitJoin(renamed, ',');
  }

  /** Renaming twice: with a new nickname that no line used, renaming back
      restores every line (up to the stripping the rename does anyway). */
  lemma RenameBack(line: string, oldNick: string, newNick: string)
    requires !MentionsNick(line, newNick)
    requires ',' !in oldNick && (|oldNick| > 0 ==> !IsSpace(oldNick[|oldNick| - 1]))
    requires ',' !in newNick && (|newNick| > 0 ==> !IsSpace(newNick[|newNick| - 1]))
    ensures RenamedLine(RenamedLine(line, oldNick, newNick), newNick, oldNick) == Strip(line)
  {
    var parts := Fields(line);
    if |parts| >= 2 && parts[1] == oldNick {
      RenamedLineFields(line, oldNick, newNick);
      var once := RenamedLine(line, oldNick, newNick);
      assert Fields(once)[1 := oldNick] == parts;
      JoinSplit(Strip(line), ',');
    } else {
      StripIdempotent(line);
    }
  }

  /** Renaming a nickname to itself only strips the lines. */
  lemma RenameToSameNick(line: string, nick: string)
    ensures RenamedLine(line, nick, nick) == Strip(line)
  {
    var parts := Fields(line);
    if |parts| >= 2 && parts[1] == nick {
      assert parts[1 := nick] == parts;
      JoinSplit(Strip(line), ',');
    }
  }

  // ---------------------------------------------------------------------
  // get_user_stats
  // ---------------------------------------------------------------------

  /** A line `get_user_stats` counts: not a comment or blank, two fields at least. */
  predicate Counted(line: string)
  {
    !IsCommentOrBlank(line) && |Fields(line)| >= 2
  }

  /** The nicknames of the counted lines. */
  function NicksOf(lines: seq<string>): set<string>
    decreases |lines|
  {
    if |lines| == 0 then {}
    else
      var last := lines[|lines| - 1];
      NicksOf(lines[..|lines| - 1]) + if Counted(last) then {Fields(last)[1]} else {}
  }

  /** The IP addresses of the counted lines. */
  function IpsOf(lines: seq<string>): set<string>
    decreases |lines|
  {
    if |lines| == 0 then {}
    else
      var last := lines[|lines| - 1];
      IpsOf(lines[..|lines| - 1]) + if Counted(last) then {Fields(last)[0]} else {}
  }

  /** `NicksOf` holds exactly the second fields of the counted lines. */
  lemma {:induction false} NicksOfFields(lines: seq<string>)
    ensures forall n :: n in NicksOf(lines) <==> exists i :: 0 <= i < |lines| && Counted(lines[i]) && Fields(lines[i])[1] == n
    decreases |lines|
  {
    if |lines| > 0 {
      var k := |lines| - 1;
      var init := lines[..k];
      NicksOfFields(init);
      forall n | exists i :: 0 <= i < |lines| && Counted(lines[i]) && Fields(lines[i])[1] == n
        ensures n in NicksOf(lines)
      {
        var i :| 0 <= i < |lines| && Counted(lines[i]) && Fields(lines[i])[1] == n;
        if i < k {
          assert init[i] == lines[i];
        }
      }
      forall n | n in NicksOf(init) ensures exists i :: 0 <= i < |lines| && Counted(lines[i]) && Fields(lines[i])[1] == n {
        var i :| 0 <= i < k && Counted(init[i]) && Fields(init[i])[1] == n;
        assert init[i] == lines[i];
      }
    }
  }

  /** `IpsOf` holds exactly the first fields of the counted lines. */
  lemma {:induction false} IpsOfFields(lines: seq<string>)
    ensures forall ip :: ip in IpsOf(lines) <==> exists i :: 0 <= i < |lines| && Counted(lines[i]) && Fields(lines[i])[0] == ip
    decreases |lines|
  {
    if |lines| > 0 {
      var k := |lines| - 1;
      var init := lines[..k];
      IpsOfFields(init);
      forall ip | exists i :: 0 <= i < |lines| && Counted(lines[i]) && Fields(lines[i])[0] == ip
        ensures ip in IpsOf(lines)
      {
        var i :| 0 <= i < |lines| && Counted(lines[i]) && Fields(lines[i])[0] == ip;
        if i < k {
          assert init[i] == lines[i];
        }
      }
      forall ip | ip in IpsOf(init) ensures exists i :: 0 <= i < |lines| && Counted(lines[i]) && Fields(lines[i])[0] == ip {
        var i :| 0 <= i < k && Counted(init[i]) && Fields(init[i])[0] == ip;
        assert init[i] == lines[i];
      }
    }
  }

  /** Counting one more line. */
  lemma CountExtend(lines: seq<string>, i: nat)
    requires i < |lines|
    ensures NicksOf(lines[..i + 1]) == NicksOf(lines[..i]) + if Counted(lines[i]) then {Fields(lines[i])[1]} else {}
    ensures IpsOf(lines[..i + 1]) == IpsOf(lines[..i]) + if Counted(lines[i]) then {Fields(lines[i])[0]} else {}
  {
    assert lines[..i + 1][..i] == lines[..i];
  }

  /** `get_user_stats`: `total` distinct nicknames and `uniqueIps` distinct
      IP addresses over the counted lines; zero for a missing file. */
  method GetUserStats(file: Option<seq<string>>) returns (stats: Stats)
    ensures file.None? ==> stats == Stats(0, 0)
    ensures file.Some? ==> stats == Stats(|NicksOf(file.value)|, |IpsOf(file.value)|)
  {
    if file.None? {
      return Stats(0, 0);
    }
    var lines := file.value;
    var users: set<string> := {};
    var ips: set<string> := {};
    var i := 0;
    while i < |lines|
      invariant 0 <= i <= |lines|
      invariant users == NicksOf(lines[..i]) && ips == IpsOf(lines[..i])
    {
      CountExtend(lines, i);
      var line := Strip(lines[i]);
      if !(line == "" || line[0] == '#') {
        var parts := Split(line, ',');
        if |parts| >= 2 {
          ips := ips + {parts[0]};
          users := users + {parts[1]};
        }
      }
      i := i + 1;
    }
    assert lines[..|lines|] == lines;
    return Stats(|users|, |ips|);
  }

  /** The header and the account lines of `nicks`, one more line at a time. */
  lemma AccountLinesSnoc(users: map<string, Account>, nicks: seq<string>)
    requires forall i :: 0 <= i < |nicks| ==> nicks[i] in users
    requires |nicks| > 0
    ensures var n := |nicks| - 1;
      [Header] + AccountLines(users, nicks) == [Header] + AccountLines(users, nicks[..n]) + [AccountLine(nicks[n], users[nicks[n]])]
  {
  }

  /** Counting a file with one more line. */
  lemma CountSnoc(lines: seq<string>, line: string)
    ensures NicksOf(lines + [line]) == NicksOf(lines) + if Counted(line) then {Fields(line)[1]} else {}
    ensures IpsOf(lines + [line]) == IpsOf(lines) + if Counted(line) then {Fields(line)[0]} else {}
  {
    assert (lines + [line])[..|lines|] == lines;
  }

  /** A written account line is counted with its nickname and address. */
  lemma AccountLineCounted(a: Account)
    requires Writable(a)
    ensures Counted(AccountLine(a.nick, a))
    ensures Fields(AccountLine(a.nick, a))[0] == a.ip && Fields(AccountLine(a.nick, a))[1] == a.nick
  {
    AccountLineFields(a);
  }

  /** The header alone counts nothing. */
  lemma HeaderCountsNothing()
    ensures NicksOf([Header]) == {} && IpsOf([Header]) == {}
  {
    HeaderIsComment();
    CommentCountsNothing(Header);
  }

  /** Neither does any comment line alone. */
  lemma CommentCountsNothing(line: string)
    requires IsCommentOrBlank(line)
    ensures NicksOf([line]) == {} && IpsOf([line]) == {}
  {
    assert [line][..0] == [];
  }

  /** The members of a nonempty sequence: those of its front and its last. */
  lemma SetOfSnoc(s: seq<string>)
    requires |s| > 0
    ensures var init := s[..|s| - 1]; (set x | x in s) == (set x | x in init) + {s[|s| - 1]}
  {
    assert s == s[..|s| - 1] + [s[|s| - 1]];
  }

  /** The header and account lines of `nicks` count exactly those nicknames. */
  lemma {:induction false} AccountLinesNicks(users: map<string, Account>, nicks: seq<string>)
    requires WritableUsers(users)
    requires forall i :: 0 <= i < |nicks| ==> nicks[i] in users
    ensures NicksOf([Header] + AccountLines(users, nicks)) == set x | x in nicks
    decreases |nicks|
  {
    if |nicks| == 0 {
      HeaderCountsNothing();
      assert [Header] + AccountLines(users, nicks) == [Header];
      assert (set x | x in nicks) == {};
    } else {
      var n := |nicks| - 1;
      var a := users[nicks[n]];
      AccountLinesNicks(users, nicks[..n]);
      AccountLinesSnoc(users, nicks);
      AccountLineCounted(a);
      var lines := [Header] + AccountLines(users, nicks);
      CountSnoc([Header] + AccountLines(users, nicks[..n]), AccountLine(nicks[n], a));
      assert NicksOf(lines) == NicksOf([Header] + AccountLines(users, nicks[..n])) + {nicks[n]};
      SetOfSnoc(nicks);
    }
  }

  /** The addresses of the accounts of `nicks`. */
  function AddressesOf(users: map<string, Account>, nicks: seq<string>): set<string>
    requires forall i :: 0 <= i < |nicks| ==> nicks[i] in users
  {
    set i | 0 <= i < |nicks| :: users[nicks[i]].ip
  }

  /** The addresses of `nicks`, one more nickname at a time. */
  lemma AddressesSnoc(users: map<string, Account>, nicks: seq<string>)
    requires forall i :: 0 <= i < |nicks| ==> nicks[i] in users
    requires |nicks| > 0
    ensures var n := |nicks| - 1;
      AddressesOf(users, nicks) == AddressesOf(users, nicks[..n]) + {users[nicks[n]].ip}
  {
    var n := |nicks| - 1;
    var init := nicks[..n];
    assert forall i :: 0 <= i < n ==> init[i] == nicks[i];
    forall ip | ip in AddressesOf(users, nicks) ensures ip in AddressesOf(users, init) + {users[nicks[n]].ip} {
      var i :| 0 <= i < |nicks| && users[nicks[i]].ip == ip;
      if i < n {
        assert users[init[i]].ip == ip;
      }
    }
  }

  /** ... and the addresses of their accounts. */
  lemma {:induction false} AccountLinesIps(users: map<string, Account>, nicks: seq<string>)
    requires WritableUsers(users)
    requires forall i :: 0 <= i < |nicks| ==> nicks[i] in users
    ensures IpsOf([Header] + AccountLines(users, nicks)) == AddressesOf(users, nicks)
    decreases |nicks|
  {
    if |nicks| == 0 {
      HeaderCountsNothing();
      assert [Header] + AccountLines(users, nicks) == [Header];
    } else {
      var n := |nicks| - 1;
      var a := users[nicks[n]];
      AccountLinesIps(users, nicks[..n]);
      AccountLinesSnoc(users, nicks);
      AccountLineCounted(a);
      CountSnoc([Header] + AccountLines(users, nicks[..n]), AccountLine(nicks[n], a));
      AddressesSnoc(users, nicks);
    }
  }

  /** The addresses of all keys of `users` are those of its entries. */
  lemma AddressesOfAllKeys(users: map<string, Account>, nicks: seq<string>)
    requires forall n :: n in nicks <==> n in users
    ensures forall ip :: ip in AddressesOf(users, nicks) <==> exists n :: n in users && users[n].ip == ip
  {
    forall ip | exists n :: n in users && users[n].ip == ip ensures ip in AddressesOf(users, nicks) {
      var n :| n in users && users[n].ip == ip;
      var j :| 0 <= j < |nicks| && nicks[j] == n;
    }
  }

  /** After cleaning, `get_user_stats` reports one user per distinct nickname
      of the accounts read, and the distinct addresses of the entries kept. */
  lemma StatsAfterCleaning(file: Option<seq<string>>, now: int, formatDate: int -> Option<string>)
    requires CleanedFile(file, now, formatDate).Rewritten?
    requires forall a :: a in Accounts(file.value, now, formatDate).value ==> Writable(a)
    ensures var users := Latest(Accounts(file.value, now, formatDate).value);
      var lines := CleanedFile(file, now, formatDate).lines;
      && NicksOf(lines) == users.Keys
      && forall ip :: ip in IpsOf(lines) <==> exists n :: n in users && users[n].ip == ip
  {
    var accounts := Accounts(file.value, now, formatDate).value;
    LatestStoredByNick(accounts);
    var users := Latest(accounts);
    CleanedLinesCounted(users, Ordered(users.Keys));
  }

  /** The counts of the file written for a dictionary of writable accounts,
      whatever the order of its keys. */
  lemma CleanedLinesCounted(users: map<string, Account>, nicks: seq<string>)
    requires WritableUsers(users)
    requires forall n :: n in nicks <==> n in users
    ensures var lines := [Header] + AccountLines(users, nicks);
      && NicksOf(lines) == users.Keys
      && forall ip :: ip in IpsOf(lines) <==> exists n :: n in users && users[n].ip == ip
  {
    AccountLinesNicks(users, nicks);
    AccountLinesIps(users, nicks);
    AddressesOfAllKeys(users, nicks);
  }
}
