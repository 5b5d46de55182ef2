/** The Telegram bot of `telegram_service.py` without the network: the
    command dispatch of `handle_updates` (the later of its two definitions,
    the one Python keeps), the quote-delimited task message, task creation,
    the week's tasks of a chat, the request history and its username
    lookup, and the reminder decision. The JSON files the bot reads and
    writes are fields of the `Bot` class; times are integer seconds of the
    naive local clock. */
module TelegramBot {
  import opened Common
  import Gregorian

  // ---------------------------------------------------------------------
  // Dates in the `DD.MM.YYYY HH:MM` format
  // ---------------------------------------------------------------------

  datatype DateTime = DateTime(day: int, month: int, year: int, hour: int, minute: int)

  /** What `datetime` accepts: years 1..9999, real calendar days. */
  predicate ValidDateTime(dt: DateTime)
  {
    && 1 <= dt.year <= 9999
    && Gregorian.ValidDate(dt.year, dt.month, dt.day)
    && 0 <= dt.hour < 24 && 0 <= dt.minute < 60
  }

  /** Seconds from 1970-01-01 00:00 to the date and time. */
  function Seconds(dt: DateTime): int
    requires ValidDateTime(dt)
  {
    Gregorian.DaysFromCivil(dt.year, dt.month, dt.day) * 86400 + dt.hour * 3600 + dt.minute * 60
  }

  predicate TwoDigits(s: string)
  {
    |s| == 2 && IsDigit(s[0]) && IsDigit(s[1])
  }

  function Value2(s: string): (n: nat)
    requires TwoDigits(s)
    ensures n < 100
  {
    (s[0] as int - '0' as int) * 10 + (s[1] as int - '0' as int)
  }

  /** A number below 100 as two digits, zero-padded. */
  function Digits2(n: nat): (s: string)
    requires n < 100
    ensures TwoDigits(s) && Value2(s) == n
  {
    [DigitChar(n / 10), DigitChar(n % 10)]
  }

  /** Two digits read as a number and printed back are the same two digits. */
  lemma {:induction false} Digits2Value2(s: string)
    requires TwoDigits(s)
    ensures Digits2(Value2(s)) == s
  {
    var n := Value2(s);
    assert n / 10 == s[0] as int - '0' as int && n % 10 == s[1] as int - '0' as int;
  }

  /** `datetime.strptime(s, '%d.%m.%Y %H:%M')` on the zero-padded form:
      `None` for any other shape or a date that does not exist. */
  function ParseDateTime(s: string): (r: Option<DateTime>)
    ensures r.Some? ==> ValidDateTime(r.value)
  {
    if && |s| == 16 && s[2] == '.' && s[5] == '.' && s[10] == ' ' && s[13] == ':'
       && TwoDigits(s[0..2]) && TwoDigits(s[3..5]) && TwoDigits(s[6..8]) && TwoDigits(s[8..10])
       && TwoDigits(s[11..13]) && TwoDigits(s[14..16])
    then
      var dt := DateTime(Value2(s[0..2]), Value2(s[3..5]), 100 * Value2(s[6..8]) + Value2(s[8..10]),
                         Value2(s[11..13]), Value2(s[14..16]));
      if ValidDateTime(dt) then Some(dt) else None
    else None
  }

  /** `strftime('%d.%m.%Y %H:%M')`. */
  function FormatDateTime(dt: DateTime): (s: string)
    requires ValidDateTime(dt)
    ensures |s| == 16
  {
    var d, mo, y1, y2 := Digits2(dt.day), Digits2(dt.month), Digits2(dt.year / 100), Digits2(dt.year % 100);
    var h, mi := Digits2(dt.hour), Digits2(dt.minute);
    [d[0], d[1], '.', mo[0], mo[1], '.', y1[0], y1[1], y2[0], y2[1], ' ', h[0], h[1], ':', mi[0], mi[1]]
  }

  /** Every valid date and time prints to a string that parses back to it. */
  lemma {:induction false} ParseFormat(dt: DateTime)
    requires ValidDateTime(dt)
    ensures ParseDateTime(FormatDateTime(dt)) == Some(dt)
  {
    var s := FormatDateTime(dt);
    assert s[0..2] == Digits2(dt.day);
    assert s[3..5] == Digits2(dt.month);
    assert s[6..8] == Digits2(dt.year / 100);
    assert s[8..10] == Digits2(dt.year % 100);
    assert s[11..13] == Digits2(dt.hour);
    assert s[14..16] == Digits2(dt.minute);
  }

  /** Every accepted string is exactly the printed form of what it parses to. */
  lemma {:induction false} FormatParse(s: string)
    requires ParseDateTime(s).Some?
    ensures FormatDateTime(ParseDateTime(s).value) == s
  {
    var dt := ParseDateTime(s).value;
    Digits2Value2(s[0..2]);
    Digits2Value2(s[3..5]);
    Digits2Value2(s[6..8]);
    Digits2Value2(s[8..10]);
    Digits2Value2(s[11..13]);
    Digits2Value2(s[14..16]);
    assert dt.year / 100 == Value2(s[6..8]) && dt.year % 100 == Value2(s[8..10]);
    var f := FormatDateTime(dt);
    assert forall k :: 0 <= k < 16 ==> f[k] == s[k];
  }

  // ---------------------------------------------------------------------
  // The task-creation message `"text" "DD.MM.YYYY HH:MM"`
  // ---------------------------------------------------------------------

  /** `_is_task_creation_message`: at least two double quotes. */
  predicate IsTaskCreation(text: string)
  {
    multiset(text)['"'] >= 2
  }

  predicate NonBlank(p: string)
  {
    PyStrip(p) != ""
  }

  /** The pieces between double quotes that are not blank. (Stripping `"`
      from a piece, as the source also does, changes nothing: no piece
      holds one.) */
  function Pieces(text: string): (r: seq<string>)
    ensures forall k :: 0 <= k < |r| ==> '"' !in r[k] && NonBlank(r[k])
  {
    Filter(Split(text, '"'), NonBlank)
  }

  datatype ParsedTask = ParsedTask(text: string, when: DateTime)

  /** `_parse_task_creation`: the first piece is the text, the second the
      date; fewer than two pieces or a malformed date give `None`. */
  function ParseTask(text: string): (r: Option<ParsedTask>)
    ensures r.Some? <==> |Pieces(text)| >= 2 && ParseDateTime(Pieces(text)[1]).Some?
    ensures r.Some? ==> NonBlank(r.value.text) && '"' !in r.value.text && ValidDateTime(r.value.when)
    ensures r.Some? ==>
      |Pieces(text)| >= 2 && r.value.text == Pieces(text)[0] && ParseDateTime(Pieces(text)[1]) == Some(r.value.when)
  {
    var parts := Pieces(text);
    if |parts| < 2 then None
    else
      match ParseDateTime(parts[1])
      case None => None
      case Some(dt) => Some(ParsedTask(parts[0], dt))
  }

  function Quoted(s: string): string
  {
    "\"" + s + "\""
  }

  /** The message the bot's help asks for: the quoted text, a space, the
      quoted date. */
  function CreationMessage(text: string, dt: DateTime): string
    requires ValidDateTime(dt)
  {
    Quoted(text) + " " + Quoted(FormatDateTime(dt))
  }

  lemma {:induction false} FormatHasNoQuote(dt: DateTime)
    requires ValidDateTime(dt)
    ensures '"' !in FormatDateTime(dt) && NonBlank(FormatDateTime(dt))
  {
    var s := FormatDateTime(dt);
    assert IsDigit(s[0]) && IsDigit(s[15]);
    StripKeeps(s, IsPySpace);
  }

  /** Two quoted strings without quotes, separated by a space, split into
      five pieces. */
  lemma {:induction false} QuotedPairSplit(a: string, b: string)
    requires '"' !in a && '"' !in b
    ensures Split(Quoted(a) + " " + Quoted(b), '"') == ["", a, " ", b, ""]
  {
    var m := Quoted(a) + " " + Quoted(b);
    var tail3 := b + ['"'] + [];
    var tail2 := " " + ['"'] + tail3;
    var tail1 := a + ['"'] + tail2;
    assert m == [] + ['"'] + tail1;
    SplitSep([], tail1, '"');
    SplitSep(a, tail2, '"');
    SplitSep(" ", tail3, '"');
    SplitSep(b, [], '"');
  }

  lemma {:induction false} BlankPieces()
    ensures !NonBlank("") && !NonBlank(" ")
  {
    StripEmptyIffBlank("", IsPySpace);
    StripEmptyIffBlank(" ", IsPySpace);
  }

  /** Filtering two elements of which only the first passes. */
  lemma {:induction false} FilterFirstOfTwo<T>(x: T, y: T, p: T -> bool)
    requires p(x) && !p(y)
    ensures Filter([x, y], p) == [x]
  {
    FilterCons(y, [], p);
    assert [y] + [] == [y];
    FilterCons(x, [y], p);
    assert [x] + [y] == [x, y];
  }

  /** Filtering five elements of which only the second and fourth pass. */
  lemma {:induction false} FilterSecondAndFourth<T>(x0: T, x1: T, x2: T, x3: T, x4: T, p: T -> bool)
    requires !p(x0) && p(x1) && !p(x2) && p(x3) && !p(x4)
    ensures Filter([x0, x1, x2, x3, x4], p) == [x1, x3]
  {
    FilterFirstOfTwo(x3, x4, p);
    FilterFirstOfTwo(x1, x2, p);
    FilterConcat([x1, x2], [x3, x4], p);
    assert [x1, x2] + [x3, x4] == [x1, x2, x3, x4];
    FilterCons(x0, [x1, x2, x3, x4], p);
    assert [x0] + [x1, x2, x3, x4] == [x0, x1, x2, x3, x4];
  }

  /** The blank pieces of such a split are dropped. */
  lemma {:induction false} PiecesOfPair(a: string, b: string)
    requires NonBlank(a) && NonBlank(b)
    ensures Filter(["", a, " ", b, ""], NonBlank) == [a, b]
  {
    BlankPieces();
    FilterSecondAndFourth("", a, " ", b, "", NonBlank);
  }

  /** Two quoted non-blank strings without quotes, separated by a space,
      form a task-creation message whose pieces are the two strings. */
  lemma {:induction false} QuotedPairPieces(a: string, b: string)
    requires '"' !in a && '"' !in b && NonBlank(a) && NonBlank(b)
    ensures IsTaskCreation(Quoted(a) + " " + Quoted(b))
    ensures Pieces(Quoted(a) + " " + Quoted(b)) == [a, b]
  {
    var m := Quoted(a) + " " + Quoted(b);
    QuotedPairSplit(a, b);
    SplitCount(m, '"');
    PiecesOfPair(a, b);
  }

  /** A message written in the requested form is a task-creation message
      and parses back to its text and date. */
  lemma {:induction false} CreationMessageRoundTrip(text: string, dt: DateTime)
    requires '"' !in text && NonBlank(text) && ValidDateTime(dt)
    ensures IsTaskCreation(CreationMessage(text, dt))
    ensures ParseTask(CreationMessage(text, dt)) == Some(ParsedTask(text, dt))
  {
    FormatHasNoQuote(dt);
    QuotedPairPieces(text, FormatDateTime(dt));
    ParseFormat(dt);
  }

  // ---------------------------------------------------------------------
  // Tasks in the bot's file, and task creation
  // ---------------------------------------------------------------------

  /** A task as the bot reads it; `None` for a missing key. `chatIds` is
      the recipient list (empty when missing), `reminder` the minutes
      before the task at which to remind. */
  datatype BotTask = BotTask(
    id: Option<int>,
    text: string,
    datetime: Option<int>,
    chatId: Option<int>,
    chatIds: seq<int>,
    group: Option<string>,
    completed: bool,
    reminder: Option<int>)

  /** `t.get('id', 0)`. */
  function IdOrZero(t: BotTask): int
  {
    if t.id.Some? then t.id.value else 0
  }

  /** `max([t.get('id', 0) for t in tasks] or [0])`. */
  function MaxIdOrZero(tasks: seq<BotTask>): (m: int)
    ensures tasks == [] ==> m == 0
    ensures forall k :: 0 <= k < |tasks| ==> IdOrZero(tasks[k]) <= m
    ensures tasks != [] ==> exists k :: 0 <= k < |tasks| && IdOrZero(tasks[k]) == m
  {
    if tasks == [] then 0
    else if |tasks| == 1 then IdOrZero(tasks[0])
    else
      var rest := MaxIdOrZero(tasks[1..]);
      assert forall k :: 1 <= k < |tasks| ==> tasks[k] == tasks[1..][k - 1];
      if IdOrZero(tasks[0]) >= rest then IdOrZero(tasks[0]) else rest
  }

  /** The task `_create_task` appends for a parsed message. */
  function NewBotTask(tasks: seq<BotTask>, chat: int, p: ParsedTask): (t: BotTask)
    requires ValidDateTime(p.when)
    ensures t.id.Some? && forall k :: 0 <= k < |tasks| ==> IdOrZero(tasks[k]) < t.id.value
    ensures tasks == [] ==> t.id == Some(1)
    ensures t.text == p.text && t.datetime == Some(Seconds(p.when)) && t.chatId == Some(chat)
    ensures !t.completed && t.chatIds == [] && t.group.None? && t.reminder.None?
  {
    BotTask(Some(MaxIdOrZero(tasks) + 1), p.text, Some(Seconds(p.when)), Some(chat), [], None, false, None)
  }

  // ---------------------------------------------------------------------
  // The week's tasks of a chat
  // ---------------------------------------------------------------------

  /** An entry of `users.json`. */
  datatype User = User(chatId: int, group: Option<string>)

  const WeekSeconds: int := 7 * 86400

  predicate InGroup(users: seq<User>, chat: int, g: string)
  {
    exists k :: 0 <= k < |users| && users[k].chatId == chat && users[k].group == Some(g)
  }

  /** The task is the chat's own, or belongs to a group the chat is in. */
  predicate AddressedTo(t: BotTask, users: seq<User>, chat: int)
  {
    t.chatId == Some(chat) || (Truthy(t.group) && InGroup(users, chat, t.group.value))
  }

  predicate DueThisWeek(t: BotTask, users: seq<User>, chat: int, now: int)
  {
    && t.datetime.Some? && !t.completed && AddressedTo(t, users, chat)
    && now <= t.datetime.value <= now + WeekSeconds
  }

  function WeekTasks(tasks: seq<BotTask>, users: seq<User>, chat: int, now: int): seq<BotTask>
  {
    Filter(tasks, (t: BotTask) => DueThisWeek(t, users, chat, now))
  }

  /** The week's list holds exactly the dated, incomplete tasks addressed
      to the chat and due between now and seven days later, in file order. */
  lemma {:induction false} WeekTasksSpec(tasks: seq<BotTask>, users: seq<User>, chat: int, now: int)
    ensures var w := WeekTasks(tasks, users, chat, now);
      && (forall k :: 0 <= k < |w| ==>
            && w[k] in tasks && w[k].datetime.Some? && !w[k].completed
            && now <= w[k].datetime.value <= now + 7 * 86400
            && (w[k].chatId == Some(chat) || (Truthy(w[k].group) && InGroup(users, chat, w[k].group.value))))
      && (forall k :: 0 <= k < |tasks| && DueThisWeek(tasks[k], users, chat, now) ==> tasks[k] in w)
    ensures forall a, b ::
      WeekTasks(a + b, users, chat, now) == WeekTasks(a, users, chat, now) + WeekTasks(b, users, chat, now)
  {
    forall a, b
      ensures WeekTasks(a + b, users, chat, now) == WeekTasks(a, users, chat, now) + WeekTasks(b, users, chat, now)
    {
      FilterConcat(a, b, (t: BotTask) => DueThisWeek(t, users, chat, now));
    }
  }

  // ---------------------------------------------------------------------
  // The request history
  // ---------------------------------------------------------------------

  /** One entry of the request history; an empty `username` stands for a
      missing one. */
  datatype Entry = Entry(chatId: int, text: string, username: string, name: string, timestamp: int)

  /** The index of the chat's entry, or -1. */
  function IndexOfChat(h: seq<Entry>, chat: int): (i: int)
    ensures -1 <= i < |h|
    ensures i == -1 <==> forall k :: 0 <= k < |h| ==> h[k].chatId != chat
    ensures i >= 0 ==> h[i].chatId == chat && forall k :: 0 <= k < i ==> h[k].chatId != chat
  {
    if h == [] then -1
    else if h[0].chatId == chat then 0
    else
      var j := IndexOfChat(h[1..], chat);
      if j == -1 then -1 else j + 1
  }

  /** `_log_request`: the chat's entry is updated in place (an empty username
      or name keeps the old one), or a new entry is appended whose name
      defaults to the chat id. */
  function Upsert(h: seq<Entry>, chat: int, text: string, username: string, name: string, now: int): seq<Entry>
  {
    var i := IndexOfChat(h, chat);
    if i >= 0 then
      h[i := Entry(chat, text, if username != "" then username else h[i].username,
                   if name != "" then name else h[i].name, now)]
    else h + [Entry(chat, text, username, if name != "" then name else IntToString(chat), now)]
  }

  predicate UniqueChats(h: seq<Entry>)
  {
    forall i, j :: 0 <= i < j < |h| ==> h[i].chatId != h[j].chatId
  }

  /** The history keeps one entry per chat; logging touches only the chat's
      entry, which records the text and time, the new username and name
      when given and the old ones otherwise; an unknown chat gets an entry
      at the end. */
  lemma {:induction false} UpsertSpec(h: seq<Entry>, chat: int, text: string, username: string, name: string, now: int)
    ensures var r := Upsert(h, chat, text, username, name, now);
      var i := IndexOfChat(h, chat);
      var j := if i >= 0 then i else |h|;
      && (UniqueChats(h) ==> UniqueChats(r))
      && |r| == (if i >= 0 then |h| else |h| + 1)
      && r[j].chatId == chat && r[j].text == text && r[j].timestamp == now
      && r[j].username == (if username != "" then username else if i >= 0 then h[i].username else "")
      && r[j].name == (if name != "" then name else if i >= 0 then h[i].name else IntToString(chat))
      && (forall k :: 0 <= k < |h| && k != i ==> r[k] == h[k])
  {
  }

  predicate IsAt(c: char) { c == '@' }

  /** `lstrip('@')`. */
  function NoAt(s: string): string
  {
    StripStart(s, IsAt)
  }

  predicate UsernameMatches(e: Entry, username: string)
  {
    e.username != "" && NoAt(username) == NoAt(e.username)
  }

  /** `get_chat_id_by_username`: chat id and name of the first entry with a
      username equal to the given one up to leading '@'s. */
  function LookupUsername(h: seq<Entry>, username: string): (r: Option<(int, string)>)
    ensures r.Some? ==> h != []
  {
    if h == [] then None
    else if UsernameMatches(h[0], username) then Some((h[0].chatId, h[0].name))
    else LookupUsername(h[1..], username)
  }

  /** The lookup finds nothing exactly when no entry matches, and what it
      finds is the chat id and name of a matching entry. */
  lemma {:induction false} LookupUsernameSpec(h: seq<Entry>, username: string)
    ensures var r := LookupUsername(h, username);
      r.None? <==> forall k :: 0 <= k < |h| ==> !UsernameMatches(h[k], username)
    ensures var r := LookupUsername(h, username);
      r.Some? ==> exists k :: 0 <= k < |h| && UsernameMatches(h[k], username) && r.value == (h[k].chatId, h[k].name)
  {
    LookupNone(h, username);
    LookupSome(h, username);
  }

  lemma {:induction false} LookupNone(h: seq<Entry>, username: string)
    ensures LookupUsername(h, username).None? <==> forall k :: 0 <= k < |h| ==> !UsernameMatches(h[k], username)
  {
    if h != [] && !UsernameMatches(h[0], username) {
      var t := h[1..];
      LookupNone(t, username);
      NoneCons(h, e => UsernameMatches(e, username));
    }
  }

  lemma {:induction false} LookupSome(h: seq<Entry>, username: string)
    ensures var r := LookupUsername(h, username);
      r.Some? ==> exists k :: 0 <= k < |h| && UsernameMatches(h[k], username) && r.value == (h[k].chatId, h[k].name)
  {
    if h != [] && !UsernameMatches(h[0], username) {
      var t := h[1..];
      LookupSome(t, username);
      var r := LookupUsername(t, username);
      if r.Some? {
        SomeCons(h, e => UsernameMatches(e, username), (e: Entry) => (e.chatId, e.name), r.value);
      }
    }
  }

  /** The lookup answers with the first matching entry. */
  lemma {:induction false} LookupFirst(h: seq<Entry>, username: string, k: int)
    requires 0 <= k < |h| && UsernameMatches(h[k], username)
    requires forall m :: 0 <= m < k ==> !UsernameMatches(h[m], username)
    ensures LookupUsername(h, username) == Some((h[k].chatId, h[k].name))
  {
    if k > 0 {
      assert !UsernameMatches(h[0], username);
      forall m | 0 <= m < k - 1
        ensures !UsernameMatches(h[1..][m], username)
      {
        assert h[1..][m] == h[m + 1];
      }
      assert h[1..][k - 1] == h[k];
      LookupFirst(h[1..], username, k - 1);
    }
  }

  /** Looking up `@name` and `name` gives the same answer. */
  lemma {:induction false} LookupIgnoresAt(h: seq<Entry>, username: string)
    ensures LookupUsername(h, "@" + username) == LookupUsername(h, username)
  {
    assert ("@" + username)[1..] == username;
    assert NoAt("@" + username) == NoAt(username);
    LookupSameKey(h, "@" + username, username);
  }

  /** Only the username without its leading '@'s matters to the lookup. */
  lemma {:induction false} LookupSameKey(h: seq<Entry>, u: string, v: string)
    requires NoAt(u) == NoAt(v)
    ensures LookupUsername(h, u) == LookupUsername(h, v)
  {
    if h != [] {
      assert UsernameMatches(h[0], u) == UsernameMatches(h[0], v);
      LookupSameKey(h[1..], u, v);
    }
  }

  // ---------------------------------------------------------------------
  // Reminders
  // ---------------------------------------------------------------------

  /** `chat_ids` when non-empty, else `chat_id` when set and non-zero. */
  function Recipients(t: BotTask): (r: seq<int>)
    ensures t.chatIds != [] ==> r == t.chatIds
    ensures t.chatIds == [] ==> (r == [] <==> t.chatId.None? || t.chatId == Some(0))
    ensures t.chatIds == [] && t.chatId.Some? && t.chatId.value != 0 ==> r == [t.chatId.value]
  {
    if t.chatIds != [] then t.chatIds
    else if t.chatId.Some? && t.chatId.value != 0 then [t.chatId.value]
    else []
  }

  /** Everything but the duplicate guard: a dated, incomplete task with a
      recipient and a reminder offset, inside the minute after the moment
      `reminder` minutes before the task. */
  predicate ReminderReady(t: BotTask, now: int)
  {
    && t.datetime.Some? && Recipients(t) != [] && !t.completed && t.reminder.Some?
    && var at := t.datetime.value - t.reminder.value * 60;
       at <= now <= at + 60
  }

  datatype Notice = Notice(id: Option<int>, recipients: seq<int>)

  /** One pass of `check_reminders` over the tasks: the notices sent and the
      set of ids already reminded. */
  function Fire(tasks: seq<BotTask>, sent: set<Option<int>>, now: int): (seq<Notice>, set<Option<int>>)
  {
    if tasks == [] then ([], sent)
    else
      var (ns, s) := Fire(tasks[..|tasks| - 1], sent, now);
      var t := tasks[|tasks| - 1];
      if ReminderReady(t, now) && t.id !in s then (ns + [Notice(t.id, Recipients(t))], s + {t.id})
      else (ns, s)
  }

  /** The task ids of a list of notices. */
  function Ids(ns: seq<Notice>): (ids: set<Option<int>>)
    ensures forall k :: 0 <= k < |ns| ==> ns[k].id in ids
    ensures forall x :: x in ids ==> exists k :: 0 <= k < |ns| && ns[k].id == x
  {
    if ns == [] then {} else Ids(ns[..|ns| - 1]) + {ns[|ns| - 1].id}
  }

  /** A pass records exactly the ids it reminds, none recorded before,
      each with a non-empty recipient list. */
  lemma {:induction false} FireRecords(tasks: seq<BotTask>, sent: set<Option<int>>, now: int)
    ensures var (ns, s) := Fire(tasks, sent, now);
      && s == sent + Ids(ns)
      && (forall k :: 0 <= k < |ns| ==> ns[k].id !in sent && ns[k].recipients != [])
  {
    if tasks != [] {
      var init := tasks[..|tasks| - 1];
      FireRecords(init, sent, now);
      var (ns0, s0) := Fire(init, sent, now);
      var t := tasks[|tasks| - 1];
      if ReminderReady(t, now) && t.id !in s0 {
        var ns := ns0 + [Notice(t.id, Recipients(t))];
        assert ns[..|ns| - 1] == ns0;
      }
    }
  }

  /** A pass reminds each id at most once. */
  lemma {:induction false} FireDistinct(tasks: seq<BotTask>, sent: set<Option<int>>, now: int)
    ensures var (ns, s) := Fire(tasks, sent, now);
      forall i, j :: 0 <= i < j < |ns| ==> ns[i].id != ns[j].id
  {
    if tasks != [] {
      var init := tasks[..|tasks| - 1];
      FireDistinct(init, sent, now);
      FireRecords(init, sent, now);
      var (ns0, s0) := Fire(init, sent, now);
      var t := tasks[|tasks| - 1];
      if ReminderReady(t, now) && t.id !in s0 {
        var ns := ns0 + [Notice(t.id, Recipients(t))];
        forall i | 0 <= i < |ns0|
          ensures ns[i].id != t.id
        {
          assert ns0[i].id in Ids(ns0);
        }
      }
    }
  }

  /** The notice `check_reminders` sends for some ready task of the list:
      that task's id, to that task's recipients. */
  predicate FromReady(n: Notice, tasks: seq<BotTask>, now: int)
  {
    exists j :: 0 <= j < |tasks| && ReminderReady(tasks[j], now) && n == Notice(tasks[j].id, Recipients(tasks[j]))
  }

  /** Every notice of a pass is for a ready task of the list, sent to that
      task's recipients. */
  lemma {:induction false} FireOnlyReady(tasks: seq<BotTask>, sent: set<Option<int>>, now: int)
    ensures forall k :: 0 <= k < |Fire(tasks, sent, now).0| ==> FromReady(Fire(tasks, sent, now).0[k], tasks, now)
  {
    if tasks != [] {
      var init := tasks[..|tasks| - 1];
      FireOnlyReady(init, sent, now);
      var ns0 := Fire(init, sent, now).0;
      var t := tasks[|tasks| - 1];
      var ns := Fire(tasks, sent, now).0;
      assert ns == ns0 || ns == ns0 + [Notice(t.id, Recipients(t))];
      forall k | 0 <= k < |ns|
        ensures FromReady(ns[k], tasks, now)
      {
        if k < |ns0| {
          assert FromReady(ns0[k], init, now);
          var j :| 0 <= j < |init| && ReminderReady(init[j], now) && ns0[k] == Notice(init[j].id, Recipients(init[j]));
          assert tasks[j] == init[j];
        } else {
          assert tasks[|tasks| - 1] == t;
        }
      }
    }
  }

  /** After a pass every ready task's id is recorded. */
  lemma {:induction false} FireCoversReady(tasks: seq<BotTask>, sent: set<Option<int>>, now: int)
    ensures var (ns, s) := Fire(tasks, sent, now);
      forall k :: 0 <= k < |tasks| && ReminderReady(tasks[k], now) ==> tasks[k].id in s
  {
    if tasks != [] {
      var init := tasks[..|tasks| - 1];
      FireCoversReady(init, sent, now);
      FireRecords(init, sent, now);
      FireRecords(tasks, sent, now);
      forall k | 0 <= k < |tasks| - 1
        ensures tasks[k] == init[k]
      {
      }
    }
  }

  /** A pass reminds only ready tasks not reminded before, each to that
      task's recipients, each id at most once, records exactly those ids,
      and leaves every ready task's id recorded. */
  lemma {:induction false} FireSpec(tasks: seq<BotTask>, sent: set<Option<int>>, now: int)
    ensures var (ns, s) := Fire(tasks, sent, now);
      && s == sent + Ids(ns)
      && (forall k :: 0 <= k < |ns| ==> ns[k].id !in sent && ns[k].recipients != [])
      && (forall k :: 0 <= k < |ns| ==> FromReady(ns[k], tasks, now))
      && (forall i, j :: 0 <= i < j < |ns| ==> ns[i].id != ns[j].id)
      && (forall k :: 0 <= k < |tasks| && ReminderReady(tasks[k], now) ==> tasks[k].id in s)
  {
    FireRecords(tasks, sent, now);
    FireOnlyReady(tasks, sent, now);
    FireDistinct(tasks, sent, now);
    FireCoversReady(tasks, sent, now);
  }

  /** A second pass at the same moment, with the ids the first recorded,
      reminds nobody: a reminder is never sent twice. */
  lemma {:induction false} SecondPassSilent(tasks: seq<BotTask>, sent: set<Option<int>>, now: int)
    ensures Fire(tasks, Fire(tasks, sent, now).1, now).0 == []
  {
    FireSpec(tasks, sent, now);
    FireNone(tasks, Fire(tasks, sent, now).1, now);
  }

  /** A pass in which every ready task was reminded before sends nothing. */
  lemma {:induction false} FireNone(tasks: seq<BotTask>, sent: set<Option<int>>, now: int)
    requires forall k :: 0 <= k < |tasks| && ReminderReady(tasks[k], now) ==> tasks[k].id in sent
    ensures Fire(tasks, sent, now) == ([], sent)
  {
    if tasks != [] {
      FireNone(tasks[..|tasks| - 1], sent, now);
    }
  }

  // ---------------------------------------------------------------------
  // Command dispatch
  // ---------------------------------------------------------------------

  const GetIdButton: string := "🆔 мой id (/getid)"
  const SetNameButton: string := "👤 установить имя (/setname)"
  const MyTasksButton: string := "📋 мои задачи (/mytasks)"
  const NewTaskButton: string := "➕ новая задача (/new_task)"

  /** Python's `s[n:]`. */
  function Drop(s: string, n: nat): (r: string)
    ensures n <= |s| ==> r == s[n..]
    ensures n > |s| ==> r == ""
  {
    if n <= |s| then s[n..] else ""
  }

  /** The name `/setname` sets, as written: after the command the text
      from index 9 on, after the button label the text from index 25 on. */
  function SetNameArgumentAsWritten(text: string): string
  {
    if StartsWith(text, "/setname") then PyStrip(Drop(text, 9)) else PyStrip(Drop(text, 25))
  }

  /** The name as intended: the text after the 27-character button label. */
  function SetNameArgument(text: string): string
  {
    if StartsWith(text, "/setname") then PyStrip(Drop(text, 9)) else PyStrip(Drop(text, |SetNameButton|))
  }

  /** As written, the name after the button label is never empty (it starts
      with the label's last two characters), so the prompt is never sent. */
  lemma {:induction false} SetNameButtonNeverPrompts(text: string)
    requires StartsWith(Lower(text), SetNameButton) && !StartsWith(text, "/setname")
    ensures SetNameArgumentAsWritten(text) != ""
  {
    assert |SetNameButton| == 27;
    assert Lower(text)[25] == 'e';
    assert text[25] == 'e' || text[25] == 'E';
    var rest := Drop(text, 25);
    assert rest[0] == text[25];
    StripEmptyIffBlank(rest, IsPySpace);
  }

  lemma {:induction false} NotSetNameCommand(text: string)
    requires text != [] && text[0] != '/'
    ensures !StartsWith(text, "/setname")
  {
    if |text| >= 8 {
      assert text[..8][0] != "/setname"[0];
    }
  }

  /** The bare button, as written, sets the name "e)". */
  lemma {:induction false} SetNameButtonAsWritten()
    ensures SetNameArgumentAsWritten(SetNameButton) == "e)"
  {
    NotSetNameCommand(SetNameButton);
    assert |SetNameButton| == 27;
    assert Drop(SetNameButton, 25) == "e)";
    StripKeeps("e)", IsPySpace);
  }

  /** The bare button, as intended, gives the empty name and so the prompt. */
  lemma {:induction false} SetNameButtonIntended()
    ensures SetNameArgument(SetNameButton) == ""
  {
    NotSetNameCommand(SetNameButton);
    assert |SetNameButton| == 27;
    assert Drop(SetNameButton, 27) == "";
  }

  /** What a text message asks for. `SetName("")` is a `/setname` without a
      name. */
  datatype Command = Start | GetId | SetName(name: string) | MyTasks | NewTaskHelp | Help
    | CreateTask(parsed: Option<ParsedTask>) | Menu

  /** The `if`/`elif` chain of `handle_updates`, in its order. */
  function Classify(text: string): (c: Command)
    ensures c.CreateTask? && c.parsed.Some? ==> ValidDateTime(c.parsed.value.when)
  {
    if text == "/start" then Start
    else if text == "/getid" || Lower(text) == GetIdButton then GetId
    else if StartsWith(text, "/setname") || StartsWith(Lower(text), SetNameButton) then SetName(SetNameArgumentAsWritten(text))
    else if Lower(text) == "/mytasks" || Lower(text) == MyTasksButton then MyTasks
    else if Lower(text) == "/new_task" || Lower(text) == NewTaskButton then NewTaskHelp
    else if Lower(text) == "/help" then Help
    else if IsTaskCreation(text) then CreateTask(ParseTask(text))
    else Menu
  }

  /** Strings that differ at an index are different, and neither is a
      prefix of the other. */
  lemma {:induction false} Differ(a: string, b: string, i: int)
    requires 0 <= i < |a| && i < |b| && a[i] != b[i]
    ensures a != b && !StartsWith(a, b) && !StartsWith(b, a)
  {
  }

  /** `/getid`, or its button in any letter case, asks for the chat id. */
  lemma {:induction false} ClassifyGetId(text: string)
    requires text == "/getid" || Lower(text) == GetIdButton
    ensures Classify(text) == GetId
  {
    if text == "/getid" {
      Differ(text, "/start", 1);
    } else {
      assert Lower(text)[0] == GetIdButton[0];
      Differ(text, "/start", 0);
    }
  }

  /** `/setname <name>` sets the stripped name. */
  lemma {:induction false} ClassifySetNameCommand(name: string)
    ensures Classify("/setname " + name) == SetName(PyStrip(name))
  {
    var text := "/setname " + name;
    assert text[..8] == "/setname";
    Differ(text, "/start", 2);
    Differ(text, "/getid", 1);
    assert Lower(text)[0] == '/';
    Differ(Lower(text), GetIdButton, 0);
    assert Drop(text, 9) == name;
  }

  /** `/setname` alone prompts for the name. */
  lemma {:induction false} ClassifyBareSetName()
    ensures Classify("/setname") == SetName("")
  {
    Differ("/setname", "/start", 2);
    Differ("/setname", "/getid", 1);
    assert Lower("/setname")[0] == '/';
    Differ(Lower("/setname"), GetIdButton, 0);
    assert Drop("/setname", 9) == "";
  }

  /** The button, in any letter case, sets the text from index 25 on,
      stripped, which is never empty, so the button never prompts; the
      bare button sets the name "e)". */
  lemma {:induction false} ClassifySetNameButton(text: string)
    requires StartsWith(Lower(text), SetNameButton)
    ensures Classify(text) == SetName(PyStrip(Drop(text, 25)))
    ensures Classify(text).name != ""
    ensures text == SetNameButton ==> Classify(text) == SetName("e)")
  {
    ClassifyButton(text);
    SetNameButtonNeverPrompts(text);
    if text == SetNameButton {
      SetNameButtonAsWritten();
    }
  }

  /** The button reaches the `/setname` branch, though it is no command. */
  lemma {:induction false} ClassifyButton(text: string)
    requires StartsWith(Lower(text), SetNameButton)
    ensures !StartsWith(text, "/setname")
    ensures Classify(text) == SetName(SetNameArgumentAsWritten(text))
  {
    assert Lower(text)[0] == SetNameButton[0];
    Differ(text, "/start", 0);
    Differ(Lower(text), GetIdButton, 0);
    NotSetNameCommand(text);
  }

  /** `/mytasks` or its button, in any letter case, asks for the week's tasks. */
  lemma {:induction false} ClassifyMyTasks(text: string)
    requires Lower(text) == "/mytasks" || Lower(text) == MyTasksButton
    ensures Classify(text) == MyTasks
  {
    if Lower(text) == "/mytasks" {
      assert Lower(text)[1] == 'm';
      Differ(text, "/start", 1);
      Differ(text, "/getid", 1);
      Differ(text, "/setname", 1);
      Differ(Lower(text), SetNameButton, 0);
    } else {
      assert Lower(text)[0] == MyTasksButton[0];
      Differ(text, "/start", 0);
      NotSetNameCommand(text);
      Differ(Lower(text), SetNameButton, 0);
    }
    Differ(Lower(text), GetIdButton, 0);
  }

  /** `/new_task` or its button, in any letter case, asks for the format. */
  lemma {:induction false} ClassifyNewTask(text: string)
    requires Lower(text) == "/new_task" || Lower(text) == NewTaskButton
    ensures Classify(text) == NewTaskHelp
  {
    if Lower(text) == "/new_task" {
      assert Lower(text)[1] == 'n';
      Differ(text, "/start", 1);
      Differ(text, "/getid", 1);
      Differ(text, "/setname", 1);
      Differ(Lower(text), SetNameButton, 0);
      Differ(Lower(text), "/mytasks", 1);
    } else {
      assert Lower(text)[0] == NewTaskButton[0];
      Differ(text, "/start", 0);
      NotSetNameCommand(text);
      Differ(Lower(text), SetNameButton, 0);
      Differ(Lower(text), "/mytasks", 0);
    }
    Differ(Lower(text), GetIdButton, 0);
    Differ(Lower(text), MyTasksButton, 0);
  }

  /** `/help` in any letter case asks for the help text. */
  lemma {:induction false} ClassifyHelp(text: string)
    requires Lower(text) == "/help"
    ensures Classify(text) == Help
  {
    assert Lower(text)[1] == 'h';
    Differ(text, "/start", 1);
    Differ(text, "/getid", 1);
    Differ(Lower(text), GetIdButton, 0);
    Differ(Lower(text), SetNameButton, 0);
    Differ(Lower(text), "/mytasks", 1);
    Differ(Lower(text), MyTasksButton, 0);
    Differ(Lower(text), "/new_task", 1);
    Differ(Lower(text), NewTaskButton, 0);
  }

  /** A text that starts with a letter and has fewer than two double quotes
      gets the menu. */
  lemma {:induction false} ClassifyOther(text: string)
    requires text != [] && ('a' <= LowerChar(text[0]) <= 'z' || '\U{0430}' <= LowerChar(text[0]) <= '\U{044F}')
    requires !IsTaskCreation(text)
    ensures Classify(text) == Menu
  {
    var c := Lower(text)[0];
    Differ(text, "/start", 0);
    Differ(text, "/getid", 0);
    Differ(Lower(text), GetIdButton, 0);
    Differ(text, "/setname", 0);
    Differ(Lower(text), SetNameButton, 0);
    Differ(Lower(text), "/mytasks", 0);
    Differ(Lower(text), MyTasksButton, 0);
    Differ(Lower(text), "/new_task", 0);
    Differ(Lower(text), NewTaskButton, 0);
    Differ(Lower(text), "/help", 0);
  }

  /** A message that opens with a double quote and holds another one is a
      task creation, whatever its pieces parse to. */
  lemma {:induction false} ClassifyQuoted(m: string)
    requires m != [] && m[0] == '"' && IsTaskCreation(m)
    ensures Classify(m) == CreateTask(ParseTask(m))
  {
    assert Lower(m)[0] == '"';
    Differ(m, "/start", 0);
    Differ(m, "/getid", 0);
    Differ(Lower(m), GetIdButton, 0);
    Differ(m, "/setname", 0);
    Differ(Lower(m), SetNameButton, 0);
    Differ(Lower(m), "/mytasks", 0);
    Differ(Lower(m), MyTasksButton, 0);
    Differ(Lower(m), "/new_task", 0);
    Differ(Lower(m), NewTaskButton, 0);
    Differ(Lower(m), "/help", 0);
  }

  /** A message written in the task format is classified as a task
      creation carrying its text and date. */
  lemma {:induction false} ClassifyCreationMessage(text: string, dt: DateTime)
    requires '"' !in text && NonBlank(text) && ValidDateTime(dt)
    ensures Classify(CreationMessage(text, dt)) == CreateTask(Some(ParsedTask(text, dt)))
  {
    var m := CreationMessage(text, dt);
    CreationMessageRoundTrip(text, dt);
    assert m[0] == '"';
    ClassifyQuoted(m);
  }

  /** The display name: first and last name, else the username, else the
      chat id; it is never empty. */
  function DisplayName(firstName: string, lastName: string, username: string, chat: int): (n: string)
    ensures n != ""
    ensures NonBlank(firstName + " " + lastName) ==> n == PyStrip(firstName + " " + lastName)
    ensures !NonBlank(firstName + " " + lastName) && username != "" ==> n == username
    ensures !NonBlank(firstName + " " + lastName) && username == "" ==> n == IntToString(chat)
  {
    var full := PyStrip(firstName + " " + lastName);
    if full != "" then full else if username != "" then username else IntToString(chat)
  }

  // ---------------------------------------------------------------------
  // Updates and replies
  // ---------------------------------------------------------------------

  datatype Chat = Chat(id: int, username: string, firstName: string, lastName: string)
  datatype Message = Message(chat: Chat, text: Option<string>)
  datatype Update = Update(updateId: int, message: Option<Message>)

  datatype Reply = Welcome | YourId(id: int) | NamePrompt | NameSet(name: string)
    | NoTasksThisWeek | TasksThisWeek(tasks: seq<BotTask>) | NewTaskInstructions | HelpText
    | TaskCreated(task: ParsedTask) | BadFormat | MainMenu

  /** The reply to a command of chat `chat`. */
  function ReplyFor(c: Command, chat: int, tasks: seq<BotTask>, users: seq<User>, now: int): Reply
  {
    match c
    case Start => Welcome
    case GetId => YourId(chat)
    case SetName(n) => if n == "" then NamePrompt else NameSet(n)
    case MyTasks =>
      var w := WeekTasks(tasks, users, chat, now);
      if w == [] then NoTasksThisWeek else TasksThisWeek(w)
    case NewTaskHelp => NewTaskInstructions
    case Help => HelpText
    case CreateTask(p) => if p.Some? then TaskCreated(p.value) else BadFormat
    case Menu => MainMenu
  }

  /** What one update leaves behind: the reply (to a chat), the request
      history and the task file. */
  datatype Outcome = Outcome(reply: Option<(int, Reply)>, history: seq<Entry>, tasks: seq<BotTask>)

  /** One update of `handle_updates`: a text message is logged under the
      sender's display name and answered by its command; `/setname` with a
      name logs the request again under that name; a parsed creation
      appends the task. Anything else changes nothing. */
  function Respond(h: seq<Entry>, tasks: seq<BotTask>, users: seq<User>, u: Update, now: int): (o: Outcome)
    ensures o.reply.None? <==> u.message.None? || u.message.value.text.None?
    ensures o.reply.Some? ==> o.reply.value.0 == u.message.value.chat.id
    ensures o.reply.None? ==> o.history == h && o.tasks == tasks
    ensures |tasks| <= |o.tasks| <= |tasks| + 1 && o.tasks[..|tasks|] == tasks
  {
    if u.message.None? || u.message.value.text.None? then Outcome(None, h, tasks)
    else
      var chat := u.message.value.chat;
      var text := u.message.value.text.value;
      var logged := Upsert(h, chat.id, text, chat.username,
                           DisplayName(chat.firstName, chat.lastName, chat.username, chat.id), now);
      Act(logged, tasks, users, chat, text, Classify(text), now)
  }

  /** What the command `c` of a logged text message from `chat` does: a
      named `/setname` logs the request again under the name, a parsed
      creation appends the task, and the chat gets the command's reply. */
  function Act(logged: seq<Entry>, tasks: seq<BotTask>, users: seq<User>, chat: Chat, text: string, c: Command, now: int)
    : (o: Outcome)
    requires c.CreateTask? && c.parsed.Some? ==> ValidDateTime(c.parsed.value.when)
    ensures o.reply == Some((chat.id, ReplyFor(c, chat.id, tasks, users, now)))
    ensures |tasks| <= |o.tasks| <= |tasks| + 1 && o.tasks[..|tasks|] == tasks
  {
    var h' := if c.SetName? && c.name != "" then Upsert(logged, chat.id, text, chat.username, c.name, now) else logged;
    var tasks' := if c.CreateTask? && c.parsed.Some? then tasks + [NewBotTask(tasks, chat.id, c.parsed.value)] else tasks;
    assert tasks'[..|tasks|] == tasks;
    Outcome(Some((chat.id, ReplyFor(c, chat.id, tasks, users, now))), h', tasks')
  }

  /** A batch of updates handled in order: the replies sent, the final
      history and the final task file. */
  function RespondAll(h: seq<Entry>, tasks: seq<BotTask>, users: seq<User>, updates: seq<Update>, now: int)
    : (r: (seq<(int, Reply)>, seq<Entry>, seq<BotTask>))
    ensures |r.0| <= |updates|
    ensures |tasks| <= |r.2| <= |tasks| + |updates| && r.2[..|tasks|] == tasks
    decreases |updates|
  {
    if updates == [] then ([], h, tasks)
    else
      var prev := RespondAll(h, tasks, users, updates[..|updates| - 1], now);
      var o := Respond(prev.1, prev.2, users, updates[|updates| - 1], now);
      assert o.tasks[..|tasks|] == prev.2[..|tasks|];
      Extend(prev, o)
  }

  /** The batch state after one more update with outcome `o`. */
  function Extend(prev: (seq<(int, Reply)>, seq<Entry>, seq<BotTask>), o: Outcome)
    : (seq<(int, Reply)>, seq<Entry>, seq<BotTask>)
  {
    if o.reply.Some? then (prev.0 + [o.reply.value], o.history, o.tasks) else (prev.0, o.history, o.tasks)
  }

  /** Handling one more update extends the batch by its outcome. */
  lemma {:induction false} RespondAllSnoc(h: seq<Entry>, tasks: seq<BotTask>, users: seq<User>,
                                          updates: seq<Update>, i: nat, now: int)
    requires i < |updates|
    ensures var prev := RespondAll(h, tasks, users, updates[..i], now);
      RespondAll(h, tasks, users, updates[..i + 1], now) == Extend(prev, Respond(prev.1, prev.2, users, updates[i], now))
  {
    assert updates[..i + 1][..i] == updates[..i];
  }

  /** Across a batch the history keeps one entry per chat. */
  lemma {:induction false} RespondAllHistory(h: seq<Entry>, tasks: seq<BotTask>, users: seq<User>,
                                             updates: seq<Update>, now: int)
    requires UniqueChats(h)
    ensures UniqueChats(RespondAll(h, tasks, users, updates, now).1)
    decreases |updates|
  {
    if updates != [] {
      var prev := RespondAll(h, tasks, users, updates[..|updates| - 1], now);
      RespondAllHistory(h, tasks, users, updates[..|updates| - 1], now);
      RespondHistory(prev.1, prev.2, users, updates[|updates| - 1], now);
    }
  }

  /** The history keeps one entry per chat across an update, and after a
      text message the sender's entry records that message and moment. */
  lemma {:induction false} RespondHistory(h: seq<Entry>, tasks: seq<BotTask>, users: seq<User>, u: Update, now: int)
    requires UniqueChats(h)
    ensures var o := Respond(h, tasks, users, u, now);
      && UniqueChats(o.history)
      && (o.reply.Some? ==>
            var i := IndexOfChat(o.history, u.message.value.chat.id);
            i >= 0 && o.history[i].text == u.message.value.text.value && o.history[i].timestamp == now)
  {
    if u.message.Some? && u.message.value.text.Some? {
      var chat := u.message.value.chat;
      var text := u.message.value.text.value;
      var name := DisplayName(chat.firstName, chat.lastName, chat.username, chat.id);
      var logged := Upsert(h, chat.id, text, chat.username, name, now);
      UpsertSpec(h, chat.id, text, chat.username, name, now);
      UpsertLands(h, chat.id, text, chat.username, name, now);
      var c := Classify(text);
      if c.SetName? && c.name != "" {
        UpsertSpec(logged, chat.id, text, chat.username, c.name, now);
        UpsertLands(logged, chat.id, text, chat.username, c.name, now);
      }
    }
  }

  /** After an upsert into a history with one entry per chat, the chat's
      entry is found and records the text and the moment. */
  lemma {:induction false} UpsertLands(h: seq<Entry>, chat: int, text: string, username: string, name: string, now: int)
    requires UniqueChats(h)
    ensures var r := Upsert(h, chat, text, username, name, now);
      var i := IndexOfChat(r, chat);
      i >= 0 && r[i].text == text && r[i].timestamp == now
  {
    var r := Upsert(h, chat, text, username, name, now);
    UpsertSpec(h, chat, text, username, name, now);
    var i := IndexOfChat(h, chat);
    var j := if i >= 0 then i else |h|;
    assert r[j].chatId == chat;
    var m := IndexOfChat(r, chat);
    assert m >= 0;
    assert r[m].chatId == chat;
    assert m == j;
  }

  /** An update adds a task only for a well-formed creation message, and the
      new task has an id above every other, belongs to the sender and is
      not completed. */
  lemma {:induction false} RespondTasks(h: seq<Entry>, tasks: seq<BotTask>, users: seq<User>, u: Update, now: int)
    ensures var o := Respond(h, tasks, users, u, now);
      |o.tasks| == |tasks| + 1 ==>
        && u.message.Some? && u.message.value.text.Some?
        && Classify(u.message.value.text.value).CreateTask?
        && Classify(u.message.value.text.value).parsed.Some?
        && var t := o.tasks[|tasks|];
           && t.id.Some? && (forall k :: 0 <= k < |tasks| ==> IdOrZero(tasks[k]) < t.id.value)
           && t.chatId == Some(u.message.value.chat.id) && !t.completed
  {
  }

  /** The bot's state: the task file, the users file, the request history,
      and the ids already reminded. */
  class Bot {
    var tasks: seq<BotTask>
    var users: seq<User>
    var history: seq<Entry>
    var sentReminders: set<Option<int>>

    constructor(tasks0: seq<BotTask>, users0: seq<User>, history0: seq<Entry>)
      ensures tasks == tasks0 && users == users0 && history == history0
      ensures sentReminders == {}
    {
      tasks := tasks0;
      users := users0;
      history := history0;
      sentReminders := {};
    }

    /** `_log_request`: the for/else search for the chat's entry. */
    method LogRequest(chat: int, text: string, username: string, name: string, now: int)
      modifies this
      ensures history == Upsert(old(history), chat, text, username, name, now)
      ensures tasks == old(tasks) && users == old(users)
      ensures sentReminders == old(sentReminders)
    {
      var i := 0;
      while i < |history|
        invariant 0 <= i <= |history|
        invariant forall k :: 0 <= k < i ==> history[k].chatId != chat
      {
        if history[i].chatId == chat {
          var e := history[i];
          var newUsername := if username != "" then username else e.username;
          var newName := if name != "" then name else e.name;
          history := history[i := Entry(chat, text, newUsername, newName, now)];
          return;
        }
        i := i + 1;
      }
      var newName := if name != "" then name else IntToString(chat);
      history := history + [Entry(chat, text, username, newName, now)];
    }

    /** `_create_task`: append a task with the next id. */
    method CreateTask(chat: int, p: ParsedTask)
      requires ValidDateTime(p.when)
      modifies this
      ensures tasks == old(tasks) + [NewBotTask(old(tasks), chat, p)]
      ensures users == old(users) && history == old(history)
      ensures sentReminders == old(sentReminders)
    {
      var newId := MaxIdOrZero(tasks) + 1;
      tasks := tasks + [BotTask(Some(newId), p.text, Some(Seconds(p.when)), Some(chat), [], None, false, None)];
    }

    /** `get_user_tasks_for_week`: the loop that collects the chat's tasks. */
    method TasksForWeek(chat: int, now: int) returns (r: seq<BotTask>)
      ensures r == WeekTasks(tasks, users, chat, now)
    {
      var us := users;
      r := [];
      var i := 0;
      while i < |tasks|
        invariant 0 <= i <= |tasks|
        invariant r == WeekTasks(tasks[..i], us, chat, now)
      {
        var t := tasks[i];
        assert tasks[..i + 1] == tasks[..i] + [t];
        FilterConcat(tasks[..i], [t], (t: BotTask) => DueThisWeek(t, us, chat, now));
        if t.datetime.Some? && !t.completed {
          if AddressedTo(t, users, chat) && now <= t.datetime.value <= now + WeekSeconds {
            r := r + [t];
          }
        }
        i := i + 1;
      }
      assert tasks[..i] == tasks;
    }

    /** `get_chat_id_by_username`: the first entry whose username matches. */
    method FindByUsername(username: string) returns (r: Option<(int, string)>)
      ensures r == LookupUsername(history, username)
    {
      var wanted := NoAt(username);
      var i := 0;
      while i < |history|
        invariant 0 <= i <= |history|
        invariant LookupUsername(history[i..], username) == LookupUsername(history, username)
      {
        var e := history[i];
        assert history[i..][0] == e;
        if e.username != "" && wanted == NoAt(e.username) {
          assert UsernameMatches(e, username);
          return Some((e.chatId, e.name));
        }
        assert history[i..][1..] == history[i + 1..];
        i := i + 1;
      }
      assert history[i..] == [];
      r := None;
    }

    /** One pass of the `check_reminders` loop at time `now`. */
    method CheckReminders(now: int) returns (notices: seq<Notice>)
      modifies this
      ensures (notices, sentReminders) == Fire(tasks, old(sentReminders), now)
      ensures tasks == old(tasks) && users == old(users) && history == old(history)
    {
      notices := [];
      var i := 0;
      while i < |tasks|
        invariant 0 <= i <= |tasks|
        invariant (notices, sentReminders) == Fire(tasks[..i], old(sentReminders), now)
        invariant tasks == old(tasks) && users == old(users) && history == old(history)
      {
        var t := tasks[i];
        assert tasks[..i + 1][..i] == tasks[..i];
        var recipients := Recipients(t);
        if t.datetime.Some? && recipients != [] && !t.completed && t.reminder.Some? && t.id !in sentReminders {
          var at := t.datetime.value - t.reminder.value * 60;
          if at <= now && now <= at + 60 {
            notices := notices + [Notice(t.id, recipients)];
            sentReminders := sentReminders + {t.id};
          }
        }
        i := i + 1;
      }
      assert tasks[..i] == tasks;
    }

    /** The body of the `handle_updates` loop for one update: a text message
      is logged, then acted on according to its command and answered, as
      `Respond` describes. (The outcome is stated for every moment equal to
      `now`, which keeps `Respond`'s definition out of a caller's proof until
      the caller mentions it.) */
    method HandleUpdate(u: Update, now: int) returns (reply: Option<(int, Reply)>)
      modifies this
      ensures users == old(users) && sentReminders == old(sentReminders)
      ensures forall t | t == now :: Outcome(reply, history, tasks) == Respond(old(history), old(tasks), old(users), u, t)
    {
      reply := None;
      if u.message.Some? && u.message.value.text.Some? {
        var chat := u.message.value.chat;
        var text := u.message.value.text.value;
        var name := DisplayName(chat.firstName, chat.lastName, chat.username, chat.id);
        LogRequest(chat.id, text, chat.username, name, now);
        var c := Classify(text);
        reply := Dispatch(chat, text, c, now);
      }
    }

    /** The `if`/`elif` chain of `handle_updates` for a logged message with
      command `c`, as `Act` describes. */
    method Dispatch(chat: Chat, text: string, c: Command, now: int) returns (reply: Option<(int, Reply)>)
      requires c.CreateTask? && c.parsed.Some? ==> ValidDateTime(c.parsed.value.when)
      modifies this
      ensures users == old(users) && sentReminders == old(sentReminders)
      ensures Outcome(reply, history, tasks) == Act(old(history), old(tasks), old(users), chat, text, c, now)
    {
      var tasks0 := tasks;
      match c {
        case SetName(n) =>
          if n != "" {
            LogRequest(chat.id, text, chat.username, n, now);
          }
        case MyTasks =>
          var w := TasksForWeek(chat.id, now);
        case CreateTask(p) =>
          if p.Some? {
            CreateTask(chat.id, p.value);
          }
        case _ =>
      }
      reply := Some((chat.id, ReplyFor(c, chat.id, tasks0, users, now)));
    }

    /** A batch of updates from one `getUpdates` call: each is handled in
      turn, as `RespondAll` describes, and the offset for the next call is
      one past the last update's id (unchanged by an empty batch). */
    method HandleUpdates(updates: seq<Update>, offset: Option<int>, now: int)
      returns (replies: seq<(int, Reply)>, next: Option<int>)
      modifies this
      ensures next == if updates == [] then offset else Some(updates[|updates| - 1].updateId + 1)
      ensures (replies, history, tasks) == RespondAll(old(history), old(tasks), old(users), updates, now)
      ensures users == old(users) && sentReminders == old(sentReminders)
    {
      replies := [];
      next := offset;
      var i := 0;
      while i < |updates|
        invariant 0 <= i <= |updates|
        invariant i == 0 ==> next == offset
        invariant i > 0 ==> next.Some? && next.value == updates[i - 1].updateId + 1
        invariant (replies, history, tasks) == RespondAll(old(history), old(tasks), users, updates[..i], now)
        invariant users == old(users) && sentReminders == old(sentReminders)
      {
        var u := updates[i];
        ghost var prev := (replies, history, tasks);
        RespondAllSnoc(old(history), old(tasks), users, updates, i, now);
        next := Some(u.updateId + 1);
        var reply := HandleUpdate(u, now);
        ghost var o := Outcome(reply, history, tasks);
        assert o == Respond(prev.1, prev.2, users, u, now);
        assert RespondAll(old(history), old(tasks), users, updates[..i + 1], now) == Extend(prev, o);
        if reply.Some? {
          replies := replies + [reply.value];
        }
        assert (replies, history, tasks) == Extend(prev, o);
        i := i + 1;
      }
      assert updates[..i] == updates;
    }
  }
}
