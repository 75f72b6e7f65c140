/**
 * The comments API of the web app (web/app/api/comments/route.ts): a fixed
 * window rate limiter kept in process memory, the client key taken from the
 * forwarded-for header, the ordered checks of a posted comment and the read
 * path that lists one day's comments.
 */
module CommentsApi {
  import opened Wrappers
  import opened Text
  import opened Types
  import opened JsValue
  import Order
  import StableSort

  /** Admitted posts per key and window. */
  const RATE_LIMIT: int := 5
  /** Window length in milliseconds. */
  const RATE_WINDOW: int := 60000
  const DEFAULT_NICKNAME: string := "익명"
  const MAX_CONTENT: nat := 500
  const MAX_NICKNAME: nat := 20
  /** Length of the client key: a prefix of the hex digest. */
  const KEY_LENGTH: nat := 16

  // ---------------------------------------------------------------------
  // Rate limiting

  /** One key's window: admitted calls so far and the window's last instant. */
  datatype Entry = Entry(count: int, resetAt: int)

  /** The invariant the limiter keeps: every entry admitted 1 to 5 calls. */
  predicate ValidEntries(entries: map<string, Entry>) {
    forall k :: k in entries ==> 1 <= entries[k].count <= RATE_LIMIT
  }

  /** Whether a call for `key` at time `now` is admitted. A call exactly at
      `resetAt` still belongs to the old window. */
  predicate Admits(entries: map<string, Entry>, key: string, now: int) {
    key !in entries || now > entries[key].resetAt || entries[key].count < RATE_LIMIT
  }

  /** The map after one call of `checkRateLimit`. */
  function Step(entries: map<string, Entry>, key: string, now: int): (r: map<string, Entry>)
    ensures r.Keys == entries.Keys + {key}
    ensures forall k :: k in entries && k != key ==> r[k] == entries[k]
    ensures ValidEntries(entries) ==> ValidEntries(r)
  {
    if key !in entries || now > entries[key].resetAt then
      entries[key := Entry(1, now + RATE_WINDOW)]
    else if entries[key].count >= RATE_LIMIT then
      entries
    else
      entries[key := Entry(entries[key].count + 1, entries[key].resetAt)]
  }

  /** The module-level `rateLimitMap`. */
  class RateLimiter {
    var entries: map<string, Entry>

    constructor ()
      ensures entries == map[]
    {
      entries := map[];
    }

    /** `checkRateLimit`, with the clock reading `now` passed in. */
    method CheckRateLimit(key: string, now: int) returns (admitted: bool)
      modifies this
      ensures admitted == Admits(old(entries), key, now)
      ensures entries == Step(old(entries), key, now)
      ensures old(key !in entries || now > entries[key].resetAt) ==>
                admitted && entries == old(entries)[key := Entry(1, now + RATE_WINDOW)]
      ensures old(key in entries && now <= entries[key].resetAt && entries[key].count >= RATE_LIMIT) ==>
                !admitted && entries == old(entries)
      ensures old(key in entries && now <= entries[key].resetAt && entries[key].count < RATE_LIMIT) ==>
                admitted && entries == old(entries[key := Entry(entries[key].count + 1, entries[key].resetAt)])
    {
      if key !in entries || now > entries[key].resetAt {
        entries := entries[key := Entry(1, now + RATE_WINDOW)];
        return true;
      }
      var entry := entries[key];
      if entry.count >= RATE_LIMIT {
        return false;
      }
      entries := entries[key := Entry(entry.count + 1, entry.resetAt)];
      return true;
    }
  }

  /** One call of the limiter: the key and the clock reading. */
  datatype Call = Call(key: string, now: int)

  /** The map after a sequence of calls. */
  function Run(entries: map<string, Entry>, calls: seq<Call>): (r: map<string, Entry>)
    ensures ValidEntries(entries) ==> ValidEntries(r)
    decreases |calls|
  {
    if calls == [] then entries
    else Run(Step(entries, calls[0].key, calls[0].now), calls[1..])
  }

  /** How many of `calls` for `key` are admitted. */
  function AdmittedFor(entries: map<string, Entry>, calls: seq<Call>, key: string): nat
    decreases |calls|
  {
    if calls == [] then 0
    else
      (if calls[0].key == key && Admits(entries, key, calls[0].now) then 1 else 0)
      + AdmittedFor(Step(entries, calls[0].key, calls[0].now), calls[1..], key)
  }

  /** Calls for other keys never change a key's entry. */
  lemma {:induction false} OtherKeysUntouched(entries: map<string, Entry>, calls: seq<Call>, key: string)
    requires forall i :: 0 <= i < |calls| ==> calls[i].key != key
    ensures key in Run(entries, calls) <==> key in entries
    ensures key in entries ==> Run(entries, calls)[key] == entries[key]
    ensures AdmittedFor(entries, calls, key) == 0
    decreases |calls|
  {
    if calls != [] {
      OtherKeysUntouched(Step(entries, calls[0].key, calls[0].now), calls[1..], key);
    }
  }

  /** Inside an open window, a key gets no more admits than the window has
      left: `RATE_LIMIT - count`. Calls for other keys are interleaved freely. */
  lemma {:induction false} WindowBound(entries: map<string, Entry>, calls: seq<Call>, key: string)
    requires ValidEntries(entries) && key in entries
    requires forall i :: 0 <= i < |calls| && calls[i].key == key ==> calls[i].now <= entries[key].resetAt
    ensures AdmittedFor(entries, calls, key) <= RATE_LIMIT - entries[key].count
    decreases |calls|
  {
    if calls != [] {
      var next := Step(entries, calls[0].key, calls[0].now);
      assert key in next && next[key].resetAt == entries[key].resetAt;
      assert calls[0].key == key && Admits(entries, key, calls[0].now) ==>
        next[key].count == entries[key].count + 1;
      assert !(calls[0].key == key && Admits(entries, key, calls[0].now)) ==>
        next[key].count == entries[key].count;
      WindowBound(next, calls[1..], key);
    }
  }

  /** At most `RATE_LIMIT` admits for a key between the call that opens its
      window and the window's end. */
  lemma FivePerWindow(entries: map<string, Entry>, calls: seq<Call>, key: string)
    requires ValidEntries(entries)
    requires calls != [] && calls[0].key == key
    requires key !in entries || calls[0].now > entries[key].resetAt
    requires forall i :: 0 < i < |calls| && calls[i].key == key ==> calls[i].now <= calls[0].now + RATE_WINDOW
    ensures AdmittedFor(entries, calls, key) <= RATE_LIMIT
  {
    var next := Step(entries, key, calls[0].now);
    assert next[key] == Entry(1, calls[0].now + RATE_WINDOW);
    WindowBound(next, calls[1..], key);
  }

  /** From an empty map, five calls at one instant are admitted and the
      sixth is refused; the first call after the window is admitted again. */
  lemma SixthCallRefused(key: string, t: int)
    ensures var burst := [Call(key, t), Call(key, t), Call(key, t), Call(key, t), Call(key, t)];
      && AdmittedFor(map[], burst, key) == 5
      && !Admits(Run(map[], burst), key, t)
      && !Admits(Run(map[], burst), key, t + RATE_WINDOW)
      && Admits(Run(map[], burst), key, t + RATE_WINDOW + 1)
  {
    var c := Call(key, t);
    var burst := [c, c, c, c, c];
    var m5 := map[key := Entry(5, t + RATE_WINDOW)];
    assert Step(map[], key, t) == map[key := Entry(1, t + RATE_WINDOW)];
    BurstInWindow(key, t, 1, burst[1..]);
    assert burst == [c] + burst[1..];
    assert Run(map[], burst) == m5;
  }

  /** Calls at the instant that opened the window each add one to the count
      while it stays within the limit. */
  lemma {:induction false} BurstInWindow(key: string, t: int, n: nat, calls: seq<Call>)
    requires 1 <= n && n + |calls| <= RATE_LIMIT
    requires forall i :: 0 <= i < |calls| ==> calls[i] == Call(key, t)
    ensures Run(map[key := Entry(n, t + RATE_WINDOW)], calls) == map[key := Entry(n + |calls|, t + RATE_WINDOW)]
    ensures AdmittedFor(map[key := Entry(n, t + RATE_WINDOW)], calls, key) == |calls|
    decreases |calls|
  {
    if calls != [] {
      var m := map[key := Entry(n, t + RATE_WINDOW)];
      assert calls[0] == Call(key, t);
      assert Admits(m, key, t);
      assert Step(m, key, t) == map[key := Entry(n + 1, t + RATE_WINDOW)];
      BurstInWindow(key, t, n + 1, calls[1..]);
    }
  }

  // ---------------------------------------------------------------------
  // Client key

  /** The client address: the forwarded-for header's text before the first
      comma, trimmed; `"unknown"` only when the header is absent. */
  function ClientAddress(forwarded: Option<string>): (ip: string)
    ensures forwarded.None? ==> ip == "unknown"
    ensures forwarded.Some? ==> ip == JsTrim(FirstField(forwarded.value, ','))
    ensures forwarded.Some? ==> ',' !in ip && |ip| <= |forwarded.value|
    ensures forwarded.Some? && ip != [] ==> !IsJsSpace(ip[0]) && !IsJsSpace(ip[|ip| - 1])
  {
    match forwarded
    case None => "unknown"
    case Some(h) =>
      var first := FirstField(h, ',');
      TrimIsInfix(first, IsJsSpace);
      JsTrim(first)
  }

  /** A present but empty header gives the empty address, not `"unknown"`. */
  lemma EmptyHeaderGivesEmptyAddress()
    ensures ClientAddress(Some("")) == ""
  {
  }

  /** The first hop of a proxy chain is the address, whatever follows it. */
  lemma FirstHop(hop: string, rest: string)
    requires ',' !in hop && hop != [] && !IsJsSpace(hop[0]) && !IsJsSpace(hop[|hop| - 1])
    ensures ClientAddress(Some(hop + "," + rest)) == hop
  {
    var h := hop + "," + rest;
    var first := FirstField(h, ',');
    assert h[|hop|] == ',';
    assert h[..|hop|] == hop;
    assert first == hop;
    TrimKeepsSolidText(hop, IsJsSpace);
  }

  /** The key the limiter and the store use: the first 16 characters of the
      hex SHA-256 digest of the address; `digest` stands for the hash. */
  function ClientKey(forwarded: Option<string>, digest: string -> string): (key: string)
    ensures |key| <= KEY_LENGTH && |key| <= |digest(ClientAddress(forwarded))|
    ensures key == digest(ClientAddress(forwarded))[..|key|]
    ensures |digest(ClientAddress(forwarded))| >= KEY_LENGTH ==> |key| == KEY_LENGTH
  {
    Take(digest(ClientAddress(forwarded)), KEY_LENGTH)
  }

  // ---------------------------------------------------------------------
  // Validation

  /** Month 13 passes: the check is on the shape only. */
  lemma ShapeOnly()
    ensures IsDateShape("2024-13-01")
    ensures !IsDateShape("2024-1-01")
  {
  }

  /** The request body: not JSON (`req.json()` rejects), the JSON value
      `null`, or any other JSON value with the fields `const { date,
      nickname, content } = body` reads from it. A number, string, boolean
      or array body has all three `Absent`. */
  datatype PostBody = NotJson | NullBody | Fields(date: Field, nickname: Field, content: Field)

  /** Why a post is refused. `Uncaught` is a `TypeError` the handler does
      not catch: destructuring `null`, or `.trim()` called on a value that
      is not a string. */
  datatype PostError = NotJsonBody | BadDate | EmptyContent | TooLong | Uncaught

  /** The values a valid post stores. */
  datatype Accepted = Accepted(date: string, nickname: string, content: string)

  /** The date check passes: `date` is truthy and `String(date)` has the
      shape `^\d{4}-\d{2}-\d{2}$`. */
  predicate DatePasses(f: Field) {
    Truthy(f) && IsDateShape(JsString(f))
  }

  /** `!content || content.trim().length === 0` holds without throwing:
      the content is falsy, or a string that trims to nothing. */
  predicate Blank(f: Field) {
    !Truthy(f) || (f.Str? && JsTrim(f.s) == [])
  }

  /** The nickname stored: the trimmed nickname, or `"익명"` when it is
      absent, `null` or blank, cut to its first 20 UTF-16 code units. */
  function SafeNickname(nickname: Field): (r: string)
    requires !nickname.Other?
    ensures 1 <= |r| && Utf16Length(r) <= MAX_NICKNAME
    ensures !IsJsSpace(r[0])
    ensures var n := if nickname.Str? && JsTrim(nickname.s) != [] then JsTrim(nickname.s) else DEFAULT_NICKNAME;
      && |r| <= |n| && r == n[..|r|]
      && (|r| < |n| ==> Utf16Length(r) + CodeUnits(n[|r|]) > MAX_NICKNAME)
    ensures !(nickname.Str? && JsTrim(nickname.s) != []) ==> r == DEFAULT_NICKNAME
  {
    var n := if nickname.Str? && JsTrim(nickname.s) != [] then JsTrim(nickname.s) else DEFAULT_NICKNAME;
    assert !IsJsSpace(n[0]);
    assert Utf16Length(DEFAULT_NICKNAME) == 2 by {
      Utf16LengthBmp(DEFAULT_NICKNAME);
    }
    var r := Utf16Take(n, MAX_NICKNAME);
    assert Utf16Length([]) + CodeUnits(n[0]) <= MAX_NICKNAME;
    r
  }

  /** A nickname in the Basic Multilingual Plane is cut to its first 20
      characters. */
  lemma NicknameBmp(nickname: string)
    requires JsTrim(nickname) != []
    requires forall k :: 0 <= k < |nickname| ==> nickname[k] as int <= 0xFFFF
    ensures SafeNickname(Str(nickname)) == Take(JsTrim(nickname), MAX_NICKNAME)
  {
    var t := JsTrim(nickname);
    TrimIsInfix(nickname, IsJsSpace);
    assert forall k :: 0 <= k < |t| ==> t[k] as int <= 0xFFFF by {
      var a := LeadingCount(nickname, IsJsSpace);
      forall k | 0 <= k < |t| ensures t[k] as int <= 0xFFFF {
        assert t[k] == nickname[a + k];
      }
    }
    Utf16TakeBmp(t, MAX_NICKNAME);
  }

  /** The checks of a body, in the source's order: the body itself, the date,
      missing or blank content, content that is not a string, the length of
      the untrimmed content in code units, and a nickname that is not a
      string or `null`. */
  function Validate(body: PostBody): (r: Result<Accepted, PostError>)
    ensures r == Err(NotJsonBody) <==> body.NotJson?
    ensures r == Err(BadDate) <==> body.Fields? && !DatePasses(body.date)
    ensures r == Err(EmptyContent) <==> body.Fields? && DatePasses(body.date) && Blank(body.content)
    ensures r == Err(TooLong) <==>
              && body.Fields? && DatePasses(body.date) && !Blank(body.content)
              && body.content.Str? && Utf16Length(body.content.s) > MAX_CONTENT
    ensures r == Err(Uncaught) <==>
              || body.NullBody?
              || (&& body.Fields? && DatePasses(body.date) && !Blank(body.content)
                  && (body.content.Other?
                      || (Utf16Length(body.content.s) <= MAX_CONTENT && body.nickname.Other?)))
    ensures r.Ok? ==>
              && body.Fields? && body.content.Str? && !body.nickname.Other?
              && r.value.date == JsString(body.date)
              && r.value.content == JsTrim(body.content.s)
              && 1 <= |r.value.content| && Utf16Length(r.value.content) <= MAX_CONTENT
              && r.value.nickname == SafeNickname(body.nickname)
  {
    match body
    case NotJson => Err(NotJsonBody)
    case NullBody => Err(Uncaught)
    case Fields(date, nickname, content) =>
      if !DatePasses(date) then Err(BadDate)
      else if Blank(content) then Err(EmptyContent)
      else if content.Other? then Err(Uncaught)
      else if Utf16Length(content.s) > MAX_CONTENT then Err(TooLong)
      else if nickname.Other? then Err(Uncaught)
      else
        TrimmedUnits(content.s);
        Ok(Accepted(JsString(date), SafeNickname(nickname), JsTrim(content.s)))
  }

  /** Trimming never adds code units. */
  lemma TrimmedUnits(s: string)
    ensures Utf16Length(JsTrim(s)) <= Utf16Length(s)
  {
    TrimIsInfix(s, IsJsSpace);
    var a := LeadingCount(s, IsJsSpace);
    Utf16LengthInfix(s, a, a + |JsTrim(s)|);
  }

  /** The limit is on the text as sent: 500 code units pass and 501 fail,
      even when the 501st is a space that trimming would remove. */
  lemma LengthLimitIsUntrimmed(date: string, text: string)
    requires IsDateShape(date) && text != [] && !IsJsSpace(text[0]) && !IsJsSpace(text[|text| - 1])
    ensures Utf16Length(text) <= MAX_CONTENT ==> Validate(Fields(Str(date), Absent, Str(text))).Ok?
    ensures Utf16Length(text) == MAX_CONTENT ==>
              Validate(Fields(Str(date), Absent, Str(text + " "))) == Err(TooLong)
  {
    SolidText(text);
    WithinLimit(date, text);
    Padded(text);
    OverLimit(date, text + " ");
  }

  /** Text with no white space at its ends is not blank. */
  lemma SolidText(text: string)
    requires text != [] && !IsJsSpace(text[0]) && !IsJsSpace(text[|text| - 1])
    ensures !Blank(Str(text))
  {
    TrimKeepsSolidText(text, IsJsSpace);
  }

  /** A trailing space adds one code unit and keeps the content non-blank. */
  lemma Padded(text: string)
    requires text != [] && !IsJsSpace(text[0])
    ensures !Blank(Str(text + " "))
    ensures Utf16Length(text + " ") == Utf16Length(text) + 1
  {
    assert (text + " ")[0] == text[0];
    Utf16LengthAppend(text, " ");
    assert Utf16Length(" ") == 1;
  }

  /** A date-shaped date and non-blank content within the limit pass. */
  lemma WithinLimit(date: string, content: string)
    requires IsDateShape(date) && !Blank(Str(content))
    ensures Utf16Length(content) <= MAX_CONTENT ==> Validate(Fields(Str(date), Absent, Str(content))).Ok?
  {
  }

  /** A date-shaped date and non-blank content over the limit fail as too long. */
  lemma OverLimit(date: string, content: string)
    requires IsDateShape(date) && !Blank(Str(content))
    ensures Utf16Length(content) > MAX_CONTENT ==> Validate(Fields(Str(date), Absent, Str(content))) == Err(TooLong)
  {
  }

  /** `.length` counts a character outside the Basic Multilingual Plane
      twice: 250 emoji fill the limit and 300 exceed it. */
  lemma WideCharactersCountTwice(date: string)
    requires IsDateShape(date)
    ensures Validate(Fields(Str(date), Absent, Str(Repeat('\U{1F600}', 250)))).Ok?
    ensures Validate(Fields(Str(date), Absent, Str(Repeat('\U{1F600}', 300)))) == Err(TooLong)
  {
    var c := '\U{1F600}';
    assert CodeUnits(c) == 2 && !IsJsSpace(c);
    assert DatePasses(Str(date));
    WideText(c, 250);
    WideText(c, 300);
    WithinLimit(date, Repeat(c, 250));
    OverLimit(date, Repeat(c, 300));
  }

  lemma WideText(c: char, n: nat)
    requires n > 0 && !IsJsSpace(c)
    ensures !Blank(Str(Repeat(c, n)))
    ensures Utf16Length(Repeat(c, n)) == n * CodeUnits(c)
  {
    assert Repeat(c, n)[0] == c;
    Utf16LengthRepeat(c, n);
  }

  /** A JSON `null` body and a content that is a number both throw: the
      handler answers neither 400 nor 201. */
  lemma NonObjectsThrow(date: string)
    requires IsDateShape(date)
    ensures Validate(NullBody) == Err(Uncaught)
    ensures Validate(Fields(Str(date), Absent, Other(true, "5"))) == Err(Uncaught)
    ensures Validate(Fields(Str(date), Other(false, "0"), Str("hi"))) == Err(Uncaught)
    ensures Validate(Fields(Str(date), Null, Other(false, "0"))) == Err(EmptyContent)
  {
    assert JsTrim("hi") == "hi" by {
      TrimKeepsSolidText("hi", IsJsSpace);
    }
  }

  // ---------------------------------------------------------------------
  // Store

  /** A row of the `comments` table, with the client key it was posted from. */
  datatype StoredComment = StoredComment(comment: Comment, ipHash: string)

  /** The `comments` table; `available` is false while the database cannot be
      reached, and every statement then fails. */
  class CommentStore {
    var rows: seq<StoredComment>
    var nextId: int
    var available: bool

    /** Ids are assigned in increasing order and stay below `nextId`. */
    predicate Valid()
      reads this
    {
      && (forall i :: 0 <= i < |rows| ==> rows[i].comment.id < nextId)
      && (forall i, j :: 0 <= i < j < |rows| ==> rows[i].comment.id < rows[j].comment.id)
    }

    constructor (available: bool)
      ensures rows == [] && nextId == 1 && this.available == available
    {
      rows := [];
      nextId := 1;
      this.available := available;
    }

    /** `INSERT INTO comments …` with an `AUTOINCREMENT` id. */
    method Insert(date: string, nickname: string, content: string, ipHash: string, createdAt: string)
      returns (ok: bool)
      requires Valid()
      modifies this
      ensures Valid()
      ensures ok == old(available) && available == old(available)
      ensures rows == if ok
                      then old(rows) + [StoredComment(Comment(old(nextId), date, nickname, content, createdAt), ipHash)]
                      else old(rows)
      ensures nextId == if ok then old(nextId) + 1 else old(nextId)
    {
      if !available {
        return false;
      }
      rows := rows + [StoredComment(Comment(nextId, date, nickname, content, createdAt), ipHash)];
      nextId := nextId + 1;
      return true;
    }
  }

  /** `POST`: rate limit first, then the body, then the checks, then the
      insert. `now` and `createdAt` are the clock readings. An uncaught
      `TypeError` is answered 500, as Next.js does for a handler that throws. */
  method Post(limiter: RateLimiter, store: CommentStore, forwarded: Option<string>,
              digest: string -> string, body: PostBody, now: int, createdAt: string)
    returns (status: int)
    requires store.Valid()
    modifies limiter, store
    ensures store.Valid()
    ensures limiter.entries == Step(old(limiter.entries), ClientKey(forwarded, digest), now)
    ensures status == 429 <==> !Admits(old(limiter.entries), ClientKey(forwarded, digest), now)
    ensures status == 400 <==>
              Admits(old(limiter.entries), ClientKey(forwarded, digest), now)
              && Validate(body).Err? && Validate(body).error != Uncaught
    ensures status == 201 <==>
              Admits(old(limiter.entries), ClientKey(forwarded, digest), now)
              && Validate(body).Ok? && old(store.available)
    ensures status == 500 <==>
              Admits(old(limiter.entries), ClientKey(forwarded, digest), now)
              && (Validate(body) == Err(Uncaught) || (Validate(body).Ok? && !old(store.available)))
    ensures status == 201 ==>
              var a := Validate(body).value;
              store.rows == old(store.rows)
                + [StoredComment(Comment(old(store.nextId), a.date, a.nickname, a.content, createdAt),
                                 ClientKey(forwarded, digest))]
    ensures status != 201 ==> store.rows == old(store.rows)
    ensures store.nextId == if status == 201 then old(store.nextId) + 1 else old(store.nextId)
    ensures store.available == old(store.available)
  {
    var key := ClientKey(forwarded, digest);
    var admitted := limiter.CheckRateLimit(key, now);
    if !admitted {
      return 429;
    }
    var checked := Validate(body);
    if checked.Err? {
      return if checked.error == Uncaught then 500 else 400;
    }
    var a := checked.value;
    var ok := store.Insert(a.date, a.nickname, a.content, key, createdAt);
    status := if ok then 201 else 500;
  }

  // ---------------------------------------------------------------------
  // Read path

  predicate CreatedBefore(a: Comment, b: Comment) {
    Order.Less(a.createdAt, b.createdAt)
  }

  function CreatedAtOf(c: Comment): string {
    c.createdAt
  }

  /** The rows posted for `date`, in table order. */
  function OnDate(rows: seq<StoredComment>, date: string): (r: seq<StoredComment>)
    ensures forall x :: x in r <==> x in rows && x.comment.date == date
    decreases |rows|
  {
    if rows == [] then []
    else (if rows[0].comment.date == date then [rows[0]] else []) + OnDate(rows[1..], date)
  }

  /** The rows without their client keys. */
  function Views(rows: seq<StoredComment>): (r: seq<Comment>)
    ensures |r| == |rows|
    ensures forall k :: 0 <= k < |rows| ==> r[k] == rows[k].comment
  {
    seq(|rows|, k requires 0 <= k < |rows| => rows[k].comment)
  }

  /** `SELECT … WHERE date = ? ORDER BY created_at ASC`, without the client
      key: one comment per row of the date, ordered by `created_at`, ties in
      table order. The order compares only the comment, so sorting the
      comments is sorting the rows. */
  function Query(rows: seq<StoredComment>, date: string): (r: seq<Comment>)
    ensures multiset(r) == multiset(Views(OnDate(rows, date)))
    ensures forall k :: 0 <= k < |r| ==> r[k].date == date
    ensures forall x :: x in rows && x.comment.date == date ==> x.comment in r
    ensures forall i, j :: 0 <= i < j < |r| ==> !Order.Less(r[j].createdAt, r[i].createdAt)
  {
    var views := Views(OnDate(rows, date));
    ViewsOnDate(rows, date);
    QuerySorted(views);
    StableSort.Sort(views, CreatedBefore)
  }

  /** The views of the date's rows are the date's comments. */
  lemma ViewsOnDate(rows: seq<StoredComment>, date: string)
    ensures forall c :: c in Views(OnDate(rows, date)) ==> c.date == date
    ensures forall x :: x in rows && x.comment.date == date ==> x.comment in Views(OnDate(rows, date))
  {
    var onDate := OnDate(rows, date);
    var views := Views(onDate);
    forall c | c in views ensures c.date == date {
      var k :| 0 <= k < |views| && views[k] == c;
      assert onDate[k] in onDate;
    }
    forall x | x in rows && x.comment.date == date ensures x.comment in views {
      var k :| 0 <= k < |onDate| && onDate[k] == x;
      assert views[k] == x.comment;
    }
  }

  /** The stable sort by `created_at` keeps exactly the comments it is given
      and orders them. */
  lemma QuerySorted(views: seq<Comment>)
    ensures forall c :: c in StableSort.Sort(views, CreatedBefore) <==> c in views
    ensures StableSort.Sorted(StableSort.Sort(views, CreatedBefore), CreatedBefore)
  {
    StableSort.LessOnKey(CreatedBefore, CreatedAtOf);
    StableSort.SortSorted(views, CreatedBefore);
    StableSort.SortMembers(views, CreatedBefore);
  }

  /** `GET`: 400 for a missing or malformed date, otherwise 200 with the
      day's comments, or with none when the store fails. */
  function ListComments(store: CommentStore, date: Option<string>): (r: (int, seq<Comment>))
    reads store
    ensures r.0 == 400 <==> !(date.Some? && IsDateShape(date.value))
    ensures r.0 == 400 || r.0 == 200
    ensures r.0 == 400 || !store.available ==> r.1 == []
    ensures r.0 == 200 && store.available ==> r.1 == Query(store.rows, date.value)
  {
    if date.None? || !IsDateShape(date.value) then (400, [])
    else if !store.available then (200, [])
    else (200, Query(store.rows, date.value))
  }
}
