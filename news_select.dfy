/**
 * The selection stage of news_bot.py (`call_groq_batch_selection`): the
 * model's reply is cleaned of code fences, parsed as JSON, unwrapped to a
 * list of article objects, checked for the required fields and ordered
 * domestic first; the request is retried at most three times with a
 * back-off that depends on the failure.
 *
 * The HTTP exchange is the function `respond` from the attempt number to a
 * reply, `json.loads` is the function `parse` (None for a decoding error),
 * and each `time.sleep` of the retry loop is a recorded wait in seconds.
 */
module NewsSelect {
  import opened Wrappers
  import opened Text
  import Order

  // ---------------------------------------------------------------------
  // JSON values

  /** A value `json.loads` can return. Numbers are not told apart further:
      only their kind matters here. Object members are in key order. */
  datatype Json =
    | JNull
    | JBool(b: bool)
    | JNum(n: int)
    | JStr(s: string)
    | JArr(items: seq<Json>)
    | JObj(members: seq<(string, Json)>)

  predicate HasKey(members: seq<(string, Json)>, key: string) {
    exists k :: 0 <= k < |members| && members[k].0 == key
  }

  /** `d.get(key)`: the value of the first member with that key. */
  function Lookup(members: seq<(string, Json)>, key: string): (r: Option<Json>)
    ensures r.Some? <==> HasKey(members, key)
    ensures r.Some? ==> exists k :: 0 <= k < |members| && members[k] == (key, r.value)
    decreases |members|
  {
    if members == [] then None
    else if members[0].0 == key then Some(members[0].1)
    else
      var r := Lookup(members[1..], key);
      if r.Some? then
        var k :| 0 <= k < |members[1..]| && members[1..][k] == (key, r.value);
        assert members[k + 1] == (key, r.value);
        r
      else
        r
  }

  // ---------------------------------------------------------------------
  // Code fences

  const FENCE: string := "```"
  const JSON_FENCE: string := "```json"

  /** `content.replace("```json", "").replace("```", "").strip()`. */
  function Clean(content: string): string {
    PyStrip(ReplaceAll(ReplaceAll(content, JSON_FENCE, ""), FENCE, ""))
  }

  function Backticks(s: string): (n: nat)
    ensures n <= |s|
  {
    LeadingCount(s, c => c == '`')
  }

  lemma BackticksStart(s: string)
    ensures Backticks(s) >= 2 <==> StartsWith(s, "``")
    ensures Backticks(s) >= 3 <==> StartsWith(s, FENCE)
    ensures s != [] && s[0] == '`' ==> Backticks(s) == 1 + Backticks(s[1..])
    ensures s != [] && s[0] != '`' ==> Backticks(s) == 0
  {
    var n := Backticks(s);
    if StartsWith(s, "``") {
      assert s[0] == '`' && s[1] == '`';
    }
    if StartsWith(s, FENCE) {
      assert s[0] == '`' && s[1] == '`' && s[2] == '`';
    }
    if n >= 2 {
      assert s[..2] == "``";
    }
    if n >= 3 {
      assert s[..3] == FENCE;
    }
  }

  /** Removing the fences leaves the leading run of backticks of a text that
      does not open with a fence as it was. */
  lemma {:induction false} KeepsShortRun(s: string)
    requires !StartsWith(s, FENCE)
    ensures Backticks(ReplaceAll(s, FENCE, "")) == Backticks(s)
    decreases |s|
  {
    BackticksStart(s);
    if |s| >= 3 {
      var t := s[1..];
      var r := ReplaceAll(t, FENCE, "");
      assert ReplaceAll(s, FENCE, "") == [s[0]] + r;
      BackticksStart([s[0]] + r);
      assert ([s[0]] + r)[1..] == r;
      if s[0] == '`' {
        BackticksStart(t);
        assert !StartsWith(t, FENCE);
        KeepsShortRun(t);
      }
    }
  }

  /** After `.replace("```", "")` no fence is left, even where removing one
      brings backticks together. */
  lemma {:induction false} NoFenceLeft(s: string)
    ensures !Contains(ReplaceAll(s, FENCE, ""), FENCE)
    decreases |s|
  {
    var r := ReplaceAll(s, FENCE, "");
    if |s| < 3 {
      assert !StartsWith(r, FENCE);
      if |r| > 0 {
        assert !StartsWith(r[1..], FENCE);
        if |r| > 1 {
          assert !StartsWith(r[1..][1..], FENCE);
        }
      }
    } else if s[..3] == FENCE {
      assert r == ReplaceAll(s[3..], FENCE, "");
      NoFenceLeft(s[3..]);
    } else {
      var t := s[1..];
      var rt := ReplaceAll(t, FENCE, "");
      NoFenceLeft(t);
      assert r == [s[0]] + rt;
      assert r[1..] == rt;
      BackticksStart(r);
      BackticksStart(s);
      if s[0] == '`' {
        BackticksStart(t);
        assert !StartsWith(t, FENCE);
        KeepsShortRun(t);
      }
    }
  }

  /** The cleaned reply holds no code fence. */
  lemma CleanHasNoFence(content: string)
    ensures !Contains(Clean(content), FENCE)
  {
    var r := ReplaceAll(ReplaceAll(content, JSON_FENCE, ""), FENCE, "");
    NoFenceLeft(ReplaceAll(content, JSON_FENCE, ""));
    TrimAvoids(r, IsPySpace, FENCE);
  }

  lemma {:induction false} ContainsHead(s: string, p: string)
    requires |p| > 0 && Contains(s, p)
    ensures p[0] in s
    decreases |s|
  {
    if !StartsWith(s, p) {
      ContainsHead(s[1..], p);
    } else {
      assert s[0] == p[0];
    }
  }

  /** A reply without backticks is only stripped. */
  lemma CleanWithoutBackticks(content: string)
    requires '`' !in content
    ensures Clean(content) == PyStrip(content)
  {
    if Contains(content, JSON_FENCE) {
      ContainsHead(content, JSON_FENCE);
    }
    if Contains(content, FENCE) {
      ContainsHead(content, FENCE);
    }
  }

  // ---------------------------------------------------------------------
  // From the parsed value to the selected articles

  /** The first member value that is a non-empty list, or the empty list. */
  function FirstList(members: seq<(string, Json)>): (r: seq<Json>)
    ensures r != [] ==> exists k :: 0 <= k < |members| && members[k].1 == JArr(r)
    decreases |members|
  {
    if members == [] then []
    else if members[0].1.JArr? && members[0].1.items != [] then members[0].1.items
    else
      var r := FirstList(members[1..]);
      if r != [] then
        var k :| 0 <= k < |members[1..]| && members[1..][k].1 == JArr(r);
        assert members[k + 1].1 == JArr(r);
        r
      else
        r
  }

  /** The unwrapped value is the first non-empty list: every member before
      it holds something else, and when there is none the result is empty. */
  lemma {:induction false} FirstListIsFirst(members: seq<(string, Json)>, k: nat)
    requires k < |members| && members[k].1.JArr? && members[k].1.items != []
    requires forall j :: 0 <= j < k ==> !(members[j].1.JArr? && members[j].1.items != [])
    ensures FirstList(members) == members[k].1.items
    decreases k
  {
    if k > 0 {
      FirstListIsFirst(members[1..], k - 1);
    }
  }

  lemma {:induction false} FirstListNone(members: seq<(string, Json)>)
    requires forall j :: 0 <= j < |members| ==> !(members[j].1.JArr? && members[j].1.items != [])
    ensures FirstList(members) == []
    decreases |members|
  {
    if members != [] {
      FirstListNone(members[1..]);
    }
  }

  /** What iterating over the parsed value yields: the unwrapped list of a
      dict, a list itself, the one-character strings of a string; iterating
      anything else raises. */
  function Unwrap(parsed: Json): Option<seq<Json>> {
    match parsed
    case JObj(members) => Some(FirstList(members))
    case JArr(items) => Some(items)
    case JStr(s) => Some(seq(|s|, i requires 0 <= i < |s| => JStr([s[i]])))
    case _ => None
  }

  /** A dict with `title`, `url` and `category`. */
  predicate Required(item: Json) {
    item.JObj? && HasKey(item.members, "title") && HasKey(item.members, "url")
    && HasKey(item.members, "category")
  }

  /** `tag in value`: a substring of a string, an element of a list, a key
      of a dict; `in` on any other kind raises. */
  function TagIn(tag: string, value: Json): Option<bool> {
    match value
    case JStr(s) => Some(Contains(s, tag))
    case JArr(items) => Some(JStr(tag) in items)
    case JObj(members) => Some(HasKey(members, tag))
    case _ => None
  }

  function Category(item: Json): Json {
    if item.JObj? && HasKey(item.members, "category") then Lookup(item.members, "category").value else JNull
  }

  const DOMESTIC_TAG: string := "[국내]"
  const OVERSEAS_TAG: string := "[해외]"

  predicate Domestic(item: Json) {
    TagIn(DOMESTIC_TAG, Category(item)) == Some(true)
  }

  predicate Overseas(item: Json) {
    TagIn(OVERSEAS_TAG, Category(item)) == Some(true)
  }

  /** Whether the category of every item supports `in`. */
  predicate Testable(items: seq<Json>) {
    forall k :: 0 <= k < |items| ==> TagIn(DOMESTIC_TAG, Category(items[k])).Some?
  }

  /** How one reply ends. */
  datatype Outcome =
    | Undecodable            // `json.JSONDecodeError`
    | Raised                 // any other exception inside the handling
    | NoneValid              // no item has the required fields
    | Selected(items: seq<Json>)

  /** The handling of one reply's content. */
  function Handle(content: string, parse: string -> Option<Json>): Outcome {
    match parse(Clean(content))
    case None => Undecodable
    case Some(parsed) => Interpret(parsed)
  }

  /** The handling of a decoded reply. */
  function Interpret(parsed: Json): Outcome {
    match Unwrap(parsed)
    case None => Raised
    case Some(result) =>
      var valid := Order.Filter(result, Required);
      if valid == [] then NoneValid
      else if !Testable(valid) then Raised
      else Selected(Order.Filter(valid, Domestic) + Order.Filter(valid, Overseas))
  }

  /** A selection holds only valid items tagged domestic or overseas, the
      domestic ones first: after the first item without the domestic tag
      every item is tagged overseas. */
  lemma SelectedMeaning(content: string, parse: string -> Option<Json>)
    requires Handle(content, parse).Selected?
    ensures var r := Handle(content, parse).items;
      && (forall x :: x in r ==> Required(x) && (Domestic(x) || Overseas(x)))
      && (forall i, j :: 0 <= i < j < |r| && !Domestic(r[i]) ==> Overseas(r[j]))
  {
    var parsed := parse(Clean(content)).value;
    var valid := Order.Filter(Unwrap(parsed).value, Required);
    Order.FilterMembers(Unwrap(parsed).value, Required);
    Order.FilterMembers(valid, Domestic);
    Order.FilterMembers(valid, Overseas);
    DomesticFirst(Order.Filter(valid, Domestic), Order.Filter(valid, Overseas));
  }

  lemma DomesticFirst(d: seq<Json>, o: seq<Json>)
    requires forall x :: x in d ==> Domestic(x)
    requires forall x :: x in o ==> Overseas(x)
    ensures forall i, j :: 0 <= i < j < |d + o| && !Domestic((d + o)[i]) ==> Overseas((d + o)[j])
  {
    var r := d + o;
    forall i, j | 0 <= i < j < |r| && !Domestic(r[i]) ensures Overseas(r[j]) {
      assert i >= |d|;
      assert r[j] == o[j - |d|];
    }
  }

  /** Every valid, tagged item of the reply is selected. */
  lemma SelectedComplete(content: string, parse: string -> Option<Json>, x: Json)
    requires Handle(content, parse).Selected?
    requires x in Unwrap(parse(Clean(content)).value).value && Required(x) && (Domestic(x) || Overseas(x))
    ensures x in Handle(content, parse).items
  {
    var result := Unwrap(parse(Clean(content)).value).value;
    var valid := Order.Filter(result, Required);
    Order.FilterMembers(result, Required);
    Order.FilterMembers(valid, Domestic);
    Order.FilterMembers(valid, Overseas);
  }

  /** An item tagged both ways is listed twice. */
  lemma BothTagsTwice(content: string, parse: string -> Option<Json>, x: Json)
    requires parse(Clean(content)) == Some(JArr([x]))
    requires Required(x) && Domestic(x) && Overseas(x)
    ensures Handle(content, parse) == Selected([x, x])
  {
    InterpretTwice(x);
  }

  lemma InterpretTwice(x: Json)
    requires Required(x) && Domestic(x) && Overseas(x)
    ensures Interpret(JArr([x])) == Selected([x, x])
  {
    var s := [x];
    FilterSingle(x, Required);
    FilterSingle(x, Domestic);
    FilterSingle(x, Overseas);
    TestableSingle(x);
    assert Order.Filter(s, Domestic) + Order.Filter(s, Overseas) == [x, x];
  }

  lemma TestableSingle(x: Json)
    requires Domestic(x)
    ensures Testable([x])
  {
    assert TagIn(DOMESTIC_TAG, Category([x][0])).Some?;
  }

  lemma FilterSingle(x: Json, p: Json -> bool)
    requires p(x)
    ensures Order.Filter([x], p) == [x]
  {
    assert [x][..0] == [];
  }

  /** A dict is unwrapped to its first non-empty list, skipping an empty
      one before it. */
  lemma UnwrapExample(a: Json, b: Json)
    ensures Unwrap(JObj([("count", JNum(2)), ("news", JArr([])), ("articles", JArr([a, b])), ("more", JArr([b]))]))
      == Some([a, b])
  {
    var m := [("count", JNum(2)), ("news", JArr([])), ("articles", JArr([a, b])), ("more", JArr([b]))];
    FirstListIsFirst(m, 2);
  }

  /** Any bare string parses but yields no valid item, being iterated as
      one-character strings; a number, a boolean or null raises. */
  lemma ScalarReplies(content: string, parse: string -> Option<Json>)
    ensures var p := parse(Clean(content));
      p.Some? && p.value.JStr? ==> Handle(content, parse) == NoneValid
    ensures var p := parse(Clean(content));
      p.Some? && (p.value.JNum? || p.value.JBool? || p.value.JNull?) ==> Handle(content, parse) == Raised
  {
    var p := parse(Clean(content));
    if p.Some? && p.value.JStr? {
      var s := p.value.s;
      var chars := seq(|s|, i requires 0 <= i < |s| => JStr([s[i]]));
      assert Unwrap(p.value) == Some(chars);
      Order.FilterNone(chars, Required);
    }
  }

  // ---------------------------------------------------------------------
  // The retry loop

  /** One reply: the status with the contents of `choices`; a 200 reply
      whose body is not JSON, on which `res.json()` raises `requests`'
      `JSONDecodeError` (a `RequestException` since requests 2.27); a 200
      reply whose first `choices` entry has no `message` or `content`
      (a `KeyError` or `TypeError`); or a `requests` exception (a failed
      connection or timeout). */
  datatype Reply =
    | Reply(status: int, choices: seq<string>)
    | BodyNotJson
    | ChoiceMalformed
    | ConnectionFailed

  /** What one attempt decides: return a list, or go on after the waits. */
  datatype Decision =
    | Return(result: seq<Json>)
    | Retry(waits: seq<nat>)

  const ATTEMPTS: nat := 3

  function Decide(attempt: nat, reply: Reply, handle: string -> Outcome): Decision {
    match reply
    case ConnectionFailed => Retry([10])
    case BodyNotJson => Retry([10])
    case ChoiceMalformed => if attempt < 2 then Retry([10]) else Return([])
    case Reply(status, choices) =>
      if status == 200 then
        if choices == [] then Return([])
        else match handle(choices[0])
          case Undecodable => if attempt < 2 then Retry([]) else Return([])
          case Raised => if attempt < 2 then Retry([10]) else Return([])
          case NoneValid => Retry([])
          case Selected(items) => Return(items)
      else if status == 429 then Retry([(attempt + 1) * 10])
      else if status >= 500 then Retry([10])
      else Return([])
  }

  /** The result, the waits and the number of requests of a run. */
  datatype Run = Run(result: seq<Json>, waits: seq<nat>, attempts: nat)

  /** The attempts from `attempt` on, where `decide(k)` is what the
      request numbered `k` and the handling of its reply decide. */
  function RunFrom(attempt: nat, decide: nat -> Decision): Run
    decreases ATTEMPTS - attempt
  {
    if attempt >= ATTEMPTS then Run([], [], 0)
    else
      match decide(attempt)
      case Return(result) => Run(result, [], 1)
      case Retry(waits) =>
        var rest := RunFrom(attempt + 1, decide);
        Run(rest.result, waits + rest.waits, rest.attempts + 1)
  }

  /** The decisions of the attempts for the replies `respond` gives. */
  function Decisions(respond: nat -> Reply, handle: string -> Outcome): nat -> Decision {
    (k: nat) => Decide(k, respond(k), handle)
  }

  /** The handling of a reply's content with a given JSON decoder. */
  function Handling(parse: string -> Option<Json>): string -> Outcome {
    content => Handle(content, parse)
  }

  /** `call_groq_batch_selection`: nothing without items or without an API
      key; otherwise the attempts in order. */
  method SelectWithRetries(hasItems: bool, hasKey: bool, respond: nat -> Reply, parse: string -> Option<Json>)
    returns (result: seq<Json>, waits: seq<nat>, attempts: nat)
    ensures !hasItems || !hasKey ==> result == [] && waits == [] && attempts == 0
    ensures hasItems && hasKey ==> Run(result, waits, attempts) == RunFrom(0, Decisions(respond, Handling(parse)))
  {
    result, waits, attempts := [], [], 0;
    if !hasItems || !hasKey {
      return;
    }
    result, waits, attempts := Attempts(Decisions(respond, Handling(parse)));
  }

  /** The retry loop of `call_groq_batch_selection`, for any decisions of
      the attempts. */
  method Attempts(decide: nat -> Decision) returns (result: seq<Json>, waits: seq<nat>, attempts: nat)
    ensures Run(result, waits, attempts) == RunFrom(0, decide)
  {
    result, waits, attempts := [], [], 0;
    var attempt := 0;
    while attempt < ATTEMPTS
      invariant 0 <= attempt <= ATTEMPTS && attempts == attempt
      invariant var rest := RunFrom(attempt, decide);
        RunFrom(0, decide) == Run(rest.result, waits + rest.waits, attempts + rest.attempts)
    {
      var decision := decide(attempt);
      attempts := attempts + 1;
      match decision {
        case Return(r) =>
          RunFromReturn(attempt, decide);
          result := r;
          assert waits + [] == waits;
          return;
        case Retry(ws) =>
          RunFromRetry(attempt, decide);
          var rest := RunFrom(attempt + 1, decide);
          assert waits + (ws + rest.waits) == (waits + ws) + rest.waits;
          waits := waits + ws;
      }
      attempt := attempt + 1;
    }
    assert waits + [] == waits;
  }

  /** The largest total wait from `attempt` on: each attempt waits at most
      ten seconds per attempt number. */
  function Budget(attempt: nat): nat
    decreases ATTEMPTS - attempt
  {
    if attempt >= ATTEMPTS then 0 else (attempt + 1) * 10 + Budget(attempt + 1)
  }

  function Total(waits: seq<nat>): nat {
    if waits == [] then 0 else waits[0] + Total(waits[1..])
  }

  lemma TotalAppend(a: seq<nat>, b: seq<nat>)
    ensures Total(a + b) == Total(a) + Total(b)
  {
    if a != [] {
      assert (a + b)[1..] == a[1..] + b;
    } else {
      assert a + b == b;
    }
  }

  /** At most three requests, at most one wait per request, and at most a
      minute of waiting in all. */
  lemma {:induction false} RunBounds(attempt: nat, respond: nat -> Reply, handle: string -> Outcome)
    ensures var r := RunFrom(attempt, Decisions(respond, handle));
      && attempt + r.attempts <= (if attempt >= ATTEMPTS then attempt else ATTEMPTS)
      && |r.waits| <= r.attempts
      && Total(r.waits) <= Budget(attempt)
    decreases ATTEMPTS - attempt
  {
    if attempt < ATTEMPTS {
      RunBounds(attempt + 1, respond, handle);
      var d := Decide(attempt, respond(attempt), handle);
      if d.Retry? {
        DecideWaits(attempt, respond(attempt), handle);
        TotalAppend(d.waits, RunFrom(attempt + 1, Decisions(respond, handle)).waits);
      }
    }
  }

  /** An attempt waits at most once, and at most ten seconds per attempt
      number. */
  lemma DecideWaits(attempt: nat, reply: Reply, handle: string -> Outcome)
    requires Decide(attempt, reply, handle).Retry?
    ensures var ws := Decide(attempt, reply, handle).waits;
      |ws| <= 1 && Total(ws) <= (attempt + 1) * 10
  {
  }

  lemma TotalBudget()
    ensures Budget(0) == 60
  {
  }

  /** Three rate-limit replies cost three requests and 10 + 20 + 30
      seconds of waiting, and give nothing. */
  lemma AllRateLimited(respond: nat -> Reply, handle: string -> Outcome)
    requires forall k :: 0 <= k < ATTEMPTS ==> respond(k).Reply? && respond(k).status == 429
    ensures RunFrom(0, Decisions(respond, handle)) == Run([], [10, 20, 30], 3)
  {
    var decide := Decisions(respond, handle);
    assert respond(0).status == 429 && respond(1).status == 429 && respond(2).status == 429;
    assert decide(0) == Retry([10]) && decide(1) == Retry([20]) && decide(2) == Retry([30]);
    RunFromRetry(2, decide);
    RunFromRetry(1, decide);
    RunFromRetry(0, decide);
    assert [30] + [] == [30] && [20] + [30] == [20, 30] && [10] + [20, 30] == [10, 20, 30];
  }

  /** An attempt that retries adds its waits and one request to the rest. */
  lemma RunFromRetry(attempt: nat, decide: nat -> Decision)
    requires attempt < ATTEMPTS && decide(attempt).Retry?
    ensures var rest := RunFrom(attempt + 1, decide);
      RunFrom(attempt, decide) == Run(rest.result, decide(attempt).waits + rest.waits, rest.attempts + 1)
  {
  }

  /** An attempt that returns ends the run with one request and no wait. */
  lemma RunFromReturn(attempt: nat, decide: nat -> Decision)
    requires attempt < ATTEMPTS && decide(attempt).Return?
    ensures RunFrom(attempt, decide) == Run(decide(attempt).result, [], 1)
  {
  }

  /** A client error ends the run at once, with no wait. */
  lemma ClientErrorStops(respond: nat -> Reply, handle: string -> Outcome)
    requires respond(0).Reply? && respond(0).status != 200 && respond(0).status != 429 && respond(0).status < 500
    ensures RunFrom(0, Decisions(respond, handle)) == Run([], [], 1)
  {
  }

  /** A server error waits ten seconds and tries again. */
  lemma ServerErrorRetries(respond: nat -> Reply, handle: string -> Outcome)
    requires respond(0).Reply? && respond(0).status >= 500
    ensures var r := RunFrom(0, Decisions(respond, handle));
      r.attempts >= 2 && r.waits[0] == 10 && r == RunFrom(1, Decisions(respond, handle)).(waits := [10] + RunFrom(1, Decisions(respond, handle)).waits,
                                                                           attempts := RunFrom(1, Decisions(respond, handle)).attempts + 1)
  {
    RunBounds(1, respond, handle);
    var rest := RunFrom(1, Decisions(respond, handle));
    assert rest.attempts >= 1;
  }

  /** A non-empty result is the selection of the last request's reply. */
  lemma {:induction false} ResultFromLastReply(attempt: nat, respond: nat -> Reply, handle: string -> Outcome)
    requires RunFrom(attempt, Decisions(respond, handle)).result != []
    ensures var r := RunFrom(attempt, Decisions(respond, handle));
      var last := attempt + r.attempts - 1;
      && r.attempts >= 1
      && respond(last).Reply? && respond(last).status == 200 && respond(last).choices != []
      && handle(respond(last).choices[0]) == Selected(r.result)
    decreases ATTEMPTS - attempt
  {
    match Decide(attempt, respond(attempt), handle)
    case Return(_) =>
    case Retry(_) =>
      ResultFromLastReply(attempt + 1, respond, handle);
  }

  /** A body that is not JSON is handled as a failed connection: it waits
      ten seconds on every attempt, the last one included. */
  lemma BodyNotJsonAlwaysWaits(respond: nat -> Reply, handle: string -> Outcome)
    requires forall k :: 0 <= k < ATTEMPTS ==> respond(k) == BodyNotJson
    ensures RunFrom(0, Decisions(respond, handle)) == Run([], [10, 10, 10], 3)
  {
    var decide := Decisions(respond, handle);
    assert respond(0) == BodyNotJson && respond(1) == BodyNotJson && respond(2) == BodyNotJson;
    assert decide(0) == Retry([10]) && decide(1) == Retry([10]) && decide(2) == Retry([10]);
    RunFromRetry(2, decide);
    RunFromRetry(1, decide);
    RunFromRetry(0, decide);
    assert [10] + [] == [10] && [10] + [10] == [10, 10] && [10] + [10, 10] == [10, 10, 10];
  }

  /** A malformed `choices` entry goes to the generic handler: ten seconds
      after the first two attempts, and none after the last. */
  lemma ChoiceMalformedLastNoWait(respond: nat -> Reply, handle: string -> Outcome)
    requires forall k :: 0 <= k < ATTEMPTS ==> respond(k) == ChoiceMalformed
    ensures RunFrom(0, Decisions(respond, handle)) == Run([], [10, 10], 3)
  {
    var decide := Decisions(respond, handle);
    assert respond(0) == ChoiceMalformed && respond(1) == ChoiceMalformed && respond(2) == ChoiceMalformed;
    assert decide(0) == Retry([10]) && decide(1) == Retry([10]) && decide(2) == Return([]);
    RunFromReturn(2, decide);
    RunFromRetry(1, decide);
    RunFromRetry(0, decide);
    assert [10] + [] == [10] && [10] + [10] == [10, 10];
  }
}
