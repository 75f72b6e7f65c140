/**
 * The Telegram webhook (web/app/api/telegram-webhook/route.ts): it accepts
 * the `/분석` command from the configured chat and asks GitHub Actions to
 * store the analysis for today's date in Korea (UTC+9).
 *
 * The two outgoing requests are effects: the model records the messages it
 * sends to the chat and the dispatch it triggers, and takes what the
 * requests do (rejected, or resolved with `res.ok`) as an input.
 */
module Webhook {
  import opened Wrappers
  import opened Text
  import opened JsValue
  import CivilDate

  const COMMAND: string := "/분석"
  /** Korea Standard Time is UTC+9, in milliseconds. */
  const KST_OFFSET: int := 9 * 60 * 60 * 1000
  const USAGE_REPLY: string := "사용법: /분석 [분석 내용]\n\n분석 내용을 함께 보내주세요."
  const FAILURE_REPLY: string := "GitHub Actions 트리거 실패. GH_PAT 환경변수를 확인해주세요."

  /** The reply after a successful dispatch. */
  function SuccessReply(date: string): string {
    "<b>" + date + " 분석 업데이트 요청 완료</b>\n\n웹사이트에 2~3분 내 반영됩니다."
  }

  /** The configuration read from the environment (`''` when unset). */
  datatype Config = Config(webhookSecret: string, chatId: string)

  /** The fields of a message the handler reads: `message.text`, and
      `message.chat.id` with `chat` as `None` when it is absent or `null`
      (reading `.id` from it throws). A `chat` that is some other value
      without an `id` gives `Some(Absent)`. */
  datatype Message = Message(text: Field, chat: Option<Field>)

  /** A parsed body: `message` is `None` when `body?.message` is `undefined`
      or `null` (a `null` body included). */
  datatype Update = Update(message: Option<Message>)

  /** A numeric chat id, as Telegram sends it. */
  function ChatNumber(id: int): (f: Field)
    ensures JsString(f) == IntToString(id)
  {
    Other(id != 0, IntToString(id))
  }

  /** The `repository_dispatch` request: the analysis and the date. */
  datatype Dispatch = Dispatch(analysis: string, date: string)

  /** What the outgoing requests do: the dispatch `fetch` rejects (`None`) or
      resolves with `res.ok`, and the Telegram `fetch` resolves or rejects
      (its response is not read). */
  datatype Effects = Effects(dispatch: Option<bool>, replyResolves: bool)

  /** The response status, the messages sent to the chat, and the dispatch
      sent, if any. Status 500 stands for an exception the handler does not
      catch, which Next.js answers with 500. */
  datatype Outcome = Outcome(status: int, replies: seq<string>, dispatched: Option<Dispatch>)

  /** An outcome with no outgoing request. */
  predicate Quiet(o: Outcome) {
    o.replies == [] && o.dispatched.None?
  }

  /** The text after the command and the white space that follows it
      (the regex replacement of the command and `\s` characters), trimmed. */
  function Payload(text: string): (r: string)
    requires StartsWith(text, COMMAND)
    ensures r == JsTrim(text[|COMMAND|..])
    ensures r != [] ==> !IsJsSpace(r[0]) && !IsJsSpace(r[|r| - 1])
  {
    TrimAfterDropLeading(text[|COMMAND|..], IsJsSpace);
    JsTrim(DropLeading(text[|COMMAND|..], IsJsSpace))
  }

  /** No space is needed after the command. */
  lemma PayloadWithoutSpace()
    ensures Payload("/분석abc") == "abc"
  {
    var rest := "/분석abc"[|COMMAND|..];
    assert rest == "abc";
    TrimKeepsSolidText(rest, IsJsSpace);
  }

  /** The date in Korea at time `nowMs` (`toISOString` of `now + 9h`). */
  function KstDate(nowMs: int): (r: Option<string>)
    ensures r.None? <==> nowMs + KST_OFFSET < -CivilDate.MAX_TIME || nowMs + KST_OFFSET > CivilDate.MAX_TIME
    ensures r.Some? ==>
      var d := CivilDate.FromDayNumber((nowMs + KST_OFFSET) / CivilDate.MS_PER_DAY);
      CivilDate.ValidDate(d) && r.value == CivilDate.IsoDate(d)
  {
    CivilDate.UtcDateString(nowMs + KST_OFFSET)
  }

  /** What a message from an authorised request asks for. */
  datatype Command =
    | Ignore            // acknowledged with `{ok: true}` and nothing else
    | Uncaught          // `.id` read from a missing chat, or `startsWith` called on a non-string text
    | Usage             // the command without a payload
    | Analyse(analysis: string)

  /** Whether a message comes from the configured chat: a chat is there and
      `String(message.chat.id) === TELEGRAM_CHAT_ID`. */
  predicate FromChat(config: Config, m: Message) {
    m.chat.Some? && JsString(m.chat.value) == config.chatId
  }

  /** Whether a message is the command: a string text starting with `/분석`. */
  predicate IsCommand(m: Message) {
    m.text.Str? && StartsWith(m.text.s, COMMAND)
  }

  /** The checks of a message, in the source's order: a truthy text, the
      chat, the command prefix (which throws on a text that is not a
      string), the payload. */
  function Classify(config: Config, message: Option<Message>): (c: Command)
    ensures c.Analyse? || c == Usage <==>
              message.Some? && Truthy(message.value.text) && FromChat(config, message.value) && IsCommand(message.value)
    ensures c.Analyse? ==> c.analysis == Payload(message.value.text.s) && c.analysis != []
    ensures c == Usage ==> Payload(message.value.text.s) == []
    ensures c == Uncaught <==>
              && message.Some? && Truthy(message.value.text)
              && (message.value.chat.None? || (FromChat(config, message.value) && !message.value.text.Str?))
  {
    if message.None? || !Truthy(message.value.text) then Ignore
    else if message.value.chat.None? then Uncaught
    else if JsString(message.value.chat.value) != config.chatId then Ignore
    else if !message.value.text.Str? then Uncaught
    else if !StartsWith(message.value.text.s, COMMAND) then Ignore
    else
      var analysis := Payload(message.value.text.s);
      if analysis == [] then Usage else Analyse(analysis)
  }

  /** The secret check: a configured secret must be given exactly. */
  predicate Authorized(config: Config, secret: Option<string>) {
    config.webhookSecret == [] || secret == Some(config.webhookSecret)
  }

  /** `POST`. `secret` is the `secret` query parameter, `body` the parsed
      JSON body (`None` when it does not parse), `nowMs` the clock and
      `effects` what the outgoing requests do. */
  function HandleWebhook(config: Config, secret: Option<string>, body: Option<Update>,
                         nowMs: int, effects: Effects): (o: Outcome)
    ensures o.status in {200, 400, 401, 500}
    ensures o.status == 401 <==> !Authorized(config, secret)
    ensures o.status == 400 <==> Authorized(config, secret) && body.None?
    ensures o.status == 200 <==>
              && Authorized(config, secret) && body.Some?
              && var c := Classify(config, body.value.message);
                 || c == Ignore
                 || (c == Usage && effects.replyResolves)
                 || (c.Analyse? && KstDate(nowMs).Some? && effects.dispatch.Some? && effects.replyResolves)
    ensures o.dispatched.Some? <==>
              Authorized(config, secret) && body.Some? && Classify(config, body.value.message).Analyse?
              && KstDate(nowMs).Some?
    ensures o.dispatched.Some? ==>
              o.dispatched.value == Dispatch(Classify(config, body.value.message).analysis, KstDate(nowMs).value)
    ensures o.replies != [] ==>
              && Authorized(config, secret) && body.Some?
              && (Classify(config, body.value.message) == Usage
                  || (o.dispatched.Some? && effects.dispatch.Some?))
    ensures |o.replies| <= 1
  {
    if !Authorized(config, secret) then
      Outcome(401, [], None)
    else if body.None? then
      Outcome(400, [], None)
    else
      match Classify(config, body.value.message)
      case Ignore => Outcome(200, [], None)
      case Uncaught => Outcome(500, [], None)
      case Usage => Outcome(if effects.replyResolves then 200 else 500, [USAGE_REPLY], None)
      case Analyse(analysis) =>
        match KstDate(nowMs)
        case None => Outcome(500, [], None)
        case Some(date) =>
          match effects.dispatch
          case None => Outcome(500, [], Some(Dispatch(analysis, date)))
          case Some(ok) =>
            Outcome(if effects.replyResolves then 200 else 500,
                    [if ok then SuccessReply(date) else FAILURE_REPLY],
                    Some(Dispatch(analysis, date)))
  }

  /** A secret check that fails sends nothing; with no secret configured the
      check never fails. */
  lemma SecretCheck(config: Config, secret: Option<string>, body: Option<Update>, nowMs: int, effects: Effects)
    ensures var o := HandleWebhook(config, secret, body, nowMs, effects);
      && (o.status == 401 ==> Quiet(o))
      && (config.webhookSecret == [] ==> o.status != 401)
  {
  }

  /** Only the command from the configured chat ever causes an outgoing
      request; everything else is acknowledged quietly or throws. */
  lemma OnlyCommandsAct(config: Config, message: Option<Message>)
    ensures Classify(config, message) == Ignore || Classify(config, message) == Uncaught <==>
      !(message.Some? && Truthy(message.value.text) && FromChat(config, message.value) && IsCommand(message.value))
  {
  }

  /** With no chat id configured, only a chat id whose `String()` form is
      empty (the string `""`, or an empty array) matches, so a Telegram chat,
      whose id is a number, never causes an outgoing request. */
  lemma UnsetChatNeverActs(secret: Option<string>, body: Option<Update>, nowMs: int, effects: Effects)
    ensures var o := HandleWebhook(Config([], []), secret, body, nowMs, effects);
      !Quiet(o) ==> body.Some? && body.value.message.Some? && body.value.message.value.chat.Some?
                    && JsString(body.value.message.value.chat.value) == []
  {
  }

  /** With no chat id configured, a message from a Telegram chat never
      causes an outgoing request. */
  lemma NumericChatUnsetNeverActs(secret: Option<string>, text: Field, id: int, nowMs: int, effects: Effects)
    ensures Quiet(HandleWebhook(Config([], []), secret, Some(Update(Some(Message(text, Some(ChatNumber(id)))))),
                                nowMs, effects))
  {
    UnsetChatNeverActs(secret, Some(Update(Some(Message(text, Some(ChatNumber(id)))))), nowMs, effects);
  }

  /** An unset chat id is matched by a chat id that is the empty string: a
      command with a payload is then acted on. */
  lemma EmptyIdMatchesUnsetChat(config: Config, text: string)
    requires config.chatId == [] && StartsWith(text, COMMAND) && Payload(text) != []
    ensures Classify(config, Some(Message(Str(text), Some(Str([]))))) == Analyse(Payload(text))
  {
    var m := Message(Str(text), Some(Str([])));
    assert Truthy(m.text) && FromChat(config, m) && IsCommand(m) by {
      assert text != [];
    }
    var c := Classify(config, Some(m));
    assert c.Analyse? || c == Usage;
    assert c != Usage;
  }

  /** A text that is not a string, from the configured chat, throws at
      `startsWith`. */
  lemma NumberTextThrows(config: Config, id: int)
    requires IntToString(id) == config.chatId
    ensures Classify(config, Some(Message(Other(true, "5"), Some(ChatNumber(id))))) == Uncaught
  {
  }

  /** A message without a chat throws; a chat without an id is the chat
      `"undefined"`, which is ignored unless that is the configured id. */
  lemma MissingChatOrId(config: Config, text: string)
    requires text != [] && config.chatId != "undefined"
    ensures Classify(config, Some(Message(Str(text), None))) == Uncaught
    ensures Classify(config, Some(Message(Str(text), Some(Absent)))) == Ignore
  {
  }

  /** A command with an empty payload only sends the usage reply: 200 when
      that request resolves. */
  lemma EmptyPayloadUsage(config: Config, secret: Option<string>, u: Update, nowMs: int, effects: Effects)
    requires Authorized(config, secret)
    requires Classify(config, u.message) == Usage
    ensures HandleWebhook(config, secret, Some(u), nowMs, effects)
         == Outcome(if effects.replyResolves then 200 else 500, [USAGE_REPLY], None)
  {
  }

  /** A command with a payload dispatches exactly once, with the payload and
      today's date in Korea. When the dispatch resolves, exactly one reply
      chosen by `res.ok` is sent, and the answer is 200 when that request
      resolves too; a rejected dispatch sends no reply and answers 500. */
  lemma CommandDispatches(config: Config, secret: Option<string>, u: Update, nowMs: int, effects: Effects,
                          analysis: string, date: string)
    requires Authorized(config, secret)
    requires Classify(config, u.message) == Analyse(analysis)
    requires KstDate(nowMs) == Some(date)
    ensures effects.dispatch.Some? ==>
              (HandleWebhook(config, secret, Some(u), nowMs, effects)
               == Outcome(if effects.replyResolves then 200 else 500,
                          [if effects.dispatch.value then SuccessReply(date) else FAILURE_REPLY],
                          Some(Dispatch(analysis, date))))
    ensures effects.dispatch.None? ==>
              HandleWebhook(config, secret, Some(u), nowMs, effects) == Outcome(500, [], Some(Dispatch(analysis, date)))
  {
  }

  /** The KST shift: at 15:00 UTC on 1970-01-01 it is already January 2 in Korea. */
  lemma KstIsNineHoursAhead()
    ensures KstDate(15 * 60 * 60 * 1000) == Some("1970-01-02")
    ensures KstDate(15 * 60 * 60 * 1000 - 1) == Some("1970-01-01")
  {
    CivilDate.Year1970();
    SecondDay();
    FirstDay();
  }

  lemma SecondDay()
    ensures KstDate(15 * 60 * 60 * 1000) == Some(CivilDate.IsoDate(CivilDate.Date(1970, 1, 2)))
  {
    DateAt(15 * 60 * 60 * 1000, CivilDate.Date(1970, 1, 2));
  }

  lemma FirstDay()
    ensures KstDate(15 * 60 * 60 * 1000 - 1) == Some(CivilDate.IsoDate(CivilDate.Date(1970, 1, 1)))
  {
    DateAt(15 * 60 * 60 * 1000 - 1, CivilDate.Date(1970, 1, 1));
  }

  lemma DateAt(nowMs: int, d: CivilDate.Date)
    requires CivilDate.ValidDate(d)
    requires (nowMs + KST_OFFSET) / CivilDate.MS_PER_DAY == CivilDate.DayNumber(d)
    requires -CivilDate.MAX_TIME <= nowMs + KST_OFFSET <= CivilDate.MAX_TIME
    ensures KstDate(nowMs) == Some(CivilDate.IsoDate(d))
  {
    CivilDate.DateRoundTrip(d);
  }
}
