/**
 * The bot's state and its three operations: verse lookup through the cache,
 * the subscriber registry, and one cycle of the daily broadcast.
 *
 * The module-level `cache` dict and `subscribers` set of bot.py become the
 * two fields of a `Bot` object. The HTTP client is a function from a
 * requested address to its response, and the chat transport's
 * `send_message` a function from a recipient and a text to whether the
 * delivery succeeded (False standing for any exception it raises).
 */
module QuranBot {
  import opened Wrappers
  import opened Text
  import opened Fetcher

  /** A Telegram chat id. */
  type ChatId = int

  /** One delivery attempt of the broadcast: recipient, text, and whether
      `send_message` succeeded. */
  datatype Attempt = Attempt(chat: ChatId, text: string, delivered: bool)

  const FirstSurah := 1
  const LastSurah := 114
  const FirstAyah := 1
  const LastAyah := 7

  const DailyTitle := "\U{1F4D6} *Аят дня: "
  const ArabicHeading := "*\n\n**Текст аята:**\n"
  const TranslationHeading := "\n\n**Перевод:**\n"

  /** The daily message: the reference `surah:ayah` in the title, then the
      Arabic text under its heading, then the translation under its heading. */
  function DailyText(surah: int, ayah: int, arabic: string, translation: string): (r: string)
    ensures |DailyTitle| <= |r| && r[..|DailyTitle|] == DailyTitle
    ensures |translation| <= |r| && r[|r| - |translation|..] == translation
  {
    DailyTitle + IntToString(surah) + ":" + IntToString(ayah) + ArabicHeading
    + arabic + TranslationHeading + translation
  }

  lemma DailyTextFields(surah: int, ayah: int, arabic: string, translation: string)
    ensures DailyText(surah, ayah, arabic, translation)[|DailyTitle|..]
      == IntToString(surah) + [':'] + (IntToString(ayah) + ['*']
         + (ArabicHeading[1..] + arabic + TranslationHeading + translation))
  {
    assert ArabicHeading[0] == '*';
    FieldsAfter(DailyTitle, IntToString(surah), IntToString(ayah), ArabicHeading, arabic, TranslationHeading, translation);
  }

  /** The layout of a concatenation after its first part, for any parts. */
  lemma FieldsAfter(title: string, a: string, b: string, head: string, x: string, mid: string, y: string)
    requires head != [] && head[0] == '*'
    ensures (title + a + ":" + b + head + x + mid + y)[|title|..]
      == a + [':'] + (b + ['*'] + (head[1..] + x + mid + y))
  {
    var rest := head[1..] + x + mid + y;
    assert head == ['*'] + head[1..];
    assert head + x + mid + y == ['*'] + rest;
    assert title + a + ":" + b + head + x + mid + y == title + (a + [':'] + (b + ['*'] + rest));
  }

  /** The message identifies the verse: two equal daily messages name the
      same reference, and, when their Arabic texts have the same length,
      carry the same Arabic text and the same translation. */
  lemma DailyTextDetermines(s: int, a: int, x: string, y: string, s': int, a': int, x': string, y': string)
    requires DailyText(s, a, x, y) == DailyText(s', a', x', y')
    ensures s == s' && a == a'
    ensures |x| == |x'| ==> x == x' && y == y'
  {
    var tail := ArabicHeading[1..] + x + TranslationHeading + y;
    var tail' := ArabicHeading[1..] + x' + TranslationHeading + y';
    DailyTextFields(s, a, x, y);
    DailyTextFields(s', a', x', y');
    IntToStringHasNo(s, ':');
    IntToStringHasNo(s', ':');
    SplitAtSeparator(IntToString(s), ':', IntToString(a) + ['*'] + tail, IntToString(s'), IntToString(a') + ['*'] + tail');
    IntToStringInjective(s, s');
    IntToStringHasNo(a, '*');
    IntToStringHasNo(a', '*');
    SplitAtSeparator(IntToString(a), '*', tail, IntToString(a'), tail');
    IntToStringInjective(a, a');
    if |x| == |x'| {
      SameLayout(ArabicHeading[1..], x, TranslationHeading, y, x', y');
    }
  }

  /** Two concatenations with the same fixed parts and equally long first
      variable parts have the same variable parts. */
  lemma SameLayout(h: string, x: string, m: string, y: string, x': string, y': string)
    requires h + x + m + y == h + x' + m + y' && |x| == |x'|
    ensures x == x' && y == y'
  {
    var t, t' := h + x + m + y, h + x' + m + y';
    assert x == t[|h|..|h| + |x|] && x' == t'[|h|..|h| + |x|];
    assert y == t[|h| + |x| + |m|..] && y' == t'[|h| + |x| + |m|..];
  }

  /** `random.randint(1, 114)` and `random.randint(1, 7)`: any reference
      within these inclusive bounds may be chosen. */
  method ChooseReference() returns (surah: int, ayah: int)
    ensures FirstSurah <= surah <= LastSurah && FirstAyah <= ayah <= LastAyah
  {
    surah :| FirstSurah <= surah <= LastSurah;
    ayah :| FirstAyah <= ayah <= LastAyah;
  }

  /** Some element of a non-empty set: Python's set iteration order is not
      specified, so the model leaves the choice open. */
  method PickOne(s: set<ChatId>) returns (x: ChatId)
    requires s != {}
    ensures x in s
  {
    assert (forall y :: y !in s) ==> s == {};
    x :| x in s;
  }

  /** The recipients a delivery log reached out to. */
  function Chats(log: seq<Attempt>): set<ChatId>
  {
    set a | a in log :: a.chat
  }

  lemma ChatsSnoc(log: seq<Attempt>, a: Attempt)
    ensures Chats(log + [a]) == Chats(log) + {a.chat}
  {
    assert forall b :: b in log + [a] <==> b in log || b == a;
  }

  /** `log` attempts delivery of `text` to each of `recipients` exactly once,
      and records what `send` answered for each. */
  predicate DeliveredToAll(log: seq<Attempt>, recipients: set<ChatId>, text: string, send: (ChatId, string) -> bool)
  {
    && Chats(log) == recipients
    && |log| == |recipients|
    && (forall k :: 0 <= k < |log| ==> log[k].text == text && log[k].delivered == send(log[k].chat, text))
    && (forall k, m :: 0 <= k < m < |log| ==> log[k].chat != log[m].chat)
  }

  /** One more attempt, to a recipient not yet tried, extends a log that
      covers `done` to one that covers `done + {user}`. */
  lemma DeliveredStep(log: seq<Attempt>, done: set<ChatId>, text: string,
                      send: (ChatId, string) -> bool, user: ChatId)
    requires DeliveredToAll(log, done, text, send) && user !in done
    ensures DeliveredToAll(log + [Attempt(user, text, send(user, text))], done + {user}, text, send)
  {
    var a := Attempt(user, text, send(user, text));
    assert forall k :: 0 <= k < |log| ==> log[k].chat in Chats(log);
    ChatsSnoc(log, a);
  }

  /** The delivery loop: one `send_message` per recipient, in whatever order
      the set is iterated; a failed delivery is swallowed and the loop goes
      on with the next recipient. */
  method DeliverAll(recipients: set<ChatId>, text: string, send: (ChatId, string) -> bool)
    returns (log: seq<Attempt>)
    ensures DeliveredToAll(log, recipients, text, send)
  {
    log := [];
    var remaining := recipients;
    while remaining != {}
      invariant remaining <= recipients
      invariant DeliveredToAll(log, recipients - remaining, text, send)
      decreases remaining
    {
      var user := PickOne(remaining);
      var delivered := send(user, text);
      DeliveredStep(log, recipients - remaining, text, send, user);
      log := log + [Attempt(user, text, delivered)];
      assert recipients - remaining + {user} == recipients - (remaining - {user});
      remaining := remaining - {user};
    }
  }

  /** How many attempts in `log` went to `user`. */
  function AttemptsTo(log: seq<Attempt>, user: ChatId): nat
  {
    if log == [] then 0 else (if log[0].chat == user then 1 else 0) + AttemptsTo(log[1..], user)
  }

  lemma {:induction false} AttemptsToCount(log: seq<Attempt>, user: ChatId)
    requires forall k, m :: 0 <= k < m < |log| ==> log[k].chat != log[m].chat
    ensures AttemptsTo(log, user) == if user in Chats(log) then 1 else 0
  {
    if log != [] {
      var rest := log[1..];
      assert forall k, m :: 0 <= k < m < |rest| ==> rest[k].chat != rest[m].chat by {
        forall k, m | 0 <= k < m < |rest| ensures rest[k].chat != rest[m].chat {
          assert rest[k] == log[k + 1] && rest[m] == log[m + 1];
        }
      }
      AttemptsToCount(rest, user);
      assert Chats(log) == {log[0].chat} + Chats(rest) by {
        assert log == [log[0]] + rest;
      }
      if log[0].chat == user {
        forall k | 0 <= k < |rest| ensures rest[k].chat != user {
          assert rest[k] == log[k + 1];
        }
        assert user !in Chats(rest);
      }
    }
  }

  /** Fault isolation: every subscriber gets exactly one attempt, whatever
      the other attempts answered, and nobody else gets one. */
  lemma DeliveredExactlyOnce(log: seq<Attempt>, recipients: set<ChatId>, text: string,
                             send: (ChatId, string) -> bool, user: ChatId)
    requires DeliveredToAll(log, recipients, text, send)
    ensures AttemptsTo(log, user) == if user in recipients then 1 else 0
  {
    AttemptsToCount(log, user);
  }

  class Bot {
    /** Verses already fetched, by `(surah, ayah, translator)`. */
    var cache: map<Key, Verse>
    /** Chat ids subscribed to the daily verse. */
    var subscribers: set<ChatId>

    /** Both start empty at process start. */
    constructor ()
      ensures cache == map[] && subscribers == {}
    {
      cache := map[];
      subscribers := {};
    }

    /** `fetch_ayat`: served from the cache when the key is there; otherwise
        one request, None on a non-200 status, and otherwise the extracted
        record, stored under the key before it is returned. */
    method FetchAyat(surah: int, ayah: int, translator: string, http: string -> Response)
      returns (result: Option<Verse>, request: Option<string>)
      modifies this
      ensures var o := Lookup(old(cache), Key(surah, ayah, translator), http);
        result == o.verse && request == o.request && cache == o.cache
      ensures subscribers == old(subscribers)
    {
      var key := Key(surah, ayah, translator);
      var url := Url(key);
      if key in cache {
        return Some(cache[key]), None;
      }
      var response := http(url);
      request := Some(url);
      if response.status != OkStatus {
        return None, request;
      }
      var page := response.page;
      var arabic := if page.arabic.Some? then Strip(page.arabic.value) else MissingArabic;
      var translation := if page.translation.Some? then Strip(page.translation.value) else MissingTranslation;
      var tafsirs := CollectTafsirs(page.tafsirs);
      var verse := Verse(arabic, translation, tafsirs);
      cache := cache[key := verse];
      result := Some(verse);
    }

    /** `/subscribe`: `subscribers.add(id)`. */
    method Subscribe(id: ChatId)
      modifies this
      ensures subscribers == old(subscribers) + {id}
      ensures id in old(subscribers) ==> subscribers == old(subscribers)
      ensures cache == old(cache)
    {
      subscribers := subscribers + {id};
    }

    /** `/unsubscribe`: `subscribers.discard(id)`; an absent id is no error. */
    method Unsubscribe(id: ChatId)
      modifies this
      ensures subscribers == old(subscribers) - {id}
      ensures id !in old(subscribers) ==> subscribers == old(subscribers)
      ensures cache == old(cache)
    {
      subscribers := subscribers - {id};
    }

    /** One iteration of `send_daily_ayat` after its sleep: pick a reference,
        look it up with the default translator, and, when found, send the
        daily message to every subscriber. */
    method SendDailyAyat(http: string -> Response, send: (ChatId, string) -> bool)
      returns (surah: int, ayah: int, log: seq<Attempt>)
      modifies this
      ensures FirstSurah <= surah <= LastSurah && FirstAyah <= ayah <= LastAyah
      ensures subscribers == old(subscribers)
      ensures var o := Lookup(old(cache), Key(surah, ayah, DefaultTranslator), http);
        && cache == o.cache
        && (o.verse.None? ==> log == [])
        && (o.verse.Some? ==>
              DeliveredToAll(log, old(subscribers),
                             DailyText(surah, ayah, o.verse.value.arabic, o.verse.value.translation), send))
    {
      surah, ayah := ChooseReference();
      var result, _ := FetchAyat(surah, ayah, DefaultTranslator, http);
      log := [];
      if result.Some? {
        var text := DailyText(surah, ayah, result.value.arabic, result.value.translation);
        log := DeliverAll(subscribers, text, send);
      }
    }
  }
}
