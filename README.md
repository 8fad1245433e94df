# Verified model of the Quran verse bot

A Dafny model of the logic in `bot.py` of a Telegram bot that serves verses
(ayat) of the Quran. It covers three parts:

- **Verse lookup** (`fetch_ayat`). The bot builds the address
  `https://quran-online.ru/{surah}:{ayah}?translator={translator}` and
  checks the cache. On a miss it fetches the page. A non-200 status gives
  `None`. Otherwise it extracts the Arabic text, the translation and the
  commentaries (tafsir), falls back to placeholders for missing parts, and
  stores the triple in the cache under `(surah, ayah, translator)`.
- **Subscriber registry.** `/subscribe` adds the chat id to a set and
  `/unsubscribe` discards it.
- **One broadcast cycle** (`send_daily_ayat`). The bot picks a random
  reference with surah in 1..114 and ayah in 1..7. It looks the verse up the
  same way, formats the daily message, and sends it to every subscriber. A
  failed delivery is ignored.

Files:

- `wrappers.dfy` (`Wrappers`): `Option`.
- `text.dfy` (`Text`): the Python string operations the code uses.
  - `str.strip()`, with Python's exact `str.isspace` character set.
  - `str.replace(label, "")`, which removes every non-overlapping
    occurrence, scanning left to right.
  - `str()` of an integer.
- `verse.dfy` (`Fetcher`): the abstract page, the URL, author labels,
  commentary entries, the extraction, and `Lookup`. `Lookup` is the effect
  of one `fetch_ayat` call as a function of the old cache and the server.
  The file also holds the tafsir-collecting loop.
- `bot.dfy` (`QuranBot`): the class `Bot`. Its two fields are the
  module-level `cache` dict and `subscribers` set. The file also has the
  delivery loop, the reference choice and the message format.

Abstractions:

- The HTTP client is a parameter `http: string -> Response`, mapping a
  requested address to a status and an abstract page. `FetchAyat` also
  returns the address it requested, or `None` when it was served from the
  cache, so "no fetch happened" can be stated.
- Parsed HTML is abstracted as a `Page`:
  - an optional Arabic-node text;
  - an optional translation-node text;
  - the `div.tafsir` nodes in page order, each with its full text and the
    text of the first `<strong>` element anywhere inside the div, if there
    is one (`find` searches all descendants in document order).
- `bot.send_message` is a parameter `send: (ChatId, string) -> bool`; `false`
  stands for an exception, which the loop swallows.
- `random.randint` is a nondeterministic choice within its inclusive bounds.
- Iterating a Python set is a nondeterministic choice of the next element
  (`PickOne`).

Edge cases of the code that the model keeps:

- `div.text.replace(author_name, "")` deletes every occurrence of the label,
  so a commentary that mentions its own author loses those mentions too
  (`EntryRemovesEveryOccurrence`).
- A node holding only whitespace gives an empty Arabic text: `strip()`
  makes it `""`.
- The translator is not checked against `TRANSLATIONS`. Any string goes
  into the cache key and the URL.
- When `<strong>` holds only whitespace, the label is `""`. Python's
  `x.replace("", "")` returns `x` unchanged, and so does `RemoveAll`.

## Model

| member | source | states |
|---|---|---|
| `Text.Strip` | bot.py:71 | the result of `strip()` is no longer than the input and has no whitespace at either end |
| `Text.StripLeftSpec` | bot.py:71 | `lstrip` leaves a suffix of the input, removes only whitespace, and what it leaves does not start with whitespace |
| `Text.StripRightSpec` | bot.py:71 | `rstrip` leaves a prefix of the input, removes only whitespace, and what it leaves does not end with whitespace |
| `Text.StripUnique` | bot.py:71 | for whitespace + `t` + whitespace with `t` trimmed at both ends, `strip()` returns exactly `t` |
| `Text.StripIdempotent` | bot.py:75 | stripping twice gives the same result as stripping once |
| `Text.StripPadded` | bot.py:84 | whitespace on either side of a stripped text is exactly what `strip()` removes |
| `Text.RemoveAll` | bot.py:84 | `replace(pat, "")` never lengthens the text, and leaves it as it is when the pattern is empty |
| `Text.RemoveAllKeepsPrefix` | bot.py:84 | text before the first occurrence of the pattern is kept unchanged |
| `Text.RemoveAllAbsent` | bot.py:84 | with no occurrence of the pattern, `replace` returns the text unchanged |
| `Text.RemoveAllLeftmost` | bot.py:84 | the leftmost occurrence is deleted and the scan resumes right after it (with `RemoveAllAbsent` this pins down `replace` completely) |
| `Text.NatToString` | bot.py:83 | decimal notation: digits only, non-empty, no leading zero except for 0 |
| `Text.NatToStringValue` | bot.py:83 | reading the decimal digits back gives the number (round trip) |
| `Text.NatToStringInjective` | bot.py:83 | different numbers have different decimal notations |
| `Text.IntToString` | bot.py:57 | `str(i)`: non-empty, only digits and `-`, and starts with `-` exactly when `i` is negative |
| `Text.IntToStringInjective` | bot.py:57 | different integers give different strings |
| `Text.TakeUntilSeparator` | bot.py:57 | for a separator not in `x`, the text up to the first separator in `x + [c] + y` is `x` |
| `Text.SplitAtSeparator` | bot.py:57 | a separator absent from the leading field splits a string in only one way |
| `Text.IntToStringHasNo` | bot.py:57 | no character other than digits and `-` appears in `str(i)` |
| `Fetcher.Url` | bot.py:57 | the address starts with `https://quran-online.ru/` |
| `Fetcher.UrlFields` | bot.py:57 | after the host prefix the address is surah, `:`, ayah, `?`, `translator=` and the translator |
| `Fetcher.UrlInjective` | bot.py:57 | different `(surah, ayah, translator)` keys are fetched from different addresses |
| `Fetcher.Label` | bot.py:82-83 | a present `<strong>` gives exactly its stripped text, which has no whitespace at either end. Otherwise the label is exactly `"Толкователь " + str(index + 1)`, whose digits read back as the 1-based position |
| `Fetcher.Entry` | bot.py:83-85 | the label is `Label(index, div)`; the body is the div text with every occurrence of that label deleted, then stripped, so it has no whitespace at either end and is no longer than the text (`EntrySynthesized`, `EntryAuthored` and `EntryRemovesEveryOccurrence` give the body exactly) |
| `Fetcher.Entries` | bot.py:81-85 | the entries for the first `n` divs number exactly `n`, and entry `i` is `Entry(i, divs[i])`, in page order |
| `Fetcher.EntriesSnoc` | bot.py:85 | appending the next div's entry extends the entry list by one position |
| `Fetcher.Tafsirs` | bot.py:78-88 | the commentary list is never empty. With no div it is exactly `[("Нет данных", "Толкование отсутствует")]`. Otherwise it has one entry per div, and entry `i` is `Entry(i, divs[i])`, in page order |
| `Fetcher.CollectTafsirs` | bot.py:78-88 | the `for`/`append` loop followed by the fallback returns exactly `Tafsirs(divs)`: entry `i` is made from div `i` at position `i`, or the single `("Нет данных", "Толкование отсутствует")` when there is no div |
| `Fetcher.Extract` | bot.py:69-88 | the Arabic text is the stripped node text if the node exists, else `"Аят не найден"`. Likewise the translation, else `"Перевод отсутствует"`. The commentary list is `Tafsirs` of the divs and is never empty |
| `Fetcher.Lookup` | bot.py:56-92 | a cached key returns the stored triple with no request and no cache change. A miss requests `Url(key)`. A non-200 status gives `None` and leaves the cache as it was. A 200 gives `Extract` of the page. The key is in the new cache exactly when the result is not `None`, and then it maps to that result. Only that key can be added, and no existing entry changes |
| `Fetcher.LookupRepeat` | bot.py:59-60 | after a successful lookup, the same key is served from the cache: the same triple, no request, whatever the server would answer now |
| `Fetcher.EntryAuthored` | bot.py:82-85 | with a non-empty `<strong>` label that first occurs after `pre` and not again, the entry is `(label, strip(pre + post))` |
| `Fetcher.EntryRemovesEveryOccurrence` | bot.py:84 | a label that occurs twice is deleted both times: the body is `strip(pre + mid + post)` |
| `Fetcher.EntrySynthesized` | bot.py:83-84 | a div without `<strong>`, whose text does not contain the synthesized label, gives `("Толкователь " + str(i+1), strip(text))` |
| `Fetcher.SynthesizedLabelsDistinct` | bot.py:83 | synthesized labels at different positions differ |
| `Fetcher.ExtractTwoCommentaries` | bot.py:67-92 | a page with both text nodes and two divs, the first with an author node and the second without, gives `[(author, body), ("Толкователь 2", body)]` in page order |
| `QuranBot.DailyText` | bot.py:128 | the daily message starts with the `📖 *Аят дня: ` title and ends with the translation |
| `QuranBot.DailyTextFields` | bot.py:128 | after the title the message reads surah, `:`, ayah, `*`, then the Arabic heading, the Arabic text, the translation heading and the translation |
| `QuranBot.DailyTextDetermines` | bot.py:128 | equal daily messages name the same `surah:ayah`. If their Arabic texts also have the same length, they carry the same Arabic text and the same translation |
| `QuranBot.ChooseReference` | bot.py:122-123 | the chosen surah is in [1, 114] and the ayah in [1, 7] |
| `QuranBot.PickOne` | bot.py:130 | the next recipient is drawn from the recipients not yet tried |
| `QuranBot.ChatsSnoc` | bot.py:130-132 | logging one more attempt adds exactly its recipient to the recipients reached |
| `QuranBot.DeliveredStep` | bot.py:130-134 | one more attempt, to a recipient not yet tried, extends a complete log for `done` to one for `done + {user}` |
| `QuranBot.DeliverAll` | bot.py:130-134 | one attempt per recipient, all recipients covered, no recipient twice, each attempt carries the same text and records what `send` answered. Failed attempts do not stop the loop |
| `QuranBot.AttemptsToCount` | bot.py:130-134 | in a log without repeated recipients, each chat id is attempted once if it was reached and never otherwise |
| `QuranBot.DeliveredExactlyOnce` | bot.py:130-134 | after delivery, every subscriber has exactly one attempt, whatever the other attempts returned, and non-subscribers have none |
| `QuranBot.Bot.constructor` | bot.py:39-42 | the cache and the subscriber set start empty |
| `QuranBot.Bot.FetchAyat` | bot.py:56-92 | the method returns `Lookup`'s result, requests `Lookup`'s address, and leaves the cache as `Lookup` says. Subscribers are unchanged |
| `QuranBot.Bot.Subscribe` | bot.py:107 | the subscriber set becomes old set ∪ {id}; it does not change if `id` was already there; the cache is unchanged |
| `QuranBot.Bot.Unsubscribe` | bot.py:113 | the subscriber set becomes old set minus {id}; it does not change if `id` was absent; no other member is touched; the cache is unchanged |
| `QuranBot.Bot.SendDailyAyat` | bot.py:121-134 | surah and ayah are in bounds and the lookup uses translator `kuliev`. The cache changes as `Lookup` says. If the lookup gives `None`, nothing is sent. Otherwise every subscriber gets exactly one attempt with the daily text for that verse |

## Left out

- The HTTP request itself (`httpx`), bot.py:62-63: replaced by the `http` parameter. Timeouts and transport errors are not modelled. In the source such an error raises out of `fetch_ayat` (bot.py:125), outside any `try`, and ends the whole `send_daily_ayat` task, not just one cycle.
- HTML parsing with BeautifulSoup, bot.py:67, 70, 74, 78, 82: foreign library. Its results are the abstract `Page`.
- The aiogram bot, dispatcher and transport, the handlers' `reply` calls and the `/start` text, bot.py:35-36, 95-102, 108, 114: I/O and UI.
- The `while True` loop, the 24-hour `asyncio.sleep` and task creation, bot.py:118-119, 137-140: timing and concurrency. One cycle is modelled.
- Concurrency between handlers and the broadcast task: cache races, and the subscriber set changing while it is iterated (Python raises `RuntimeError` at bot.py:130, outside the `try`, which ends the whole `send_daily_ayat` task, not just one cycle). Every operation is modelled as atomic.
- Telegram Markdown rendering of the daily message (parse mode at bot.py:35): the transport may reject a text with unbalanced markup. This shows up only as `send` returning false.
- Aliasing: Python stores the same list object in the cache that it returns. The model has values only, and nothing mutates that list.
- The uniform distribution of `random.randint`: only its inclusive bounds are kept.
- Dependency installation, `.env` and token loading, bot.py:7-33: process bootstrap.
- The callback-data definitions, keyboard imports and the `TRANSLATIONS` table, bot.py:13, 25, 45-53: no operation of the core reads them.
