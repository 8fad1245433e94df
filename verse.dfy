/**
 * Verse lookup: the retrieval address, the extraction of a verse record
 * from a fetched page, and the cache consulted before and written after
 * every fetch (`fetch_ayat` in bot.py).
 *
 * The HTML page is abstracted to what the parser looks for in it: the
 * optional Arabic-text node, the optional translation node, and the
 * commentary ("tafsir") nodes in page order, each with its full text and
 * the text of the first `<strong>` element anywhere inside it, if any.
 */
module Fetcher {
  import opened Wrappers
  import opened Text

  /** One `div.tafsir` of the page: its whole text and, when there is one,
      the text of the first `<strong>` element anywhere inside it, in
      document order. */
  datatype TafsirDiv = TafsirDiv(text: string, strong: Option<string>)

  datatype Page = Page(arabic: Option<string>, translation: Option<string>, tafsirs: seq<TafsirDiv>)

  /** What the HTTP GET returns: the status code and the parsed body. */
  datatype Response = Response(status: int, page: Page)

  /** The cache key `(surah, ayah, translator)`. */
  datatype Key = Key(surah: int, ayah: int, translator: string)

  /** One commentary entry `(author_name, tafsir_text)`. */
  datatype Commentary = Commentary(author: string, body: string)

  /** The triple `(arabic, translation, tafsirs)` that is cached and returned. */
  datatype Verse = Verse(arabic: string, translation: string, tafsirs: seq<Commentary>)

  const UrlPrefix := "https://quran-online.ru/"
  const TranslatorQuery := "?translator="
  const DefaultTranslator := "kuliev"
  const MissingArabic := "Аят не найден"
  const MissingTranslation := "Перевод отсутствует"
  const CommentatorPrefix := "Толкователь "
  const NoDataAuthor := "Нет данных"
  const NoDataBody := "Толкование отсутствует"
  const OkStatus := 200

  /** The retrieval address `https://quran-online.ru/{surah}:{ayah}?translator={translator}`. */
  function Url(key: Key): (u: string)
    ensures |UrlPrefix| < |u| && u[..|UrlPrefix|] == UrlPrefix
  {
    UrlPrefix + IntToString(key.surah) + ":" + IntToString(key.ayah) + TranslatorQuery + key.translator
  }

  /** The address after its fixed prefix: surah, ':', ayah, '?', query. */
  lemma UrlFields(k: Key)
    ensures Url(k)[|UrlPrefix|..]
      == IntToString(k.surah) + [':'] + (IntToString(k.ayah) + ['?'] + ("translator=" + k.translator))
  {
    var a, b := IntToString(k.surah), IntToString(k.ayah);
    assert Url(k) == UrlPrefix + (a + [':'] + (b + ['?'] + ("translator=" + k.translator)));
  }

  /** Distinct cache keys are fetched from distinct addresses. */
  lemma UrlInjective(k: Key, k': Key)
    requires Url(k) == Url(k')
    ensures k == k'
  {
    var a, b, t := IntToString(k.surah), IntToString(k.ayah), k.translator;
    var a', b', t' := IntToString(k'.surah), IntToString(k'.ayah), k'.translator;
    var q := "translator=";
    UrlFields(k);
    UrlFields(k');
    IntToStringHasNo(k.surah, ':');
    IntToStringHasNo(k'.surah, ':');
    SplitAtSeparator(a, ':', b + ['?'] + (q + t), a', b' + ['?'] + (q + t'));
    IntToStringInjective(k.surah, k'.surah);
    IntToStringHasNo(k.ayah, '?');
    IntToStringHasNo(k'.ayah, '?');
    SplitAtSeparator(b, '?', q + t, b', q + t');
    IntToStringInjective(k.ayah, k'.ayah);
    assert t == (q + t)[|q|..] && t' == (q + t')[|q|..];
  }

  /** The author label of the div at 0-based position `index`: the stripped
      text of the first `<strong>` inside it when there is one, otherwise "Толкователь N" with N the
      1-based position written in decimal. */
  function Label(index: nat, div: TafsirDiv): (r: string)
    ensures div.strong.Some? ==> r == Strip(div.strong.value) && Stripped(r)
    ensures div.strong.None? ==> r == CommentatorPrefix + NatToString(index + 1)
    ensures div.strong.None? ==>
      |CommentatorPrefix| < |r| && r[..|CommentatorPrefix|] == CommentatorPrefix
      && AllDigits(r[|CommentatorPrefix|..]) && DigitsValue(r[|CommentatorPrefix|..]) == index + 1
  {
    match div.strong
    case Some(a) => Strip(a)
    case None =>
      var digits := NatToString(index + 1);
      NatToStringValue(index + 1);
      assert (CommentatorPrefix + digits)[|CommentatorPrefix|..] == digits;
      CommentatorPrefix + digits
  }

  /** The commentary entry made from one div: its author label, and its text with
      every occurrence of that label deleted, then stripped. */
  function Entry(index: nat, div: TafsirDiv): (r: Commentary)
    ensures r.author == Label(index, div)
    ensures Stripped(r.body) && |r.body| <= |div.text|
  {
    var author := Label(index, div);
    Commentary(author, Strip(RemoveAll(div.text, author)))
  }

  /** The entries of the first `n` divs, in page order. */
  function Entries(divs: seq<TafsirDiv>, n: nat): (r: seq<Commentary>)
    requires n <= |divs|
    ensures |r| == n
    ensures forall i :: 0 <= i < n ==> r[i] == Entry(i, divs[i])
  {
    seq(n, i requires 0 <= i < n => Entry(i, divs[i]))
  }

  lemma EntriesSnoc(divs: seq<TafsirDiv>, n: nat)
    requires n < |divs|
    ensures Entries(divs, n + 1) == Entries(divs, n) + [Entry(n, divs[n])]
  {
  }

  /** The commentary list: one entry per div in page order, or the single
      placeholder entry when the page has no commentary div. */
  function Tafsirs(divs: seq<TafsirDiv>): (r: seq<Commentary>)
    ensures r != []
    ensures |divs| == 0 ==> r == [Commentary(NoDataAuthor, NoDataBody)]
    ensures |divs| > 0 ==> |r| == |divs|
    ensures |divs| > 0 ==> forall i :: 0 <= i < |divs| ==> r[i] == Entry(i, divs[i])
  {
    if |divs| == 0 then [Commentary(NoDataAuthor, NoDataBody)] else Entries(divs, |divs|)
  }

  /** The `for`/`append` loop over the commentary divs, followed by the
      placeholder fallback. */
  method CollectTafsirs(divs: seq<TafsirDiv>) returns (tafsirs: seq<Commentary>)
    ensures tafsirs == Tafsirs(divs)
  {
    tafsirs := [];
    var index := 0;
    while index < |divs|
      invariant index <= |divs|
      invariant tafsirs == Entries(divs, index)
    {
      var div := divs[index];
      var author := Label(index, div);
      var body := Strip(RemoveAll(div.text, author));
      EntriesSnoc(divs, index);
      tafsirs := tafsirs + [Commentary(author, body)];
      index := index + 1;
    }
    if tafsirs == [] {
      tafsirs := tafsirs + [Commentary(NoDataAuthor, NoDataBody)];
    }
  }

  /** The verse record parsed out of a page, each missing node replaced by
      its placeholder. */
  function Extract(page: Page): (v: Verse)
    ensures page.arabic.Some? ==> v.arabic == Strip(page.arabic.value)
    ensures page.arabic.None? ==> v.arabic == MissingArabic
    ensures page.translation.Some? ==> v.translation == Strip(page.translation.value)
    ensures page.translation.None? ==> v.translation == MissingTranslation
    ensures v.tafsirs == Tafsirs(page.tafsirs) && v.tafsirs != []
  {
    var arabic := if page.arabic.Some? then Strip(page.arabic.value) else MissingArabic;
    var translation := if page.translation.Some? then Strip(page.translation.value) else MissingTranslation;
    Verse(arabic, translation, Tafsirs(page.tafsirs))
  }

  /** The effect of one `fetch_ayat` call: its return value, the cache
      afterwards, and the address requested (None when nothing was fetched). */
  datatype Outcome = Outcome(verse: Option<Verse>, cache: map<Key, Verse>, request: Option<string>)

  /** `fetch_ayat` as a function of the cache before the call and of the
      server, which maps a requested address to its response. */
  function Lookup(cache: map<Key, Verse>, key: Key, http: string -> Response): (o: Outcome)
    ensures key in cache ==> o == Outcome(Some(cache[key]), cache, None)
    ensures key !in cache ==> o.request == Some(Url(key))
    ensures key !in cache && http(Url(key)).status != OkStatus ==> o.verse == None && o.cache == cache
    ensures key !in cache && http(Url(key)).status == OkStatus ==>
      o.verse == Some(Extract(http(Url(key)).page))
    ensures o.verse.Some? <==> key in o.cache
    ensures o.verse.Some? ==> o.cache[key] == o.verse.value
    ensures o.cache.Keys <= cache.Keys + {key}
    ensures forall k :: k in cache ==> k in o.cache && o.cache[k] == cache[k]
  {
    if key in cache then Outcome(Some(cache[key]), cache, None)
    else
      var response := http(Url(key));
      if response.status != OkStatus then Outcome(None, cache, Some(Url(key)))
      else
        var verse := Extract(response.page);
        Outcome(Some(verse), cache[key := verse], Some(Url(key)))
  }

  /** After a successful lookup the same key is served from the cache: the
      same record, no request, whatever the server would now answer. */
  lemma LookupRepeat(cache: map<Key, Verse>, key: Key, http: string -> Response, http': string -> Response)
    requires Lookup(cache, key, http).verse.Some?
    ensures var o := Lookup(cache, key, http);
      Lookup(o.cache, key, http') == Outcome(o.verse, o.cache, None)
  {
  }

  /** An entry whose div has a non-empty `<strong>` label: when the label
      first occurs right after `pre` and never again, the body is the rest of
      the text, stripped. */
  lemma EntryAuthored(index: nat, div: TafsirDiv, pre: string, post: string)
    requires div.strong.Some? && Strip(div.strong.value) != []
    requires div.text == pre + Strip(div.strong.value) + post
    requires forall i :: 0 <= i < |pre| ==> !OccursAt(div.text, Strip(div.strong.value), i)
    requires forall i :: 0 <= i < |post| ==> !OccursAt(post, Strip(div.strong.value), i)
    ensures Entry(index, div) == Commentary(Strip(div.strong.value), Strip(pre + post))
  {
    var author := Strip(div.strong.value);
    RemoveAllLeftmost(pre, post, author);
    RemoveAllAbsent(post, author);
  }

  /** A label that occurs several times is deleted everywhere, not once:
      with two occurrences the body keeps only the text around them. */
  lemma EntryRemovesEveryOccurrence(index: nat, div: TafsirDiv, pre: string, mid: string, post: string)
    requires div.strong.Some? && Strip(div.strong.value) != []
    requires div.text == pre + Strip(div.strong.value) + mid + Strip(div.strong.value) + post
    requires forall i :: 0 <= i < |pre| ==> !OccursAt(div.text, Strip(div.strong.value), i)
    requires forall i :: 0 <= i < |mid| ==> !OccursAt(mid + Strip(div.strong.value) + post, Strip(div.strong.value), i)
    requires forall i :: 0 <= i < |post| ==> !OccursAt(post, Strip(div.strong.value), i)
    ensures Entry(index, div) == Commentary(Strip(div.strong.value), Strip(pre + mid + post))
  {
    var author := Strip(div.strong.value);
    var rest := mid + author + post;
    assert div.text == pre + author + rest;
    RemoveAllLeftmost(pre, rest, author);
    RemoveAllLeftmost(mid, post, author);
    RemoveAllAbsent(post, author);
    assert pre + (mid + post) == pre + mid + post;
  }

  /** An entry whose div has no `<strong>` node, when its text does not
      contain the synthesized label: the body is the whole text, stripped. */
  lemma EntrySynthesized(index: nat, div: TafsirDiv)
    requires div.strong.None?
    requires forall i :: 0 <= i < |div.text| ==> !OccursAt(div.text, Label(index, div), i)
    ensures Entry(index, div) == Commentary(CommentatorPrefix + NatToString(index + 1), Strip(div.text))
  {
    RemoveAllAbsent(div.text, Label(index, div));
  }

  /** Synthesized labels of different positions differ. */
  lemma SynthesizedLabelsDistinct(i: nat, j: nat, d: TafsirDiv, e: TafsirDiv)
    requires d.strong.None? && e.strong.None? && i != j
    ensures Label(i, d) != Label(j, e)
  {
  }

  /** The commentary list of two divs is their two entries, in page order. */
  lemma TafsirsOfTwo(d0: TafsirDiv, d1: TafsirDiv)
    ensures Tafsirs([d0, d1]) == [Entry(0, d0), Entry(1, d1)]
  {
    var t := Tafsirs([d0, d1]);
    assert t[0] == Entry(0, d0) && t[1] == Entry(1, d1);
  }

  /** A page with both text nodes and two commentary divs, the first with
      a `<strong>` author node and the second without one, gives two
      entries in page order: the first labelled by its author, the second
      "Толкователь 2". */
  lemma ExtractTwoCommentaries(arabic: string, translation: string, d0: TafsirDiv, d1: TafsirDiv,
                               pre: string, post: string)
    requires d0.strong.Some? && Strip(d0.strong.value) != []
    requires d0.text == pre + Strip(d0.strong.value) + post
    requires forall i :: 0 <= i < |pre| ==> !OccursAt(d0.text, Strip(d0.strong.value), i)
    requires forall i :: 0 <= i < |post| ==> !OccursAt(post, Strip(d0.strong.value), i)
    requires d1.strong.None?
    requires forall i :: 0 <= i < |d1.text| ==> !OccursAt(d1.text, Label(1, d1), i)
    ensures Extract(Page(Some(arabic), Some(translation), [d0, d1]))
         == Verse(Strip(arabic), Strip(translation),
                  [Commentary(Strip(d0.strong.value), Strip(pre + post)),
                   Commentary(CommentatorPrefix + "2", Strip(d1.text))])
  {
    var e0 := Commentary(Strip(d0.strong.value), Strip(pre + post));
    var e1 := Commentary(CommentatorPrefix + "2", Strip(d1.text));
    assert Entry(0, d0) == e0 by {
      EntryAuthored(0, d0, pre, post);
    }
    assert Entry(1, d1) == e1 by {
      EntrySynthesized(1, d1);
      assert NatToString(2) == "2";
    }
    TafsirsOfTwo(d0, d1);
  }
}
