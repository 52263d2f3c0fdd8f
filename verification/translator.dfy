/** The `Translate` class: options, the negotiated current language, the
    per-language message cache, and the two rendering entry points `t` and
    `plural`.

    Each operation takes the translator's state and returns the new state
    together with its result. The things the class reads from outside are
    gathered in an `Env`: the loader, the request's Accept-Language header,
    the numeric helpers of quality parsing, and `vsprintf`. */
module Translator {
  import opened Wrappers
  import opened PhpStrings
  import opened PluralRules
  import opened HeaderParser
  import opened LocaleResolver
  import opened MessageLoader

  /** The option array. An unset option (`null`) is the empty string or the
      empty list, which the class treats the same way. */
  datatype Options = Options(
    language: string,
    defaultLanguage: string,
    acceptLanguage: string,
    maxLanguages: nat,
    available: seq<string>,
    synonyms: map<string, string>)

  /** The options a new translator starts from. */
  function DefaultOptions(): Options {
    Options("", "en", "", 99, [],
      map["gb" := "en", "us" := "en", "ua" := "uk", "cn" := "zh", "hk" := "zh", "tw" := "zh"])
  }

  /** The options passed to `setOptions`: each one either given or not. */
  datatype OptionsPatch = OptionsPatch(
    language: Option<string>,
    defaultLanguage: Option<string>,
    acceptLanguage: Option<string>,
    maxLanguages: Option<nat>,
    available: Option<seq<string>>,
    synonyms: Option<map<string, string>>)

  function NoOptions(): OptionsPatch {
    OptionsPatch(None, None, None, None, None, None)
  }

  function Pick<T>(given: Option<T>, current: T): T {
    if given.Some? then given.value else current
  }

  /** Each given option replaces the current one; the others stay. */
  function Patch(o: Options, p: OptionsPatch): Options {
    Options(
      Pick(p.language, o.language),
      Pick(p.defaultLanguage, o.defaultLanguage),
      Pick(p.acceptLanguage, o.acceptLanguage),
      Pick(p.maxLanguages, o.maxLanguages),
      Pick(p.available, o.available),
      Pick(p.synonyms, o.synonyms))
  }

  /** What the class reads from outside itself: the loader, the request's
      Accept-Language header (`""` when absent), `is_numeric`/`floor` for
      quality values, and `vsprintf`. */
  datatype Env = Env(
    loader: Loader,
    serverHeader: string,
    num: Numerics,
    format: (string, seq<string>) -> string)

  /** The translator's state: its options, the current language (`""` until
      negotiated or set) and the catalogs loaded so far. */
  datatype Translator = Translator(options: Options, language: string, messages: map<string, Catalog>)

  /** Qualities are scaled to whole numbers with this resolution. */
  const Resolution: int := 100

  // ---------------------------------------------------------------------------
  // Language negotiation

  /** The header to negotiate from: the first non-empty of the `language`
      option, the `accept-language` option and the request header, and
      otherwise the default language. */
  function HeaderSource(o: Options, serverHeader: string): (h: string)
    ensures !IsEmpty(o.language) ==> h == o.language
    ensures IsEmpty(o.language) && !IsEmpty(o.acceptLanguage) ==> h == o.acceptLanguage
    ensures IsEmpty(o.language) && IsEmpty(o.acceptLanguage) && !IsEmpty(serverHeader) ==> h == serverHeader
    ensures IsEmpty(o.language) && IsEmpty(o.acceptLanguage) && IsEmpty(serverHeader) ==> h == o.defaultLanguage
    ensures !IsEmpty(h) || h == o.defaultLanguage
  {
    if !IsEmpty(o.language) then o.language
    else if !IsEmpty(o.acceptLanguage) then o.acceptLanguage
    else if !IsEmpty(serverHeader) then serverHeader
    else o.defaultLanguage
  }

  /** The language negotiation settles on: the best match of the source
      header's ranked tags among the available languages. Only an available
      language or the default can come out. */
  function Negotiate(o: Options, env: Env): (lang: string)
    ensures lang == o.defaultLanguage || lang in o.available
    ensures |o.available| == 0 ==> lang == o.defaultLanguage
  {
    var tags := DetectLanguages(HeaderSource(o, env.serverHeader), Resolution, o.maxLanguages, env.num);
    BestMatchingLanguage(tags, o.available, o.synonyms, o.defaultLanguage)
  }

  /** With the default options nothing is available, so negotiation always
      settles on the default `en`, whatever the request header says. */
  lemma DefaultOptionsGiveEnglish(env: Env)
    ensures Negotiate(DefaultOptions(), env) == "en"
  {
    NothingAvailableGivesDefault(DefaultOptions(), env);
  }

  /** An empty `available` list leaves negotiation nothing to choose but the
      default language. */
  lemma NothingAvailableGivesDefault(o: Options, env: Env)
    requires |o.available| == 0
    ensures Negotiate(o, env) == o.defaultLanguage
  {
  }

  /** `getLanguage()`: a current language that is not empty is returned as
      it is; otherwise the language is negotiated, stored and returned.
      Nothing but the language changes. */
  function GetLanguage(t: Translator, env: Env): (r: (Translator, string))
    ensures r.0 == t.(language := r.1)
    ensures !IsEmpty(t.language) ==> r.1 == t.language
    ensures IsEmpty(t.language) ==> r.1 == Negotiate(t.options, env)
  {
    if IsEmpty(t.language) then
      var lang := Negotiate(t.options, env);
      (t.(language := lang), lang)
    else (t, t.language)
  }

  /** Asking twice gives the same answer and changes nothing more, even when
      negotiation gives an empty language and is redone. */
  lemma GetLanguageIdempotent(t: Translator, env: Env)
    ensures var (t1, lang) := GetLanguage(t, env); GetLanguage(t1, env) == (t1, lang)
  {
  }

  /** `setLanguage($language)`: stores the language as given. It is not
      checked against the available languages. */
  function SetLanguage(t: Translator, language: string): (r: Translator)
    ensures r.language == language && r.options == t.options && r.messages == t.messages
  {
    t.(language := language)
  }

  /** A language set explicitly is what `getLanguage` reports, available or
      not, as long as it is not "" or "0". */
  lemma SetLanguageWins(t: Translator, env: Env, language: string)
    requires !IsEmpty(language)
    ensures GetLanguage(SetLanguage(t, language), env) == (SetLanguage(t, language), language)
  {
  }

  // ---------------------------------------------------------------------------
  // Message cache

  /** `isMessages($language)`: the catalog for the language is cached. */
  function IsMessages(t: Translator, language: string): bool {
    language in t.messages
  }

  /** `setMessages($language, $messages)`: caches (or replaces) a catalog. */
  function SetMessages(t: Translator, language: string, catalog: Catalog): (r: Translator)
    ensures r.options == t.options && r.language == t.language
    ensures IsMessages(r, language) && r.messages[language] == catalog
    ensures forall other | other != language :: IsMessages(r, other) == IsMessages(t, other)
    ensures forall other | other != language && other in t.messages :: other in r.messages && r.messages[other] == t.messages[other]
  {
    t.(messages := t.messages[language := catalog])
  }

  /** `b` is `a` with possibly more catalogs cached: options, language and
      every cached catalog are unchanged. */
  ghost predicate Extends(a: Translator, b: Translator) {
    && b.options == a.options
    && b.language == a.language
    && forall language | language in a.messages :: language in b.messages && b.messages[language] == a.messages[language]
  }

  /** Every cached catalog is the one the loader supplies for its language.
      Only an explicit `setMessages` can break this. */
  ghost predicate CacheFromLoader(t: Translator, env: Env) {
    forall language | language in t.messages :: t.messages[language] == env.loader.get(language)
  }

  /** After any rendering, the current language's catalog is the loader's
      when the cache was faithful to the loader before. */
  lemma CurrentCatalogFromLoader(t: Translator, t': Translator, env: Env)
    requires CacheFromLoader(t, env) && Extends(t, t')
    requires IsMessages(t, t.language) ==> t' == t
    requires !IsMessages(t, t.language) ==> t'.messages == t.messages[t.language := env.loader.get(t.language)]
    ensures CacheFromLoader(t', env)
    ensures t'.messages[t.language] == env.loader.get(t.language)
  {
  }

  lemma ExtendsTransitive(a: Translator, b: Translator, c: Translator)
    requires Extends(a, b) && Extends(b, c)
    ensures Extends(a, c)
  {
  }

  /** `getMessages($language)`: the cached catalog, or the loader's catalog,
      which is then cached. */
  function GetMessages(t: Translator, env: Env, language: string): (r: (Translator, Catalog))
    ensures Extends(t, r.0)
    ensures IsMessages(r.0, language) && r.0.messages[language] == r.1
    ensures IsMessages(t, language) ==> r.0 == t
    ensures !IsMessages(t, language) ==> r.1 == env.loader.get(language) && r.0.messages == t.messages[language := r.1]
  {
    if !IsMessages(t, language) then
      var catalog := env.loader.get(language);
      (SetMessages(t, language, catalog), catalog)
    else (t, t.messages[language])
  }

  /** The loader is asked at most once per language: a second request is
      served from the cache and changes nothing. */
  lemma GetMessagesLoadsOnce(t: Translator, env: Env, language: string)
    ensures var (t1, catalog) := GetMessages(t, env, language);
            GetMessages(t1, env, language) == (t1, catalog)
  {
  }

  /** `isMessages` answers exactly whether `getMessages` would be served
      from the cache, leaving the translator as it is. */
  lemma IsMessagesMeansCached(t: Translator, env: Env, language: string)
    ensures IsMessages(t, language) <==> GetMessages(t, env, language).0 == t
  {
    if !IsMessages(t, language) {
      assert language in GetMessages(t, env, language).0.messages;
    }
  }

  /** A catalog stored with `setMessages` is what `getMessages` returns
      afterwards, without asking the loader. */
  lemma SetThenGetMessages(t: Translator, env: Env, language: string, catalog: Catalog)
    ensures GetMessages(SetMessages(t, language, catalog), env, language)
            == (SetMessages(t, language, catalog), catalog)
  {
  }

  /** Storing a second catalog for a language replaces the first. */
  lemma SetMessagesOverwrites(t: Translator, language: string, a: Catalog, b: Catalog)
    ensures SetMessages(SetMessages(t, language, a), language, b) == SetMessages(t, language, b)
  {
    assert t.messages[language := a][language := b] == t.messages[language := b];
  }

  /** The translation of a key in a catalog, or the key itself when the
      catalog has none. */
  function Translation(catalog: Catalog, key: string): (s: string)
    ensures key in catalog ==> s == catalog[key]
    ensures key !in catalog ==> s == key
  {
    if key in catalog then catalog[key] else key
  }

  /** The cached catalog for a language, empty when none is cached. */
  function Cached(t: Translator, language: string): Catalog {
    if IsMessages(t, language) then t.messages[language] else map[]
  }

  /** `getMessage($language, $string)`: first makes sure the current
      language's catalog is cached, then looks the key up in the catalog for
      `$language` (`isset`, so an empty translation is used as it is) and
      echoes the key when there is no entry. */
  function GetMessage(t: Translator, env: Env, language: string, key: string): (r: (Translator, string))
    ensures Extends(t, r.0)
    ensures IsMessages(r.0, t.language)
    ensures IsMessages(t, t.language) ==> r.0 == t
    ensures !IsMessages(t, t.language) ==> r.0.messages == t.messages[t.language := env.loader.get(t.language)]
    ensures r.1 == Translation(Cached(r.0, language), key)
  {
    var t1 :=
      if !IsMessages(t, t.language) then
        var (t0, catalog) := GetMessages(t, env, t.language);
        SetMessages(t0, t.language, catalog)
      else t;
    var text :=
      if IsMessages(t1, language) && key in t1.messages[language] then t1.messages[language][key]
      else key;
    (t1, text)
  }

  /** `t($string, $args)`: the translation of the key in the current
      language, or the key itself; with arguments, formatted by `vsprintf`. */
  function T(t: Translator, env: Env, key: string, args: Option<seq<string>>): (r: (Translator, string))
    ensures Extends(t, r.0) && IsMessages(r.0, t.language)
    ensures IsMessages(t, t.language) ==> r.0 == t
    ensures !IsMessages(t, t.language) ==> r.0.messages == t.messages[t.language := env.loader.get(t.language)]
    ensures args.None? ==> r.1 == Translation(r.0.messages[t.language], key)
    ensures args.Some? ==> r.1 == env.format(Translation(r.0.messages[t.language], key), args.value)
  {
    var (t1, text) := GetMessage(t, env, t.language, key);
    if args.Some? then (t1, env.format(text, args.value)) else (t1, text)
  }

  /** Rendering never forgets a catalog: once the current language's catalog
      is cached, `t` changes nothing and reads that catalog. */
  lemma TReadsCache(t: Translator, env: Env, key: string, args: Option<seq<string>>)
    requires IsMessages(t, t.language)
    ensures T(t, env, key, args).0 == t
    ensures T(t, env, key, None).1 == Translation(t.messages[t.language], key)
  {
  }

  /** `t` on each argument in turn, threading the state. */
  function TranslateAll(t: Translator, env: Env, keys: seq<string>): (r: (Translator, seq<string>))
    ensures Extends(t, r.0)
    ensures |keys| == 0 ==> r == (t, [])
    ensures |keys| > 0 ==> IsMessages(r.0, t.language)
    ensures IsMessages(t, t.language) ==> r.0 == t
    ensures !IsMessages(t, t.language) && |keys| > 0 ==>
              r.0.messages == t.messages[t.language := env.loader.get(t.language)]
    ensures |r.1| == |keys|
    decreases |keys|
    ensures IsMessages(r.0, t.language) ==>
              forall i | 0 <= i < |keys| :: r.1[i] == Translation(r.0.messages[t.language], keys[i])
  {
    if |keys| == 0 then (t, [])
    else
      var (t1, first) := T(t, env, keys[0], None);
      var (t2, rest) := TranslateAll(t1, env, keys[1..]);
      ExtendsTransitive(t, t1, t2);
      (t2, [first] + rest)
  }

  /** Each key's translation in a catalog, in order. */
  function TranslateEach(catalog: Catalog, keys: seq<string>): (r: seq<string>)
    ensures |r| == |keys|
    ensures forall i | 0 <= i < |keys| :: r[i] == Translation(catalog, keys[i])
  {
    seq(|keys|, i requires 0 <= i < |keys| => Translation(catalog, keys[i]))
  }

  /** The form a plural index selects: the form at that index when there is
      one, otherwise the first. */
  function Choose(forms: seq<string>, index: nat): (s: string)
    requires |forms| >= 1
    ensures index < |forms| ==> s == forms[index]
    ensures index >= |forms| ==> s == forms[0]
  {
    if index < |forms| then forms[index] else forms[0]
  }

  /** `plural($string, $x, $args)`: translates the key, splits the
      translation into forms on `|`, picks the form the current language's
      plural rule selects for `x` (the first form when there are too few),
      and formats it with the arguments, each first passed through `t`.
      Without arguments the quantity itself is the only one. */
  function Plural(t: Translator, env: Env, key: string, x: nat, args: Option<seq<string>>): (r: (Translator, string))
    ensures Extends(t, r.0) && IsMessages(r.0, t.language)
    ensures IsMessages(t, t.language) ==> r.0 == t
    ensures !IsMessages(t, t.language) ==> r.0.messages == t.messages[t.language := env.loader.get(t.language)]
    ensures var catalog := r.0.messages[t.language];
            var forms := Split(Translation(catalog, key), '|');
            var given := if args.Some? then args.value else [Decimal(x)];
            r.1 == env.format(Choose(forms, PluralRule(t.language, x)), TranslateEach(catalog, given))
  {
    var (t1, template) := GetMessage(t, env, t.language, key);
    var forms := Split(template, '|');
    var given := if args.Some? then args.value else [Decimal(x)];
    var (t2, translated) := TranslateAll(t1, env, given);
    ExtendsTransitive(t, t1, t2);
    var chosen := Choose(forms, PluralRule(t.language, x));
    assert translated == TranslateEach(t2.messages[t.language], given);
    (t2, env.format(chosen, translated))
  }

  /** A translation written as `|`-joined forms, one per form of the
      language's family: `plural` formats exactly the form the plural rule
      selects. */
  lemma PluralSelectsForm(t: Translator, env: Env, key: string, x: nat, forms: seq<string>, args: seq<string>)
    requires IsMessages(t, t.language)
    requires |forms| >= 1 && forall i | 0 <= i < |forms| :: '|' !in forms[i]
    requires key in t.messages[t.language] && t.messages[t.language][key] == Join(forms, '|')
    requires FamilyOf(t.language).Some? && |forms| == FormCount(FamilyOf(t.language).value)
    ensures var catalog := t.messages[t.language];
            Plural(t, env, key, x, Some(args)).1
            == env.format(forms[PluralRule(t.language, x)], TranslateEach(catalog, args))
  {
    SplitJoin(forms, '|');
  }

  /** With fewer forms than the rule's index, the first form is used. */
  lemma PluralFallsBackToFirst(t: Translator, env: Env, key: string, x: nat, forms: seq<string>, args: seq<string>)
    requires IsMessages(t, t.language)
    requires |forms| >= 1 && forall i | 0 <= i < |forms| :: '|' !in forms[i]
    requires key in t.messages[t.language] && t.messages[t.language][key] == Join(forms, '|')
    requires PluralRule(t.language, x) >= |forms|
    ensures var catalog := t.messages[t.language];
            Plural(t, env, key, x, Some(args)).1
            == env.format(forms[0], TranslateEach(catalog, args))
  {
    SplitJoin(forms, '|');
  }

  // ---------------------------------------------------------------------------
  // Construction and options

  /** `setOptions($options)`: overwrites the given options, then settles the
      language (keeping a current one that is not empty, else negotiating
      with the new options) and makes sure its catalog is cached. Catalogs
      cached earlier are kept as they are. */
  function SetOptions(t: Translator, env: Env, patch: OptionsPatch): (r: Translator)
    ensures r.options == Patch(t.options, patch)
    ensures !IsEmpty(t.language) ==> r.language == t.language
    ensures IsEmpty(t.language) ==> r.language == Negotiate(r.options, env)
    ensures IsMessages(r, r.language)
    ensures IsMessages(t, r.language) ==> r.messages == t.messages
    ensures !IsMessages(t, r.language) ==> r.messages == t.messages[r.language := env.loader.get(r.language)]
  {
    var t1 := t.(options := Patch(t.options, patch));
    var (t2, language) := GetLanguage(t1, env);
    var t3 := SetLanguage(t2, language);
    assert t3.options == t1.options && t3.messages == t.messages;
    var (t4, catalog) := GetMessages(t3, env, t3.language);
    var r := SetMessages(t4, t3.language, catalog);
    assert r.messages == t4.messages[language := catalog];
    if IsMessages(t, language) then
      assert t4 == t3 && catalog == t.messages[language];
      assert r.messages == t.messages;
      r
    else
      assert t4.messages == t.messages[language := env.loader.get(language)];
      r
  }

  /** `new Translate($loader, $options)`: the default options patched with
      the given ones, a negotiated language and its catalog loaded. */
  function New(env: Env, patch: OptionsPatch): (r: Translator)
    ensures r.options == Patch(DefaultOptions(), patch)
    ensures r.language == Negotiate(r.options, env)
    ensures r.messages == map[r.language := env.loader.get(r.language)]
  {
    SetOptions(Translator(DefaultOptions(), "", map[]), env, patch)
  }

  /** Once a language is settled, changing options does not renegotiate it,
      even when the new options would pick another. */
  lemma SetOptionsKeepsLanguage(t: Translator, env: Env, patch: OptionsPatch)
    requires !IsEmpty(t.language)
    ensures SetOptions(t, env, patch).language == t.language
    ensures Extends(t.(options := Patch(t.options, patch)), SetOptions(t, env, patch))
  {
  }
}
