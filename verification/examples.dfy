/** Worked examples: the negotiation scenarios of the library's documentation
    and the expectations of its test suite, proved against the model. */
module Examples {
  import opened Wrappers
  import opened PhpStrings
  import opened PluralRules
  import opened HeaderParser
  import opened LocaleResolver
  import opened MessageLoader
  import opened Translator

  // ---------------------------------------------------------------------------
  // Negotiation

  function Available(): seq<string> {
    ["en", "ru", "de", "zh", "ja"]
  }

  /** The header entry `tag;q=value`. */
  function Entry(tag: string, value: string): string {
    tag + ";q=" + value
  }

  /** An entry `tag;q=value` with an unpadded tag and value. */
  lemma QualityEntry(tag: string, value: string, quality: int, num: Numerics)
    requires ';' !in tag && Unpadded(tag) && Unpadded(value) && !IsEmpty(value)
    requires num.isNumeric(value) && num.scaled(value, Resolution) == quality
    ensures ParseEntry(Entry(tag, value), Resolution, num) == Preference(tag, quality)
  {
    assert Entry(tag, value) == tag + [';'] + ("q" + ['='] + value);
    QualityIgnoresParameterName(tag, "q", value, Resolution, num);
    TrimUnpadded(tag);
    TrimUnpadded(value);
  }

  lemma ThreeItems<T>(s: seq<T>)
    requires |s| == 3
    ensures s == [s[0], s[1], s[2]]
  {
  }

  lemma FourItems<T>(s: seq<T>)
    requires |s| == 4
    ensures s == [s[0], s[1], s[2], s[3]]
  {
  }

  lemma SplitThree(a: string, b: string, c: string)
    requires ',' !in a && ',' !in b && ',' !in c
    ensures Split(Join([a, b, c], ','), ',') == [a, b, c]
  {
    var parts := [a, b, c];
    forall i | 0 <= i < |parts| ensures ',' !in parts[i] {
      if i == 0 { assert parts[i] == a; } else if i == 1 { assert parts[i] == b; } else { assert parts[i] == c; }
    }
    SplitJoin(parts, ',');
  }

  lemma SplitFour(a: string, b: string, c: string, d: string)
    requires ',' !in a && ',' !in b && ',' !in c && ',' !in d
    ensures Split(Join([a, b, c, d], ','), ',') == [a, b, c, d]
  {
    var parts := [a, b, c, d];
    forall i | 0 <= i < |parts| ensures ',' !in parts[i] {
      if i == 0 { assert parts[i] == a; }
      else if i == 1 { assert parts[i] == b; }
      else if i == 2 { assert parts[i] == c; }
      else { assert parts[i] == d; }
    }
    SplitJoin(parts, ',');
  }

  /** The entry at position `k` of a header parses to `p`. */
  lemma PreferenceAt(header: string, k: nat, entry: string, p: Preference, num: Numerics)
    requires k < |Split(header, ',')| && Split(header, ',')[k] == entry
    requires ParseEntry(entry, Resolution, num) == p
    ensures k < |ParsePreferences(header, Resolution, num)| && ParsePreferences(header, Resolution, num)[k] == p
  {
  }

  /** A header of three entries parses entry by entry. */
  lemma ParseThree(header: string, e0: string, e1: string, e2: string,
                   p0: Preference, p1: Preference, p2: Preference, num: Numerics)
    requires Split(header, ',') == [e0, e1, e2]
    requires ParseEntry(e0, Resolution, num) == p0
    requires ParseEntry(e1, Resolution, num) == p1
    requires ParseEntry(e2, Resolution, num) == p2
    ensures ParsePreferences(header, Resolution, num) == [p0, p1, p2]
  {
    PreferenceAt(header, 0, e0, p0, num);
    PreferenceAt(header, 1, e1, p1, num);
    PreferenceAt(header, 2, e2, p2, num);
    ThreeItems(ParsePreferences(header, Resolution, num));
  }

  /** A header of four entries parses entry by entry. */
  lemma ParseFour(header: string, e0: string, e1: string, e2: string, e3: string,
                  p0: Preference, p1: Preference, p2: Preference, p3: Preference, num: Numerics)
    requires Split(header, ',') == [e0, e1, e2, e3]
    requires ParseEntry(e0, Resolution, num) == p0
    requires ParseEntry(e1, Resolution, num) == p1
    requires ParseEntry(e2, Resolution, num) == p2
    requires ParseEntry(e3, Resolution, num) == p3
    ensures ParsePreferences(header, Resolution, num) == [p0, p1, p2, p3]
  {
    PreferenceAt(header, 0, e0, p0, num);
    PreferenceAt(header, 1, e1, p1, num);
    PreferenceAt(header, 2, e2, p2, num);
    PreferenceAt(header, 3, e3, p3, num);
    FourItems(ParsePreferences(header, Resolution, num));
  }

  lemma TagsThree(p0: Preference, p1: Preference, p2: Preference)
    ensures Tags([p0, p1, p2])[..Min(99, 3)] == [p0.tag, p1.tag, p2.tag]
  {
    var tags := Tags([p0, p1, p2])[..Min(99, 3)];
    assert |tags| == 3;
    assert tags[0] == p0.tag;
    assert tags[1] == p1.tag;
    assert tags[2] == p2.tag;
    ThreeItems(tags);
  }

  lemma TagsFour(p0: Preference, p1: Preference, p2: Preference, p3: Preference)
    ensures Tags([p0, p1, p2, p3])[..Min(99, 4)] == [p0.tag, p1.tag, p2.tag, p3.tag]
  {
    var tags := Tags([p0, p1, p2, p3])[..Min(99, 4)];
    assert |tags| == 4;
    assert tags[0] == p0.tag;
    assert tags[1] == p1.tag;
    assert tags[2] == p2.tag;
    assert tags[3] == p3.tag;
    FourItems(tags);
  }

  /** Three entries of strictly falling quality are already ranked. */
  lemma RankedThree(p0: Preference, p1: Preference, p2: Preference)
    requires p0.quality > p1.quality > p2.quality
    ensures IsRanking([p0, p1, p2], [p0, p1, p2])
  {
    var s := [p0, p1, p2];
    forall i, j | 0 <= i < j < |s| ensures Outranks(s[i], s[j]) {
      assert s[i].quality > s[j].quality;
    }
  }

  lemma SortedFour(a: Preference, b: Preference, c: Preference, d: Preference)
    requires Outranks(d, b) && Outranks(b, c) && Outranks(c, a)
    ensures Sorted([d, b, c, a])
  {
    OutranksTransitive(d, b, c);
    OutranksTransitive(d, c, a);
    OutranksTransitive(b, c, a);
    var s := [d, b, c, a];
    forall i, j | 0 <= i < j < |s| ensures Outranks(s[i], s[j]) {
      if i == 0 && j == 1 { assert s[i] == d && s[j] == b; }
      else if i == 0 && j == 2 { assert s[i] == d && s[j] == c; }
      else if i == 0 { assert s[i] == d && s[j] == a; }
      else if i == 1 && j == 2 { assert s[i] == b && s[j] == c; }
      else if i == 1 { assert s[i] == b && s[j] == a; }
      else { assert s[i] == c && s[j] == a; }
    }
  }

  lemma PermutedFour<T>(a: T, b: T, c: T, d: T)
    ensures multiset([d, b, c, a]) == multiset([a, b, c, d])
  {
  }

  /** A chain `d, b, c, a` of outranking ranks the entries `a, b, c, d`. */
  lemma RankedFour(a: Preference, b: Preference, c: Preference, d: Preference)
    requires Outranks(d, b) && Outranks(b, c) && Outranks(c, a)
    ensures IsRanking([d, b, c, a], [a, b, c, d])
  {
    SortedFour(a, b, c, d);
    PermutedFour(a, b, c, d);
  }

  /** Three entries of strictly falling quality keep their order. */
  lemma DetectThree(header: string, p0: Preference, p1: Preference, p2: Preference, num: Numerics)
    requires ParsePreferences(header, Resolution, num) == [p0, p1, p2]
    requires p0.quality > p1.quality > p2.quality
    ensures DetectLanguages(header, Resolution, 99, num) == [p0.tag, p1.tag, p2.tag]
  {
    RankedThree(p0, p1, p2);
    DetectFromRanking(header, Resolution, 99, num, [p0, p1, p2]);
    TagsThree(p0, p1, p2);
  }

  /** Four entries come out in the order `d, b, c, a` when that order is a
      chain of outranking. */
  lemma DetectFour(header: string, a: Preference, b: Preference, c: Preference, d: Preference, num: Numerics)
    requires ParsePreferences(header, Resolution, num) == [a, b, c, d]
    requires Outranks(d, b) && Outranks(b, c) && Outranks(c, a)
    ensures DetectLanguages(header, Resolution, 99, num) == [d.tag, b.tag, c.tag, a.tag]
  {
    RankedFour(a, b, c, d);
    DetectFromRanking(header, Resolution, 99, num, [d, b, c, a]);
    TagsFour(d, b, c, a);
  }

  /** A tag or quality token that sits cleanly inside a header entry. */
  predicate Token(s: string) {
    ',' !in s && ';' !in s && Unpadded(s)
  }

  lemma EntryHasNoComma(tag: string, value: string)
    requires Token(tag) && Token(value)
    ensures ',' !in Entry(tag, value)
  {
    assert Entry(tag, value) == tag + (";q=" + value);
  }

  /** `t0,t1;q=v1,t2;q=v2` with qualities falling from the full resolution
      gives its tags in header order. */
  lemma ThreeEntryHeader(t0: string, t1: string, v1: string, q1: int, t2: string, v2: string, q2: int, num: Numerics)
    requires Token(t0) && Token(t1) && Token(t2) && Token(v1) && Token(v2)
    requires !IsEmpty(v1) && num.isNumeric(v1) && num.scaled(v1, Resolution) == q1
    requires !IsEmpty(v2) && num.isNumeric(v2) && num.scaled(v2, Resolution) == q2
    requires Resolution > q1 > q2
    ensures DetectLanguages(Join([t0, Entry(t1, v1), Entry(t2, v2)], ','), Resolution, 99, num) == [t0, t1, t2]
  {
    var e0, e1, e2 := t0, Entry(t1, v1), Entry(t2, v2);
    var p0, p1, p2 := Preference(t0, Resolution), Preference(t1, q1), Preference(t2, q2);
    BareEntry(t0, Resolution, num);
    QualityEntry(t1, v1, q1, num);
    QualityEntry(t2, v2, q2, num);
    EntryHasNoComma(t1, v1);
    EntryHasNoComma(t2, v2);
    SplitThree(e0, e1, e2);
    ParseThree(Join([e0, e1, e2], ','), e0, e1, e2, p0, p1, p2, num);
    DetectThree(Join([e0, e1, e2], ','), p0, p1, p2, num);
  }

  /** `ru,en-US;q=0.8,en;q=0.6`: the tags come out in header order, which
      here is also quality order. */
  lemma FirstHeaderTags(num: Numerics)
    requires num.isNumeric("0.8") && num.scaled("0.8", Resolution) == 80
    requires num.isNumeric("0.6") && num.scaled("0.6", Resolution) == 60
    ensures DetectLanguages(Join(["ru", Entry("en-US", "0.8"), Entry("en", "0.6")], ','), Resolution, 99, num)
            == ["ru", "en-US", "en"]
  {
    ThreeEntryHeader("ru", "en-US", "0.8", 80, "en", "0.6", 60, num);
  }

  /** The best match for `ru, en-US, en` among `en, ru, de, zh, ja` is `ru`. */
  lemma FirstHeaderMatch()
    ensures BestMatchingLanguage(["ru", "en-US", "en"], Available(), DefaultOptions().synonyms, "en") == "ru"
  {
    var synonyms := DefaultOptions().synonyms;
    assert !Matches("ru", "en", synonyms);
    assert Matches("ru", "ru", synonyms);
    FirstTagDecides(["ru", "en-US", "en"], Available(), synonyms, "en", 1);
  }


  /** The options of both negotiation scenarios, with the given header as
      the `accept-language` option. */
  function ScenarioOptions(header: string): Options {
    DefaultOptions().(acceptLanguage := header, available := Available())
  }

  /** With the scenario options, a non-empty header whose ranked tags best
      match `lang` negotiates `lang`. */
  lemma ScenarioNegotiates(header: string, env: Env, tags: seq<string>, lang: string)
    requires !IsEmpty(header)
    requires DetectLanguages(header, Resolution, 99, env.num) == tags
    requires BestMatchingLanguage(tags, Available(), DefaultOptions().synonyms, "en") == lang
    ensures Negotiate(ScenarioOptions(header), env) == lang
  {
    assert HeaderSource(ScenarioOptions(header), env.serverHeader) == header;
  }

  /** Scenario: `ru,en-US;q=0.8,en;q=0.6` against `en, ru, de, zh, ja`
      resolves to `ru`. */
  lemma FirstScenario(env: Env)
    requires env.num.isNumeric("0.8") && env.num.scaled("0.8", Resolution) == 80
    requires env.num.isNumeric("0.6") && env.num.scaled("0.6", Resolution) == 60
    ensures Negotiate(ScenarioOptions(Join(["ru", Entry("en-US", "0.8"), Entry("en", "0.6")], ',')), env) == "ru"
  {
    var header := Join(["ru", Entry("en-US", "0.8"), Entry("en", "0.6")], ',');
    assert !IsEmpty(header) by {
      assert header[0] == 'r';
    }
    FirstHeaderTags(env.num);
    FirstHeaderMatch();
    ScenarioNegotiates(header, env, ["ru", "en-US", "en"], "ru");
  }

  /** `t0;q=v0,t1;q=v1,t2;q=v2,t3` comes out as `t3, t1, t2, t0` when that
      order is a chain of outranking. */
  lemma FourEntryHeader(t0: string, v0: string, q0: int, t1: string, v1: string, q1: int,
                        t2: string, v2: string, q2: int, t3: string, num: Numerics)
    requires Token(t0) && Token(t1) && Token(t2) && Token(t3) && Token(v0) && Token(v1) && Token(v2)
    requires !IsEmpty(v0) && num.isNumeric(v0) && num.scaled(v0, Resolution) == q0
    requires !IsEmpty(v1) && num.isNumeric(v1) && num.scaled(v1, Resolution) == q1
    requires !IsEmpty(v2) && num.isNumeric(v2) && num.scaled(v2, Resolution) == q2
    requires Outranks(Preference(t3, Resolution), Preference(t1, q1))
    requires Outranks(Preference(t1, q1), Preference(t2, q2))
    requires Outranks(Preference(t2, q2), Preference(t0, q0))
    ensures DetectLanguages(Join([Entry(t0, v0), Entry(t1, v1), Entry(t2, v2), t3], ','), Resolution, 99, num)
            == [t3, t1, t2, t0]
  {
    var e0, e1, e2, e3 := Entry(t0, v0), Entry(t1, v1), Entry(t2, v2), t3;
    var p0, p1, p2, p3 := Preference(t0, q0), Preference(t1, q1), Preference(t2, q2), Preference(t3, Resolution);
    QualityEntry(t0, v0, q0, num);
    QualityEntry(t1, v1, q1, num);
    QualityEntry(t2, v2, q2, num);
    BareEntry(t3, Resolution, num);
    EntryHasNoComma(t0, v0);
    EntryHasNoComma(t1, v1);
    EntryHasNoComma(t2, v2);
    SplitFour(e0, e1, e2, e3);
    ParseFour(Join([e0, e1, e2, e3], ','), e0, e1, e2, e3, p0, p1, p2, p3, num);
    DetectFour(Join([e0, e1, e2, e3], ','), p0, p1, p2, p3, num);
  }

  /** `ja-Kata;q=0.1,en_PCN;q=1,zh_HKG;q=0.9,tlh-Latn-US`: the two entries of
      full quality come first, `tlh-Latn-US` before `en_PCN` because ties
      go to the higher tag. */
  lemma SecondHeaderTags(num: Numerics)
    requires num.isNumeric("0.1") && num.scaled("0.1", Resolution) == 10
    requires num.isNumeric("1") && num.scaled("1", Resolution) == 100
    requires num.isNumeric("0.9") && num.scaled("0.9", Resolution) == 90
    ensures DetectLanguages(Join([Entry("ja-Kata", "0.1"), Entry("en_PCN", "1"), Entry("zh_HKG", "0.9"), "tlh-Latn-US"], ','),
                            Resolution, 99, num)
            == ["tlh-Latn-US", "en_PCN", "zh_HKG", "ja-Kata"]
  {
    SecondHeaderTokens();
    SecondHeaderChain();
    FourEntryHeader("ja-Kata", "0.1", 10, "en_PCN", "1", 100, "zh_HKG", "0.9", 90, "tlh-Latn-US", num);
  }

  lemma SecondHeaderTokens()
    ensures Token("ja-Kata") && Token("en_PCN") && Token("zh_HKG") && Token("tlh-Latn-US")
    ensures Token("0.1") && Token("1") && Token("0.9") && !IsEmpty("0.1") && !IsEmpty("1") && !IsEmpty("0.9")
  {
    TokenTlh();
  }

  lemma TokenTlh()
    ensures Token("tlh-Latn-US")
  {
  }

  lemma SecondHeaderChain()
    ensures Outranks(Preference("tlh-Latn-US", Resolution), Preference("en_PCN", 100))
    ensures Outranks(Preference("en_PCN", 100), Preference("zh_HKG", 90))
    ensures Outranks(Preference("zh_HKG", 90), Preference("ja-Kata", 10))
  {
    assert !Below("tlh-Latn-US", "en_PCN");
  }

  /** `tlh-Latn-US` accepts nothing; `en_PCN` accepts `en` through its
      short code, so `en` is chosen though `zh_HKG` and `ja-Kata` would
      match too. */
  lemma SecondHeaderMatch(languages: seq<string>)
    requires languages == ["tlh-Latn-US", "en_PCN", "zh_HKG", "ja-Kata"]
    ensures BestMatchingLanguage(languages, Available(), DefaultOptions().synonyms, "en") == "en"
  {
    TlhAcceptsNothing();
    EnPcnAcceptsEn();
    SkipThenFirst(languages, Available(), DefaultOptions().synonyms, "en");
  }

  /** A leading tag that accepts nothing is skipped, and a second tag that
      accepts the first available language picks it. */
  lemma SkipThenFirst(languages: seq<string>, available: seq<string>, synonyms: map<string, string>,
                      defaultLanguage: string)
    requires |languages| > 1 && |available| > 0
    requires forall j | 0 <= j < |available| :: !Matches(languages[0], available[j], synonyms)
    requires Matches(languages[1], available[0], synonyms)
    ensures BestMatchingLanguage(languages, available, synonyms, defaultLanguage) == available[0]
  {
    UnmatchedTagIgnored(languages[0], languages[1..], available, synonyms, defaultLanguage);
    assert languages == [languages[0]] + languages[1..];
    FirstTagDecides(languages[1..], available, synonyms, defaultLanguage, 0);
  }

  lemma ShortTlh()
    ensures ShortLanguageCode("tlh-Latn-US") == "tlh"
  {
    ShortCodeDropsRegion("tlh", "Latn-US");
    assert "tlh" + ['-'] + "Latn-US" == "tlh-Latn-US";
  }

  lemma TlhUnknown()
    ensures "tlh-Latn-US" !in DefaultOptions().synonyms && "tlh" !in DefaultOptions().synonyms
    ensures "tlh-Latn-US" !in Available() && "tlh" !in Available()
  {
  }

  lemma TlhAcceptsNothing()
    ensures forall j | 0 <= j < |Available()| :: !Matches("tlh-Latn-US", Available()[j], DefaultOptions().synonyms)
  {
    ShortTlh();
    TlhUnknown();
    NothingAccepted("tlh-Latn-US", Available(), DefaultOptions().synonyms);
  }

  lemma ShortEnPcn()
    ensures ShortLanguageCode("en_PCN") == "en"
  {
    var s := "en_PCN";
    assert s[..2] == "en";
    assert CutsAt(s, '_', 2);
    assert !HasCut(s, '-') by {
      assert '-' !in s;
    }
  }

  lemma EnPcnAcceptsEn()
    ensures Matches("en_PCN", Available()[0], DefaultOptions().synonyms)
  {
    ShortEnPcn();
  }

  /** Scenario: `ja-Kata;q=0.1,en_PCN;q=1,zh_HKG;q=0.9,tlh-Latn-US` against
      `en, ru, de, zh, ja` resolves to `en`. */
  lemma SecondScenario(env: Env)
    requires env.num.isNumeric("0.1") && env.num.scaled("0.1", Resolution) == 10
    requires env.num.isNumeric("1") && env.num.scaled("1", Resolution) == 100
    requires env.num.isNumeric("0.9") && env.num.scaled("0.9", Resolution) == 90
    ensures Negotiate(ScenarioOptions(Join([Entry("ja-Kata", "0.1"), Entry("en_PCN", "1"), Entry("zh_HKG", "0.9"),
                                            "tlh-Latn-US"], ',')), env) == "en"
  {
    var header := Join([Entry("ja-Kata", "0.1"), Entry("en_PCN", "1"), Entry("zh_HKG", "0.9"), "tlh-Latn-US"], ',');
    assert !IsEmpty(header) by {
      assert header[0] == 'j';
    }
    SecondHeaderTags(env.num);
    SecondHeaderMatch(["tlh-Latn-US", "en_PCN", "zh_HKG", "ja-Kata"]);
    ScenarioNegotiates(header, env, ["tlh-Latn-US", "en_PCN", "zh_HKG", "ja-Kata"], "en");
  }

  // ---------------------------------------------------------------------------
  // Rendering: the plural test

  /** The forms of `%d tests` in the test suite's Russian and English catalogs. */
  function RuTestForms(): seq<string> {
    ["%d тест", "%d теста", "%d тестов"]
  }

  function EnTestForms(): seq<string> {
    ["Test %d", "Tests %d"]
  }

  /** A catalog holding only `%d tests`, written as `|`-joined forms. */
  function TestCatalog(forms: seq<string>): Catalog
    requires |forms| >= 1
  {
    map["%d tests" := Join(forms, '|')]
  }

  /** `plural('%d tests', x)` without arguments, in a language whose catalog
      the loader supplies: the quantity's decimal text is formatted into the
      form the plural rule selects. */
  lemma PluralOfTestCatalog(t: Translator, env: Env, x: nat, forms: seq<string>)
    requires |forms| >= 1 && forall i | 0 <= i < |forms| :: '|' !in forms[i]
    requires FamilyOf(t.language).Some? && |forms| == FormCount(FamilyOf(t.language).value)
    requires CacheFromLoader(t, env) && env.loader.get(t.language) == TestCatalog(forms)
    ensures Plural(t, env, "%d tests", x, None).1 == env.format(forms[PluralRule(t.language, x)], [Decimal(x)])
  {
    var r := Plural(t, env, "%d tests", x, None);
    CurrentCatalogFromLoader(t, r.0, env);
    SplitJoin(forms, '|');
    var d := Decimal(x);
    assert d != "%d tests" by {
      assert '0' <= d[0] <= '9';
    }
    var each := TranslateEach(TestCatalog(forms), [d]);
    assert |each| == 1 && each[0] == d;
    assert each == [d];
  }

  lemma RuFormsSeparate()
    ensures forall i | 0 <= i < |RuTestForms()| :: '|' !in RuTestForms()[i]
    ensures FamilyOf("ru").Some? && |RuTestForms()| == FormCount(FamilyOf("ru").value)
  {
  }

  lemma EnFormsSeparate()
    ensures forall i | 0 <= i < |EnTestForms()| :: '|' !in EnTestForms()[i]
    ensures FamilyOf("en").Some? && |EnTestForms()| == FormCount(FamilyOf("en").value)
  {
  }

  /** The test's translator: default `en`, available `en` and `ru`. */
  function TestOptions(): OptionsPatch {
    NoOptions().(defaultLanguage := Some("en"), available := Some(["en", "ru"]))
  }

  /** A new translator set to a language caches only what the loader gives. */
  lemma TestTranslator(env: Env, language: string)
    ensures var t := SetLanguage(New(env, TestOptions()), language);
            t.language == language && CacheFromLoader(t, env)
  {
  }

  /** The plural test in Russian, after `setLanguage("ru")` on a new
      translator: 1 and 101 take the first form, 2 the second, and 5, 10 and
      59 the third. */
  lemma RussianPluralTest(env: Env)
    requires env.loader.get("ru") == TestCatalog(RuTestForms())
    ensures var t := SetLanguage(New(env, TestOptions()), "ru");
            && Plural(t, env, "%d tests", 1, None).1 == env.format("%d тест", [Decimal(1)])
            && Plural(t, env, "%d tests", 2, None).1 == env.format("%d теста", [Decimal(2)])
            && Plural(t, env, "%d tests", 5, None).1 == env.format("%d тестов", [Decimal(5)])
            && Plural(t, env, "%d tests", 10, None).1 == env.format("%d тестов", [Decimal(10)])
            && Plural(t, env, "%d tests", 59, None).1 == env.format("%d тестов", [Decimal(59)])
            && Plural(t, env, "%d tests", 101, None).1 == env.format("%d тест", [Decimal(101)])
  {
    var t := SetLanguage(New(env, TestOptions()), "ru");
    TestTranslator(env, "ru");
    RuFormsSeparate();
    RussianTestForms();
    PluralOfTestCatalog(t, env, 1, RuTestForms());
    PluralOfTestCatalog(t, env, 2, RuTestForms());
    PluralOfTestCatalog(t, env, 5, RuTestForms());
    PluralOfTestCatalog(t, env, 10, RuTestForms());
    PluralOfTestCatalog(t, env, 59, RuTestForms());
    PluralOfTestCatalog(t, env, 101, RuTestForms());
  }

  /** The plural test in English: only 1 takes `Test %d`. */
  lemma EnglishPluralTest(env: Env, x: nat)
    requires env.loader.get("en") == TestCatalog(EnTestForms())
    ensures var t := SetLanguage(New(env, TestOptions()), "en");
            Plural(t, env, "%d tests", x, None).1
            == env.format(if x == 1 then "Test %d" else "Tests %d", [Decimal(x)])
  {
    var t := SetLanguage(New(env, TestOptions()), "en");
    TestTranslator(env, "en");
    EnFormsSeparate();
    EnglishSingularOnlyForOne(x);
    PluralOfTestCatalog(t, env, x, EnTestForms());
  }

  /** A key with no entry in the current catalog comes back unchanged. */
  lemma MissingKeyEchoed(t: Translator, env: Env, key: string)
    requires CacheFromLoader(t, env) && key !in env.loader.get(t.language)
    ensures T(t, env, key, None).1 == key
  {
    var r := T(t, env, key, None);
    CurrentCatalogFromLoader(t, r.0, env);
  }
}
