/** The older `Translate` class of the library's `lib` directory: one
    language at a time, catalogs loaded from files, `t` and `choice` for
    rendering, and its own copy of the plural-form table.

    The state is the current language, the default, the optional list of
    available languages and the catalogs loaded so far. Reading the request
    header and reading files are outside the model: the language the header
    would give and the catalog a file would give are parameters. PHP's
    `false` as a language (what header detection yields when nothing
    matched) behaves everywhere after `setLanguage` like the array key `0`,
    so it is represented by the code "0". */
module LegacyTranslator {
  import opened Wrappers
  import opened PhpStrings
  import opened PluralRules
  import opened MessageLoader
  import Translator

  datatype Legacy = Legacy(
    language: string,
    defaultLanguage: string,
    available: Option<seq<string>>,
    messages: map<string, Catalog>)

  // ---------------------------------------------------------------------------
  // The plural-form table, as this class writes it

  /** `_pluralChoice($x)`: a `switch` on the current language code with the
      rule written inline for each group of codes, and 0 for any other code. */
  function PluralChoice(language: string, x: nat): (r: nat)
    ensures r <= 5
    ensures language !in {"ar", "sl", "mt", "cy"} ==> r <= 2
  {
    match language
    case "bo" | "dz" | "id" | "ja" | "jv" | "ka" | "km" | "kn" | "ko" | "ms" | "th" | "tr"
       | "vi" | "zh" =>
      0
    case "af" | "az" | "bn" | "bg" | "ca" | "da" | "de" | "el" | "en" | "eo" | "es" | "et"
       | "eu" | "fa" | "fi" | "fo" | "fur" | "fy" | "gl" | "gu" | "ha" | "he" | "hu" | "is"
       | "it" | "ku" | "lb" | "ml" | "mn" | "mr" | "nah" | "nb" | "ne" | "nl" | "nn" | "no"
       | "om" | "or" | "pa" | "pap" | "ps" | "pt" | "so" | "sq" | "sv" | "sw" | "ta" | "te"
       | "tk" | "ur" | "zu" =>
      if x == 1 then 0 else 1
    case "am" | "bh" | "fil" | "fr" | "gun" | "hi" | "ln" | "mg" | "nso" | "xbr" | "ti" | "wa" =>
      if x == 0 || x == 1 then 0 else 1
    case "be" | "bs" | "hr" | "ru" | "sr" | "uk" =>
      if x % 10 == 1 && x % 100 != 11 then 0
      else if x % 10 >= 2 && x % 10 <= 4 && (x % 100 < 10 || x % 100 >= 20) then 1
      else 2
    case "cs" | "sk" =>
      if x == 1 then 0 else if x >= 2 && x <= 4 then 1 else 2
    case "ga" =>
      if x == 1 then 0 else if x == 2 then 1 else 2
    case "lt" =>
      if x % 10 == 1 && x % 100 != 11 then 0
      else if x % 10 >= 2 && (x % 100 < 10 || x % 100 >= 20) then 1
      else 2
    case "sl" =>
      if x % 100 == 1 then 0
      else if x % 100 == 2 then 1
      else if x % 100 == 3 || x % 100 == 4 then 2
      else 3
    case "mk" =>
      if x % 10 == 1 then 0 else 1
    case "mt" =>
      if x == 1 then 0
      else if x == 0 || (x % 100 > 1 && x % 100 < 11) then 1
      else if x % 100 > 10 && x % 100 < 20 then 2
      else 3
    case "lv" =>
      if x == 0 then 0 else if x % 10 == 1 && x % 100 != 11 then 1 else 2
    case "pl" =>
      if x == 1 then 0
      else if x % 10 >= 2 && x % 10 <= 4 && (x % 100 < 12 || x % 100 > 14) then 1
      else 2
    case "cy" =>
      if x == 1 then 0 else if x == 2 then 1 else if x == 8 || x == 11 then 2 else 3
    case "ro" =>
      if x == 1 then 0 else if x == 0 || (x % 100 > 0 && x % 100 < 20) then 1 else 2
    case "ar" =>
      if x == 0 then 0
      else if x == 1 then 1
      else if x == 2 then 2
      else if x >= 3 && x <= 10 then 3
      else if x >= 11 && x <= 99 then 4
      else 5
    case _ =>
      0
  }

  /** The two copies of the table agree on every code and every quantity:
      this class picks the same form as the newer class's plural rule. */
  lemma PluralChoiceAgrees(language: string, x: nat)
    ensures PluralChoice(language, x) == PluralRule(language, x)
  {
    match FamilyOf(language)
    case None =>
    case Some(f) =>
      assert PluralRule(language, x) == Rule(f, x);
  }

  /** A code the table does not list selects the first form. */
  lemma UnlistedCodeSelectsFirst(language: string, x: nat)
    requires FamilyOf(language).None?
    ensures PluralChoice(language, x) == 0
  {
    PluralChoiceAgrees(language, x);
  }

  // ---------------------------------------------------------------------------
  // Choosing the language

  /** PHP's loose `in_array`: `false` equals "" and "0"; a code equals only
      itself. */
  predicate InArray(candidate: Option<string>, available: seq<string>) {
    match candidate
    case None => "" in available || "0" in available
    case Some(code) => code in available
  }

  /** The key a candidate is stored and looked up under. */
  function Key(candidate: Option<string>): string {
    if candidate.Some? then candidate.value else "0"
  }

  /** The language `setLanguage` asks for: the argument, or, when that is
      empty, the one header detection gives (`None` for `false`). */
  function Requested(language: string, detected: Option<string>): Option<string> {
    if IsEmpty(language) then detected else Some(language)
  }

  /** `_loadMessages($language)`: reads the language's catalog once. */
  function Load(t: Legacy, language: string, read: string -> Catalog): (r: Legacy)
    ensures r.language == t.language && r.defaultLanguage == t.defaultLanguage && r.available == t.available
    ensures language in r.messages
    ensures language in t.messages ==> r == t
    ensures language !in t.messages ==> r.messages == t.messages[language := read(language)]
  {
    if language in t.messages then t else t.(messages := t.messages[language := read(language)])
  }

  /** `setLanguage($language)`: the requested language is kept only when it
      is in the list of available languages, and its catalog is loaded. With
      no list (`null`, where `in_array` yields `null`) or an empty one,
      nothing is in it, so the default is always chosen. */
  function SetLanguage(t: Legacy, language: string, detected: Option<string>, read: string -> Catalog): (r: Legacy)
    ensures var requested := Requested(language, detected);
            && (t.available.Some? && InArray(requested, t.available.value) ==> r.language == Key(requested))
            && (t.available.None? || !InArray(requested, t.available.value) ==> r.language == t.defaultLanguage)
    ensures r.defaultLanguage == t.defaultLanguage && r.available == t.available
    ensures r.language in t.messages ==> r.messages == t.messages
    ensures r.language !in t.messages ==> r.messages == t.messages[r.language := read(r.language)]
  {
    var requested := Requested(language, detected);
    var chosen := if t.available.Some? && InArray(requested, t.available.value) then Key(requested) else t.defaultLanguage;
    Load(t, chosen, read).(language := chosen)
  }

  /** `setLanguage` clamps: the language is the default or
      listed as available, where `false` (stored as "0") counts as listed
      when the list holds "". */
  lemma SetLanguageClamps(t: Legacy, language: string, detected: Option<string>, read: string -> Catalog)
    ensures var r := SetLanguage(t, language, detected, read);
            || r.language == t.defaultLanguage
            || (t.available.Some? && r.language in t.available.value)
            || (t.available.Some? && r.language == "0" && "" in t.available.value)
  {
  }

  /** With no list of available languages, or an empty one, `setLanguage`
      ignores its argument: even an explicit `ru` gives the default. */
  lemma NoListMeansDefault(t: Legacy, language: string, detected: Option<string>, read: string -> Catalog)
    requires t.available == None || t.available == Some([])
    ensures SetLanguage(t, language, detected, read).language == t.defaultLanguage
  {
  }

  // ---------------------------------------------------------------------------
  // Rendering

  /** The template for a key: the current catalog's entry when it is not
      empty (`!empty`, so "" and "0" do not count), otherwise the key. */
  function Template(t: Legacy, key: string): (s: string)
    ensures t.language in t.messages && key in t.messages[t.language] && !IsEmpty(t.messages[t.language][key]) ==>
              s == t.messages[t.language][key]
    ensures !(t.language in t.messages && key in t.messages[t.language]) ==> s == key
    ensures t.language in t.messages && key in t.messages[t.language] && IsEmpty(t.messages[t.language][key]) ==>
              s == key
    ensures !IsEmpty(s) || s == key
  {
    if t.language in t.messages && key in t.messages[t.language] && !IsEmpty(t.messages[t.language][key])
    then t.messages[t.language][key]
    else key
  }

  /** `t($string, $args)`: the template, formatted with the arguments when
      they are given. */
  function T(t: Legacy, key: string, args: Option<seq<string>>, format: (string, seq<string>) -> string): (s: string)
    ensures args.None? ==> s == Template(t, key)
    ensures args.Some? ==> s == format(Template(t, key), args.value)
  {
    if args.Some? then format(Template(t, key), args.value) else Template(t, key)
  }

  /** A translation that is "" or "0" is not used: the key comes back. The
      newer class uses such a translation as it is. */
  lemma EmptyTranslationEchoesKey(t: Legacy, key: string)
    requires t.language in t.messages && key in t.messages[t.language]
    requires IsEmpty(t.messages[t.language][key])
    ensures T(t, key, None, (s, a) => s) == key
    ensures Translator.Translation(t.messages[t.language], key) != key || IsEmpty(key)
  {
  }

  /** The arguments `choice` formats with: the given ones, or the quantity. */
  function ChoiceArgs(x: nat, args: Option<seq<string>>): seq<string> {
    if args.Some? then args.value else [Decimal(x)]
  }

  /** `choice($string, $x, $args)` as written: it computes the form to use,
      falling back to the first one when the template has too few, but then
      formats `$choices[$this->_pluralChoice($x)]` instead. A missing index
      reads as `null`, which `vsprintf` takes as "". */
  function ChoiceAsWritten(t: Legacy, key: string, x: nat, args: Option<seq<string>>,
                           format: (string, seq<string>) -> string): (s: string)
    ensures var choices := Split(Template(t, key), '|');
            var index := PluralChoice(t.language, x);
            && (index < |choices| ==> s == format(choices[index], ChoiceArgs(x, args)))
            && (index >= |choices| ==> s == format("", ChoiceArgs(x, args)))
  {
    var choices := Split(Template(t, key), '|');
    var index := PluralChoice(t.language, x);
    format(if index < |choices| then choices[index] else "", ChoiceArgs(x, args))
  }

  /** `choice` formatting the form it computed: the one the table selects,
      or the first one when there are too few. */
  function Choice(t: Legacy, key: string, x: nat, args: Option<seq<string>>,
                  format: (string, seq<string>) -> string): (s: string)
    ensures var choices := Split(Template(t, key), '|');
            var index := PluralChoice(t.language, x);
            && (index < |choices| ==> s == format(choices[index], ChoiceArgs(x, args)))
            && (index >= |choices| ==> s == format(choices[0], ChoiceArgs(x, args)))
  {
    var choices := Split(Template(t, key), '|');
    var index := PluralChoice(t.language, x);
    format(if index < |choices| then choices[index] else choices[0], ChoiceArgs(x, args))
  }

  /** A template written as `|`-joined forms: `choice` formats the form the
      newer class's plural rule selects, or the first form when there are
      too few. */
  lemma ChoiceSelectsForm(t: Legacy, key: string, x: nat, forms: seq<string>, args: Option<seq<string>>,
                          format: (string, seq<string>) -> string)
    requires |forms| >= 1 && forall i | 0 <= i < |forms| :: '|' !in forms[i]
    requires Template(t, key) == Join(forms, '|')
    ensures PluralRule(t.language, x) < |forms| ==>
              Choice(t, key, x, args, format) == format(forms[PluralRule(t.language, x)], ChoiceArgs(x, args))
    ensures PluralRule(t.language, x) >= |forms| ==>
              Choice(t, key, x, args, format) == format(forms[0], ChoiceArgs(x, args))
  {
    SplitJoin(forms, '|');
    PluralChoiceAgrees(t.language, x);
  }

  /** The two versions differ exactly when the template has too few forms:
      then the written one formats "" where the first form was meant. */
  lemma ChoiceDropsFallback(t: Legacy, key: string, x: nat, args: Option<seq<string>>,
                            format: (string, seq<string>) -> string)
    ensures PluralChoice(t.language, x) < |Split(Template(t, key), '|')| ==>
              ChoiceAsWritten(t, key, x, args, format) == Choice(t, key, x, args, format)
    ensures PluralChoice(t.language, x) >= |Split(Template(t, key), '|')| ==>
              ChoiceAsWritten(t, key, x, args, format) == format("", ChoiceArgs(x, args))
              && Choice(t, key, x, args, format) == format(Split(Template(t, key), '|')[0], ChoiceArgs(x, args))
  {
  }

  /** A template of `|`-joined forms, fewer than the index the table selects:
      the written `choice` formats "", the corrected one the first form. */
  lemma ChoiceTooFewForms(t: Legacy, key: string, x: nat, forms: seq<string>, args: Option<seq<string>>,
                          format: (string, seq<string>) -> string)
    requires |forms| >= 1 && forall i | 0 <= i < |forms| :: '|' !in forms[i]
    requires Template(t, key) == Join(forms, '|')
    requires PluralChoice(t.language, x) >= |forms|
    ensures ChoiceAsWritten(t, key, x, args, format) == format("", ChoiceArgs(x, args))
    ensures Choice(t, key, x, args, format) == format(forms[0], ChoiceArgs(x, args))
  {
    SplitJoin(forms, '|');
  }

  /** Two forms joined by `|` are never "" or "0". */
  lemma TwoFormsNotEmpty(a: string, b: string)
    ensures !IsEmpty(Join([a, b], '|'))
  {
    var j := Join([a, b], '|');
    assert [a, b][1..] == [b];
    assert Join([b], '|') == b;
    assert j == a + ['|'] + Join([b], '|');
    assert j[|a|] == '|';
  }

  /** A Russian catalog whose `files` entry has only two forms, and the
      quantity 5: the table selects form 2, which does not exist, so the
      written `choice` formats "" instead of the first form. */
  lemma ChoiceTwoFormsRussian(format: (string, seq<string>) -> string)
    ensures var forms := ["%d файл", "%d файла"];
            var t := Legacy("ru", "en", Some(["en", "ru"]), map["ru" := map["files" := Join(forms, '|')]]);
            && ChoiceAsWritten(t, "files", 5, None, format) == format("", [Decimal(5)])
            && Choice(t, "files", 5, None, format) == format("%d файл", [Decimal(5)])
  {
    var forms := ["%d файл", "%d файла"];
    var t := Legacy("ru", "en", Some(["en", "ru"]), map["ru" := map["files" := Join(forms, '|')]]);
    TwoFormsNotEmpty(forms[0], forms[1]);
    assert Template(t, "files") == Join(forms, '|');
    assert PluralChoice("ru", 5) == 2;
    ChoiceTooFewForms(t, "files", 5, forms, None, format);
  }
}
