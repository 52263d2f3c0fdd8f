/** The plural-form table: a language code and a non-negative quantity give
    the index of the plural form to use. The table follows the Zend Framework
    rules of 2010 (not CLDR): fifteen rule families, each a closed-form
    expression over the quantity, and index 0 for every code not listed. */
module PluralRules {
  import opened Wrappers

  /** One rule shape per family of languages, in the order the table lists them. */
  datatype Family =
    | NoPlural      // bo, ja, zh, ...: a single form
    | OneOther      // en, de, es, ...: n == 1 is singular
    | ZeroOneOther  // fr, hi, ...: 0 and 1 are singular
    | EastSlavic    // be, bs, hr, ru, sr, uk
    | CzechSlovak   // cs, sk
    | Irish         // ga
    | Lithuanian    // lt
    | Slovenian     // sl
    | Macedonian    // mk
    | Maltese       // mt
    | Latvian       // lv
    | Polish        // pl
    | Welsh         // cy
    | Romanian      // ro
    | Arabic        // ar

  /** The family a language code belongs to, as the table's `switch` lists
      the codes; `None` for codes the table does not list. */
  function FamilyOf(language: string): Option<Family> {
    match language
    case "bo" | "dz" | "id" | "ja" | "jv" | "ka" | "km" | "kn" | "ko" | "ms" | "th" | "tr"
       | "vi" | "zh" =>
      Some(NoPlural)
    case "af" | "az" | "bn" | "bg" | "ca" | "da" | "de" | "el" | "en" | "eo" | "es" | "et"
       | "eu" | "fa" | "fi" | "fo" | "fur" | "fy" | "gl" | "gu" | "ha" | "he" | "hu" | "is"
       | "it" | "ku" | "lb" | "ml" | "mn" | "mr" | "nah" | "nb" | "ne" | "nl" | "nn" | "no"
       | "om" | "or" | "pa" | "pap" | "ps" | "pt" | "so" | "sq" | "sv" | "sw" | "ta" | "te"
       | "tk" | "ur" | "zu" =>
      Some(OneOther)
    case "am" | "bh" | "fil" | "fr" | "gun" | "hi" | "ln" | "mg" | "nso" | "xbr" | "ti" | "wa" =>
      Some(ZeroOneOther)
    case "be" | "bs" | "hr" | "ru" | "sr" | "uk" => Some(EastSlavic)
    case "cs" | "sk" => Some(CzechSlovak)
    case "ga" => Some(Irish)
    case "lt" => Some(Lithuanian)
    case "sl" => Some(Slovenian)
    case "mk" => Some(Macedonian)
    case "mt" => Some(Maltese)
    case "lv" => Some(Latvian)
    case "pl" => Some(Polish)
    case "cy" => Some(Welsh)
    case "ro" => Some(Romanian)
    case "ar" => Some(Arabic)
    case _ => None
  }

  /** How many plural forms a family distinguishes. */
  function FormCount(f: Family): nat {
    match f
    case NoPlural => 1
    case OneOther | ZeroOneOther | Macedonian => 2
    case EastSlavic | CzechSlovak | Irish | Lithuanian | Latvian | Polish | Romanian => 3
    case Slovenian | Maltese | Welsh => 4
    case Arabic => 6
  }

  /** The closed-form rule of each family. Every index it returns is one of
      the family's forms. */
  function Rule(f: Family, n: nat): (r: nat)
    ensures r < FormCount(f)
  {
    match f
    case NoPlural => 0
    case OneOther => if n == 1 then 0 else 1
    case ZeroOneOther => if n == 0 || n == 1 then 0 else 1
    case EastSlavic =>
      if n % 10 == 1 && n % 100 != 11 then 0
      else if n % 10 >= 2 && n % 10 <= 4 && (n % 100 < 10 || n % 100 >= 20) then 1
      else 2
    case CzechSlovak => if n == 1 then 0 else if n >= 2 && n <= 4 then 1 else 2
    case Irish => if n == 1 then 0 else if n == 2 then 1 else 2
    case Lithuanian =>
      if n % 10 == 1 && n % 100 != 11 then 0
      else if n % 10 >= 2 && (n % 100 < 10 || n % 100 >= 20) then 1
      else 2
    case Slovenian =>
      if n % 100 == 1 then 0
      else if n % 100 == 2 then 1
      else if n % 100 == 3 || n % 100 == 4 then 2
      else 3
    case Macedonian => if n % 10 == 1 then 0 else 1
    case Maltese =>
      if n == 1 then 0
      else if n == 0 || (n % 100 > 1 && n % 100 < 11) then 1
      else if n % 100 > 10 && n % 100 < 20 then 2
      else 3
    case Latvian =>
      if n == 0 then 0
      else if n % 10 == 1 && n % 100 != 11 then 1
      else 2
    case Polish =>
      if n == 1 then 0
      else if n % 10 >= 2 && n % 10 <= 4 && (n % 100 < 12 || n % 100 > 14) then 1
      else 2
    case Welsh =>
      if n == 1 then 0 else if n == 2 then 1 else if n == 8 || n == 11 then 2 else 3
    case Romanian =>
      if n == 1 then 0
      else if n == 0 || (n % 100 > 0 && n % 100 < 20) then 1
      else 2
    case Arabic =>
      if n == 0 then 0
      else if n == 1 then 1
      else if n == 2 then 2
      else if n >= 3 && n <= 10 then 3
      else if n >= 11 && n <= 99 then 4
      else 5
  }

  /** `pluralRule($language, $x)`: total and pure. An unlisted code selects
      form 0; a listed code selects one of its family's forms. */
  function PluralRule(language: string, n: nat): (r: nat)
    ensures FamilyOf(language).None? ==> r == 0
    ensures FamilyOf(language).Some? ==> r < FormCount(FamilyOf(language).value)
  {
    match FamilyOf(language)
    case None => 0
    case Some(f) => Rule(f, n)
  }

  /** A quantity that selects form `k` of family `f`. */
  function SampleQuantity(f: Family, k: nat): nat
    requires k < FormCount(f)
  {
    match f
    case NoPlural => 0
    case OneOther => [1, 2][k]
    case ZeroOneOther => [1, 2][k]
    case EastSlavic => [1, 2, 5][k]
    case CzechSlovak => [1, 2, 5][k]
    case Irish => [1, 2, 3][k]
    case Lithuanian => [1, 2, 11][k]
    case Slovenian => [1, 2, 3, 5][k]
    case Macedonian => [1, 2][k]
    case Maltese => [1, 2, 11, 20][k]
    case Latvian => [0, 1, 2][k]
    case Polish => [1, 2, 5][k]
    case Welsh => [1, 2, 8, 3][k]
    case Romanian => [1, 2, 20][k]
    case Arabic => [0, 1, 2, 3, 11, 100][k]
  }

  /** Every form of every family is selected by some quantity: with the bound
      on `Rule`, each family uses exactly `FormCount(f)` forms. */
  lemma EveryFormUsed(f: Family, k: nat)
    requires k < FormCount(f)
    ensures Rule(f, SampleQuantity(f, k)) == k
  {
    if f.EastSlavic? || f.CzechSlovak? || f.Irish? || f.Lithuanian? || f.Latvian? || f.Polish? || f.Romanian? {
      ThreeFormsUsed(f, k);
    } else if f.Slovenian? || f.Maltese? || f.Welsh? || f.Arabic? {
      ManyFormsUsed(f, k);
    }
  }

  lemma ThreeFormsUsed(f: Family, k: nat)
    requires f.EastSlavic? || f.CzechSlovak? || f.Irish? || f.Lithuanian? || f.Latvian? || f.Polish? || f.Romanian?
    requires k < 3
    ensures Rule(f, SampleQuantity(f, k)) == k
  {
  }

  lemma ManyFormsUsed(f: Family, k: nat)
    requires f.Slovenian? || f.Maltese? || f.Welsh? || f.Arabic?
    requires k < FormCount(f)
    ensures Rule(f, SampleQuantity(f, k)) == k
  {
  }

  /** Index bounds per family, for every code the family lists: one-form
      codes only ever select 0, two-form codes 0 or 1, three-form codes 0..2,
      four-form codes 0..3 and Arabic 0..5; and each bound is reached, so it
      is the tightest one. */
  lemma PluralRuleBounds(language: string, n: nat)
    ensures FamilyOf(language).Some? && FormCount(FamilyOf(language).value) == 1 ==> PluralRule(language, n) == 0
    ensures FamilyOf(language).Some? && FormCount(FamilyOf(language).value) == 2 ==> PluralRule(language, n) <= 1
    ensures FamilyOf(language).Some? && FormCount(FamilyOf(language).value) == 3 ==> PluralRule(language, n) <= 2
    ensures FamilyOf(language).Some? && FormCount(FamilyOf(language).value) == 4 ==> PluralRule(language, n) <= 3
    ensures FamilyOf(language).Some? && FormCount(FamilyOf(language).value) == 6 ==> PluralRule(language, n) <= 5
    ensures FamilyOf(language).Some? ==>
              var f := FamilyOf(language).value;
              PluralRule(language, SampleQuantity(f, FormCount(f) - 1)) == FormCount(f) - 1
  {
    match FamilyOf(language)
    case None =>
    case Some(f) => EveryFormUsed(f, FormCount(f) - 1);
  }

  /** For the families whose rule looks only at `n % 10` and `n % 100`,
      adding 100 to the quantity never changes the form. */
  lemma PeriodicInHundreds(f: Family, n: nat)
    requires f == EastSlavic || f == Lithuanian || f == Slovenian || f == Macedonian
    ensures Rule(f, n + 100) == Rule(f, n)
  {
    assert (n + 100) % 100 == n % 100;
    assert (n + 100) % 10 == n % 10;
  }

  /** Polish singles out exactly 1, so unlike Russian it is not periodic. */
  lemma PolishNotPeriodic()
    ensures PluralRule("pl", 1) != PluralRule("pl", 101)
  {
  }

  /** The Russian quantities of the library's plural test pick forms
      0, 1, 2, 2, 2, 0, and 11 takes the third form. */
  lemma RussianTestForms()
    ensures PluralRule("ru", 1) == 0 && PluralRule("ru", 2) == 1
    ensures PluralRule("ru", 5) == 2 && PluralRule("ru", 10) == 2
    ensures PluralRule("ru", 59) == 2 && PluralRule("ru", 101) == 0
    ensures PluralRule("ru", 11) == 2
  {
  }

  /** In English only the quantity 1 takes the singular form. */
  lemma EnglishSingularOnlyForOne(n: nat)
    ensures PluralRule("en", n) == 0 <==> n == 1
  {
  }
}
