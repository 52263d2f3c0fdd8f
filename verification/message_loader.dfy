/** Message catalogs and the loaders that supply them. A catalog maps a
    message key to its translation. `PhpArrayLoader` serves catalogs from an
    array given at construction; the translator sees any loader only through
    its `get` and `has` operations. */
module MessageLoader {
  import opened Wrappers
  import opened PhpStrings

  /** One language's messages: key to translated template. */
  type Catalog = map<string, string>

  /** The array a `PhpArrayLoader` is built with, keyed by language code.
      `None` stands for an entry whose value is `null`. */
  datatype ArrayLoader = ArrayLoader(messages: map<string, Option<Catalog>>)

  /** The entry stored for `language`, reading a missing key or `null` as an
      empty catalog. */
  function Stored(loader: ArrayLoader, language: string): Catalog {
    if language in loader.messages && loader.messages[language].Some? then loader.messages[language].value
    else map[]
  }

  /** `PhpArrayLoader::get($language)`: an empty code ("" or "0") gets an
      empty catalog; otherwise the stored catalog, and an empty catalog when
      the code is missing or its entry is `null`. It never fails. */
  function Get(loader: ArrayLoader, language: string): (c: Catalog)
    ensures IsEmpty(language) ==> c == map[]
    ensures !IsEmpty(language) ==> c == Stored(loader, language)
    ensures c != map[] ==> language in loader.messages && loader.messages[language] == Some(c)
  {
    if IsEmpty(language) then map[]
    else Stored(loader, language)
  }

  /** `PhpArrayLoader::has($language)`: `isset`, so a key whose value is
      `null` does not count. */
  function Has(loader: ArrayLoader, language: string): (b: bool)
    ensures b <==> language in loader.messages && loader.messages[language] != None
  {
    language in loader.messages && loader.messages[language].Some?
  }

  /** Whatever `get` returns that is not empty, `has` confirms. */
  lemma GetImpliesHas(loader: ArrayLoader, language: string)
    requires Get(loader, language) != map[]
    ensures Has(loader, language)
  {
  }

  /** The converse fails: `has` looks at the key only, `get` also rejects
      the code "0" and empty catalogs. */
  lemma HasWithoutMessages()
    ensures var loader := ArrayLoader(map["0" := Some(map["some" := "x"]), "de" := Some(map[])]);
            && Has(loader, "0") && Get(loader, "0") == map[]
            && Has(loader, "de") && Get(loader, "de") == map[]
  {
    var loader := ArrayLoader(map["0" := Some(map["some" := "x"]), "de" := Some(map[])]);
    assert IsEmpty("0");
    assert !IsEmpty("de");
  }

  /** The loader test's data: `has` and a non-empty `get` for both languages,
      nothing for others. */
  lemma ArrayLoaderTestData()
    ensures var loader := TestLoader();
            && Has(loader, "ru") && Has(loader, "en") && !Has(loader, "de")
            && Get(loader, "en")["some"] == "Some string"
            && Get(loader, "ru")["another"] == "Другая строка"
            && Get(loader, "de") == map[]
  {
    var loader := TestLoader();
    assert !IsEmpty("en") && !IsEmpty("ru");
  }

  function TestLoader(): ArrayLoader {
    ArrayLoader(map[
      "en" := Some(map["some" := "Some string", "another" := "Another string"]),
      "ru" := Some(map["some" := "Одна строка", "another" := "Другая строка"])
    ])
  }

  /** Any loader, as the translator uses it: its two operations. A files
      loader fits the same shape. */
  datatype Loader = Loader(get: string -> Catalog, has: string -> bool)

  /** An array loader behind the loader interface. */
  function FromArray(loader: ArrayLoader): (l: Loader)
    ensures forall language :: l.get(language) == Get(loader, language) && l.has(language) == Has(loader, language)
  {
    Loader(language => Get(loader, language), language => Has(loader, language))
  }
}
