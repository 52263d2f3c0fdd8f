/** Choosing the language to use from the user's ranked tags:
    `shortLanguageCode` cuts a tag to its primary subtag, and
    `getBestMatchingLanguage` picks the first available language a user tag
    accepts, directly, through its primary subtag, or through a synonym. */
module LocaleResolver {
  import opened Wrappers
  import opened PhpStrings

  // ---------------------------------------------------------------------------
  // shortLanguageCode

  /** The first `c` of `s` is at position `k`, and `k` is past the start:
      the condition `strpos($s, c) > 0`. */
  predicate CutsAt(s: string, c: char, k: int) {
    0 < k < |s| && s[k] == c && c !in s[..k]
  }

  /** `s` has a first `c` that is not its first character. */
  ghost predicate HasCut(s: string, c: char) {
    exists k :: CutsAt(s, c, k)
  }

  /** `shortLanguageCode($language)`: tags longer than two bytes are cut
      before their first `-` when that `-` is not at the start, and otherwise
      before their first `_` under the same condition; everything else is
      returned unchanged. Only the first separator found is used, so the cut is
      not repeated and the result may still hold separators. */
  function ShortLanguageCode(language: string): (r: string)
    ensures |r| <= |language| && r == language[..|r|]
    ensures ByteLength(language) <= 2 ==> r == language
    ensures ByteLength(language) > 2 && HasCut(language, '-') ==> CutsAt(language, '-', |r|)
    ensures ByteLength(language) > 2 && !HasCut(language, '-') && HasCut(language, '_') ==> CutsAt(language, '_', |r|)
    ensures !HasCut(language, '-') && !HasCut(language, '_') ==> r == language
  {
    if ByteLength(language) > 2 then
      var dash := IndexOf(language, '-');
      if dash.Some? && dash.value > 0 then
        assert CutsAt(language, '-', dash.value);
        language[..dash.value]
      else
        NoCut(language, '-');
        var underscore := IndexOf(language, '_');
        if underscore.Some? && underscore.value > 0 then
          assert CutsAt(language, '_', underscore.value);
          language[..underscore.value]
        else
          NoCut(language, '_');
          language
    else
      language
  }

  /** When `strpos` gives `false` or 0 there is no cut. */
  lemma NoCut(s: string, c: char)
    requires IndexOf(s, c).None? || IndexOf(s, c).value == 0
    ensures !HasCut(s, c)
  {
    if IndexOf(s, c).Some? {
      forall k | 0 < k < |s| ensures c in s[..k] {
        assert s[..k][0] == c;
      }
    }
  }

  /** A region subtag after a dash is dropped: `primary-region` gives `primary`
      whenever the primary subtag is non-empty, holds no dash and the whole
      tag is longer than two characters. */
  lemma ShortCodeDropsRegion(primary: string, region: string)
    requires |primary| > 0 && '-' !in primary
    requires |primary| + 1 + |region| > 2
    ensures ShortLanguageCode(primary + ['-'] + region) == primary
  {
    var s := primary + ['-'] + region;
    assert s[..|primary|] == primary;
    assert CutsAt(s, '-', |primary|);
  }

  /** The length guard counts bytes, as `strlen` does: `é-` is two
      characters but three bytes, so it is cut to `é`. */
  lemma ShortCodeCountsBytes()
    ensures ShortLanguageCode("\U{E9}-") == "\U{E9}"
  {
    var s := "\U{E9}-";
    assert ByteLength(s) == 3;
    assert CutsAt(s, '-', 1);
  }

  /** Without any dash, a region subtag after an underscore is dropped:
      `primary_region` gives `primary` under the same conditions. */
  lemma ShortCodeDropsUnderscoreRegion(primary: string, region: string)
    requires |primary| > 0 && '-' !in primary && '_' !in primary && '-' !in region
    requires |primary| + 1 + |region| > 2
    ensures ShortLanguageCode(primary + ['_'] + region) == primary
  {
    var s := primary + ['_'] + region;
    assert s[..|primary|] == primary;
    assert CutsAt(s, '_', |primary|);
    assert !HasCut(s, '-') by {
      forall k | 0 <= k < |s| ensures s[k] != '-' {
        if k < |primary| {
          assert s[k] == primary[k];
        } else if k > |primary| {
          assert s[k] == region[k - |primary| - 1];
        }
      }
    }
  }

  /** The dash wins over an earlier underscore, so cutting twice can cut
      further: `shortLanguageCode` is not idempotent. */
  lemma ShortCodeNotIdempotent()
    ensures ShortLanguageCode("abc_de-f") == "abc_de"
    ensures ShortLanguageCode("abc_de") == "abc"
  {
    ShortCodeAtDash();
    ShortCodeAtUnderscore();
  }

  lemma ShortCodeAtDash()
    ensures ShortLanguageCode("abc_de-f") == "abc_de"
  {
    ShortCodeDropsRegion("abc_de", "f");
    assert "abc_de" + ['-'] + "f" == "abc_de-f";
  }

  lemma ShortCodeAtUnderscore()
    ensures ShortLanguageCode("abc_de") == "abc"
  {
    ShortCodeDropsUnderscoreRegion("abc", "de");
    assert "abc" + ['_'] + "de" == "abc_de";
  }

  /** A leading dash is not a cut: the underscore rule applies instead. */
  lemma ShortCodeLeadingDash()
    ensures ShortLanguageCode("-en_US") == "-en"
  {
    var s := "-en_US";
    assert CutsAt(s, '_', 3) by {
      assert s[..3] == "-en";
    }
    assert !HasCut(s, '-') by {
      forall k | 0 < k < |s| ensures s[k] != '-' {
      }
    }
  }

  // ---------------------------------------------------------------------------
  // getBestMatchingLanguage

  /** A user tag accepts an available language when the tag, or its synonym,
      is that language, or failing that its short code, or the short code's
      synonym, is. */
  predicate Matches(user: string, available: string, synonyms: map<string, string>) {
    var short := ShortLanguageCode(user);
    || user == available
    || (user in synonyms && synonyms[user] == available)
    || short == available
    || (short in synonyms && synonyms[short] == available)
  }

  /** No user tag accepts any available language. */
  ghost predicate NoMatch(languages: seq<string>, available: seq<string>, synonyms: map<string, string>) {
    forall i, j | 0 <= i < |languages| && 0 <= j < |available| :: !Matches(languages[i], available[j], synonyms)
  }

  /** A tag accepts nothing when neither it nor its short code is available
      or has a synonym. */
  lemma NothingAccepted(user: string, available: seq<string>, synonyms: map<string, string>)
    requires user !in synonyms && ShortLanguageCode(user) !in synonyms
    requires user !in available && ShortLanguageCode(user) !in available
    ensures forall j | 0 <= j < |available| :: !Matches(user, available[j], synonyms)
  {
  }

  /** `(i, j)` is the first accepted pair in the order the nested loops visit
      them: every earlier user tag accepts nothing, and tag `i` accepts no
      available language listed before `j`. */
  ghost predicate FirstMatch(languages: seq<string>, available: seq<string>, synonyms: map<string, string>, i: int, j: int) {
    && 0 <= i < |languages| && 0 <= j < |available|
    && Matches(languages[i], available[j], synonyms)
    && NoMatch(languages[..i], available, synonyms)
    && forall j' | 0 <= j' < j :: !Matches(languages[i], available[j'], synonyms)
  }

  /** The inner loop: the index of the first available language, from `from`
      on, that `user` accepts. */
  function FirstAccepted(user: string, available: seq<string>, synonyms: map<string, string>, from: nat): (r: Option<nat>)
    requires from <= |available|
    ensures r.None? ==> forall j | from <= j < |available| :: !Matches(user, available[j], synonyms)
    ensures r.Some? ==> from <= r.value < |available| && Matches(user, available[r.value], synonyms)
    ensures r.Some? ==> forall j | from <= j < r.value :: !Matches(user, available[j], synonyms)
    decreases |available| - from
  {
    if from == |available| then None
    else if Matches(user, available[from], synonyms) then Some(from)
    else FirstAccepted(user, available, synonyms, from + 1)
  }

  /** The outer loop, from user tag `from` on, when every earlier tag
      accepted nothing. */
  function BestMatchFrom(languages: seq<string>, available: seq<string>, synonyms: map<string, string>,
                         defaultLanguage: string, from: nat): (r: string)
    requires from <= |languages|
    requires NoMatch(languages[..from], available, synonyms)
    ensures NoMatch(languages, available, synonyms) ==> r == defaultLanguage
    ensures !NoMatch(languages, available, synonyms) ==>
              exists i, j :: FirstMatch(languages, available, synonyms, i, j) && r == available[j]
    decreases |languages| - from
  {
    if from == |languages| then
      assert languages[..from] == languages;
      defaultLanguage
    else
      match FirstAccepted(languages[from], available, synonyms, 0)
      case Some(j) =>
        assert FirstMatch(languages, available, synonyms, from, j);
        available[j]
      case None =>
        var seen := languages[..from + 1];
        assert NoMatch(seen, available, synonyms) by {
          forall i, j | 0 <= i < from + 1 && 0 <= j < |available|
            ensures !Matches(seen[i], available[j], synonyms)
          {
            if i < from {
              assert seen[i] == languages[..from][i];
            }
          }
        }
        BestMatchFrom(languages, available, synonyms, defaultLanguage, from + 1)
  }

  /** `getBestMatchingLanguage($languages)`: with no available languages the
      default; otherwise the available language of the first accepted pair,
      user tags taken in rank order and available languages in their listed
      order for each tag; the default when no pair is accepted. */
  function BestMatchingLanguage(languages: seq<string>, available: seq<string>, synonyms: map<string, string>,
                                defaultLanguage: string): (r: string)
    ensures |available| == 0 ==> r == defaultLanguage
    ensures r == defaultLanguage || r in available
    ensures NoMatch(languages, available, synonyms) ==> r == defaultLanguage
    ensures !NoMatch(languages, available, synonyms) ==>
              exists i, j :: FirstMatch(languages, available, synonyms, i, j) && r == available[j]
  {
    if |available| == 0 then defaultLanguage
    else
      assert languages[..0] == [];
      BestMatchFrom(languages, available, synonyms, defaultLanguage, 0)
  }

  /** There is one first accepted pair. */
  lemma {:induction false} FirstMatchUnique(languages: seq<string>, available: seq<string>, synonyms: map<string, string>,
                                            i: int, j: int, i': int, j': int)
    requires FirstMatch(languages, available, synonyms, i, j)
    requires FirstMatch(languages, available, synonyms, i', j')
    ensures i == i' && j == j'
  {
    PrefixUnmatched(languages, available, synonyms, i);
    PrefixUnmatched(languages, available, synonyms, i');
  }

  /** `NoMatch` of a prefix, read at the indices of the whole list. */
  lemma PrefixUnmatched(languages: seq<string>, available: seq<string>, synonyms: map<string, string>, k: int)
    requires 0 <= k <= |languages| && NoMatch(languages[..k], available, synonyms)
    ensures forall i, j | 0 <= i < k && 0 <= j < |available| :: !Matches(languages[i], available[j], synonyms)
  {
    forall i, j | 0 <= i < k && 0 <= j < |available|
      ensures !Matches(languages[i], available[j], synonyms)
    {
      assert languages[..k][i] == languages[i];
    }
  }

  /** When the best-ranked tag accepts some available language, the first
      such language in the available order is the result. */
  lemma FirstTagDecides(languages: seq<string>, available: seq<string>, synonyms: map<string, string>,
                        defaultLanguage: string, j: int)
    requires |languages| > 0 && 0 <= j < |available|
    requires Matches(languages[0], available[j], synonyms)
    requires forall j' | 0 <= j' < j :: !Matches(languages[0], available[j'], synonyms)
    ensures BestMatchingLanguage(languages, available, synonyms, defaultLanguage) == available[j]
  {
    assert languages[..0] == [];
    assert FirstMatch(languages, available, synonyms, 0, j);
    var r := BestMatchingLanguage(languages, available, synonyms, defaultLanguage);
    var i', j' :| FirstMatch(languages, available, synonyms, i', j') && r == available[j'];
    FirstMatchUnique(languages, available, synonyms, 0, j, i', j');
  }

  /** Tags ranked after one that is accepted never change the choice. */
  lemma {:induction false} LaterTagsIgnored(first: seq<string>, later: seq<string>, available: seq<string>,
                                            synonyms: map<string, string>, defaultLanguage: string)
    requires !NoMatch(first, available, synonyms)
    ensures BestMatchingLanguage(first + later, available, synonyms, defaultLanguage)
            == BestMatchingLanguage(first, available, synonyms, defaultLanguage)
  {
    var all := first + later;
    var r := BestMatchingLanguage(first, available, synonyms, defaultLanguage);
    var i, j :| FirstMatch(first, available, synonyms, i, j) && r == available[j];
    assert all[..i] == first[..i];
    assert all[i] == first[i];
    assert FirstMatch(all, available, synonyms, i, j);
    assert !NoMatch(all, available, synonyms);
    var r' := BestMatchingLanguage(all, available, synonyms, defaultLanguage);
    var i', j' :| FirstMatch(all, available, synonyms, i', j') && r' == available[j'];
    FirstMatchUnique(all, available, synonyms, i, j, i', j');
  }

  /** A tag that accepts nothing may be dropped from the front. */
  lemma {:induction false} UnmatchedTagIgnored(tag: string, rest: seq<string>, available: seq<string>,
                                               synonyms: map<string, string>, defaultLanguage: string)
    requires forall j | 0 <= j < |available| :: !Matches(tag, available[j], synonyms)
    ensures BestMatchingLanguage([tag] + rest, available, synonyms, defaultLanguage)
            == BestMatchingLanguage(rest, available, synonyms, defaultLanguage)
  {
    var all := [tag] + rest;
    if NoMatch(rest, available, synonyms) {
      UnmatchedCons(tag, rest, available, synonyms);
    } else {
      var r := BestMatchingLanguage(rest, available, synonyms, defaultLanguage);
      var i, j :| FirstMatch(rest, available, synonyms, i, j) && r == available[j];
      FirstMatchCons(tag, rest, available, synonyms, i, j);
      var r' := BestMatchingLanguage(all, available, synonyms, defaultLanguage);
      var i', j' :| FirstMatch(all, available, synonyms, i', j') && r' == available[j'];
      FirstMatchUnique(all, available, synonyms, i + 1, j, i', j');
    }
  }

  lemma UnmatchedCons(tag: string, rest: seq<string>, available: seq<string>, synonyms: map<string, string>)
    requires forall j | 0 <= j < |available| :: !Matches(tag, available[j], synonyms)
    requires NoMatch(rest, available, synonyms)
    ensures NoMatch([tag] + rest, available, synonyms)
  {
    var all := [tag] + rest;
    forall i, j | 0 <= i < |all| && 0 <= j < |available| ensures !Matches(all[i], available[j], synonyms) {
      if i > 0 {
        assert all[i] == rest[i - 1];
      }
    }
  }

  lemma FirstMatchCons(tag: string, rest: seq<string>, available: seq<string>, synonyms: map<string, string>, i: int, j: int)
    requires forall j | 0 <= j < |available| :: !Matches(tag, available[j], synonyms)
    requires FirstMatch(rest, available, synonyms, i, j)
    ensures FirstMatch([tag] + rest, available, synonyms, i + 1, j)
  {
    var all := [tag] + rest;
    assert all[..i + 1] == [tag] + rest[..i];
    UnmatchedCons(tag, rest[..i], available, synonyms);
  }

  /** Within one user tag, available languages are tried in their listed
      order and each is compared for an exact and a short-code match before the
      next: `en-US` picks `en` when `en` is listed before `en-US`. */
  lemma ShortCodeBeatsLaterExact(synonyms: map<string, string>, defaultLanguage: string)
    requires "en-US" !in synonyms
    ensures BestMatchingLanguage(["en-US"], ["en", "en-US"], synonyms, defaultLanguage) == "en"
    ensures BestMatchingLanguage(["en-US"], ["en-US", "en"], synonyms, defaultLanguage) == "en-US"
  {
    ShortCodeDropsRegion("en", "US");
    assert "en" + ['-'] + "US" == "en-US";
    assert Matches("en-US", "en", synonyms);
    assert Matches("en-US", "en-US", synonyms);
    FirstTagDecides(["en-US"], ["en", "en-US"], synonyms, defaultLanguage, 0);
    FirstTagDecides(["en-US"], ["en-US", "en"], synonyms, defaultLanguage, 0);
  }
}
