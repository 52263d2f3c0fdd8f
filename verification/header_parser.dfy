/** `detectLanguages`: turns an Accept-Language style header into the list
    of language tags to try, best first.

    The header is split on every `,`; each entry is trimmed and split at its
    first `;` into a tag and an optional parameter. The parameter's value
    (after its first `=`) becomes a quality scaled by a resolution. Entries
    are then ordered by quality, highest first, and equal qualities by tag,
    highest first (the tag list is the secondary sort key), and the list is
    cut to `max-languages` tags. */
module HeaderParser {
  import opened Wrappers
  import opened PhpStrings

  /** One parsed entry of a preference header: the tag and its scaled quality. */
  datatype Preference = Preference(tag: string, quality: int)

  /** PHP's `is_numeric()` and `floor($value * $resolution)` for a quality
      token. Both are floating-point operations in the library; the model
      receives them from the caller. */
  datatype Numerics = Numerics(isNumeric: string -> bool, scaled: (string, int) -> int)

  function Min(a: int, b: int): int {
    if a < b then a else b
  }

  /** The quality a parameter value selects: its scaled value when it is a
      non-empty numeric token, and 0 for anything else. */
  function ValueQuality(value: string, resolution: int, num: Numerics): int {
    if !IsEmpty(value) && num.isNumeric(value) then num.scaled(value, resolution) else 0
  }

  /** The quality of an entry's trimmed parameter text: the full resolution
      when it is "" or "0", otherwise decided by the value after its first `=`. */
  function ParamQuality(param: string, resolution: int, num: Numerics): int {
    if IsEmpty(param) then resolution
    else
      match SplitFirst(param, '=').1
      case None => 0
      case Some(value) => ValueQuality(Trim(value), resolution, num)
  }

  /** One entry of the header, as the body of the parsing loop treats it:
      trim the entry, split it at its first `;`, trim the tag and the
      parameter. `ParseEntrySpec` states the result in terms of the raw entry. */
  function ParseEntry(entry: string, resolution: int, num: Numerics): (p: Preference)
    ensures Unpadded(p.tag)
  {
    var split := SplitFirst(Trim(entry), ';');
    match split.1
    case None => Preference(Trim(split.0), resolution)
    case Some(param) => Preference(Trim(split.0), ParamQuality(Trim(param), resolution, num))
  }

  /** The parsed entry in terms of the raw entry: the tag is the trimmed text
      before the first `;`; with no `;`, or with a parameter that trims to ""
      or "0", the quality is the full resolution; a parameter without `=`
      gives 0; and otherwise the trimmed text after the parameter's first `=`
      decides, whatever the name before the `=` is. The entry is never
      dropped. */
  lemma ParseEntrySpec(entry: string, resolution: int, num: Numerics)
    ensures var p := ParseEntry(entry, resolution, num);
            && p.tag == Trim(SplitFirst(entry, ';').0)
            && (SplitFirst(entry, ';').1.None? ==> p.quality == resolution)
            && (SplitFirst(entry, ';').1.Some? && IsEmpty(Trim(SplitFirst(entry, ';').1.value)) ==>
                  p.quality == resolution)
            && (SplitFirst(entry, ';').1.Some? && !IsEmpty(Trim(SplitFirst(entry, ';').1.value)) ==>
                  var param := SplitFirst(entry, ';').1.value;
                  p.quality == match SplitFirst(param, '=').1
                               case None => 0
                               case Some(value) => ValueQuality(Trim(value), resolution, num))
  {
    ParseEntryFacts(entry);
    if SplitFirst(entry, ';').1.Some? {
      ValueAfterEquals(SplitFirst(entry, ';').1.value);
    }
  }

  /** How the two rounds of trimming in the parser relate to the raw entry. */
  lemma ParseEntryFacts(entry: string)
    ensures SplitFirst(entry, ';').1.None? ==> SplitFirst(Trim(entry), ';') == (Trim(entry), None)
    ensures Trim(SplitFirst(Trim(entry), ';').0) == Trim(SplitFirst(entry, ';').0)
    ensures SplitFirst(entry, ';').1.Some? ==>
              && SplitFirst(Trim(entry), ';').1.Some?
              && Trim(SplitFirst(Trim(entry), ';').1.value) == Trim(SplitFirst(entry, ';').1.value)
  {
    var (head, rest) := SplitFirst(entry, ';');
    if rest.None? {
      InfixKeepsAbsence(entry, ';');
      TrimIdempotent(entry);
    } else {
      TrimAroundSeparator(head, ';', rest.value);
      SuffixKeepsAbsence(head, TrimLeft(head), ';');
      SplitFirstAt(TrimLeft(head), ';', TrimRight(rest.value));
      TrimAfterTrimLeft(head);
      TrimAfterTrimRight(rest.value);
    }
  }

  lemma ValueAfterEquals(param: string)
    ensures SplitFirst(Trim(param), '=').1.None? <==> SplitFirst(param, '=').1.None?
    ensures SplitFirst(param, '=').1.Some? ==>
              Trim(SplitFirst(Trim(param), '=').1.value) == Trim(SplitFirst(param, '=').1.value)
  {
    var (name, value) := SplitFirst(param, '=');
    if value.None? {
      InfixKeepsAbsence(param, '=');
    } else {
      TrimAroundSeparator(name, '=', value.value);
      SuffixKeepsAbsence(name, TrimLeft(name), '=');
      SplitFirstAt(TrimLeft(name), '=', TrimRight(value.value));
      TrimAfterTrimRight(value.value);
    }
  }

  lemma InfixKeepsAbsence(s: string, c: char)
    requires c !in s
    ensures c !in Trim(s)
  {
    var lo, hi := TrimStrips(s);
  }

  lemma SuffixKeepsAbsence(s: string, t: string, c: char)
    requires c !in s && |t| <= |s| && t == s[|s| - |t|..]
    ensures c !in t
  {
  }

  /** Every comma-separated entry of the header, parsed, in header order. */
  function ParsePreferences(header: string, resolution: int, num: Numerics): (prefs: seq<Preference>)
    ensures |prefs| == |Split(header, ',')|
    ensures forall k | 0 <= k < |prefs| :: prefs[k] == ParseEntry(Split(header, ',')[k], resolution, num)
  {
    var entries := Split(header, ',');
    seq(|entries|, k requires 0 <= k < |entries| => ParseEntry(entries[k], resolution, num))
  }

  // ---------------------------------------------------------------------------
  // Ranking: array_multisort(qualities DESC, tags DESC)

  /** `x` may be listed before `y`: a higher quality first, and for equal
      qualities the tag that compares higher first. */
  predicate Outranks(x: Preference, y: Preference) {
    x.quality > y.quality || (x.quality == y.quality && !Below(x.tag, y.tag))
  }

  lemma OutranksTotal(x: Preference, y: Preference)
    ensures Outranks(x, y) || Outranks(y, x)
  {
    if x.quality == y.quality && Below(x.tag, y.tag) {
      BelowAsymmetric(x.tag, y.tag);
    }
  }

  lemma OutranksTransitive(x: Preference, y: Preference, z: Preference)
    requires Outranks(x, y) && Outranks(y, z)
    ensures Outranks(x, z)
  {
    if x.quality == y.quality == z.quality && Below(x.tag, z.tag) {
      if x.tag == y.tag {
      } else if y.tag == z.tag {
      } else {
        BelowTotal(x.tag, y.tag);
        BelowTotal(y.tag, z.tag);
        BelowTransitive(z.tag, y.tag, x.tag);
        BelowAsymmetric(z.tag, x.tag);
      }
    }
  }

  lemma OutranksAntisymmetric(x: Preference, y: Preference)
    requires Outranks(x, y) && Outranks(y, x)
    ensures x == y
  {
    if x.tag != y.tag {
      BelowTotal(x.tag, y.tag);
    }
  }

  ghost predicate Sorted(s: seq<Preference>) {
    forall i, j | 0 <= i < j < |s| :: Outranks(s[i], s[j])
  }

  /** `ranked` lists exactly the entries of `prefs`, best first. */
  ghost predicate IsRanking(ranked: seq<Preference>, prefs: seq<Preference>) {
    |ranked| == |prefs| && Sorted(ranked) && multiset(ranked) == multiset(prefs)
  }

  function Insert(x: Preference, s: seq<Preference>): (r: seq<Preference>)
    ensures |r| == |s| + 1
    ensures multiset(r) == multiset(s) + multiset{x}
    ensures Sorted(s) ==> Sorted(r)
  {
    if |s| == 0 then [x]
    else if Outranks(x, s[0]) then
      InsertFront(x, s);
      [x] + s
    else
      var rest := Insert(x, s[1..]);
      assert s == [s[0]] + s[1..];
      InsertBehind(x, s, rest);
      [s[0]] + rest
  }

  lemma InsertFront(x: Preference, s: seq<Preference>)
    requires |s| > 0 && Outranks(x, s[0])
    ensures Sorted(s) ==> Sorted([x] + s)
  {
    if Sorted(s) {
      forall i, j | 0 <= i < j < |s| + 1 ensures Outranks(([x] + s)[i], ([x] + s)[j]) {
        if i == 0 && j > 1 {
          OutranksTransitive(x, s[0], s[j - 1]);
        }
      }
    }
  }

  lemma InsertBehind(x: Preference, s: seq<Preference>, rest: seq<Preference>)
    requires |s| > 0 && !Outranks(x, s[0])
    requires multiset(rest) == multiset(s[1..]) + multiset{x}
    requires Sorted(s[1..]) ==> Sorted(rest)
    ensures Sorted(s) ==> Sorted([s[0]] + rest)
  {
    if Sorted(s) {
      OutranksTotal(x, s[0]);
      forall j | 0 <= j < |rest| ensures Outranks(s[0], rest[j]) {
        assert rest[j] in multiset(rest);
        if rest[j] != x {
          assert rest[j] in multiset(s[1..]);
          var k :| 0 <= k < |s[1..]| && s[1..][k] == rest[j];
          assert s[k + 1] == rest[j];
        }
      }
    }
  }

  /** The ranked order `array_multisort` produces: an insertion sort. */
  function Rank(prefs: seq<Preference>): (r: seq<Preference>)
    ensures |r| == |prefs|
    ensures IsRanking(r, prefs)
  {
    if |prefs| == 0 then []
    else
      var rest := Rank(prefs[1..]);
      assert prefs == [prefs[0]] + prefs[1..];
      Insert(prefs[0], rest)
  }

  lemma SortedTail(s: seq<Preference>)
    requires |s| > 0 && Sorted(s)
    ensures Sorted(s[1..])
  {
    forall i, j | 0 <= i < j < |s| - 1 ensures Outranks(s[1..][i], s[1..][j]) {
      assert s[1..][i] == s[i + 1] && s[1..][j] == s[j + 1];
    }
  }

  /** There is only one ranking of a list of entries: the order is total on
      (quality, tag) pairs, so sorting leaves no choice. */
  lemma {:induction false} RankingUnique(a: seq<Preference>, b: seq<Preference>, prefs: seq<Preference>)
    requires IsRanking(a, prefs) && IsRanking(b, prefs)
    ensures a == b
  {
    if |a| > 0 {
      SameHead(a, b, prefs);
      TailsAgree(a, b);
      SortedTail(a);
      SortedTail(b);
      RankingUnique(a[1..], b[1..], a[1..]);
      assert a == [a[0]] + a[1..];
      assert b == [b[0]] + b[1..];
    } else {
      assert |multiset(b)| == 0;
    }
  }

  /** Two rankings of the same entries start with the same entry. */
  lemma SameHead(a: seq<Preference>, b: seq<Preference>, prefs: seq<Preference>)
    requires IsRanking(a, prefs) && IsRanking(b, prefs) && |a| > 0
    ensures |b| > 0 && a[0] == b[0]
  {
    assert a[0] in multiset(b);
    assert b[0] in multiset(a);
    var i :| 0 <= i < |b| && b[i] == a[0];
    var j :| 0 <= j < |a| && a[j] == b[0];
    assert Outranks(b[0], a[0]) by {
      if i > 0 {
        assert Outranks(b[0], b[i]);
      } else {
        OutranksTotal(b[0], b[0]);
      }
    }
    assert Outranks(a[0], b[0]) by {
      if j > 0 {
        assert Outranks(a[0], a[j]);
      } else {
        OutranksTotal(a[0], a[0]);
      }
    }
    OutranksAntisymmetric(a[0], b[0]);
  }

  /** Removing the same first element from two permutations leaves permutations. */
  lemma TailsAgree<T>(a: seq<T>, b: seq<T>)
    requires |a| > 0 && |b| > 0 && a[0] == b[0] && multiset(a) == multiset(b)
    ensures multiset(a[1..]) == multiset(b[1..])
  {
    assert a == [a[0]] + a[1..];
    assert b == [b[0]] + b[1..];
    assert multiset(a) == multiset{a[0]} + multiset(a[1..]);
    assert multiset(b) == multiset{b[0]} + multiset(b[1..]);
    assert multiset(a[1..]) == multiset(a) - multiset{a[0]};
    assert multiset(b[1..]) == multiset(b) - multiset{b[0]};
  }

  function Tags(prefs: seq<Preference>): (r: seq<string>)
    ensures |r| == |prefs|
    ensures forall i | 0 <= i < |r| :: r[i] == prefs[i].tag
  {
    seq(|prefs|, i requires 0 <= i < |prefs| => prefs[i].tag)
  }

  /** The tags of the entries, best first. */
  function RankedTags(prefs: seq<Preference>): (r: seq<string>)
    ensures |r| == |prefs|
  {
    Tags(Rank(prefs))
  }

  /** `detectLanguages($header, $resolution)`: the tags of the header's
      entries, best first, at most `maxLanguages` of them. Every entry takes
      part (none is dropped for a malformed quality); `DetectFromRanking`
      states the order. */
  function DetectLanguages(header: string, resolution: int, maxLanguages: nat, num: Numerics): (r: seq<string>)
    ensures |r| == Min(maxLanguages, |Split(header, ',')|)
  {
    var prefs := ParsePreferences(header, resolution, num);
    var tags := RankedTags(prefs);
    assert |tags| == |Split(header, ',')|;
    if maxLanguages < |tags| then tags[..maxLanguages] else tags
  }

  /** The result is read off any ranking of the header's entries by quality
      and then by tag, both descending: the ranking is unique, so the order
      is fully determined. */
  lemma DetectFromRanking(header: string, resolution: int, maxLanguages: nat, num: Numerics, ranked: seq<Preference>)
    requires IsRanking(ranked, ParsePreferences(header, resolution, num))
    ensures DetectLanguages(header, resolution, maxLanguages, num) == Tags(ranked)[..Min(maxLanguages, |ranked|)]
  {
    DetectIsCut(header, resolution, maxLanguages, num);
    CutOfRanking(ParsePreferences(header, resolution, num), ranked, maxLanguages);
  }

  /** The first `m` ranked tags are the first `m` tags of any ranking. */
  lemma CutOfRanking(prefs: seq<Preference>, ranked: seq<Preference>, m: nat)
    requires IsRanking(ranked, prefs)
    ensures var tags := RankedTags(prefs);
            && (m < |tags| ==> tags[..m] == Tags(ranked)[..Min(m, |ranked|)])
            && (m >= |tags| ==> tags == Tags(ranked)[..Min(m, |ranked|)])
  {
    RankingUnique(Rank(prefs), ranked, prefs);
    var tags := Tags(ranked);
    assert RankedTags(prefs) == tags;
    if m >= |tags| {
      assert tags[..|ranked|] == tags;
    }
  }

  /** The detected tags are the first `maxLanguages` ranked tags. */
  lemma DetectIsCut(header: string, resolution: int, maxLanguages: nat, num: Numerics)
    ensures var tags := RankedTags(ParsePreferences(header, resolution, num));
            && (maxLanguages < |tags| ==> DetectLanguages(header, resolution, maxLanguages, num) == tags[..maxLanguages])
            && (maxLanguages >= |tags| ==> DetectLanguages(header, resolution, maxLanguages, num) == tags)
  {
  }

  /** `tag` is the trimmed text before the first `;` of some entry of the header. */
  ghost predicate TagOfSomeEntry(header: string, tag: string) {
    exists k | 0 <= k < |Split(header, ',')| :: tag == Trim(SplitFirst(Split(header, ',')[k], ';').0)
  }

  /** Each detected tag is the tag of some entry of the header. */
  lemma DetectedTagsComeFromEntries(header: string, resolution: int, maxLanguages: nat, num: Numerics)
    ensures forall tag | tag in DetectLanguages(header, resolution, maxLanguages, num) :: TagOfSomeEntry(header, tag)
  {
    var prefs := ParsePreferences(header, resolution, num);
    var r := DetectLanguages(header, resolution, maxLanguages, num);
    forall tag | tag in r ensures TagOfSomeEntry(header, tag) {
      var i :| 0 <= i < |r| && r[i] == tag;
      var k := RankedFrom(prefs, i);
      assert tag == prefs[k].tag;
      EntryTag(header, resolution, num, k);
    }
  }

  /** The `i`-th ranked tag is the tag of some entry `k`. */
  lemma RankedFrom(prefs: seq<Preference>, i: int) returns (k: nat)
    requires 0 <= i < |prefs|
    ensures k < |prefs| && RankedTags(prefs)[i] == prefs[k].tag
  {
    var ranked := Rank(prefs);
    assert RankedTags(prefs)[i] == ranked[i].tag;
    assert ranked[i] in multiset(prefs);
    k :| 0 <= k < |prefs| && prefs[k] == ranked[i];
  }

  /** The tag of the `k`-th parsed entry is the tag of the `k`-th entry. */
  lemma EntryTag(header: string, resolution: int, num: Numerics, k: nat)
    requires k < |ParsePreferences(header, resolution, num)|
    ensures TagOfSomeEntry(header, ParsePreferences(header, resolution, num)[k].tag)
  {
    ParseEntrySpec(Split(header, ',')[k], resolution, num);
  }

  // ---------------------------------------------------------------------------
  // Properties of detectLanguages

  /** An entry `tag;name=value` gets the quality of its value alone: the name
      before `=` is never looked at. */
  lemma QualityIgnoresParameterName(tag: string, name: string, value: string, resolution: int, num: Numerics)
    requires ';' !in tag && '=' !in name
    ensures ParseEntry(tag + [';'] + (name + ['='] + value), resolution, num)
            == Preference(Trim(tag), ValueQuality(Trim(value), resolution, num))
  {
    var param := name + ['='] + value;
    SplitFirstAt(tag, ';', param);
    NamedParamNotEmpty(name, value);
    SplitFirstAt(name, '=', value);
    var p := ParseEntry(tag + [';'] + param, resolution, num);
    ParseEntrySpec(tag + [';'] + param, resolution, num);
    assert p.tag == Trim(tag);
    assert p.quality == ValueQuality(Trim(value), resolution, num);
  }

  /** A parameter holding `=` never trims to "" or "0". */
  lemma NamedParamNotEmpty(name: string, value: string)
    ensures !IsEmpty(Trim(name + ['='] + value))
  {
    TrimAroundSeparator(name, '=', value);
    var t := Trim(name + ['='] + value);
    var k := |TrimLeft(name)|;
    assert t[k] == '=';
    assert t != "0" by {
      if k == 0 { assert t[0] == '='; } else { assert |t| > 1; }
    }
  }

  /** An entry that is a bare, unpadded tag gets the full resolution. */
  lemma BareEntry(tag: string, resolution: int, num: Numerics)
    requires ';' !in tag && Unpadded(tag)
    ensures ParseEntry(tag, resolution, num) == Preference(tag, resolution)
  {
    TrimCharacterization("", tag, "");
    assert "" + tag + "" == tag;
    ParseEntrySpec(tag, resolution, num);
  }

  /** An empty header is one empty entry: the result is `[""]`, not `[]`. */
  lemma EmptyHeader(resolution: int, maxLanguages: nat, num: Numerics)
    requires maxLanguages >= 1
    ensures DetectLanguages("", resolution, maxLanguages, num) == [""]
  {
    var p := Preference("", resolution);
    EmptyHeaderEntry(resolution, num);
    assert IsRanking([p], [p]);
    DetectFromRanking("", resolution, maxLanguages, num, [p]);
    assert Tags([p]) == [""];
  }

  lemma EmptyHeaderEntry(resolution: int, num: Numerics)
    ensures ParsePreferences("", resolution, num) == [Preference("", resolution)]
  {
    assert Split("", ',') == [""];
    ParseEntrySpec("", resolution, num);
  }

  /** The result depends only on which entries the header holds, not on the
      order it lists them in: equal qualities are not kept in header order. */
  lemma OrderIndependent(h1: string, h2: string, resolution: int, maxLanguages: nat, num: Numerics)
    requires multiset(ParsePreferences(h1, resolution, num)) == multiset(ParsePreferences(h2, resolution, num))
    ensures DetectLanguages(h1, resolution, maxLanguages, num) == DetectLanguages(h2, resolution, maxLanguages, num)
  {
    var p1 := ParsePreferences(h1, resolution, num);
    var p2 := ParsePreferences(h2, resolution, num);
    var ranked := Rank(p1);
    assert |p1| == |p2| by {
      assert |multiset(p1)| == |multiset(p2)|;
    }
    assert IsRanking(ranked, p2);
    DetectFromRanking(h1, resolution, maxLanguages, num, ranked);
    DetectFromRanking(h2, resolution, maxLanguages, num, ranked);
  }

  /** Two entries of equal quality come out with the higher tag first,
      whatever their order in the header. */
  lemma TieBrokenByTagDescending(resolution: int, num: Numerics)
    ensures DetectLanguages("en,tlh", resolution, 99, num) == ["tlh", "en"]
    ensures DetectLanguages("tlh,en", resolution, 99, num) == ["tlh", "en"]
  {
    var en := Preference("en", resolution);
    var tlh := Preference("tlh", resolution);
    assert Outranks(tlh, en);
    assert "en,tlh" == "en" + "," + "tlh";
    assert "tlh,en" == "tlh" + "," + "en";
    RankedPair("en", "tlh", resolution, num);
    RankedPair("tlh", "en", resolution, num);
  }

  /** A header of two bare tags, ranked: the one that outranks the other first. */
  lemma RankedPair(a: string, b: string, resolution: int, num: Numerics)
    requires ',' !in a && ';' !in a && Unpadded(a)
    requires ',' !in b && ';' !in b && Unpadded(b)
    ensures Outranks(Preference(a, resolution), Preference(b, resolution)) ==>
              DetectLanguages(a + "," + b, resolution, 99, num) == [a, b]
    ensures Outranks(Preference(b, resolution), Preference(a, resolution)) ==>
              DetectLanguages(a + "," + b, resolution, 99, num) == [b, a]
  {
    var pa := Preference(a, resolution);
    var pb := Preference(b, resolution);
    TwoBareEntries(a, b, resolution, num);
    if Outranks(pa, pb) {
      PairRanking(pa, pb);
      DetectFromRanking(a + "," + b, resolution, 99, num, [pa, pb]);
    }
    if Outranks(pb, pa) {
      PairRanking(pb, pa);
      DetectFromRanking(a + "," + b, resolution, 99, num, [pb, pa]);
    }
  }

  lemma PairRanking(x: Preference, y: Preference)
    requires Outranks(x, y)
    ensures IsRanking([x, y], [x, y]) && IsRanking([x, y], [y, x])
    ensures Tags([x, y])[..Min(99, 2)] == [x.tag, y.tag]
  {
    assert multiset([x, y]) == multiset([y, x]);
  }

  lemma TwoBareEntries(a: string, b: string, resolution: int, num: Numerics)
    requires ',' !in a && ';' !in a && Unpadded(a)
    requires ',' !in b && ';' !in b && Unpadded(b)
    ensures ParsePreferences(a + "," + b, resolution, num) == [Preference(a, resolution), Preference(b, resolution)]
  {
    SplitTwo(a, b);
    BareEntry(a, resolution, num);
    BareEntry(b, resolution, num);
    var p := ParsePreferences(a + "," + b, resolution, num);
    assert |p| == 2;
    assert p[0] == Preference(a, resolution);
    assert p[1] == Preference(b, resolution);
  }

  lemma SplitTwo(a: string, b: string)
    requires ',' !in a && ',' !in b
    ensures Split(a + "," + b, ',') == [a, b]
  {
    assert a + "," + b == a + [','] + b;
    SplitCons(a, ',', b);
    assert Split(b, ',') == [b];
  }
}
