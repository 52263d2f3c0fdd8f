/** The handful of PHP string built-ins the library relies on, written out:
    `empty()` on strings, `trim()`, `strpos()`, `explode()` (with and without
    a limit of 2), byte-wise `strcmp` ordering, and the decimal rendering PHP
    applies when an integer is used as an array key. */
module PhpStrings {
  import opened Wrappers

  /** PHP's `empty()` on a string: true for "" and for "0". A `null` option
      is represented by "". */
  predicate IsEmpty(s: string) {
    s == "" || s == "0"
  }

  // ---------------------------------------------------------------------------
  // strlen()

  /** The number of bytes a character takes in UTF-8. */
  function Utf8Width(c: char): (w: nat)
    ensures 1 <= w <= 4
    ensures w == 1 <==> c as int < 0x80
  {
    if c as int < 0x80 then 1
    else if c as int < 0x800 then 2
    else if c as int < 0x1_0000 then 3
    else 4
  }

  /** PHP's `strlen()`: the length in bytes of the string's UTF-8 encoding,
      which is never less than its number of characters. */
  function ByteLength(s: string): (n: nat)
    ensures |s| <= n <= 4 * |s|
  {
    if |s| == 0 then 0 else Utf8Width(s[0]) + ByteLength(s[1..])
  }

  /** Byte lengths add up over concatenation. */
  lemma {:induction false} ByteLengthConcat(a: string, b: string)
    ensures ByteLength(a + b) == ByteLength(a) + ByteLength(b)
  {
    if |a| > 0 {
      assert (a + b)[1..] == a[1..] + b;
      ByteLengthConcat(a[1..], b);
    } else {
      assert a + b == b;
    }
  }

  /** Bytes and characters agree exactly on ASCII strings. */
  lemma {:induction false} ByteLengthAscii(s: string)
    ensures ByteLength(s) == |s| <==> forall i | 0 <= i < |s| :: s[i] as int < 0x80
  {
    if |s| > 0 {
      ByteLengthAscii(s[1..]);
      if forall i | 0 <= i < |s| :: s[i] as int < 0x80 {
        assert forall i | 0 <= i < |s| - 1 :: s[1..][i] == s[i + 1];
      } else {
        var i :| 0 <= i < |s| && s[i] as int >= 0x80;
        if i > 0 {
          assert s[1..][i - 1] == s[i];
        }
      }
    }
  }

  // ---------------------------------------------------------------------------
  // trim()

  /** The characters PHP's `trim()` strips by default:
      space, tab, newline, carriage return, NUL and vertical tab. */
  predicate IsTrimChar(c: char) {
    c == ' ' || c == '\t' || c == '\n' || c == '\r' || c == '\0' || c == '\U{0B}'
  }

  /** Every character of `s` is one `trim()` strips. */
  predicate AllTrim(s: string) {
    forall i | 0 <= i < |s| :: IsTrimChar(s[i])
  }

  /** `s` neither starts nor ends with a character `trim()` strips. */
  predicate Unpadded(s: string) {
    |s| > 0 ==> !IsTrimChar(s[0]) && !IsTrimChar(s[|s| - 1])
  }

  lemma AllTrimConcat(a: string, b: string)
    requires AllTrim(a) && AllTrim(b)
    ensures AllTrim(a + b)
  {
    forall i | 0 <= i < |a + b|
      ensures IsTrimChar((a + b)[i])
    {
      if i < |a| {
        assert (a + b)[i] == a[i];
      } else {
        assert (a + b)[i] == b[i - |a|];
      }
    }
  }

  /** Padding stays padding when its first or last character is dropped. */
  lemma AllTrimTail(a: string)
    requires |a| > 0 && AllTrim(a)
    ensures IsTrimChar(a[0]) && AllTrim(a[1..])
  {
    forall i | 0 <= i < |a| - 1
      ensures IsTrimChar(a[1..][i])
    {
      assert a[1..][i] == a[i + 1];
    }
  }

  lemma AllTrimInit(b: string)
    requires |b| > 0 && AllTrim(b)
    ensures IsTrimChar(b[|b| - 1]) && AllTrim(b[..|b| - 1])
  {
  }

  /** PHP `ltrim($s)`: what follows the leading run of trim characters. */
  function TrimLeft(s: string): (r: string)
    ensures |r| <= |s| && r == s[|s| - |r|..]
    ensures |r| > 0 ==> !IsTrimChar(r[0])
  {
    if |s| > 0 && IsTrimChar(s[0]) then
      var r := TrimLeft(s[1..]);
      assert s[1..][|s| - 1 - |r|..] == s[|s| - |r|..];
      r
    else
      s
  }

  /** Everything `ltrim` removes is a trim character. */
  lemma {:induction false} TrimLeftPadding(s: string)
    ensures AllTrim(s[..|s| - |TrimLeft(s)|])
  {
    if |s| > 0 && IsTrimChar(s[0]) {
      var r := TrimLeft(s[1..]);
      TrimLeftPadding(s[1..]);
      assert TrimLeft(s) == r;
      assert s[..|s| - |r|] == [s[0]] + s[1..][..|s| - 1 - |r|];
      AllTrimConcat([s[0]], s[1..][..|s| - 1 - |r|]);
    } else {
      assert s[..0] == [];
    }
  }

  /** PHP `rtrim($s)`: what precedes the trailing run of trim characters. */
  function TrimRight(s: string): (r: string)
    ensures |r| <= |s| && r == s[..|r|]
    ensures |r| > 0 ==> !IsTrimChar(r[|r| - 1])
  {
    if |s| > 0 && IsTrimChar(s[|s| - 1]) then
      var r := TrimRight(s[..|s| - 1]);
      assert s[..|s| - 1][..|r|] == s[..|r|];
      r
    else
      s
  }

  /** Everything `rtrim` removes is a trim character. */
  lemma {:induction false} TrimRightPadding(s: string)
    ensures AllTrim(s[|TrimRight(s)|..])
  {
    if |s| > 0 && IsTrimChar(s[|s| - 1]) {
      var init := s[..|s| - 1];
      var r := TrimRight(init);
      TrimRightPadding(init);
      assert TrimRight(s) == r;
      assert s[|r|..] == init[|r|..] + [s[|s| - 1]];
      AllTrimConcat(init[|r|..], [s[|s| - 1]]);
    } else {
      assert s[|s|..] == [];
    }
  }

  /** PHP `trim($s)`: strips trim characters from both ends. The result
      neither starts nor ends with one; `TrimStrips` says it is what lies
      between the two runs of padding. */
  function Trim(s: string): (r: string)
    ensures |r| <= |s|
    ensures Unpadded(r)
  {
    var l := TrimLeft(s);
    var r := TrimRight(l);
    assert |r| > 0 ==> r[0] == l[0];
    r
  }

  /** `trim($s)` is the piece `s[lo..hi]` between a leading and a trailing
      run of trim characters. */
  lemma TrimStrips(s: string) returns (lo: nat, hi: nat)
    ensures lo <= hi <= |s|
    ensures AllTrim(s[..lo]) && AllTrim(s[hi..])
    ensures Trim(s) == s[lo..hi]
  {
    var l := TrimLeft(s);
    var r := TrimRight(l);
    assert r == Trim(s);
    TrimLeftPadding(s);
    TrimRightPadding(l);
    StripsBoth(s, l, r);
    lo, hi := |s| - |l|, |s| - |l| + |r|;
  }

  /** Stripping a prefix of padding and then a suffix of padding leaves a
      contiguous piece of the original between two runs of padding. */
  lemma StripsBoth(s: string, l: string, r: string)
    requires |l| <= |s| && l == s[|s| - |l|..]
    requires |r| <= |l| && r == l[..|r|] && AllTrim(l[|r|..])
    ensures |s| - |l| + |r| <= |s|
    ensures AllTrim(s[|s| - |l| + |r|..]) && r == s[|s| - |l|..|s| - |l| + |r|]
  {
    assert s[|s| - |l| + |r|..] == l[|r|..];
  }

  lemma {:induction false} TrimLeftSkipsPadding(a: string, x: string)
    requires AllTrim(a)
    ensures TrimLeft(a + x) == TrimLeft(x)
  {
    if |a| > 0 {
      AllTrimTail(a);
      assert (a + x)[0] == a[0];
      assert (a + x)[1..] == a[1..] + x;
      TrimLeftSkipsPadding(a[1..], x);
    } else {
      assert a + x == x;
    }
  }

  lemma {:induction false} TrimRightSkipsPadding(x: string, b: string)
    requires AllTrim(b)
    ensures TrimRight(x + b) == TrimRight(x)
  {
    if |b| > 0 {
      AllTrimInit(b);
      var s := x + b;
      assert s[|s| - 1] == b[|b| - 1];
      assert s[..|s| - 1] == x + b[..|b| - 1];
      TrimRightSkipsPadding(x, b[..|b| - 1]);
    } else {
      assert x + b == x;
    }
  }

  /** A non-empty string that does not start with a trim character is its own `ltrim`. */
  lemma TrimLeftStops(s: string)
    requires |s| > 0 && !IsTrimChar(s[0])
    ensures TrimLeft(s) == s
  {
  }

  /** A non-empty string that does not end with a trim character is its own `rtrim`. */
  lemma TrimRightStops(s: string)
    requires |s| > 0 && !IsTrimChar(s[|s| - 1])
    ensures TrimRight(s) == s
  {
  }

  /** `trim()` has exactly one possible result: whenever `s` is padding, then
      an unpadded core, then padding, trimming `s` gives that core. */
  lemma TrimCharacterization(a: string, r: string, b: string)
    requires AllTrim(a) && Unpadded(r) && AllTrim(b)
    ensures Trim(a + r + b) == r
  {
    assert a + r + b == a + (r + b);
    TrimLeftSkipsPadding(a, r + b);
    if |r| > 0 {
      CoreThenPadding(r, b);
    } else {
      assert r + b == b;
      PaddingOnly(b);
    }
  }

  /** A non-empty unpadded core followed by padding trims to the core. */
  lemma CoreThenPadding(r: string, b: string)
    requires |r| > 0 && Unpadded(r) && AllTrim(b)
    ensures TrimRight(TrimLeft(r + b)) == r
  {
    assert (r + b)[0] == r[0];
    TrimLeftStops(r + b);
    TrimRightSkipsPadding(r, b);
    TrimRightStops(r);
  }

  /** Padding alone trims to nothing. */
  lemma PaddingOnly(b: string)
    requires AllTrim(b)
    ensures TrimRight(TrimLeft(b)) == ""
  {
    TrimLeftSkipsPadding(b, "");
    assert b + "" == b;
  }

  /** `trim()` is idempotent. */
  lemma TrimIdempotent(s: string)
    ensures Trim(Trim(s)) == Trim(s)
  {
    TrimCharacterization("", Trim(s), "");
    assert "" + Trim(s) + "" == Trim(s);
  }

  /** An unpadded string is its own trim. */
  lemma TrimUnpadded(s: string)
    requires Unpadded(s)
    ensures Trim(s) == s
  {
    TrimCharacterization("", s, "");
    assert "" + s + "" == s;
  }

  lemma Regroup(a: string, p: string, t: string, q: string, b: string)
    ensures a + (p + t + q) + b == (a + p) + t + (q + b)
  {
  }

  /** A string is its prefix, middle and suffix. */
  lemma Decompose(m: string, lo: int, hi: int)
    requires 0 <= lo <= hi <= |m|
    ensures m == m[..lo] + m[lo..hi] + m[hi..]
  {
  }

  /** Padding around a string never changes what `trim()` keeps of it. */
  lemma TrimIgnoresPadding(a: string, m: string, b: string)
    requires AllTrim(a) && AllTrim(b)
    ensures Trim(a + m + b) == Trim(m)
  {
    var lo, hi := TrimStrips(m);
    var p, t, q := m[..lo], Trim(m), m[hi..];
    Decompose(m, lo, hi);
    assert m == p + t + q;
    PaddedCore(a, p, t, q, b);
    assert a + m + b == a + (p + t + q) + b;
  }

  /** Two runs of padding on each side of an unpadded core trim to the core. */
  lemma PaddedCore(a: string, p: string, t: string, q: string, b: string)
    requires AllTrim(a) && AllTrim(p) && Unpadded(t) && AllTrim(q) && AllTrim(b)
    ensures Trim(a + (p + t + q) + b) == t
  {
    Regroup(a, p, t, q, b);
    AllTrimConcat(a, p);
    AllTrimConcat(q, b);
    TrimCharacterization(a + p, t, q + b);
  }

  /** Trimming after stripping the leading padding alone is the same as trimming. */
  lemma TrimAfterTrimLeft(s: string)
    ensures Trim(TrimLeft(s)) == Trim(s)
  {
    var l := TrimLeft(s);
    var k := |s| - |l|;
    TrimLeftPadding(s);
    assert s[..k] + l + "" == s;
    TrimIgnoresPadding(s[..k], l, "");
  }

  /** Trimming after stripping the trailing padding alone is the same as trimming. */
  lemma TrimAfterTrimRight(s: string)
    ensures Trim(TrimRight(s)) == Trim(s)
  {
    var r := TrimRight(s);
    TrimRightPadding(s);
    assert "" + r + s[|r|..] == s;
    TrimIgnoresPadding("", r, s[|r|..]);
  }

  lemma {:induction false} TrimLeftStopsAt(x: string, sep: char, y: string)
    requires !IsTrimChar(sep)
    ensures TrimLeft(x + [sep] + y) == TrimLeft(x) + [sep] + y
  {
    if |x| > 0 && IsTrimChar(x[0]) {
      assert (x + [sep] + y)[1..] == x[1..] + [sep] + y;
      TrimLeftStopsAt(x[1..], sep, y);
    } else if |x| == 0 {
      assert x + [sep] + y == [sep] + y;
    }
  }

  lemma {:induction false} TrimRightStopsAt(x: string, sep: char, y: string)
    requires !IsTrimChar(sep)
    ensures TrimRight(x + [sep] + y) == x + [sep] + TrimRight(y)
  {
    if |y| > 0 && IsTrimChar(y[|y| - 1]) {
      assert (x + [sep] + y)[..|x + [sep] + y| - 1] == x + [sep] + y[..|y| - 1];
      TrimRightStopsAt(x, sep, y[..|y| - 1]);
    } else if |y| == 0 {
      assert x + [sep] + y == x + [sep];
    }
  }

  /** Trimming text around a separator that `trim()` keeps only touches the
      outer ends: the part before the separator loses its leading padding and
      the part after it its trailing padding. */
  lemma TrimAroundSeparator(x: string, sep: char, y: string)
    requires !IsTrimChar(sep)
    ensures Trim(x + [sep] + y) == TrimLeft(x) + [sep] + TrimRight(y)
  {
    TrimLeftStopsAt(x, sep, y);
    TrimRightStopsAt(TrimLeft(x), sep, y);
  }

  // ---------------------------------------------------------------------------
  // strpos() and explode()

  /** PHP `strpos($s, c)`: the position of the first `c`, or `None` for `false`. */
  function IndexOf(s: string, c: char): (r: Option<nat>)
    ensures r.None? <==> c !in s
    ensures r.Some? ==> r.value < |s| && s[r.value] == c && c !in s[..r.value]
  {
    if |s| == 0 then None
    else if s[0] == c then Some(0)
    else match IndexOf(s[1..], c)
      case None => None
      case Some(k) =>
        assert s[..k + 1] == [s[0]] + s[1..][..k];
        Some(k + 1)
  }

  /** Inverse of `Split`: the pieces glued back together with the separator. */
  function Join(parts: seq<string>, sep: char): string
    requires |parts| >= 1
  {
    if |parts| == 1 then parts[0] else parts[0] + [sep] + Join(parts[1..], sep)
  }

  /** PHP `explode(sep, s)`: the pieces between separators, in order. There is
      always at least one piece (the empty string gives `[""]`), no piece holds
      the separator, and joining the pieces back gives `s`. */
  function Split(s: string, sep: char): (r: seq<string>)
    ensures |r| >= 1
    ensures forall i | 0 <= i < |r| :: sep !in r[i]
    ensures Join(r, sep) == s
    decreases |s|
  {
    match IndexOf(s, sep)
    case None => [s]
    case Some(k) =>
      var rest := Split(s[k + 1..], sep);
      assert ([s[..k]] + rest)[1..] == rest;
      assert s == s[..k] + [sep] + s[k + 1..];
      [s[..k]] + rest
  }

  /** Splitting a joined sequence of separator-free pieces gives the pieces
      back: the `|`-delimited plural forms survive a join/split round trip. */
  lemma {:induction false} SplitJoin(parts: seq<string>, sep: char)
    requires |parts| >= 1
    requires forall i | 0 <= i < |parts| :: sep !in parts[i]
    ensures Split(Join(parts, sep), sep) == parts
  {
    if |parts| > 1 {
      var rest := parts[1..];
      SplitJoinStep(parts, sep);
      assert forall i | 0 <= i < |rest| :: rest[i] == parts[i + 1];
      SplitJoin(rest, sep);
      assert parts == [parts[0]] + rest;
    } else {
      assert sep !in parts[0];
    }
  }

  /** Splitting a join of two or more pieces peels off the first piece. */
  lemma SplitJoinStep(parts: seq<string>, sep: char)
    requires |parts| > 1 && sep !in parts[0]
    ensures Split(Join(parts, sep), sep) == [parts[0]] + Split(Join(parts[1..], sep), sep)
  {
    assert Join(parts, sep) == parts[0] + [sep] + Join(parts[1..], sep);
    SplitCons(parts[0], sep, Join(parts[1..], sep));
  }

  /** Splitting `a + [sep] + b` where `a` holds no separator peels off `a`. */
  lemma SplitCons(a: string, sep: char, b: string)
    requires sep !in a
    ensures Split(a + [sep] + b, sep) == [a] + Split(b, sep)
  {
    var s := a + [sep] + b;
    assert s[|a|] == sep;
    assert s[..|a|] == a;
    assert s[|a| + 1..] == b;
  }

  /** PHP `explode(sep, s, 2)`: the text before the first separator and, when
      there is one, everything after it. */
  function SplitFirst(s: string, sep: char): (r: (string, Option<string>))
    ensures r.1.None? <==> sep !in s
    ensures r.1.None? ==> r.0 == s
    ensures r.1.Some? ==> s == r.0 + [sep] + r.1.value && sep !in r.0
  {
    match IndexOf(s, sep)
    case None => (s, None)
    case Some(k) =>
      assert s == s[..k] + [sep] + s[k + 1..];
      (s[..k], Some(s[k + 1..]))
  }

  /** Splitting at the first separator of `x + [sep] + y`, where `x` holds no
      separator, gives back `x` and `y`. */
  lemma SplitFirstAt(x: string, sep: char, y: string)
    requires sep !in x
    ensures SplitFirst(x + [sep] + y, sep) == (x, Some(y))
  {
    var s := x + [sep] + y;
    assert s[|x|] == sep;
    assert s[..|x|] == x;
    assert s[|x| + 1..] == y;
  }

  // ---------------------------------------------------------------------------
  // String ordering (PHP compares two non-numeric strings byte-wise)

  /** `a` sorts strictly before `b`: lexicographic order, a proper prefix
      first. Characters compare by code point, which is the order of their
      UTF-8 bytes, so this is `strcmp($a, $b) < 0`. */
  predicate Below(a: string, b: string) {
    if |a| == 0 then |b| > 0
    else if |b| == 0 then false
    else if a[0] != b[0] then a[0] < b[0]
    else Below(a[1..], b[1..])
  }

  lemma {:induction false} BelowIrreflexive(a: string)
    ensures !Below(a, a)
  {
    if |a| > 0 {
      BelowIrreflexive(a[1..]);
    }
  }

  lemma {:induction false} BelowTransitive(a: string, b: string, c: string)
    requires Below(a, b) && Below(b, c)
    ensures Below(a, c)
  {
    if |a| > 0 && |b| > 0 && |c| > 0 && a[0] == b[0] && b[0] == c[0] {
      BelowTransitive(a[1..], b[1..], c[1..]);
    }
  }

  /** Any two distinct strings are ordered one way or the other. */
  lemma {:induction false} BelowTotal(a: string, b: string)
    requires a != b
    ensures Below(a, b) || Below(b, a)
  {
    if |a| > 0 && |b| > 0 && a[0] == b[0] {
      assert a == [a[0]] + a[1..] && b == [b[0]] + b[1..];
      BelowTotal(a[1..], b[1..]);
    }
  }

  lemma {:induction false} BelowAsymmetric(a: string, b: string)
    requires Below(a, b)
    ensures !Below(b, a)
  {
    if |a| > 0 && |b| > 0 && a[0] == b[0] {
      BelowAsymmetric(a[1..], b[1..]);
    }
  }

  // ---------------------------------------------------------------------------
  // Integers as strings

  function DigitChar(d: nat): (c: char)
    requires d < 10
    ensures '0' <= c <= '9' && c as int - '0' as int == d
  {
    ('0' as int + d) as char
  }

  /** The decimal text of `n`, as PHP prints an integer or uses it as an array key. */
  function Decimal(n: nat): (r: string)
    ensures |r| >= 1
    ensures forall i | 0 <= i < |r| :: '0' <= r[i] <= '9'
    ensures |r| > 1 ==> r[0] != '0'
  {
    if n < 10 then [DigitChar(n)] else Decimal(n / 10) + [DigitChar(n % 10)]
  }

  /** The value of a string of decimal digits. */
  function DecimalValue(s: string): nat
    requires forall i | 0 <= i < |s| :: '0' <= s[i] <= '9'
  {
    if |s| == 0 then 0
    else 10 * DecimalValue(s[..|s| - 1]) + (s[|s| - 1] as int - '0' as int)
  }

  /** Reading back the decimal text of `n` gives `n`. */
  lemma {:induction false} DecimalRoundTrip(n: nat)
    ensures DecimalValue(Decimal(n)) == n
  {
    if n >= 10 {
      var s := Decimal(n);
      assert s[..|s| - 1] == Decimal(n / 10);
      assert s[|s| - 1] as int - '0' as int == n % 10;
      DecimalRoundTrip(n / 10);
    }
  }

  /** `empty()` on an integer's decimal text agrees with `empty()` on the
      integer: only 0 is empty. */
  lemma IsEmptyDecimal(n: nat)
    ensures IsEmpty(Decimal(n)) <==> n == 0
  {
    DecimalRoundTrip(n);
    if Decimal(n) == "0" {
      assert DecimalValue("0") == 0;
    }
  }
}
