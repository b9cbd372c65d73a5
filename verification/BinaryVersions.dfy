/** Connector binary versions: parsing, printing and order (`crates/runonmine-connectors/src/binary.rs`). */
module BinaryVersions {
  import opened Common
  import opened StringOrder

  datatype BinaryVersion = BinaryVersion(major: nat, minor: nat, patch: nat, prerelease: Option<string>)

  predicate Digit(c: char) {
    '0' <= c <= '9'
  }

  predicate AllDigits(s: string) {
    forall i | 0 <= i < |s| :: Digit(s[i])
  }

  predicate SuffixChar(c: char) {
    Digit(c) || 'A' <= c <= 'Z' || 'a' <= c <= 'z' || c == '.' || c == '-'
  }

  predicate SuffixOk(s: string) {
    s != "" && forall i | 0 <= i < |s| :: SuffixChar(s[i])
  }

  /** 64-bit components and a prerelease suffix, if any, that is not empty and plain. */
  predicate WellFormed(v: BinaryVersion) {
    && v.major <= U64_MAX && v.minor <= U64_MAX && v.patch <= U64_MAX
    && (v.prerelease.Some? ==> SuffixOk(v.prerelease.value))
  }

  /** The characters of a suffix, by their codes. */
  lemma SuffixCharMeans(c: char)
    ensures SuffixChar(c) <==>
      var code := c as int; code == 45 || code == 46 || 48 <= code <= 57 || 65 <= code <= 90 || 97 <= code <= 122
  {
  }

  // ---- Printing ----------------------------------------------------------------------------------------

  function Decimal(n: nat): (r: string)
    ensures r != "" && AllDigits(r)
    ensures r[0] == '0' <==> n == 0
    ensures r[0] == '0' ==> |r| == 1
  {
    var last := [('0' as int + n % 10) as char];
    if n < 10 then last else Decimal(n / 10) + last
  }

  function Suffix(prerelease: Option<string>): string {
    if prerelease.Some? then "-" + prerelease.value else ""
  }

  function Core(v: BinaryVersion): string {
    Decimal(v.major) + "." + (Decimal(v.minor) + "." + Decimal(v.patch))
  }

  function Display(v: BinaryVersion): string {
    Core(v) + Suffix(v.prerelease)
  }

  // ---- Parsing -----------------------------------------------------------------------------------------

  function TrimLeft(s: string): string {
    if s != "" && Whitespace(s[0]) then TrimLeft(s[1..]) else s
  }

  function TrimRight(s: string): string {
    if s != "" && Whitespace(s[|s| - 1]) then TrimRight(s[..|s| - 1]) else s
  }

  function TrimV(s: string): string {
    if s != "" && s[0] == 'v' then TrimV(s[1..]) else s
  }

  /** The pieces between occurrences of `separator`. */
  function Split(s: string, separator: char): (r: seq<string>)
    ensures r != []
  {
    if s == "" then [""]
    else
      var rest := Split(s[1..], separator);
      if s[0] == separator then [""] + rest else [[s[0]] + rest[0]] + rest[1..]
  }

  function SplitOnce(s: string, separator: char): Option<(string, string)> {
    if s == "" then None
    else if s[0] == separator then Some(("", s[1..]))
    else
      match SplitOnce(s[1..], separator)
      case None => None
      case Some(pair) => Some(([s[0]] + pair.0, pair.1))
  }

  function Value(s: string): nat
    requires AllDigits(s)
  {
    if s == "" then 0 else 10 * Value(s[..|s| - 1]) + (s[|s| - 1] as int - '0' as int)
  }

  function ParseComponent(s: string): Option<nat> {
    if s == "" || !AllDigits(s) || Value(s) > U64_MAX then None else Some(Value(s))
  }

  function ParseParts(core: string, prerelease: Option<string>): Option<BinaryVersion> {
    var pieces := Split(core, '.');
    if |pieces| != 3 then None
    else
      match (ParseComponent(pieces[0]), ParseComponent(pieces[1]), ParseComponent(pieces[2]))
      case (Some(major), Some(minor), Some(patch)) =>
        if prerelease.Some? && !SuffixOk(prerelease.value) then None
        else Some(BinaryVersion(major, minor, patch, prerelease))
      case _ => None
  }

  function Parse(value: string): (r: Option<BinaryVersion>)
    ensures r.Some? ==> WellFormed(r.value)
  {
    var s := TrimV(TrimRight(TrimLeft(value)));
    match SplitOnce(s, '-')
    case Some(pair) => ParseParts(pair.0, Some(pair.1))
    case None => ParseParts(s, None)
  }

  // ---- Round trip --------------------------------------------------------------------------------------

  lemma {:induction false} DecimalValue(n: nat)
    ensures Value(Decimal(n)) == n
  {
    var s := Decimal(n);
    if n < 10 {
      assert s[..0] == "";
    } else {
      DecimalValue(n / 10);
      assert s[..|s| - 1] == Decimal(n / 10);
    }
  }

  lemma {:induction false} SplitFirst(a: string, rest: string)
    requires AllDigits(a)
    ensures Split(a + "." + rest, '.') == [a] + Split(rest, '.')
    ensures Split(a, '.') == [a]
  {
    if a == "" {
      assert (a + "." + rest)[1..] == rest;
    } else {
      SplitFirst(a[1..], rest);
      assert (a + "." + rest)[1..] == a[1..] + "." + rest;
      assert [a[0]] + a[1..] == a;
    }
  }

  predicate NoDash(s: string) {
    forall i | 0 <= i < |s| :: s[i] != '-'
  }

  lemma {:induction false} SplitOnceFirst(a: string, rest: string)
    requires NoDash(a)
    ensures SplitOnce(a + ("-" + rest), '-') == Some((a, rest))
    ensures SplitOnce(a, '-') == None
  {
    var s := a + ("-" + rest);
    if a == "" {
      assert s == "-" + rest && s[1..] == rest;
    } else {
      SplitOnceFirst(a[1..], rest);
      assert s[1..] == a[1..] + ("-" + rest);
      assert [a[0]] + a[1..] == a;
    }
  }

  // ---- Every spelling ------------------------------------------------------------------------------------

  predicate AllWhite(s: string) {
    forall i | 0 <= i < |s| :: Whitespace(s[i])
  }

  predicate AllV(s: string) {
    forall i | 0 <= i < |s| :: s[i] == 'v'
  }

  /** White space, any number of `v`, three numbers, white space; the numbers may have leading zeros. */
  datatype Spelling = Spelling(before: string, letters: string, a: string, b: string, c: string, after: string)

  predicate SpellingOk(x: Spelling) {
    AllWhite(x.before) && AllV(x.letters) && AllWhite(x.after)
    && AllDigits(x.a) && AllDigits(x.b) && AllDigits(x.c)
  }

  function Numbers(x: Spelling): string {
    x.a + "." + (x.b + "." + x.c)
  }

  function Spelled(x: Spelling, prerelease: Option<string>): string {
    x.before + (x.letters + (Numbers(x) + Suffix(prerelease)) + x.after)
  }

  /** What a spelling stands for. */
  ghost predicate StandsFor(x: Spelling, v: BinaryVersion) {
    && SpellingOk(x) && WellFormed(v)
    && x.a != "" && x.b != "" && x.c != ""
    && Value(x.a) == v.major && Value(x.b) == v.minor && Value(x.c) == v.patch
  }

  lemma {:induction false} TrimLeftOf(before: string, rest: string)
    requires AllWhite(before) && (rest == "" || !Whitespace(rest[0]))
    ensures TrimLeft(before + rest) == rest
  {
    if before == "" {
      assert before + rest == rest;
    } else {
      assert (before + rest)[1..] == before[1..] + rest;
      TrimLeftOf(before[1..], rest);
    }
  }

  lemma {:induction false} TrimRightOf(rest: string, after: string)
    requires AllWhite(after) && (rest == "" || !Whitespace(rest[|rest| - 1]))
    ensures TrimRight(rest + after) == rest
    decreases |after|
  {
    if after == "" {
      assert rest + after == rest;
    } else {
      var n := |after| - 1;
      assert (rest + after)[..|rest + after| - 1] == rest + after[..n];
      TrimRightOf(rest, after[..n]);
    }
  }

  lemma {:induction false} TrimVOf(letters: string, rest: string)
    requires AllV(letters) && (rest == "" || rest[0] != 'v')
    ensures TrimV(letters + rest) == rest
  {
    if letters == "" {
      assert letters + rest == rest;
    } else {
      assert (letters + rest)[1..] == letters[1..] + rest;
      TrimVOf(letters[1..], rest);
    }
  }

  lemma NumbersParse(x: Spelling, v: BinaryVersion)
    requires StandsFor(x, v)
    ensures ParseParts(Numbers(x), v.prerelease) == Some(v)
    ensures NoDash(Numbers(x))
  {
    SplitFirst(x.a, x.b + "." + x.c);
    SplitFirst(x.b, x.c);
    SplitFirst(x.c, "");
    assert [x.a] + ([x.b] + [x.c]) == [x.a, x.b, x.c];
    hide Split;
    hide Value;
    hide SuffixOk;
  }

  /** The ends of what is spelled between the letters and the white space. */
  lemma SpelledEnds(x: Spelling, v: BinaryVersion)
    requires StandsFor(x, v)
    ensures var s := Numbers(x) + Suffix(v.prerelease); s != "" && Digit(s[0]) && !Whitespace(s[|s| - 1])
  {
    var s := Numbers(x) + Suffix(v.prerelease);
    assert s[0] == x.a[0];
    if v.prerelease.Some? {
      var p := v.prerelease.value;
      assert s[|s| - 1] == p[|p| - 1] && SuffixChar(p[|p| - 1]);
    } else {
      assert s == Numbers(x) && s[|s| - 1] == x.c[|x.c| - 1];
    }
  }

  lemma SpelledTrims(x: Spelling, v: BinaryVersion)
    requires StandsFor(x, v)
    ensures TrimV(TrimRight(TrimLeft(Spelled(x, v.prerelease)))) == Numbers(x) + Suffix(v.prerelease)
  {
    SpelledEnds(x, v);
    hide Numbers;
    hide Suffix;
    var core := Numbers(x) + Suffix(v.prerelease);
    var middle := x.letters + core;
    assert middle[|middle| - 1] == core[|core| - 1];
    assert (middle + x.after)[0] == if x.letters == "" then core[0] else x.letters[0];
    TrimLeftOf(x.before, middle + x.after);
    TrimRightOf(middle, x.after);
    TrimVOf(x.letters, core);
  }

  lemma SpelledParses(x: Spelling, v: BinaryVersion)
    requires StandsFor(x, v)
    ensures Parse(Spelled(x, v.prerelease)) == Some(v)
  {
    SpelledTrims(x, v);
    NumbersParse(x, v);
    var numbers := Numbers(x);
    hide Numbers;
    hide Spelled;
    hide ParseParts;
    hide StandsFor;
    if v.prerelease.Some? {
      SplitOnceFirst(numbers, v.prerelease.value);
    } else {
      SplitOnceFirst(numbers, "");
      assert numbers + Suffix(v.prerelease) == numbers;
    }
  }

  lemma {:induction false} TrimLeftRest(s: string) returns (before: string)
    ensures AllWhite(before) && s == before + TrimLeft(s)
  {
    if s != "" && Whitespace(s[0]) {
      var rest := TrimLeftRest(s[1..]);
      before := [s[0]] + rest;
    } else {
      before := "";
    }
  }

  lemma {:induction false} TrimRightRest(s: string) returns (after: string)
    ensures AllWhite(after) && s == TrimRight(s) + after
    decreases |s|
  {
    if s != "" && Whitespace(s[|s| - 1]) {
      var rest := TrimRightRest(s[..|s| - 1]);
      after := rest + [s[|s| - 1]];
    } else {
      after := "";
    }
  }

  lemma {:induction false} TrimVRest(s: string) returns (letters: string)
    ensures AllV(letters) && s == letters + TrimV(s)
  {
    if s != "" && s[0] == 'v' {
      var rest := TrimVRest(s[1..]);
      letters := [s[0]] + rest;
    } else {
      letters := "";
    }
  }

  lemma {:induction false} SplitOnceRest(s: string)
    ensures var pair := SplitOnce(s, '-'); pair.Some? ==> s == pair.value.0 + ("-" + pair.value.1)
  {
    if s != "" && s[0] != '-' {
      SplitOnceRest(s[1..]);
      assert s == [s[0]] + s[1..];
    }
  }

  ghost function Dotted(pieces: seq<string>): string
    requires pieces != []
  {
    if |pieces| == 1 then pieces[0] else pieces[0] + "." + Dotted(pieces[1..])
  }

  lemma DottedFirst(c: char, pieces: seq<string>)
    requires pieces != []
    ensures Dotted([[c] + pieces[0]] + pieces[1..]) == [c] + Dotted(pieces)
  {
  }

  lemma DottedThree(pieces: seq<string>)
    requires |pieces| == 3
    ensures Dotted(pieces) == pieces[0] + "." + (pieces[1] + "." + pieces[2])
  {
    assert Dotted(pieces[1..]) == pieces[1] + "." + Dotted(pieces[2..]) by {
      assert pieces[1..][1..] == pieces[2..];
    }
  }

  lemma {:induction false} SplitRest(s: string)
    ensures Dotted(Split(s, '.')) == s
  {
    if s != "" {
      var rest := Split(s[1..], '.');
      SplitRest(s[1..]);
      if s[0] == '.' {
        assert ([""] + rest)[1..] == rest;
      } else {
        DottedFirst(s[0], rest);
      }
      hide Dotted;
    }
  }

  lemma ParsedNumbers(core: string, prerelease: Option<string>, before: string, letters: string, after: string)
    returns (x: Spelling)
    requires ParseParts(core, prerelease).Some? && AllWhite(before) && AllV(letters) && AllWhite(after)
    ensures StandsFor(x, ParseParts(core, prerelease).value) && Numbers(x) == core
    ensures x.before == before && x.letters == letters && x.after == after
  {
    SplitRest(core);
    hide Split;
    hide Value;
    var pieces := Split(core, '.');
    DottedThree(pieces);
    x := Spelling(before, letters, pieces[0], pieces[1], pieces[2], after);
  }

  lemma ParsedIsSpelled(s: string) returns (x: Spelling)
    requires Parse(s).Some?
    ensures StandsFor(x, Parse(s).value) && s == Spelled(x, Parse(s).value.prerelease)
  {
    var before := TrimLeftRest(s);
    var left := TrimLeft(s);
    var after := TrimRightRest(left);
    var middle := TrimRight(left);
    var letters := TrimVRest(middle);
    var text := TrimV(middle);
    SplitOnceRest(text);
    var v := Parse(s).value;
    var pair := SplitOnce(text, '-');
    var core := if pair.Some? then pair.value.0 else text;
    x := ParsedNumbers(core, if pair.Some? then Some(pair.value.1) else None, before, letters, after);
    hide TrimLeft;
    hide TrimRight;
    hide TrimV;
    hide SplitOnce;
    hide Numbers;
    hide StandsFor;
    PartsKeepSuffix(core, if pair.Some? then Some(pair.value.1) else None);
    hide ParseParts;
    assert text == Numbers(x) + Suffix(v.prerelease);
  }

  lemma PartsKeepSuffix(core: string, prerelease: Option<string>)
    ensures var r := ParseParts(core, prerelease); r.Some? ==> r.value.prerelease == prerelease
  {
  }

  /** A text is parsed as a version if and only if it spells that version. */
  lemma ParseIff(s: string, v: BinaryVersion)
    ensures Parse(s) == Some(v) <==> exists x :: StandsFor(x, v) && s == Spelled(x, v.prerelease)
  {
    hide StandsFor;
    hide Spelled;
    if x :| StandsFor(x, v) && s == Spelled(x, v.prerelease) {
      SpelledParses(x, v);
    }
    if Parse(s) == Some(v) {
      var x := ParsedIsSpelled(s);
    }
  }

  /** Printing and parsing a version gives it back exactly when it is well formed. */
  lemma ParseDisplayIff(v: BinaryVersion)
    ensures Parse(Display(v)) == Some(v) <==> WellFormed(v)
  {
    if WellFormed(v) {
      DecimalValue(v.major);
      DecimalValue(v.minor);
      DecimalValue(v.patch);
      hide Decimal;
      hide Parse;
      var x := Spelling("", "", Decimal(v.major), Decimal(v.minor), Decimal(v.patch), "");
      SpelledParses(x, v);
      var core := Core(v) + Suffix(v.prerelease);
      assert "" + ("" + core + "") == core;
    }
  }

  // ---- Order -------------------------------------------------------------------------------------------

  function CompareSuffix(a: Option<string>, b: Option<string>): Ordering {
    match (a, b)
    case (None, None) => Equal
    case (None, Some(_)) => Greater
    case (Some(_), None) => Less
    case (Some(left), Some(right)) => CompareStrings(left, right)
  }

  function Compare(a: BinaryVersion, b: BinaryVersion): Ordering {
    Then(CompareNumbers(a.major, b.major), Then(CompareNumbers(a.minor, b.minor),
    Then(CompareNumbers(a.patch, b.patch), CompareSuffix(a.prerelease, b.prerelease))))
  }

  /** The order is total, antisymmetric, transitive and agrees with equality. */
  lemma VersionOrder(a: BinaryVersion, b: BinaryVersion, c: BinaryVersion)
    ensures Compare(a, b) == Equal <==> a == b
    ensures Compare(b, a) == Flip(Compare(a, b))
    ensures Compare(a, b) == Less && Compare(b, c) == Less ==> Compare(a, c) == Less
  {
    hide CompareStrings;
    if a.prerelease.Some? && b.prerelease.Some? {
      StringsOrder(a.prerelease.value, b.prerelease.value);
      if c.prerelease.Some? && CompareSuffix(a.prerelease, b.prerelease) == Less
         && CompareSuffix(b.prerelease, c.prerelease) == Less {
        StringsTransitive(a.prerelease.value, b.prerelease.value, c.prerelease.value);
      }
    }
  }

  /**
   Which versions come first: the lower major, then the lower minor, then the lower patch; of the
   same three, a prerelease comes before the release, and prereleases are in the order of their suffixes.
   */
  lemma LowerMeans(a: BinaryVersion, b: BinaryVersion)
    ensures Compare(a, b) == Less <==>
      || a.major < b.major
      || (a.major == b.major && a.minor < b.minor)
      || (a.major == b.major && a.minor == b.minor && a.patch < b.patch)
      || (a.major == b.major && a.minor == b.minor && a.patch == b.patch && a.prerelease.Some? &&
          (b.prerelease.None? || CompareStrings(a.prerelease.value, b.prerelease.value) == Less))
  {
    hide CompareStrings;
  }
}
