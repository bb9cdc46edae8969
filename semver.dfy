/**
 * Semantic Versioning 2.0.0 as `semver.compare` applies it: a version string is
 * `MAJOR.MINOR.PATCH[-PRERELEASE][+BUILD]` (section 2, 9 and 10 of the
 * specification), and two versions are ordered by precedence (section 11):
 * numerically by major, minor and patch, a pre-release below the release it
 * precedes, pre-release identifiers compared one by one, build metadata ignored.
 * `compare(a, b)` answers -1, 0 or 1, and raises `ValueError` for a string that
 * is not a version.
 */
module SemVer {
  import opened Results
  import opened Strings

  /** A pre-release identifier: a number, or text holding at least one non-digit. */
  datatype Identifier = Numeric(number: nat) | Alphanumeric(text: string)

  datatype Version = Version(
    major: nat, minor: nat, patch: nat,
    prerelease: seq<Identifier>,
    build: seq<string>)

  // ---------------------------------------------------------------------------
  // Lexical rules

  predicate IsDigit(c: char) {
    '0' <= c <= '9'
  }

  /** `[0-9A-Za-z-]`. */
  predicate IsIdentifierChar(c: char) {
    IsDigit(c) || 'a' <= c <= 'z' || 'A' <= c <= 'Z' || c == '-'
  }

  predicate AllDigits(s: string) {
    forall i :: 0 <= i < |s| ==> IsDigit(s[i])
  }

  predicate AllIdentifierChars(s: string) {
    forall i :: 0 <= i < |s| ==> IsIdentifierChar(s[i])
  }

  /** `0|[1-9][0-9]*`: digits without a leading zero. */
  predicate IsNumericIdentifier(s: string) {
    |s| > 0 && AllDigits(s) && (s[0] == '0' ==> |s| == 1)
  }

  /** `[0-9]*[A-Za-z-][0-9A-Za-z-]*`: identifier characters, not all digits. */
  predicate IsAlphanumericIdentifier(s: string) {
    |s| > 0 && AllIdentifierChars(s) && !AllDigits(s)
  }

  predicate IsPrereleaseIdentifier(s: string) {
    IsNumericIdentifier(s) || IsAlphanumericIdentifier(s)
  }

  /** `[0-9A-Za-z-]+`. */
  predicate IsBuildIdentifier(s: string) {
    |s| > 0 && AllIdentifierChars(s)
  }

  /** The number a string of decimal digits denotes. */
  function DigitsValue(s: string): nat
    requires AllDigits(s)
  {
    if s == [] then 0
    else 10 * DigitsValue(s[..|s| - 1]) + ((s[|s| - 1] as int) - ('0' as int))
  }

  function ParseIdentifier(s: string): (id: Identifier)
    requires IsPrereleaseIdentifier(s)
    ensures id.Alphanumeric? ==> id.text == s && IsAlphanumericIdentifier(s)
  {
    if IsNumericIdentifier(s) then Numeric(DigitsValue(s)) else Alphanumeric(s)
  }

  function ParseIdentifiers(parts: seq<string>): (ids: seq<Identifier>)
    requires forall i :: 0 <= i < |parts| ==> IsPrereleaseIdentifier(parts[i])
    ensures |ids| == |parts|
    ensures forall i :: 0 <= i < |parts| ==> ids[i] == ParseIdentifier(parts[i])
  {
    if parts == [] then [] else [ParseIdentifier(parts[0])] + ParseIdentifiers(parts[1..])
  }

  /** The fields of a version, from the dot-separated parts of its three sections. */
  function ParseFields(core: seq<string>, pre: seq<string>, build: seq<string>): Option<Version> {
    if && |core| == 3
       && (forall i :: 0 <= i < 3 ==> IsNumericIdentifier(core[i]))
       && (forall i :: 0 <= i < |pre| ==> IsPrereleaseIdentifier(pre[i]))
       && (forall i :: 0 <= i < |build| ==> IsBuildIdentifier(build[i]))
    then
      Some(Version(DigitsValue(core[0]), DigitsValue(core[1]), DigitsValue(core[2]),
                   ParseIdentifiers(pre), build))
    else None
  }

  /** The dot-separated parts of an optional section; an absent section has none. */
  function Parts(section: Option<string>): seq<string> {
    match section
    case None => []
    case Some(text) => Split(text, '.')
  }

  /**
   * Parses a version string. The first `+` starts the build metadata; before it,
   * the first `-` starts the pre-release; what precedes that is the
   * dot-separated major, minor and patch.
   */
  function Parse(s: string): (r: Option<Version>)
    ensures r.Some? ==> WellFormed(r.value)
  {
    var (main, build) := SplitOnce(s, '+');
    var (core, pre) := SplitOnce(main, '-');
    ParseFields(Split(core, '.'), Parts(pre), Parts(build))
  }

  predicate IsValid(s: string) {
    Parse(s).Some?
  }

  // ---------------------------------------------------------------------------
  // Printing, the partner of Parse

  function DigitChar(d: nat): char
    requires d < 10
  {
    (('0' as int) + d) as char
  }

  /** The decimal numeral of `n`, without leading zeros. */
  function NatToString(n: nat): (s: string)
    ensures IsNumericIdentifier(s)
    ensures n > 0 ==> s[0] != '0'
  {
    if n < 10 then [DigitChar(n)] else NatToString(n / 10) + [DigitChar(n % 10)]
  }

  lemma {:induction false} DigitsValueOfNatToString(n: nat)
    ensures DigitsValue(NatToString(n)) == n
  {
    if n >= 10 {
      var s := NatToString(n);
      assert s[..|s| - 1] == NatToString(n / 10);
      DigitsValueOfNatToString(n / 10);
    }
  }

  function IdentifierText(id: Identifier): string {
    match id
    case Numeric(n) => NatToString(n)
    case Alphanumeric(t) => t
  }

  function IdentifierTexts(ids: seq<Identifier>): (texts: seq<string>)
    ensures |texts| == |ids|
    ensures forall i :: 0 <= i < |ids| ==> texts[i] == IdentifierText(ids[i])
  {
    if ids == [] then [] else [IdentifierText(ids[0])] + IdentifierTexts(ids[1..])
  }

  /** What a parsed version can hold: well-formed alphanumeric and build identifiers. */
  predicate WellFormed(v: Version) {
    && (forall i :: 0 <= i < |v.prerelease| ==>
          v.prerelease[i].Alphanumeric? ==> IsAlphanumericIdentifier(v.prerelease[i].text))
    && (forall i :: 0 <= i < |v.build| ==> IsBuildIdentifier(v.build[i]))
  }

  /** The canonical text of a version. */
  function Format(v: Version): string {
    NatToString(v.major) + "." + NatToString(v.minor) + "." + NatToString(v.patch)
    + (if v.prerelease == [] then "" else "-" + Join(IdentifierTexts(v.prerelease), '.'))
    + (if v.build == [] then "" else "+" + Join(v.build, '.'))
  }

  // ---------------------------------------------------------------------------
  // Precedence

  function CompareNat(a: nat, b: nat): (c: int)
    ensures c == 0 <==> a == b
    ensures c < 0 <==> a < b
    ensures c > 0 <==> a > b
  {
    if a < b then -1 else if a > b then 1 else 0
  }

  /** Python's ordering of `str`: lexicographic by code point, a proper prefix first. */
  function CompareText(a: string, b: string): (c: int)
    ensures -1 <= c <= 1
  {
    if a == [] then (if b == [] then 0 else -1)
    else if b == [] then 1
    else if a[0] < b[0] then -1
    else if b[0] < a[0] then 1
    else CompareText(a[1..], b[1..])
  }

  /** Section 11.4.1-11.4.3: numbers numerically, text lexically, a number below text. */
  function CompareIdentifier(a: Identifier, b: Identifier): (c: int)
    ensures -1 <= c <= 1
  {
    match (a, b)
    case (Numeric(x), Numeric(y)) => CompareNat(x, y)
    case (Numeric(_), Alphanumeric(_)) => -1
    case (Alphanumeric(_), Numeric(_)) => 1
    case (Alphanumeric(x), Alphanumeric(y)) => CompareText(x, y)
  }

  /** Section 11.4.4: identifier by identifier; when one list is a prefix of the other, the shorter is lower. */
  function CompareIdentifiers(a: seq<Identifier>, b: seq<Identifier>): (c: int)
    ensures -1 <= c <= 1
  {
    if a == [] then (if b == [] then 0 else -1)
    else if b == [] then 1
    else
      var c := CompareIdentifier(a[0], b[0]);
      if c != 0 then c else CompareIdentifiers(a[1..], b[1..])
  }

  /** Section 11.3: a version without pre-release is above every pre-release of it. */
  function ComparePrerelease(a: seq<Identifier>, b: seq<Identifier>): (c: int)
    ensures -1 <= c <= 1
  {
    if a == [] && b == [] then 0
    else if a == [] then 1
    else if b == [] then -1
    else CompareIdentifiers(a, b)
  }

  /** Section 11.2-11.4 precedence. Build metadata takes no part (section 10). */
  function CompareVersions(a: Version, b: Version): (c: int)
    ensures -1 <= c <= 1
  {
    if a.major != b.major then CompareNat(a.major, b.major)
    else if a.minor != b.minor then CompareNat(a.minor, b.minor)
    else if a.patch != b.patch then CompareNat(a.patch, b.patch)
    else ComparePrerelease(a.prerelease, b.prerelease)
  }

  /** `ValueError: <version> is not valid SemVer string`. */
  datatype InvalidVersion = InvalidVersion(version: string)

  /** `semver.compare(a, b)`: parses `a`, then `b`, and compares their precedence. */
  function Compare(a: string, b: string): (r: Result<int, InvalidVersion>)
    ensures r.Ok? <==> IsValid(a) && IsValid(b)
    ensures r.Err? ==> r.error == InvalidVersion(if IsValid(a) then b else a)
    ensures r.Ok? ==> -1 <= r.value <= 1
  {
    match Parse(a)
    case None => Err(InvalidVersion(a))
    case Some(va) =>
      match Parse(b)
      case None => Err(InvalidVersion(b))
      case Some(vb) => Ok(CompareVersions(va, vb))
  }

  // ---------------------------------------------------------------------------
  // Precedence is a total preorder

  lemma {:induction false} CompareTextAntisymmetric(a: string, b: string)
    ensures CompareText(a, b) == -CompareText(b, a)
  {
    if a != [] && b != [] && a[0] == b[0] {
      CompareTextAntisymmetric(a[1..], b[1..]);
    }
  }

  lemma {:induction false} CompareTextZero(a: string, b: string)
    ensures CompareText(a, b) == 0 <==> a == b
  {
    if a != [] && b != [] && a[0] == b[0] {
      CompareTextZero(a[1..], b[1..]);
      assert a == [a[0]] + a[1..] && b == [b[0]] + b[1..];
    }
  }

  lemma {:induction false} CompareTextTransitive(a: string, b: string, c: string)
    requires CompareText(a, b) <= 0 && CompareText(b, c) <= 0
    ensures CompareText(a, c) <= 0
  {
    if a != [] && b != [] && c != [] && a[0] == b[0] && b[0] == c[0] {
      CompareTextTransitive(a[1..], b[1..], c[1..]);
    }
  }

  lemma CompareIdentifierProperties(a: Identifier, b: Identifier)
    ensures CompareIdentifier(a, b) == -CompareIdentifier(b, a)
    ensures CompareIdentifier(a, b) == 0 <==> a == b
  {
    if a.Alphanumeric? && b.Alphanumeric? {
      CompareTextAntisymmetric(a.text, b.text);
      CompareTextZero(a.text, b.text);
    }
  }

  lemma CompareIdentifierTransitive(a: Identifier, b: Identifier, c: Identifier)
    requires CompareIdentifier(a, b) <= 0 && CompareIdentifier(b, c) <= 0
    ensures CompareIdentifier(a, c) <= 0
  {
    if a.Alphanumeric? && b.Alphanumeric? && c.Alphanumeric? {
      CompareTextTransitive(a.text, b.text, c.text);
    }
  }

  lemma {:induction false} CompareIdentifiersAntisymmetric(a: seq<Identifier>, b: seq<Identifier>)
    ensures CompareIdentifiers(a, b) == -CompareIdentifiers(b, a)
    ensures CompareIdentifiers(a, b) == 0 <==> a == b
  {
    if a != [] && b != [] {
      CompareIdentifierProperties(a[0], b[0]);
      CompareIdentifiersAntisymmetric(a[1..], b[1..]);
      assert a == [a[0]] + a[1..] && b == [b[0]] + b[1..];
    }
  }

  lemma {:induction false} CompareIdentifiersTransitive(a: seq<Identifier>, b: seq<Identifier>, c: seq<Identifier>)
    requires CompareIdentifiers(a, b) <= 0 && CompareIdentifiers(b, c) <= 0
    ensures CompareIdentifiers(a, c) <= 0
  {
    if a != [] && b != [] && c != [] {
      CompareIdentifierProperties(a[0], b[0]);
      CompareIdentifierProperties(b[0], c[0]);
      CompareIdentifierProperties(a[0], c[0]);
      CompareIdentifierTransitive(a[0], b[0], c[0]);
      if CompareIdentifier(a[0], b[0]) == 0 && CompareIdentifier(b[0], c[0]) == 0 {
        CompareIdentifiersTransitive(a[1..], b[1..], c[1..]);
      }
    }
  }

  /** Equal precedence: everything but the build metadata agrees. */
  predicate SamePrecedence(a: Version, b: Version) {
    a.major == b.major && a.minor == b.minor && a.patch == b.patch && a.prerelease == b.prerelease
  }

  lemma CompareVersionsAntisymmetric(a: Version, b: Version)
    ensures CompareVersions(a, b) == -CompareVersions(b, a)
    ensures CompareVersions(a, b) == 0 <==> SamePrecedence(a, b)
  {
    if a.prerelease != [] && b.prerelease != [] {
      CompareIdentifiersAntisymmetric(a.prerelease, b.prerelease);
    }
  }

  lemma CompareVersionsTransitive(a: Version, b: Version, c: Version)
    requires CompareVersions(a, b) <= 0 && CompareVersions(b, c) <= 0
    ensures CompareVersions(a, c) <= 0
  {
    if SamePrecedence(a, b) || SamePrecedence(b, c) {
      CompareVersionsAntisymmetric(a, b);
      CompareVersionsAntisymmetric(b, c);
    } else if a.major == c.major && a.minor == c.minor && a.patch == c.patch {
      if a.prerelease != [] && b.prerelease != [] && c.prerelease != [] {
        CompareIdentifiersTransitive(a.prerelease, b.prerelease, c.prerelease);
      }
    }
  }

  /** `compare(a, a)` is 0 for every version. */
  lemma CompareReflexive(a: string)
    requires IsValid(a)
    ensures Compare(a, a) == Ok(0)
  {
    CompareVersionsAntisymmetric(Parse(a).value, Parse(a).value);
  }

  /** Swapping the arguments negates the answer. */
  lemma CompareAntisymmetric(a: string, b: string)
    requires IsValid(a) && IsValid(b)
    ensures Compare(b, a) == Ok(-Compare(a, b).value)
  {
    CompareVersionsAntisymmetric(Parse(a).value, Parse(b).value);
  }

  /** "Not above" is transitive. */
  lemma CompareTransitive(a: string, b: string, c: string)
    requires Compare(a, b).Ok? && Compare(a, b).value <= 0
    requires Compare(b, c).Ok? && Compare(b, c).value <= 0
    ensures Compare(a, c).Ok? && Compare(a, c).value <= 0
  {
    CompareVersionsTransitive(Parse(a).value, Parse(b).value, Parse(c).value);
  }

  /** Two versions compare equal exactly when they differ at most in build metadata. */
  lemma CompareZero(a: string, b: string)
    requires IsValid(a) && IsValid(b)
    ensures Compare(a, b) == Ok(0) <==> SamePrecedence(Parse(a).value, Parse(b).value)
  {
    CompareVersionsAntisymmetric(Parse(a).value, Parse(b).value);
  }

  // ---------------------------------------------------------------------------
  // Parse(Format(v)) == Some(v)

  /** Only digits are in a numeral. */
  lemma NumeralExcludes(n: nat, c: char)
    requires !IsDigit(c)
    ensures c !in NatToString(n)
  {
  }

  lemma IdentifierTextExcludes(id: Identifier, c: char)
    requires !IsIdentifierChar(c)
    requires id.Alphanumeric? ==> IsAlphanumericIdentifier(id.text)
    ensures c !in IdentifierText(id)
  {
    if id.Numeric? {
      NumeralExcludes(id.number, c);
    }
  }

  /** The printed identifier parses back to itself. */
  lemma ParseIdentifierText(id: Identifier)
    requires id.Alphanumeric? ==> IsAlphanumericIdentifier(id.text)
    ensures IsPrereleaseIdentifier(IdentifierText(id))
    ensures ParseIdentifier(IdentifierText(id)) == id
  {
    if id.Numeric? {
      DigitsValueOfNatToString(id.number);
    }
  }

  /** The major.minor.patch part of a formatted version. */
  lemma CoreRoundTrip(x: string, y: string, z: string)
    requires AllDigits(x) && AllDigits(y) && AllDigits(z)
    ensures var core := x + "." + y + "." + z;
      && '-' !in core && '+' !in core
      && Split(core, '.') == [x, y, z]
  {
    var parts := [x, y, z];
    assert Join(parts[1..][1..], '.') == z;
    assert Join(parts[1..], '.') == y + "." + z;
    assert Join(parts, '.') == x + "." + y + "." + z;
    assert '.' !in x && '.' !in y && '.' !in z;
    SplitJoin(parts, '.');
  }

  /** The pre-release part of a formatted version. */
  lemma PrereleaseRoundTrip(ids: seq<Identifier>)
    requires ids != []
    requires forall i :: 0 <= i < |ids| ==> ids[i].Alphanumeric? ==> IsAlphanumericIdentifier(ids[i].text)
    ensures var texts := IdentifierTexts(ids);
      && '+' !in Join(texts, '.')
      && Split(Join(texts, '.'), '.') == texts
      && (forall i :: 0 <= i < |texts| ==> IsPrereleaseIdentifier(texts[i]))
      && ParseIdentifiers(texts) == ids
  {
    var texts := IdentifierTexts(ids);
    forall i | 0 <= i < |ids|
      ensures '.' !in texts[i] && '+' !in texts[i]
      ensures IsPrereleaseIdentifier(texts[i]) && ParseIdentifier(texts[i]) == ids[i]
    {
      IdentifierTextExcludes(ids[i], '.');
      IdentifierTextExcludes(ids[i], '+');
      ParseIdentifierText(ids[i]);
    }
    JoinExcludes(texts, '.', '+');
    SplitJoin(texts, '.');
  }

  /** The build part of a formatted version. */
  lemma BuildRoundTrip(build: seq<string>)
    requires build != []
    requires forall i :: 0 <= i < |build| ==> IsBuildIdentifier(build[i])
    ensures Split(Join(build, '.'), '.') == build
  {
    SplitJoin(build, '.');
  }

  /** The parsed fields of a well-formed version's printed parts are the version. */
  lemma ParseFieldsRoundTrip(v: Version)
    requires WellFormed(v)
    ensures ParseFields([NatToString(v.major), NatToString(v.minor), NatToString(v.patch)],
                        IdentifierTexts(v.prerelease), v.build) == Some(v)
  {
    var texts := IdentifierTexts(v.prerelease);
    forall i | 0 <= i < |texts|
      ensures IsPrereleaseIdentifier(texts[i]) && ParseIdentifier(texts[i]) == v.prerelease[i]
    {
      ParseIdentifierText(v.prerelease[i]);
    }
    assert ParseIdentifiers(texts) == v.prerelease;
    var core := [NatToString(v.major), NatToString(v.minor), NatToString(v.patch)];
    assert forall i :: 0 <= i < 3 ==> IsNumericIdentifier(core[i]);
    DigitsValueOfNatToString(v.major);
    DigitsValueOfNatToString(v.minor);
    DigitsValueOfNatToString(v.patch);
  }

  /** The three sections of a printed version. */
  lemma FormatSections(v: Version)
    ensures var core := NatToString(v.major) + "." + NatToString(v.minor) + "." + NatToString(v.patch);
      var main := if v.prerelease == [] then core else core + "-" + Join(IdentifierTexts(v.prerelease), '.');
      Format(v) == if v.build == [] then main else main + "+" + Join(v.build, '.')
  {
  }

  /** Every well-formed version is printed to a string that parses back to it. */
  lemma ParseFormat(v: Version)
    requires WellFormed(v)
    ensures Parse(Format(v)) == Some(v)
  {
    var core := NatToString(v.major) + "." + NatToString(v.minor) + "." + NatToString(v.patch);
    CoreRoundTrip(NatToString(v.major), NatToString(v.minor), NatToString(v.patch));
    var main := core;
    var pre: Option<string> := None;
    if v.prerelease != [] {
      PrereleaseRoundTrip(v.prerelease);
      pre := Some(Join(IdentifierTexts(v.prerelease), '.'));
      SplitOnceAt(core, pre.value, '-');
      main := core + "-" + pre.value;
    }
    assert SplitOnce(main, '-') == (core, pre);
    assert '+' !in main;
    var build: Option<string> := None;
    FormatSections(v);
    if v.build != [] {
      BuildRoundTrip(v.build);
      build := Some(Join(v.build, '.'));
      SplitOnceAt(main, build.value, '+');
    }
    assert SplitOnce(Format(v), '+') == (main, build);
    assert Parts(pre) == IdentifierTexts(v.prerelease);
    assert Parts(build) == v.build;
    ParseFieldsRoundTrip(v);
  }

  // ---------------------------------------------------------------------------
  // Format(Parse(s)) == s

  /** A numeral without a leading zero denotes a positive number unless it is `0`. */
  lemma {:induction false} DigitsValuePositive(s: string)
    requires |s| > 0 && AllDigits(s) && s[0] != '0'
    ensures DigitsValue(s) > 0
  {
    if |s| > 1 {
      DigitsValuePositive(s[..|s| - 1]);
    }
  }

  /** A numeric identifier is the numeral of the number it denotes. */
  lemma {:induction false} NatToStringOfDigitsValue(s: string)
    requires IsNumericIdentifier(s)
    ensures NatToString(DigitsValue(s)) == s
  {
    var n := |s|;
    if n > 1 {
      var init := s[..n - 1];
      assert IsNumericIdentifier(init);
      NatToStringOfDigitsValue(init);
      DigitsValuePositive(init);
      var d := (s[n - 1] as int) - ('0' as int);
      assert DigitsValue(s) == 10 * DigitsValue(init) + d;
      assert DigitsValue(s) / 10 == DigitsValue(init) && DigitsValue(s) % 10 == d;
      assert DigitChar(d) == s[n - 1];
      assert s == init + [s[n - 1]];
    }
  }

  /** A parsed pre-release identifier prints back to its text, and parsed text is a well-formed identifier. */
  lemma IdentifierTextOfParse(t: string)
    requires IsPrereleaseIdentifier(t)
    ensures IdentifierText(ParseIdentifier(t)) == t
    ensures ParseIdentifier(t).Alphanumeric? ==> IsAlphanumericIdentifier(ParseIdentifier(t).text)
  {
    if IsNumericIdentifier(t) {
      NatToStringOfDigitsValue(t);
    }
  }

  lemma IdentifierTextsOfParse(parts: seq<string>)
    requires forall i :: 0 <= i < |parts| ==> IsPrereleaseIdentifier(parts[i])
    ensures IdentifierTexts(ParseIdentifiers(parts)) == parts
    ensures forall i :: 0 <= i < |parts| ==>
      ParseIdentifiers(parts)[i].Alphanumeric? ==> IsAlphanumericIdentifier(ParseIdentifiers(parts)[i].text)
  {
    forall i | 0 <= i < |parts|
      ensures IdentifierText(ParseIdentifier(parts[i])) == parts[i]
      ensures ParseIdentifier(parts[i]).Alphanumeric? ==> IsAlphanumericIdentifier(ParseIdentifier(parts[i]).text)
    {
      IdentifierTextOfParse(parts[i]);
    }
  }

  /** An optional section has parts exactly when it is present, and they join back to its text. */
  lemma PartsOfSection(section: Option<string>)
    ensures Parts(section) == [] <==> section.None?
    ensures section.Some? ==> Join(Parts(section), '.') == section.value
  {
    if section.Some? {
      JoinSplit(section.value, '.');
    }
  }

  /** The major.minor.patch text is the join of its three numerals. */
  lemma CoreOfSplit(core: string)
    requires |Split(core, '.')| == 3
    ensures var p := Split(core, '.');
      core == p[0] + "." + p[1] + "." + p[2]
  {
    var p := Split(core, '.');
    JoinSplit(core, '.');
    assert p == [p[0], p[1], p[2]];
    JoinThree(p[0], p[1], p[2], '.');
  }

  /**
   * Every string `semver` accepts is the canonical text of the well-formed
   * version it parses to: parsing loses nothing and accepts no alternative
   * spellings (no leading zeros, no empty sections).
   */
  lemma FormatParse(s: string)
    requires IsValid(s)
    ensures WellFormed(Parse(s).value)
    ensures Format(Parse(s).value) == s
  {
    var (main, build) := SplitOnce(s, '+');
    var (core, pre) := SplitOnce(main, '-');
    var c := Split(core, '.');
    var v := Parse(s).value;
    assert v.major == DigitsValue(c[0]) && v.minor == DigitsValue(c[1]) && v.patch == DigitsValue(c[2]);
    assert v.prerelease == ParseIdentifiers(Parts(pre)) && v.build == Parts(build);
    NatToStringOfDigitsValue(c[0]);
    NatToStringOfDigitsValue(c[1]);
    NatToStringOfDigitsValue(c[2]);
    CoreOfSplit(core);
    IdentifierTextsOfParse(Parts(pre));
    PartsOfSection(pre);
    PartsOfSection(build);
    FormatSections(v);
    assert main == if pre.None? then core else core + "-" + pre.value;
    assert s == if build.None? then main else main + "+" + build.value;
  }

  // ---------------------------------------------------------------------------
  // Examples

  /** A release version `x.y.z` parses to its three numbers. */
  lemma ParseRelease(x: nat, y: nat, z: nat)
    ensures Parse(NatToString(x) + "." + NatToString(y) + "." + NatToString(z)) == Some(Version(x, y, z, [], []))
  {
    var v := Version(x, y, z, [], []);
    assert Format(v) == NatToString(x) + "." + NatToString(y) + "." + NatToString(z);
    ParseFormat(v);
  }

  lemma Parse000()
    ensures Parse("0.0.0") == Some(Version(0, 0, 0, [], []))
  {
    assert NatToString(0) == "0";
    assert NatToString(0) + "." + NatToString(0) + "." + NatToString(0) == "0.0.0";
    ParseRelease(0, 0, 0);
  }

  lemma Parse090()
    ensures Parse("0.9.0") == Some(Version(0, 9, 0, [], []))
  {
    assert NatToString(0) == "0" && NatToString(9) == "9";
    assert NatToString(0) + "." + NatToString(9) + "." + NatToString(0) == "0.9.0";
    ParseRelease(0, 9, 0);
  }

  lemma Parse0100()
    ensures Parse("0.10.0") == Some(Version(0, 10, 0, [], []))
  {
    assert NatToString(0) == "0" && NatToString(10) == "10";
    assert NatToString(0) + "." + NatToString(10) + "." + NatToString(0) == "0.10.0";
    ParseRelease(0, 10, 0);
  }

  /** With both sides parsed, `compare` is the precedence of the parsed versions. */
  lemma CompareParsed(a: string, b: string, va: Version, vb: Version)
    requires Parse(a) == Some(va) && Parse(b) == Some(vb)
    ensures Compare(a, b) == Ok(CompareVersions(va, vb))
  {
  }

  /** Precedence is numeric, not lexicographic: 0.0.0 < 0.9.0 < 0.10.0. */
  lemma NumericPrecedence()
    ensures Compare("0.9.0", "0.0.0") == Ok(1)
    ensures Compare("0.10.0", "0.9.0") == Ok(1)
    ensures Compare("0.10.0", "0.0.0") == Ok(1)
  {
    Parse000();
    Parse090();
    Parse0100();
    CompareParsed("0.9.0", "0.0.0", Version(0, 9, 0, [], []), Version(0, 0, 0, [], []));
    CompareParsed("0.10.0", "0.9.0", Version(0, 10, 0, [], []), Version(0, 9, 0, [], []));
    CompareParsed("0.10.0", "0.0.0", Version(0, 10, 0, [], []), Version(0, 0, 0, [], []));
  }

  /**
   * The ordering example of section 11.4, on parsed versions:
   * 1.0.0-alpha < 1.0.0-alpha.1 < 1.0.0-alpha.beta < 1.0.0-beta < 1.0.0-beta.2
   * < 1.0.0-beta.11 < 1.0.0-rc.1 < 1.0.0.
   */
  lemma PrereleasePrecedence()
    ensures var chain := [
        Version(1, 0, 0, [Alphanumeric("alpha")], []),
        Version(1, 0, 0, [Alphanumeric("alpha"), Numeric(1)], []),
        Version(1, 0, 0, [Alphanumeric("alpha"), Alphanumeric("beta")], []),
        Version(1, 0, 0, [Alphanumeric("beta")], []),
        Version(1, 0, 0, [Alphanumeric("beta"), Numeric(2)], []),
        Version(1, 0, 0, [Alphanumeric("beta"), Numeric(11)], []),
        Version(1, 0, 0, [Alphanumeric("rc"), Numeric(1)], []),
        Version(1, 0, 0, [], [])];
      forall i :: 0 <= i < |chain| - 1 ==> CompareVersions(chain[i], chain[i + 1]) == -1
  {
  }

  /** Build metadata does not take part in precedence (section 10). */
  lemma BuildMetadataIgnored()
    ensures CompareVersions(Version(1, 0, 0, [], ["20130313144700"]), Version(1, 0, 0, [], [])) == 0
    ensures CompareVersions(Version(1, 0, 0, [Alphanumeric("beta")], ["exp", "sha", "5114f85"]),
                            Version(1, 0, 0, [Alphanumeric("beta")], [])) == 0
  {
  }
}
