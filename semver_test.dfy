/** The table of internal/semver_test.go, each row a lemma about `VersionOrder`,
    together with the quirks of the comparator pinned as regression values.

    Each version of the table is first parsed on its own (its `PartsOf` and the
    `CoreOf` of its base), and each row then only combines those facts. */
module SemverTests {
  import opened GoStrings
  import opened Semver

  // ---------------------------------------------------------------------------
  // Parsing the versions of the table
  // ---------------------------------------------------------------------------

  /** A character that is neither a digit nor '.' is absent from a numeric core. */
  lemma NumericCoreLacks(major: string, minor: string, patch: string, c: char)
    requires NumericSegment(major) && NumericSegment(minor) && NumericSegment(patch)
    requires !IsDigit(c) && c != '.'
    ensures c !in major + "." + minor + "." + patch
  {
    NumericSegmentChars(major, c);
    NumericSegmentChars(minor, c);
    NumericSegmentChars(patch, c);
  }

  /** "MAJOR.MINOR.PATCH" with numeric segments is a stable release whose core
      holds the segments' values. */
  lemma Release(v: string, major: string, minor: string, patch: string, x: int, y: int, z: int)
    requires v == major + "." + minor + "." + patch
    requires NumericSegment(major) && NumericSegment(minor) && NumericSegment(patch)
    requires DigitsValue(major) == x && DigitsValue(minor) == y && DigitsValue(patch) == z
    ensures PartsOf(v) == Parts(v, "") && CoreOf(v) == [x, y, z]
  {
    CoreOfNumeric(major, minor, patch);
    assert !HasMarker(v) && '-' !in v && '+' !in v by {
      NumericCoreLacks(major, minor, patch, '-');
      NumericCoreLacks(major, minor, patch, '+');
      assert v[0] == major[0];
      AllDigitsAt(major, 0);
    }
    PartsOfRelease(v);
  }

  /** "MAJOR" alone: the missing segments read as 0. */
  lemma MajorRelease(major: string, x: int)
    requires NumericSegment(major) && DigitsValue(major) == x
    ensures PartsOf(major) == Parts(major, "") && CoreOf(major) == [x, 0, 0]
  {
    NumericSegmentChars(major, '.');
    SplitJoin([major], '.');
    AtoiDigits(major);
    NumericSegmentChars(major, '-');
    NumericSegmentChars(major, '+');
    AllDigitsAt(major, 0);
    PartsOfRelease(major);
  }

  /** "MAJOR.MINOR" alone: the missing patch reads as 0. */
  lemma MajorMinorRelease(v: string, major: string, minor: string, x: int, y: int)
    requires v == major + "." + minor
    requires NumericSegment(major) && NumericSegment(minor)
    requires DigitsValue(major) == x && DigitsValue(minor) == y
    ensures PartsOf(v) == Parts(v, "") && CoreOf(v) == [x, y, 0]
  {
    MajorMinorCore(v, major, minor, x, y);
    forall c | c == '-' || c == '+' ensures c !in v {
      NumericSegmentChars(major, c);
      NumericSegmentChars(minor, c);
    }
    assert v[0] == major[0];
    AllDigitsAt(major, 0);
    PartsOfRelease(v);
  }

  /** The core of "MAJOR.MINOR". */
  lemma MajorMinorCore(v: string, major: string, minor: string, x: int, y: int)
    requires v == major + "." + minor
    requires NumericSegment(major) && NumericSegment(minor)
    requires DigitsValue(major) == x && DigitsValue(minor) == y
    ensures CoreOf(v) == [x, y, 0]
  {
    var segments := [major, minor];
    SplitTwo(v, major, minor);
    assert SegmentValue(segments, 0) == x by { AtoiDigits(major); }
    assert SegmentValue(segments, 1) == y by { AtoiDigits(minor); }
  }

  /** "MAJOR.MINOR" splits at its one '.'. */
  lemma SplitTwo(v: string, major: string, minor: string)
    requires v == major + "." + minor
    requires NumericSegment(major) && NumericSegment(minor)
    ensures Split(v, '.') == [major, minor]
  {
    NumericSegmentChars(major, '.');
    NumericSegmentChars(minor, '.');
    assert Join([major, minor], '.') == v;
    SplitJoin([major, minor], '.');
  }

  /** A release core followed by "-" and a label splits into the two. */
  lemma PreRelease(v: string, core: string, pre: string)
    requires v == core + "-" + pre
    requires !HasMarker(core) && '-' !in core && '+' !in core && '+' !in pre
    ensures PartsOf(v) == Parts(core, pre)
  {
    PartsOfPreRelease(core, pre);
  }

  /** A "v", "V" or "vV" in front of a bare version leaves its parts alone. */
  lemma MarkedAs(m: string, v: string)
    requires !HasMarker(v) && (m == "v" + v || m == "V" + v || m == "vV" + v)
    ensures PartsOf(m) == PartsOf(v)
  {
    NormalizeBare(v);
    MarkerOrder(v);
  }

  /** "Vv" in front of a release keeps the "v". */
  lemma UpperLowerAs(m: string, v: string, kept: string)
    requires m == "Vv" + v && kept == "v" + v && '-' !in v && '+' !in v
    ensures PartsOf(m) == Parts(kept, "")
  {
    MarkerOrder(v);
    assert '-' !in kept && '+' !in kept;
    StripMetadataNoPlus(kept);
  }

  /** A "v" glued to the major segment makes Atoi refuse it. */
  lemma LetterInMajor(v: string, major: string, minor: string, patch: string, y: int, z: int)
    requires v == "v" + major + "." + minor + "." + patch
    requires NumericSegment(major) && NumericSegment(minor) && NumericSegment(patch)
    requires DigitsValue(minor) == y && DigitsValue(patch) == z
    ensures CoreOf(v) == [0, y, z]
  {
    var first := "v" + major;
    var segments := [first, minor, patch];
    SplitLettered(v, major, minor, patch);
    CoreOfSplit(v, segments);
    LetteredValues(first, minor, patch, y, z);
  }

  /** The values of the segments "vMAJOR", MINOR and PATCH. */
  lemma LetteredValues(first: string, minor: string, patch: string, y: int, z: int)
    requires |first| > 0 && first[0] == 'v'
    requires NumericSegment(minor) && NumericSegment(patch)
    requires DigitsValue(minor) == y && DigitsValue(patch) == z
    ensures SegmentValue([first, minor, patch], 0) == 0
    ensures SegmentValue([first, minor, patch], 1) == y
    ensures SegmentValue([first, minor, patch], 2) == z
  {
    AtoiRejectsLetter(first);
    AtoiDigits(minor);
    AtoiDigits(patch);
  }

  /** "vMAJOR.MINOR.PATCH" splits into three segments, the first with the "v". */
  lemma SplitLettered(v: string, major: string, minor: string, patch: string)
    requires v == "v" + major + "." + minor + "." + patch
    requires NumericSegment(major) && NumericSegment(minor) && NumericSegment(patch)
    ensures Split(v, '.') == ["v" + major, minor, patch]
  {
    var first := "v" + major;
    NumericSegmentChars(major, '.');
    NumericSegmentChars(minor, '.');
    NumericSegmentChars(patch, '.');
    assert '.' !in first;
    assert Join([minor, patch], '.') == minor + "." + patch;
    assert v == first + "." + (minor + "." + patch);
    assert Join([first, minor, patch], '.') == v;
    SplitJoin([first, minor, patch], '.');
  }

  /** "+metadata" after a '+'-free version leaves its parts alone. */
  lemma Tagged(t: string, v: string, metadata: string)
    requires '+' !in v && t == v + "+" + metadata
    ensures PartsOf(t) == PartsOf(v)
  {
    assert StripMetadata(t) == v by {
      assert t == v + ("+" + metadata);
      StripMetadataAppend(v, "+" + metadata);
      assert ("+" + metadata)[0] == '+';
    }
    SplitIgnoresMetadata(t);
  }

  lemma V000() ensures PartsOf("0.0.0") == Parts("0.0.0", "") && CoreOf("0.0.0") == [0, 0, 0] {
    Release("0.0.0", "0", "0", "0", 0, 0, 0);
  }
  lemma V100() ensures PartsOf("1.0.0") == Parts("1.0.0", "") && CoreOf("1.0.0") == [1, 0, 0] {
    Release("1.0.0", "1", "0", "0", 1, 0, 0);
  }
  lemma V200() ensures PartsOf("2.0.0") == Parts("2.0.0", "") && CoreOf("2.0.0") == [2, 0, 0] {
    Release("2.0.0", "2", "0", "0", 2, 0, 0);
  }
  lemma V110() ensures PartsOf("1.1.0") == Parts("1.1.0", "") && CoreOf("1.1.0") == [1, 1, 0] {
    Release("1.1.0", "1", "1", "0", 1, 1, 0);
  }
  lemma V120() ensures PartsOf("1.2.0") == Parts("1.2.0", "") && CoreOf("1.2.0") == [1, 2, 0] {
    Release("1.2.0", "1", "2", "0", 1, 2, 0);
  }
  lemma V101() ensures PartsOf("1.0.1") == Parts("1.0.1", "") && CoreOf("1.0.1") == [1, 0, 1] {
    Release("1.0.1", "1", "0", "1", 1, 0, 1);
  }
  lemma V102() ensures PartsOf("1.0.2") == Parts("1.0.2", "") && CoreOf("1.0.2") == [1, 0, 2] {
    Release("1.0.2", "1", "0", "2", 1, 0, 2);
  }
  lemma V009() ensures PartsOf("0.0.9") == Parts("0.0.9", "") && CoreOf("0.0.9") == [0, 0, 9] {
    Release("0.0.9", "0", "0", "9", 0, 0, 9);
  }
  lemma V0010() ensures PartsOf("0.0.10") == Parts("0.0.10", "") && CoreOf("0.0.10") == [0, 0, 10] {
    Release("0.0.10", "0", "0", "10", 0, 0, 10);
  }
  lemma V123() ensures PartsOf("1.2.3") == Parts("1.2.3", "") && CoreOf("1.2.3") == [1, 2, 3] {
    Release("1.2.3", "1", "2", "3", 1, 2, 3);
  }
  lemma V130() ensures PartsOf("1.3.0") == Parts("1.3.0", "") && CoreOf("1.3.0") == [1, 3, 0] {
    Release("1.3.0", "1", "3", "0", 1, 3, 0);
  }
  lemma V199() ensures PartsOf("1.9.9") == Parts("1.9.9", "") && CoreOf("1.9.9") == [1, 9, 9] {
    Release("1.9.9", "1", "9", "9", 1, 9, 9);
  }
  lemma V1() ensures PartsOf("1") == Parts("1", "") && CoreOf("1") == [1, 0, 0] {
    MajorRelease("1", 1);
  }
  lemma V10() ensures PartsOf("1.0") == Parts("1.0", "") && CoreOf("1.0") == [1, 0, 0] {
    MajorMinorRelease("1.0", "1", "0", 1, 0);
  }

  lemma MarkedV100() ensures PartsOf("v1.0.0") == Parts("1.0.0", "") {
    MarkedAs("v1.0.0", "1.0.0");
    V100();
  }
  lemma UpperMarkedV100() ensures PartsOf("V1.0.0") == Parts("1.0.0", "") {
    MarkedAs("V1.0.0", "1.0.0");
    V100();
  }
  lemma MarkedV009() ensures PartsOf("v0.0.9") == Parts("0.0.9", "") {
    MarkedAs("v0.0.9", "0.0.9");
    V009();
  }
  lemma MarkedV0010() ensures PartsOf("v0.0.10") == Parts("0.0.10", "") {
    MarkedAs("v0.0.10", "0.0.10");
    V0010();
  }
  lemma MarkedV123() ensures PartsOf("v1.2.3") == Parts("1.2.3", "") {
    MarkedAs("v1.2.3", "1.2.3");
    V123();
  }
  lemma MarkedV130() ensures PartsOf("v1.3.0") == Parts("1.3.0", "") {
    MarkedAs("v1.3.0", "1.3.0");
    V130();
  }
  lemma MarkedV200() ensures PartsOf("v2.0.0") == Parts("2.0.0", "") {
    MarkedAs("v2.0.0", "2.0.0");
    V200();
  }
  lemma MarkedV199() ensures PartsOf("v1.9.9") == Parts("1.9.9", "") {
    MarkedAs("v1.9.9", "1.9.9");
    V199();
  }
  lemma DoublyMarkedV123() ensures PartsOf("vV1.2.3") == Parts("1.2.3", "") {
    MarkedAs("vV1.2.3", "1.2.3");
    V123();
  }
  lemma UpperLowerV123() ensures PartsOf("Vv1.2.3") == Parts("v1.2.3", "") {
    UpperLowerAs("Vv1.2.3", "1.2.3", "v1.2.3");
  }
  lemma LetterV123() ensures CoreOf("v1.2.3") == [0, 2, 3] {
    LetterInMajor("v1.2.3", "1", "2", "3", 2, 3);
  }

  lemma Alpha() ensures PartsOf("1.0.0-alpha") == Parts("1.0.0", "alpha") {
    PreRelease("1.0.0-alpha", "1.0.0", "alpha");
  }
  lemma Beta() ensures PartsOf("1.0.0-beta") == Parts("1.0.0", "beta") {
    PreRelease("1.0.0-beta", "1.0.0", "beta");
  }
  lemma Alpha1() ensures PartsOf("1.0.0-alpha.1") == Parts("1.0.0", "alpha.1") {
    PreRelease("1.0.0-alpha.1", "1.0.0", "alpha.1");
  }
  lemma Alpha2() ensures PartsOf("1.0.0-alpha.2") == Parts("1.0.0", "alpha.2") {
    PreRelease("1.0.0-alpha.2", "1.0.0", "alpha.2");
  }
  lemma Numeric1() ensures PartsOf("1.0.0-1") == Parts("1.0.0", "1") {
    PreRelease("1.0.0-1", "1.0.0", "1");
  }
  lemma Numeric10() ensures PartsOf("1.0.0-10") == Parts("1.0.0", "10") {
    PreRelease("1.0.0-10", "1.0.0", "10");
  }
  lemma Numeric9() ensures PartsOf("1.0.0-9") == Parts("1.0.0", "9") {
    PreRelease("1.0.0-9", "1.0.0", "9");
  }
  lemma EmptyLabel() ensures PartsOf("1.0.0-") == Parts("1.0.0", "") {
    PreRelease("1.0.0-", "1.0.0", "");
  }

  lemma Build() ensures PartsOf("1.0.0+build") == Parts("1.0.0", "") {
    Tagged("1.0.0+build", "1.0.0", "build");
    V100();
  }
  lemma Build1() ensures PartsOf("1.0.0+build1") == Parts("1.0.0", "") {
    Tagged("1.0.0+build1", "1.0.0", "build1");
    V100();
  }
  lemma Build2() ensures PartsOf("1.0.0+build2") == Parts("1.0.0", "") {
    Tagged("1.0.0+build2", "1.0.0", "build2");
    V100();
  }
  lemma AlphaBuild() ensures PartsOf("1.0.0-alpha+build") == Parts("1.0.0", "alpha") {
    Tagged("1.0.0-alpha+build", "1.0.0-alpha", "build");
    Alpha();
  }

  lemma Abc() ensures PartsOf("abc") == Parts("abc", "") && CoreOf("abc") == [0, 0, 0] {
    PartsOfRelease("abc");
    SplitJoin(["abc"], '.');
    AtoiRejectsLetter("abc");
  }

  // ---------------------------------------------------------------------------
  // How parsed versions compare
  // ---------------------------------------------------------------------------

  /** Versions with the same parts tie. */
  lemma SameParts(v1: string, v2: string, p: Parts)
    requires PartsOf(v1) == p && PartsOf(v2) == p
    ensures VersionOrder(v1, v2) == 0
  {
  }

  /** Differing cores decide on their own. */
  lemma CoresDecide(v1: string, v2: string, b1: string, b2: string, pre1: string, pre2: string,
                    c1: seq<int>, c2: seq<int>, r: int)
    requires PartsOf(v1) == Parts(b1, pre1) && PartsOf(v2) == Parts(b2, pre2)
    requires CoreOf(b1) == c1 && CoreOf(b2) == c2
    requires LexCompare(c1, c2) == r && r != 0
    ensures VersionOrder(v1, v2) == r
  {
  }

  /** Equal cores leave the decision to the labels. */
  lemma LabelsDecide(v1: string, v2: string, b1: string, b2: string, pre1: string, pre2: string,
                     c: seq<int>, r: int)
    requires PartsOf(v1) == Parts(b1, pre1) && PartsOf(v2) == Parts(b2, pre2)
    requires CoreOf(b1) == c && CoreOf(b2) == c
    requires ComparePreReleases(pre1, pre2) == r
    ensures VersionOrder(v1, v2) == r
  {
  }

  lemma Lex200over100() ensures LexCompare([2, 0, 0], [1, 0, 0]) == 1 && LexCompare([1, 0, 0], [2, 0, 0]) == -1 { }
  lemma Lex120over110() ensures LexCompare([1, 2, 0], [1, 1, 0]) == 1 && LexCompare([1, 1, 0], [1, 2, 0]) == -1 { }
  lemma Lex102over101() ensures LexCompare([1, 0, 2], [1, 0, 1]) == 1 && LexCompare([1, 0, 1], [1, 0, 2]) == -1 { }
  lemma Lex009under0010() ensures LexCompare([0, 0, 9], [0, 0, 10]) == -1 { }
  lemma Lex123under130() ensures LexCompare([1, 2, 3], [1, 3, 0]) == -1 { }
  lemma Lex200over199() ensures LexCompare([2, 0, 0], [1, 9, 9]) == 1 { }
  lemma Lex023under123() ensures LexCompare([0, 2, 3], [1, 2, 3]) == -1 { }
  lemma Lex000under100() ensures LexCompare([0, 0, 0], [1, 0, 0]) == -1 { }

  lemma StableOverAlpha() ensures ComparePreReleases("", "alpha") == 1 && ComparePreReleases("alpha", "") == -1 { }
  lemma AlphaUnderBeta() ensures ComparePreReleases("alpha", "beta") == -1 && ComparePreReleases("beta", "alpha") == 1 { }
  lemma Alpha1UnderAlpha2() ensures ComparePreReleases("alpha.1", "alpha.2") == -1 { }
  lemma OneUnderTen() ensures ComparePreReleases("1", "10") == -1 { }
  lemma TenUnderNine() ensures ComparePreReleases("10", "9") == -1 { }
  lemma NoLabels() ensures ComparePreReleases("", "") == 0 { }

  // ---------------------------------------------------------------------------
  // Basic version comparisons (internal/semver_test.go:13-19)
  // ---------------------------------------------------------------------------

  lemma EqualVersions()
    ensures VersionOrder("1.0.0", "1.0.0") == 0
  {
    VersionOrderReflexive("1.0.0");
  }

  lemma MajorAbove()
    ensures VersionOrder("2.0.0", "1.0.0") == 1
  {
    V200(); V100(); Lex200over100();
    CoresDecide("2.0.0", "1.0.0", "2.0.0", "1.0.0", "", "", [2, 0, 0], [1, 0, 0], 1);
  }

  lemma MajorBelow()
    ensures VersionOrder("1.0.0", "2.0.0") == -1
  {
    V200(); V100(); Lex200over100();
    CoresDecide("1.0.0", "2.0.0", "1.0.0", "2.0.0", "", "", [1, 0, 0], [2, 0, 0], -1);
  }

  lemma MinorAbove()
    ensures VersionOrder("1.2.0", "1.1.0") == 1
  {
    V120(); V110(); Lex120over110();
    CoresDecide("1.2.0", "1.1.0", "1.2.0", "1.1.0", "", "", [1, 2, 0], [1, 1, 0], 1);
  }

  lemma MinorBelow()
    ensures VersionOrder("1.1.0", "1.2.0") == -1
  {
    V120(); V110(); Lex120over110();
    CoresDecide("1.1.0", "1.2.0", "1.1.0", "1.2.0", "", "", [1, 1, 0], [1, 2, 0], -1);
  }

  lemma PatchAbove()
    ensures VersionOrder("1.0.2", "1.0.1") == 1
  {
    V102(); V101(); Lex102over101();
    CoresDecide("1.0.2", "1.0.1", "1.0.2", "1.0.1", "", "", [1, 0, 2], [1, 0, 1], 1);
  }

  lemma PatchBelow()
    ensures VersionOrder("1.0.1", "1.0.2") == -1
  {
    V102(); V101(); Lex102over101();
    CoresDecide("1.0.1", "1.0.2", "1.0.1", "1.0.2", "", "", [1, 0, 1], [1, 0, 2], -1);
  }

  // ---------------------------------------------------------------------------
  // With v prefix (internal/semver_test.go:22-24)
  // ---------------------------------------------------------------------------

  lemma MarkedEqualsMarked()
    ensures VersionOrder("v1.0.0", "v1.0.0") == 0
  {
    VersionOrderReflexive("v1.0.0");
  }

  lemma MarkedEqualsBare()
    ensures VersionOrder("v1.0.0", "1.0.0") == 0
  {
    MarkedV100(); V100();
    SameParts("v1.0.0", "1.0.0", Parts("1.0.0", ""));
  }

  lemma UpperMarkerEqualsLower()
    ensures VersionOrder("V1.0.0", "v1.0.0") == 0
  {
    UpperMarkedV100(); MarkedV100();
    SameParts("V1.0.0", "v1.0.0", Parts("1.0.0", ""));
  }

  // ---------------------------------------------------------------------------
  // Pre-release versions (internal/semver_test.go:27-31)
  // ---------------------------------------------------------------------------

  lemma StableAbovePreRelease()
    ensures VersionOrder("1.0.0", "1.0.0-alpha") == 1
  {
    V100(); Alpha(); StableOverAlpha();
    LabelsDecide("1.0.0", "1.0.0-alpha", "1.0.0", "1.0.0", "", "alpha", [1, 0, 0], 1);
  }

  lemma PreReleaseBelowStable()
    ensures VersionOrder("1.0.0-alpha", "1.0.0") == -1
  {
    V100(); Alpha(); StableOverAlpha();
    LabelsDecide("1.0.0-alpha", "1.0.0", "1.0.0", "1.0.0", "alpha", "", [1, 0, 0], -1);
  }

  lemma AlphaBeforeBeta()
    ensures VersionOrder("1.0.0-alpha", "1.0.0-beta") == -1
  {
    V100(); Alpha(); Beta(); AlphaUnderBeta();
    LabelsDecide("1.0.0-alpha", "1.0.0-beta", "1.0.0", "1.0.0", "alpha", "beta", [1, 0, 0], -1);
  }

  lemma BetaAfterAlpha()
    ensures VersionOrder("1.0.0-beta", "1.0.0-alpha") == 1
  {
    V100(); Alpha(); Beta(); AlphaUnderBeta();
    LabelsDecide("1.0.0-beta", "1.0.0-alpha", "1.0.0", "1.0.0", "beta", "alpha", [1, 0, 0], 1);
  }

  lemma DottedLabels()
    ensures VersionOrder("1.0.0-alpha.1", "1.0.0-alpha.2") == -1
  {
    V100(); Alpha1(); Alpha2(); Alpha1UnderAlpha2();
    LabelsDecide("1.0.0-alpha.1", "1.0.0-alpha.2", "1.0.0", "1.0.0", "alpha.1", "alpha.2", [1, 0, 0], -1);
  }

  // ---------------------------------------------------------------------------
  // Build metadata (internal/semver_test.go:34-36)
  // ---------------------------------------------------------------------------

  lemma MetadataAgainstBare()
    ensures VersionOrder("1.0.0+build", "1.0.0") == 0
  {
    Build(); V100();
    SameParts("1.0.0+build", "1.0.0", Parts("1.0.0", ""));
  }

  lemma MetadataAgainstMetadata()
    ensures VersionOrder("1.0.0+build1", "1.0.0+build2") == 0
  {
    Build1(); Build2();
    SameParts("1.0.0+build1", "1.0.0+build2", Parts("1.0.0", ""));
  }

  lemma MetadataOnPreRelease()
    ensures VersionOrder("1.0.0-alpha+build", "1.0.0-alpha") == 0
  {
    AlphaBuild(); Alpha();
    SameParts("1.0.0-alpha+build", "1.0.0-alpha", Parts("1.0.0", "alpha"));
  }

  // ---------------------------------------------------------------------------
  // Real-world examples (internal/semver_test.go:39-41)
  // ---------------------------------------------------------------------------

  lemma PatchTenAfterNine()
    ensures VersionOrder("v0.0.9", "v0.0.10") == -1
  {
    MarkedV009(); MarkedV0010(); V009(); V0010(); Lex009under0010();
    CoresDecide("v0.0.9", "v0.0.10", "0.0.9", "0.0.10", "", "", [0, 0, 9], [0, 0, 10], -1);
  }

  lemma MinorBumpAfterPatch()
    ensures VersionOrder("v1.2.3", "v1.3.0") == -1
  {
    MarkedV123(); MarkedV130(); V123(); V130(); Lex123under130();
    CoresDecide("v1.2.3", "v1.3.0", "1.2.3", "1.3.0", "", "", [1, 2, 3], [1, 3, 0], -1);
  }

  lemma MajorBumpAfterNines()
    ensures VersionOrder("v2.0.0", "v1.9.9") == 1
  {
    MarkedV200(); MarkedV199(); V200(); V199(); Lex200over199();
    CoresDecide("v2.0.0", "v1.9.9", "2.0.0", "1.9.9", "", "", [2, 0, 0], [1, 9, 9], 1);
  }

  // ---------------------------------------------------------------------------
  // Edge cases (internal/semver_test.go:44-46)
  // ---------------------------------------------------------------------------

  lemma MajorOnly()
    ensures VersionOrder("1", "1.0.0") == 0
  {
    V1(); V100(); NoLabels();
    LabelsDecide("1", "1.0.0", "1", "1.0.0", "", "", [1, 0, 0], 0);
  }

  lemma MajorMinorOnly()
    ensures VersionOrder("1.0", "1.0.0") == 0
  {
    V10(); V100(); NoLabels();
    LabelsDecide("1.0", "1.0.0", "1.0", "1.0.0", "", "", [1, 0, 0], 0);
  }

  lemma NumericLabelPrefix()
    ensures VersionOrder("1.0.0-1", "1.0.0-10") == -1
  {
    V100(); Numeric1(); Numeric10(); OneUnderTen();
    LabelsDecide("1.0.0-1", "1.0.0-10", "1.0.0", "1.0.0", "1", "10", [1, 0, 0], -1);
  }

  // ---------------------------------------------------------------------------
  // Quirks of the code as written
  // ---------------------------------------------------------------------------

  /** Numeric labels compare as text: "10" sorts before "9". */
  lemma NumericLabelsCompareAsText()
    ensures VersionOrder("1.0.0-10", "1.0.0-9") == -1
  {
    V100(); Numeric10(); Numeric9(); TenUnderNine();
    LabelsDecide("1.0.0-10", "1.0.0-9", "1.0.0", "1.0.0", "10", "9", [1, 0, 0], -1);
  }

  /** A bare '-' leaves an empty label, which counts as stable. */
  lemma TrailingDash()
    ensures VersionOrder("1.0.0-", "1.0.0") == 0
  {
    EmptyLabel(); V100();
    SameParts("1.0.0-", "1.0.0", Parts("1.0.0", ""));
  }

  /** "vV" is trimmed completely. */
  lemma LowerThenUpperMarker()
    ensures VersionOrder("vV1.2.3", "1.2.3") == 0
  {
    DoublyMarkedV123(); V123();
    SameParts("vV1.2.3", "1.2.3", Parts("1.2.3", ""));
  }

  /** "Vv" keeps its "v", which then spoils the major segment. */
  lemma UpperThenLowerMarker()
    ensures VersionOrder("Vv1.2.3", "1.2.3") == -1
  {
    UpperLowerV123(); LetterV123(); V123(); Lex023under123();
    CoresDecide("Vv1.2.3", "1.2.3", "v1.2.3", "1.2.3", "", "", [0, 2, 3], [1, 2, 3], -1);
  }

  /** Unparseable input is read as 0.0.0, so it is older than "1.0.0" ... */
  lemma MalformedBelowRelease()
    ensures VersionOrder("abc", "1.0.0") == -1
  {
    Abc(); V100(); Lex000under100();
    CoresDecide("abc", "1.0.0", "abc", "1.0.0", "", "", [0, 0, 0], [1, 0, 0], -1);
  }

  /** ... and ties with "0.0.0". */
  lemma MalformedIsZero()
    ensures VersionOrder("abc", "0.0.0") == 0
  {
    Abc(); V000(); NoLabels();
    LabelsDecide("abc", "0.0.0", "abc", "0.0.0", "", "", [0, 0, 0], 0);
  }
}
