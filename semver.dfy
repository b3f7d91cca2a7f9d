/** The version comparator of internal/semver.go.

    A version string is read as `[v|V]MAJOR[.MINOR[.PATCH]][-PRERELEASE][+METADATA]`
    without being validated: leading markers are trimmed, build metadata is
    dropped, the numeric core becomes a triple of integers (0 for any segment
    that is missing or does not parse) and the pre-release label is compared
    ordinally. `CompareVersions` and the two methods it calls are the code;
    `VersionOrder`, `CoreOf` and `LexCompare` are the functions they are proved
    against, and the lemmas below are about those functions. */
module Semver {
  import opened GoStrings

  // ---------------------------------------------------------------------------
  // normalizeVersion
  // ---------------------------------------------------------------------------

  /** `v` starts with a "v" or "V" marker. */
  predicate HasMarker(v: string)
  {
    |v| > 0 && (v[0] == 'v' || v[0] == 'V')
  }

  /** How many leading characters `Normalize` removes: both of a leading "vV",
      otherwise one leading "v" or "V", otherwise none. */
  function MarkerLength(v: string): (d: nat)
    ensures d <= |v| && forall i :: 0 <= i < d ==> v[i] == 'v' || v[i] == 'V'
  {
    if |v| >= 2 && v[0] == 'v' && v[1] == 'V' then 2
    else if HasMarker(v) then 1
    else 0
  }

  /** Trims a leading "v" and then a leading "V", so "vV" loses both
      characters while "Vv" keeps its "v". */
  function Normalize(version: string): (r: string)
    ensures r == version[MarkerLength(version)..]
  {
    TrimPrefix(TrimPrefix(version, "v"), "V")
  }

  // ---------------------------------------------------------------------------
  // splitPreRelease
  // ---------------------------------------------------------------------------

  /** Everything before the first '+', or the whole string when it has none. */
  function StripMetadata(version: string): (r: string)
    ensures r <= version && '+' !in r
    ensures |r| < |version| ==> version[|r|] == '+'
  {
    var i := IndexOf(version, '+');
    if i == -1 then version else version[..i]
  }

  /** The numeric core and the pre-release label of a version string. */
  datatype Parts = Parts(base: string, pre: string)

  /** Drops the build metadata, then cuts at the first '-': the text before it
      is the core and the text after it the label; without a '-' the label is
      empty. */
  function SplitPreRelease(version: string): (p: Parts)
    ensures '-' !in p.base && '+' !in p.base && '+' !in p.pre
    ensures '-' in StripMetadata(version) ==> p.base + "-" + p.pre == StripMetadata(version)
    ensures '-' !in StripMetadata(version) ==> p.base == StripMetadata(version) && p.pre == ""
  {
    var v := StripMetadata(version);
    var i := IndexOf(v, '-');
    if i != -1 then
      assert v == v[..i] + "-" + v[i + 1..];
      Parts(v[..i], v[i + 1..])
    else Parts(v, "")
  }

  // ---------------------------------------------------------------------------
  // parseVersion
  // ---------------------------------------------------------------------------

  /** The number `parseVersion` records for the dot-separated segment at position
      `k`: the segment's Atoi value, or 0 when it is missing or does not parse. */
  function SegmentValue(segments: seq<string>, k: nat): int
  {
    if k < |segments| && Atoi(segments[k]).Some? then Atoi(segments[k]).value else 0
  }

  /** The (major, minor, patch) triple of a core string: the first three
      dot-separated segments, segments after the third ignored. */
  function CoreOf(v: string): (core: seq<int>)
    ensures |core| == 3
    ensures '-' !in v && '+' !in v ==> forall k :: 0 <= k < 3 ==> core[k] >= 0
  {
    var segments := Split(v, '.');
    SplitKeepsAbsent(v, '.', '-');
    SplitKeepsAbsent(v, '.', '+');
    [SegmentValue(segments, 0), SegmentValue(segments, 1), SegmentValue(segments, 2)]
  }

  /** The core is read from the segments Split returns. */
  lemma CoreOfSplit(v: string, segments: seq<string>)
    requires Split(v, '.') == segments
    ensures CoreOf(v) == [SegmentValue(segments, 0), SegmentValue(segments, 1), SegmentValue(segments, 2)]
  {
  }

  /** parseVersion: splits the core at '.' and reads its first three segments. */
  method ParseVersion(v: string) returns (core: seq<int>)
    ensures core == CoreOf(v)
  {
    var segments := Split(v, '.');
    core := ParseSegments(segments);
  }

  /** The loop of parseVersion: fills a zeroed three-element array from the
      first three segments, leaving a zero wherever Atoi fails. */
  method ParseSegments(segments: seq<string>) returns (core: seq<int>)
    ensures |core| == 3
    ensures forall k :: 0 <= k < 3 ==> core[k] == SegmentValue(segments, k)
  {
    var result := new int[3](_ => 0);
    var i := 0;
    while i < 3 && i < |segments|
      invariant 0 <= i <= 3
      invariant forall k :: 0 <= k < i ==> result[k] == SegmentValue(segments, k)
      invariant forall k :: i <= k < 3 ==> result[k] == 0
    {
      var parsed := Atoi(segments[i]);
      if parsed.Some? {
        result[i] := parsed.value;
      }
      assert result[i] == SegmentValue(segments, i);
      i := i + 1;
    }
    assert forall k :: i <= k < 3 ==> SegmentValue(segments, k) == 0;
    core := result[..];
  }

  // ---------------------------------------------------------------------------
  // compareBasicVersions
  // ---------------------------------------------------------------------------

  /** Lexicographic three-way comparison of two equally long integer sequences. */
  function LexCompare(a: seq<int>, b: seq<int>): (r: int)
    requires |a| == |b|
    ensures r == -1 || r == 0 || r == 1
    ensures r == 0 <==> a == b
  {
    if |a| == 0 then 0
    else if a[0] > b[0] then 1
    else if a[0] < b[0] then -1
    else
      var r := LexCompare(a[1..], b[1..]);
      assert a == [a[0]] + a[1..] && b == [b[0]] + b[1..];
      r
  }

  /** `a` and `b` agree before position `k` and `a` is larger at `k`. */
  ghost predicate GreaterAt(a: seq<int>, b: seq<int>, k: int)
  {
    0 <= k < |a| && k < |b| && a[..k] == b[..k] && a[k] > b[k]
  }

  /** Compares the parsed cores component by component, returning at the first
      component that differs. */
  method CompareBasicVersions(v1: string, v2: string) returns (r: int)
    ensures r == LexCompare(CoreOf(v1), CoreOf(v2))
  {
    var parts1 := ParseVersion(v1);
    var parts2 := ParseVersion(v2);
    var i := 0;
    while i < 3
      invariant 0 <= i <= 3
      invariant LexCompare(parts1, parts2) == LexCompare(parts1[i..], parts2[i..])
    {
      if parts1[i] > parts2[i] {
        return 1;
      }
      if parts1[i] < parts2[i] {
        return -1;
      }
      assert parts1[i..][1..] == parts1[i + 1..] && parts2[i..][1..] == parts2[i + 1..];
      i := i + 1;
    }
    return 0;
  }

  // ---------------------------------------------------------------------------
  // comparePreReleases
  // ---------------------------------------------------------------------------

  /** A stable release (empty label) is above any pre-release; two labels are
      ordered by `strings.Compare`, character by character. */
  function ComparePreReleases(v1Pre: string, v2Pre: string): (r: int)
    ensures r == -1 || r == 0 || r == 1
    ensures r == 0 <==> v1Pre == v2Pre
  {
    if v1Pre == "" && v2Pre != "" then 1
    else if v1Pre != "" && v2Pre == "" then -1
    else if v1Pre != "" && v2Pre != "" then CompareStrings(v1Pre, v2Pre)
    else 0
  }

  /** Label `p` ranks above label `q`: `p` is stable and `q` is not, or both
      are pre-releases and `q` orders strictly before `p`. */
  ghost predicate Outranks(p: string, q: string)
  {
    (p == "" && q != "") || (p != "" && q != "" && LexLess(q, p))
  }

  // ---------------------------------------------------------------------------
  // CompareVersions
  // ---------------------------------------------------------------------------

  /** The core and the label a version string is compared by. */
  function PartsOf(v: string): Parts
  {
    SplitPreRelease(Normalize(v))
  }

  /** The core triple a version string is compared by. */
  function CoreOfVersion(v: string): seq<int>
  {
    CoreOf(PartsOf(v).base)
  }

  /** The pre-release label a version string is compared by. */
  function PreReleaseOf(v: string): string
  {
    PartsOf(v).pre
  }

  /** Orders two split versions: cores first, labels on a tie. */
  function PartsOrder(p1: Parts, p2: Parts): (r: int)
    ensures r == -1 || r == 0 || r == 1
  {
    var cmp := LexCompare(CoreOf(p1.base), CoreOf(p2.base));
    if cmp != 0 then cmp else ComparePreReleases(p1.pre, p2.pre)
  }

  /** The ordering `CompareVersions` computes. */
  function VersionOrder(v1: string, v2: string): (r: int)
    ensures r == -1 || r == 0 || r == 1
  {
    PartsOrder(PartsOf(v1), PartsOf(v2))
  }

  /** -1, 0 or 1 as `v1` is older than, as new as, or newer than `v2`. */
  method CompareVersions(v1: string, v2: string) returns (r: int)
    ensures r == -1 || r == 0 || r == 1
    ensures r == VersionOrder(v1, v2)
  {
    var n1 := Normalize(v1);
    var n2 := Normalize(v2);
    var p1 := SplitPreRelease(n1);
    var p2 := SplitPreRelease(n2);
    var cmp := CompareBasicVersions(p1.base, p2.base);
    if cmp != 0 {
      return cmp;
    }
    return ComparePreReleases(p1.pre, p2.pre);
  }

  // ===========================================================================
  // Properties of the core comparison
  // ===========================================================================

  /** The comparison is 1 exactly when `a` is larger at the first difference. */
  lemma {:induction false} LexCompareGreater(a: seq<int>, b: seq<int>)
    requires |a| == |b|
    ensures LexCompare(a, b) == 1 <==> exists k :: GreaterAt(a, b, k)
  {
    if |a| > 0 {
      if a[0] != b[0] {
        forall k | 0 < k <= |a| ensures a[..k] != b[..k] {
          assert a[..k][0] != b[..k][0];
        }
        if a[0] > b[0] { assert GreaterAt(a, b, 0); }
      } else {
        var a', b' := a[1..], b[1..];
        LexCompareGreater(a', b');
        forall k ensures GreaterAt(a, b, k) <==> k >= 1 && GreaterAt(a', b', k - 1) {
          if 1 <= k <= |a| {
            assert a[..k] == [a[0]] + a'[..k - 1];
            assert b[..k] == [a[0]] + b'[..k - 1];
          }
        }
        if exists k :: GreaterAt(a', b', k) {
          var k :| GreaterAt(a', b', k);
          assert GreaterAt(a, b, k + 1);
        }
      }
    }
  }

  /** Swapping the cores negates the comparison. */
  lemma {:induction false} LexCompareAntisymmetric(a: seq<int>, b: seq<int>)
    requires |a| == |b|
    ensures LexCompare(b, a) == -LexCompare(a, b)
  {
    if |a| > 0 && a[0] == b[0] {
      LexCompareAntisymmetric(a[1..], b[1..]);
    }
  }

  /** Not-above is transitive on cores. */
  lemma {:induction false} LexCompareTransitive(a: seq<int>, b: seq<int>, c: seq<int>)
    requires |a| == |b| == |c|
    requires LexCompare(a, b) <= 0 && LexCompare(b, c) <= 0
    ensures LexCompare(a, c) <= 0
  {
    if |a| > 0 && a[0] == b[0] == c[0] {
      LexCompareTransitive(a[1..], b[1..], c[1..]);
    }
  }

  // ===========================================================================
  // Properties of the label comparison
  // ===========================================================================

  /** `ComparePreReleases` says 1 exactly when the first label outranks the second. */
  lemma PreReleaseGreater(p: string, q: string)
    ensures ComparePreReleases(p, q) == 1 <==> Outranks(p, q)
  {
    if p != "" && q != "" {
      CompareStringsAntisymmetric(p, q);
      CompareStringsLess(q, p);
    }
  }

  /** Swapping the labels negates the comparison. */
  lemma PreReleaseAntisymmetric(p: string, q: string)
    ensures ComparePreReleases(q, p) == -ComparePreReleases(p, q)
  {
    if p != "" && q != "" {
      CompareStringsAntisymmetric(p, q);
    }
  }

  /** Not-above is transitive on labels. */
  lemma PreReleaseTransitive(p: string, q: string, s: string)
    requires ComparePreReleases(p, q) <= 0 && ComparePreReleases(q, s) <= 0
    ensures ComparePreReleases(p, s) <= 0
  {
    if p != "" && q != "" && s != "" && p != q && q != s {
      CompareStringsTransitive(p, q, s);
    }
  }

  // ===========================================================================
  // Properties of CompareVersions
  // ===========================================================================

  /** Every version is as new as itself. */
  lemma VersionOrderReflexive(v: string)
    ensures VersionOrder(v, v) == 0
  {
  }

  /** Swapping the arguments negates the result. */
  lemma VersionOrderAntisymmetric(v1: string, v2: string)
    ensures VersionOrder(v2, v1) == -VersionOrder(v1, v2)
  {
    LexCompareAntisymmetric(CoreOfVersion(v1), CoreOfVersion(v2));
    PreReleaseAntisymmetric(PreReleaseOf(v1), PreReleaseOf(v2));
  }

  /** "Not newer than" is transitive, so the comparison is a total preorder. */
  lemma VersionOrderTransitive(v1: string, v2: string, v3: string)
    requires VersionOrder(v1, v2) <= 0 && VersionOrder(v2, v3) <= 0
    ensures VersionOrder(v1, v3) <= 0
  {
    var c1, c2, c3 := CoreOfVersion(v1), CoreOfVersion(v2), CoreOfVersion(v3);
    LexCompareTransitive(c1, c2, c3);
    if c1 == c3 {
      LexCompareAntisymmetric(c1, c2);
      assert c1 == c2;
      PreReleaseTransitive(PreReleaseOf(v1), PreReleaseOf(v2), PreReleaseOf(v3));
    }
  }

  /** "Newer than" is transitive. */
  lemma VersionOrderNewerTransitive(v1: string, v2: string, v3: string)
    requires VersionOrder(v1, v2) == 1 && VersionOrder(v2, v3) == 1
    ensures VersionOrder(v1, v3) == 1
  {
    VersionOrderAntisymmetric(v1, v2);
    VersionOrderAntisymmetric(v2, v3);
    VersionOrderAntisymmetric(v1, v3);
    VersionOrderTransitive(v3, v2, v1);
    if VersionOrder(v1, v3) == 0 {
      VersionOrderTransitive(v2, v1, v3);
    }
  }

  /** `v1` is newer than `v2` exactly when its core is larger at the first
      component that differs, or the cores agree and its label outranks. */
  lemma VersionOrderGreater(v1: string, v2: string)
    ensures VersionOrder(v1, v2) == 1 <==>
      (exists k :: GreaterAt(CoreOfVersion(v1), CoreOfVersion(v2), k))
      || (CoreOfVersion(v1) == CoreOfVersion(v2) && Outranks(PreReleaseOf(v1), PreReleaseOf(v2)))
  {
    LexCompareGreater(CoreOfVersion(v1), CoreOfVersion(v2));
    PreReleaseGreater(PreReleaseOf(v1), PreReleaseOf(v2));
  }

  /** Strings with the same core and label compare alike against everything. */
  lemma SamePartsSameOrder(v1: string, v2: string, w: string)
    requires PartsOf(v1) == PartsOf(v2)
    ensures VersionOrder(v1, w) == VersionOrder(v2, w)
    ensures VersionOrder(w, v1) == VersionOrder(w, v2)
  {
  }

  /** The normal form of a bare version, with either marker in front or none. */
  lemma NormalizeBare(v: string)
    requires !HasMarker(v)
    ensures Normalize("v" + v) == v && Normalize("V" + v) == v && Normalize(v) == v
  {
    var s, t := "v" + v, "V" + v;
    assert |v| > 0 ==> s[1] == v[0];
    assert s[1..] == v && t[1..] == v;
  }

  /** A leading "v" or "V" in front of a bare version changes nothing. */
  lemma PrefixInvariance(v: string, w: string)
    requires !HasMarker(v)
    ensures VersionOrder("v" + v, w) == VersionOrder(v, w)
    ensures VersionOrder("V" + v, w) == VersionOrder(v, w)
  {
    NormalizeBare(v);
    SamePartsSameOrder("v" + v, v, w);
    SamePartsSameOrder("V" + v, v, w);
  }

  /** Both markers go when "v" comes first, only the "V" when it comes first. */
  lemma MarkerOrder(v: string)
    ensures Normalize("vV" + v) == v
    ensures Normalize("Vv" + v) == "v" + v
  {
    assert ("vV" + v)[2..] == v;
    assert ("Vv" + v)[1..] == "v" + v;
  }

  /** Stripping metadata after a '+'-free head strips it from the tail alone. */
  lemma StripMetadataAppend(a: string, u: string)
    requires '+' !in a
    ensures StripMetadata(a + u) == a + StripMetadata(u)
  {
    IndexOfAppend(a, u, '+');
    if '+' in u {
      var i := IndexOf(u, '+');
      assert (a + u)[..|a| + i] == a + u[..i];
    } else {
      assert '+' !in a + u;
    }
  }

  /** A string without '+' has no metadata to strip. */
  lemma StripMetadataNoPlus(v: string)
    requires '+' !in v
    ensures StripMetadata(v) == v
  {
  }

  /** Trimming markers only removes characters in front of the first '+'. */
  lemma NormalizeStripCommute(v: string)
    ensures StripMetadata(Normalize(v)) == Normalize(StripMetadata(v))
  {
    var d := MarkerLength(v);
    var a, u := v[..d], v[d..];
    assert v == a + u;
    assert '+' !in a;
    StripMetadataAppend(a, u);
    var x := StripMetadata(u);
    var m := a + x;
    assert |x| > 0 ==> m[d] == v[d];
    assert forall i :: 0 <= i < d ==> m[i] == v[i];
    assert MarkerLength(m) == d;
    assert m[d..] == x;
  }

  /** Both parts depend only on what precedes the first '+' of the normal form. */
  lemma SplitIgnoresMetadata(v: string)
    ensures PartsOf(v) == PartsOf(StripMetadata(v))
  {
    NormalizeStripCommute(v);
    SplitPreReleaseStripped(Normalize(v));
  }

  /** `splitPreRelease` looks only at what precedes the first '+'. */
  lemma SplitPreReleaseStripped(v: string)
    ensures SplitPreRelease(v) == SplitPreRelease(StripMetadata(v))
  {
    StripMetadataNoPlus(StripMetadata(v));
  }

  /** Everything from the first '+' onward is ignored. */
  lemma MetadataIgnored(v: string, w: string)
    ensures VersionOrder(v, w) == VersionOrder(StripMetadata(v), w)
    ensures VersionOrder(w, v) == VersionOrder(w, StripMetadata(v))
  {
    SplitIgnoresMetadata(v);
    SamePartsSameOrder(v, StripMetadata(v), w);
  }

  /** Appending build metadata to a version without any changes nothing. */
  lemma BuildMetadataInvariance(v: string, metadata: string, w: string)
    requires '+' !in v
    ensures VersionOrder(v + "+" + metadata, w) == VersionOrder(v, w)
    ensures VersionOrder(w, v + "+" + metadata) == VersionOrder(w, v)
  {
    var s := v + "+" + metadata;
    assert StripMetadata(s) == v by {
      assert s == v + ("+" + metadata);
      StripMetadataAppend(v, "+" + metadata);
      assert ("+" + metadata)[0] == '+';
    }
    MetadataIgnored(s, w);
    StripMetadataNoPlus(v);
  }

  /** A trailing '-' with nothing after it leaves a stable release. */
  lemma TrailingDashIsStable(v: string)
    requires '-' !in v && '+' !in v
    ensures SplitPreRelease(v + "-") == Parts(v, "")
  {
    var s := v + "-";
    assert StripMetadata(s) == s by {
      assert '+' !in s;
    }
    assert s[|v|] == '-';
  }

  /** Every parsed core component is non-negative: signs never reach Atoi. */
  lemma CoreOfVersionNonNegative(v: string)
    ensures forall k :: 0 <= k < 3 ==> CoreOfVersion(v)[k] >= 0
  {
  }

  /** A difference in the cores decides the result whatever the labels say. */
  lemma CoreDecidesFirst(v1: string, v2: string, k: int)
    requires GreaterAt(CoreOfVersion(v1), CoreOfVersion(v2), k)
    ensures VersionOrder(v1, v2) == 1 && VersionOrder(v2, v1) == -1
  {
    LexCompareGreater(CoreOfVersion(v1), CoreOfVersion(v2));
    VersionOrderAntisymmetric(v1, v2);
  }

  /** With equal cores, a stable release is newer than any pre-release. */
  lemma StableOutranksPreRelease(v1: string, v2: string)
    requires CoreOfVersion(v1) == CoreOfVersion(v2)
    requires PreReleaseOf(v1) == "" && PreReleaseOf(v2) != ""
    ensures VersionOrder(v1, v2) == 1 && VersionOrder(v2, v1) == -1
  {
  }

  /** With equal cores, two labels are ordered character by character. */
  lemma LabelsOrderedBytewise(v1: string, v2: string)
    requires CoreOfVersion(v1) == CoreOfVersion(v2)
    requires PreReleaseOf(v1) != "" && PreReleaseOf(v2) != ""
    ensures VersionOrder(v1, v2) == -1 <==> LexLess(PreReleaseOf(v1), PreReleaseOf(v2))
  {
    CompareStringsLess(PreReleaseOf(v1), PreReleaseOf(v2));
  }

  // ===========================================================================
  // Zero-defaulting of the core
  // ===========================================================================

  /** A segment that is missing, or that Atoi rejects, counts as 0. */
  lemma UnparsedSegmentIsZero(v: string, k: nat)
    requires k < 3
    requires k >= |Split(v, '.')| || Atoi(Split(v, '.')[k]) == None
    ensures CoreOf(v)[k] == 0
  {
  }

  /** Segments after the third are ignored. */
  lemma ExtraSegmentsIgnored(v: string, rest: string)
    requires |Split(v, '.')| >= 3
    ensures CoreOf(v + "." + rest) == CoreOf(v)
  {
    SplitAppend(v, rest, '.');
    var p, q := Split(v + "." + rest, '.'), Split(v, '.');
    assert forall k :: 0 <= k < 3 ==> p[k] == q[k];
  }

  /** Atoi reads "0" as zero. */
  lemma AtoiZero()
    ensures Atoi("0") == Some(0)
  {
    assert "0"[..0] == "";
  }

  /** A trailing "0" segment at position three or earlier records the same
      numbers as no segment there. */
  lemma TrailingZeroSegment(q: seq<string>, k: nat)
    requires |q| < 3 && k < 3
    ensures SegmentValue(q + ["0"], k) == SegmentValue(q, k)
  {
    if k < |q| {
      assert (q + ["0"])[k] == q[k];
    } else if k == |q| {
      assert (q + ["0"])[k] == "0";
      AtoiZero();
    }
  }

  /** Appending a ".0" segment to a core of fewer than three segments changes nothing. */
  lemma ZeroSegmentDefault(v: string)
    requires |Split(v, '.')| < 3
    ensures CoreOf(v + ".0") == CoreOf(v)
  {
    var q := Split(v, '.');
    assert Split(v + ".0", '.') == q + ["0"] by {
      assert v + ".0" == v + ['.'] + "0";
      SplitAppend(v, "0", '.');
      assert Split("0", '.') == ["0"];
    }
    TrailingZeroSegment(q, 0);
    TrailingZeroSegment(q, 1);
    TrailingZeroSegment(q, 2);
  }

  // ===========================================================================
  // Well-formed versions
  // ===========================================================================

  /** A segment Atoi accepts without a sign: decimal digits that fit in 64 bits. */
  predicate NumericSegment(s: string)
  {
    |s| > 0 && AllDigits(s) && DigitsValue(s) <= MaxInt64
  }

  /** A segment of decimal digits holds no other character. */
  lemma NumericSegmentChars(s: string, c: char)
    requires NumericSegment(s) && !IsDigit(c)
    ensures c !in s
  {
    forall i | 0 <= i < |s| ensures s[i] != c {
      AllDigitsAt(s, i);
    }
  }

  /** "MAJOR.MINOR.PATCH" with three numeric segments parses to their values. */
  lemma CoreOfNumeric(major: string, minor: string, patch: string)
    requires NumericSegment(major) && NumericSegment(minor) && NumericSegment(patch)
    ensures CoreOf(major + "." + minor + "." + patch)
         == [DigitsValue(major), DigitsValue(minor), DigitsValue(patch)]
  {
    NumericSegmentChars(major, '.');
    NumericSegmentChars(minor, '.');
    NumericSegmentChars(patch, '.');
    var segments := [major, minor, patch];
    assert Join(segments, '.') == major + "." + minor + "." + patch by {
      assert Join(segments[2..], '.') == patch;
      assert Join(segments[1..], '.') == minor + "." + patch;
    }
    SplitJoin(segments, '.');
    AtoiDigits(major);
    AtoiDigits(minor);
    AtoiDigits(patch);
  }

  /** A version without marker, '-' or '+' is a stable release of itself. */
  lemma PartsOfRelease(core: string)
    requires !HasMarker(core) && '-' !in core && '+' !in core
    ensures PartsOf(core) == Parts(core, "")
  {
    StripMetadataNoPlus(core);
  }

  /** "CORE-LABEL" without marker or '+' splits into the core and the label. */
  lemma PartsOfPreRelease(core: string, pre: string)
    requires !HasMarker(core) && '-' !in core && '+' !in core && '+' !in pre
    ensures PartsOf(core + "-" + pre) == Parts(core, pre)
  {
    var v := core + "-" + pre;
    assert !HasMarker(v) by {
      assert |core| > 0 ==> v[0] == core[0];
      assert |core| == 0 ==> v[0] == '-';
    }
    assert '+' !in v;
    StripMetadataNoPlus(v);
    assert v == core + ("-" + pre);
    IndexOfAppend(core, "-" + pre, '-');
    assert ("-" + pre)[0] == '-';
    assert v[..|core|] == core && v[|core| + 1..] == pre;
  }
}
