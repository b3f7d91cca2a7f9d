/** Models of the few functions of Go's `strings` and `strconv` packages that the
    version comparator and the install-source heuristic rely on.

    Go strings are byte sequences and the library compares and indexes them byte
    by byte; here a string is a `seq<char>` of Unicode scalar values. Every
    separator the callers look for is ASCII, and for valid UTF-8 the byte order
    and the code-point order agree, so the substrings produced and the orderings
    computed are the same. */
module GoStrings {

  datatype Option<T> = None | Some(value: T)

  // ---------------------------------------------------------------------------
  // strings.Index with a one-character needle
  // ---------------------------------------------------------------------------

  /** Position of the first `c` in `s`, or -1 when `s` has none. */
  function IndexOf(s: string, c: char): (r: int)
    ensures -1 <= r < |s|
    ensures r == -1 <==> c !in s
    ensures r >= 0 ==> s[r] == c && c !in s[..r]
  {
    if |s| == 0 then -1
    else if s[0] == c then 0
    else
      var k := IndexOf(s[1..], c);
      if k == -1 then -1
      else
        assert s[..k + 1] == [s[0]] + s[1..][..k];
        k + 1
  }

  /** The first occurrence of `c` in `a + t` is the first in `a` when `a` has one,
      and otherwise lies `|a|` places further than the first in `t`. */
  lemma {:induction false} IndexOfAppend(a: string, t: string, c: char)
    ensures c in a ==> IndexOf(a + t, c) == IndexOf(a, c)
    ensures c !in a && c in t ==> IndexOf(a + t, c) == |a| + IndexOf(t, c)
  {
    if |a| == 0 {
      assert a + t == t;
    } else if a[0] != c {
      assert (a + t)[1..] == a[1..] + t;
      assert c in a <==> c in a[1..] by { assert a == [a[0]] + a[1..]; }
      IndexOfAppend(a[1..], t, c);
    }
  }

  // ---------------------------------------------------------------------------
  // strings.TrimPrefix
  // ---------------------------------------------------------------------------

  /** `s` without the leading `prefix`, or `s` itself when it does not start with it. */
  function TrimPrefix(s: string, prefix: string): (r: string)
    ensures prefix <= s ==> prefix + r == s
    ensures !(prefix <= s) ==> r == s
  {
    if prefix <= s then s[|prefix|..] else s
  }

  // ---------------------------------------------------------------------------
  // strings.Contains
  // ---------------------------------------------------------------------------

  /** `sub` occurs in `s` starting at position `i`. */
  ghost predicate OccursAt(s: string, sub: string, i: int)
  {
    0 <= i && i + |sub| <= |s| && s[i..i + |sub|] == sub
  }

  /** Every character of an occurrence of `sub` is a character of `s`. */
  lemma OccursAtHas(s: string, sub: string, i: int, j: int)
    requires OccursAt(s, sub, i) && 0 <= j < |sub|
    ensures sub[j] in s
  {
    assert s[i + j] == s[i..i + |sub|][j];
  }

  /** A string lacking one of the characters of `sub` has no occurrence of it. */
  lemma AbsentCharNoOccurrence(s: string, sub: string, j: int)
    requires 0 <= j < |sub| && sub[j] !in s
    ensures forall i :: !OccursAt(s, sub, i)
  {
    forall i | OccursAt(s, sub, i) ensures false {
      OccursAtHas(s, sub, i, j);
    }
  }

  /** Whether `sub` is a substring of `s`; the empty string is in every string. */
  function Contains(s: string, sub: string): (r: bool)
    ensures r <==> exists i :: OccursAt(s, sub, i)
    decreases |s|
  {
    if sub <= s then
      assert OccursAt(s, sub, 0);
      true
    else if |s| <= |sub| then
      assert |sub| == |s| ==> s[0..|sub|] == s;
      false
    else
      var r := Contains(s[1..], sub);
      forall i ensures OccursAt(s[1..], sub, i) <==> OccursAt(s, sub, i + 1) {
        if 0 <= i && i + |sub| <= |s| - 1 {
          assert s[1..][i..i + |sub|] == s[i + 1..i + 1 + |sub|];
        }
      }
      assert !OccursAt(s, sub, 0);
      assert forall i :: OccursAt(s, sub, i) ==> i >= 1 && OccursAt(s[1..], sub, i - 1);
      r
  }

  // ---------------------------------------------------------------------------
  // strings.Split and strings.Join with a one-character separator
  // ---------------------------------------------------------------------------

  /** The parts of `parts` glued together with `sep` between neighbours. */
  function Join(parts: seq<string>, sep: char): string
    requires |parts| >= 1
  {
    if |parts| == 1 then parts[0] else parts[0] + [sep] + Join(parts[1..], sep)
  }

  /** The pieces of `s` between occurrences of `sep`: `n` separators give `n + 1`
      pieces, so the empty string gives one empty piece. */
  function Split(s: string, sep: char): (parts: seq<string>)
    ensures |parts| >= 1
    ensures forall k :: 0 <= k < |parts| ==> sep !in parts[k]
    decreases |s|
  {
    var i := IndexOf(s, sep);
    if i == -1 then [s]
    else
      var rest := Split(s[i + 1..], sep);
      [s[..i]] + rest
  }

  /** Joining the pieces with the separator rebuilds the string. */
  lemma {:induction false} JoinSplit(s: string, sep: char)
    ensures Join(Split(s, sep), sep) == s
    decreases |s|
  {
    if sep in s {
      SplitAtFirst(s, sep);
      var i := IndexOf(s, sep);
      var rest := Split(s[i + 1..], sep);
      JoinSplit(s[i + 1..], sep);
      var parts := [s[..i]] + rest;
      assert parts[0] == s[..i] && parts[1..] == rest;
      assert Join(parts, sep) == s[..i] + [sep] + Join(rest, sep);
      assert s == s[..i] + [sep] + s[i + 1..];
    }
  }

  /** A character absent from `s` is absent from each of its pieces. */
  lemma {:induction false} SplitKeepsAbsent(s: string, sep: char, c: char)
    ensures c !in s ==> forall k :: 0 <= k < |Split(s, sep)| ==> c !in Split(s, sep)[k]
    decreases |s|
  {
    if sep in s && c !in s {
      var i := IndexOf(s, sep);
      SplitAtFirst(s, sep);
      assert c !in s[..i];
      assert s == s[..i + 1] + s[i + 1..];
      SplitKeepsAbsent(s[i + 1..], sep, c);
    }
  }

  /** Unfolds `Split` once at the first separator. */
  lemma SplitAtFirst(s: string, sep: char)
    requires sep in s
    ensures IndexOf(s, sep) >= 0
    ensures Split(s, sep) == [s[..IndexOf(s, sep)]] + Split(s[IndexOf(s, sep) + 1..], sep)
  {
  }

  /** Splitting what was joined gives back the parts, when no part holds the separator. */
  lemma {:induction false} SplitJoin(parts: seq<string>, sep: char)
    requires |parts| >= 1
    requires forall k :: 0 <= k < |parts| ==> sep !in parts[k]
    ensures Split(Join(parts, sep), sep) == parts
    decreases |parts|
  {
    if |parts| > 1 {
      var h, t := parts[0], Join(parts[1..], sep);
      assert Join(parts, sep) == h + [sep] + t;
      SplitAfterPlain(h, t, sep);
      SplitJoin(parts[1..], sep);
      assert parts == [h] + parts[1..];
    }
  }

  /** A separator after a string free of separators cuts exactly there. */
  lemma SplitAfterPlain(a: string, b: string, sep: char)
    requires sep !in a
    ensures Split(a + [sep] + b, sep) == [a] + Split(b, sep)
  {
    var s := a + [sep] + b;
    assert IndexOf(s, sep) == |a| by {
      assert s == a + ([sep] + b);
      IndexOfAppend(a, [sep] + b, sep);
      assert ([sep] + b)[0] == sep;
    }
    assert s[..|a|] == a;
    assert s[|a| + 1..] == b;
    SplitAtFirst(s, sep);
  }

  /** A separator glues two strings into one whose pieces are the pieces of both. */
  lemma {:induction false} SplitAppend(a: string, b: string, sep: char)
    ensures Split(a + [sep] + b, sep) == Split(a, sep) + Split(b, sep)
    decreases |a|
  {
    if sep in a {
      var s := a + [sep] + b;
      var j := IndexOf(a, sep);
      var h, a' := a[..j], a[j + 1..];
      assert a == h + [sep] + a';
      assert s == h + [sep] + (a' + [sep] + b);
      assert sep !in h;
      SplitAfterPlain(h, a' + [sep] + b, sep);
      SplitAfterPlain(h, a', sep);
      SplitAppend(a', b, sep);
    } else {
      SplitAfterPlain(a, b, sep);
    }
  }

  // ---------------------------------------------------------------------------
  // strings.Compare
  // ---------------------------------------------------------------------------

  /** `a` orders strictly before `b`: a proper prefix of it, or smaller at the
      first position where the two differ. */
  ghost predicate LexLess(a: string, b: string)
  {
    ProperPrefix(a, b) || LessAtDifference(a, b)
  }

  ghost predicate ProperPrefix(a: string, b: string)
  {
    |a| < |b| && a == b[..|a|]
  }

  ghost predicate LessAtDifference(a: string, b: string)
  {
    exists k :: DiffersFirstAt(a, b, k) && a[k] < b[k]
  }

  /** `k` is the first position where `a` and `b` hold different characters. */
  ghost predicate DiffersFirstAt(a: string, b: string, k: int)
  {
    0 <= k < |a| && k < |b| && a[..k] == b[..k] && a[k] != b[k]
  }

  /** Three-way ordinal comparison of two strings: -1, 0 or 1. */
  function CompareStrings(a: string, b: string): (r: int)
    ensures r == -1 || r == 0 || r == 1
    ensures r == 0 <==> a == b
  {
    if |a| == 0 then (if |b| == 0 then 0 else -1)
    else if |b| == 0 then 1
    else if a[0] < b[0] then -1
    else if a[0] > b[0] then 1
    else
      var r := CompareStrings(a[1..], b[1..]);
      assert a == [a[0]] + a[1..] && b == [b[0]] + b[1..];
      r
  }

  /** Swapping the arguments negates the result. */
  lemma {:induction false} CompareStringsAntisymmetric(a: string, b: string)
    ensures CompareStrings(b, a) == -CompareStrings(a, b)
  {
    if |a| > 0 && |b| > 0 && a[0] == b[0] {
      CompareStringsAntisymmetric(a[1..], b[1..]);
    }
  }

  /** The comparison says -1 exactly when `a` orders before `b` lexicographically. */
  lemma {:induction false} CompareStringsLess(a: string, b: string)
    ensures CompareStrings(a, b) == -1 <==> LexLess(a, b)
  {
    if |a| == 0 {
      if |b| > 0 { assert a == b[..0]; }
      assert forall k :: !DiffersFirstAt(a, b, k);
    } else if |b| == 0 {
      assert forall k :: !DiffersFirstAt(a, b, k);
    } else if a[0] != b[0] {
      HeadsDiffer(a, b);
    } else {
      CompareStringsLess(a[1..], b[1..]);
      ProperPrefixTail(a, b);
      LessAtDifferenceTail(a, b);
    }
  }

  /** Different first characters decide the order, and neither is a prefix. */
  lemma HeadsDiffer(a: string, b: string)
    requires |a| > 0 && |b| > 0 && a[0] != b[0]
    ensures !ProperPrefix(a, b)
    ensures LessAtDifference(a, b) <==> a[0] < b[0]
  {
    assert DiffersFirstAt(a, b, 0);
    forall k | 0 < k <= |a| && k <= |b| ensures a[..k] != b[..k] {
      assert a[..k][0] != b[..k][0];
    }
    assert |a| < |b| ==> b[..|a|][0] != a[0];
  }

  /** Dropping an equal first character keeps a proper prefix a proper prefix. */
  lemma ProperPrefixTail(a: string, b: string)
    requires |a| > 0 && |b| > 0 && a[0] == b[0]
    ensures ProperPrefix(a, b) <==> ProperPrefix(a[1..], b[1..])
  {
    var a', b' := a[1..], b[1..];
    assert a == [a[0]] + a' && b == [a[0]] + b';
    if |a| < |b| { assert b[..|a|] == [a[0]] + b'[..|a'|]; }
  }

  /** Dropping an equal first character moves the first difference one back. */
  lemma DiffersFirstAtTail(a: string, b: string, k: int)
    requires |a| > 0 && |b| > 0 && a[0] == b[0] && k >= 1
    ensures DiffersFirstAt(a, b, k) <==> DiffersFirstAt(a[1..], b[1..], k - 1)
  {
    if k <= |a| && k <= |b| {
      assert a[..k] == [a[0]] + a[1..][..k - 1];
      assert b[..k] == [b[0]] + b[1..][..k - 1];
    }
  }

  /** Dropping an equal first character keeps the order at the first difference. */
  lemma LessAtDifferenceTail(a: string, b: string)
    requires |a| > 0 && |b| > 0 && a[0] == b[0]
    ensures LessAtDifference(a, b) <==> LessAtDifference(a[1..], b[1..])
  {
    var a', b' := a[1..], b[1..];
    if LessAtDifference(a, b) {
      var k :| DiffersFirstAt(a, b, k) && a[k] < b[k];
      DiffersFirstAtTail(a, b, k);
      assert DiffersFirstAt(a', b', k - 1) && a'[k - 1] < b'[k - 1];
    }
    if LessAtDifference(a', b') {
      var k :| DiffersFirstAt(a', b', k) && a'[k] < b'[k];
      DiffersFirstAtTail(a, b, k + 1);
      assert DiffersFirstAt(a, b, k + 1) && a[k + 1] < b[k + 1];
    }
  }

  /** Ordering before is transitive. */
  lemma {:induction false} CompareStringsTransitive(a: string, b: string, c: string)
    requires CompareStrings(a, b) == -1 && CompareStrings(b, c) == -1
    ensures CompareStrings(a, c) == -1
  {
    if |a| > 0 && |b| > 0 && |c| > 0 && a[0] == b[0] == c[0] {
      CompareStringsTransitive(a[1..], b[1..], c[1..]);
    }
  }

  // ---------------------------------------------------------------------------
  // strconv.Atoi for a 64-bit `int`
  // ---------------------------------------------------------------------------

  const MaxInt64: int := 0x7fff_ffff_ffff_ffff
  const MinInt64: int := -0x8000_0000_0000_0000

  predicate IsDigit(c: char)
  {
    '0' <= c <= '9'
  }

  /** `s` holds decimal digits only. */
  predicate AllDigits(s: string)
  {
    |s| == 0 || (AllDigits(s[..|s| - 1]) && IsDigit(s[|s| - 1]))
  }

  /** Every character of an all-digit string is a digit. */
  lemma {:induction false} AllDigitsAt(s: string, i: int)
    requires AllDigits(s) && 0 <= i < |s|
    ensures IsDigit(s[i])
  {
    if i < |s| - 1 {
      AllDigitsAt(s[..|s| - 1], i);
    }
  }

  /** The base-10 value of a string of decimal digits (leading zeros allowed). */
  function DigitsValue(s: string): (n: nat)
    requires AllDigits(s)
  {
    if |s| == 0 then 0
    else DigitsValue(s[..|s| - 1]) * 10 + (s[|s| - 1] as int - '0' as int)
  }

  /** What Atoi reads as digits: `s` without one leading sign. */
  function Unsigned(s: string): string
  {
    if |s| > 0 && (s[0] == '+' || s[0] == '-') then s[1..] else s
  }

  /** strconv.Atoi: the value of an optionally signed decimal that fits in 64 bits;
      anything else (empty, a stray character, out of range) is an error. */
  function Atoi(s: string): (r: Option<int>)
    ensures r.Some? ==> MinInt64 <= r.value <= MaxInt64
    ensures r.Some? && |s| > 0 && s[0] != '-' ==> r.value >= 0
  {
    var digits := Unsigned(s);
    if |digits| == 0 || !AllDigits(digits) then None
    else
      var n: int := DigitsValue(digits);
      if |s| > 0 && s[0] == '-' then (if n <= -MinInt64 then Some(-n) else None)
      else if n <= MaxInt64 then Some(n) else None
  }

  /** Atoi refuses a string that starts with anything but a sign or a digit. */
  lemma AtoiRejectsLetter(s: string)
    requires |s| > 0 && !IsDigit(s[0]) && s[0] != '+' && s[0] != '-'
    ensures Atoi(s) == None
  {
    assert Unsigned(s) == s;
    if AllDigits(s) {
      AllDigitsAt(s, 0);
      assert false;
    }
  }

  /** An unsigned run of digits that fits in 64 bits parses to its value. */
  lemma AtoiDigits(s: string)
    requires |s| > 0 && AllDigits(s) && DigitsValue(s) <= MaxInt64
    ensures Atoi(s) == Some(DigitsValue(s))
  {
    AllDigitsAt(s, 0);
  }
}
