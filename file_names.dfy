/** The file-name sanitizer `clean_filename` of PsychReportAssistant.py.

    `clean_filename(s)` keeps, in order, the characters of `s` that are
    alphanumeric (Python's Unicode-aware `str.isalnum`), a space, `.` or `_`,
    and then removes trailing whitespace with `str.rstrip()`.

    `str.isalnum` follows the Unicode tables, which this model does not
    encode: every member takes the classification as a parameter
    `isAlnum: char -> bool`.  The few facts about it that some lemmas need
    are stated by the predicates `AsciiAlnumIncluded` and `SpaceNotAlnum`. */
module FileNames {

  /** Python's `str.isspace` on one character: the characters `str.rstrip()`
      removes when called without arguments. */
  predicate IsSpace(c: char) {
    || c == ' '
    || '\t' <= c <= '\r'
    || '\U{1C}' <= c <= '\U{1F}'
    || c == '\U{85}'
    || c == '\U{A0}'
    || c == '\U{1680}'
    || '\U{2000}' <= c <= '\U{200A}'
    || c == '\U{2028}'
    || c == '\U{2029}'
    || c == '\U{202F}'
    || c == '\U{205F}'
    || c == '\U{3000}'
  }

  predicate AsciiAlnum(c: char) {
    'a' <= c <= 'z' || 'A' <= c <= 'Z' || '0' <= c <= '9'
  }

  /** `str.isalnum` holds of every ASCII letter and digit. */
  ghost predicate AsciiAlnumIncluded(isAlnum: char -> bool) {
    forall c :: AsciiAlnum(c) ==> isAlnum(c)
  }

  /** No whitespace character is alphanumeric for `str.isalnum`. */
  ghost predicate SpaceNotAlnum(isAlnum: char -> bool) {
    forall c :: IsSpace(c) ==> !isAlnum(c)
  }

  /** The test of the generator expression in clean_filename. */
  predicate Allowed(isAlnum: char -> bool, c: char) {
    isAlnum(c) || c == ' ' || c == '.' || c == '_'
  }

  ghost predicate AllAllowed(isAlnum: char -> bool, s: string) {
    forall i :: 0 <= i < |s| ==> Allowed(isAlnum, s[i])
  }

  /** `"".join(c for c in s if Allowed(c))`: the allowed characters of `s`,
      in their original order. */
  function Keep(isAlnum: char -> bool, s: string): (r: string)
    ensures |r| <= |s|
    ensures AllAllowed(isAlnum, r)
  {
    if s == [] then []
    else if Allowed(isAlnum, s[0]) then [s[0]] + Keep(isAlnum, s[1..])
    else Keep(isAlnum, s[1..])
  }

  /** `s.rstrip()`: the longest prefix of `s` that is empty or ends in a
      non-whitespace character; everything cut off is whitespace. */
  function RStrip(s: string): (r: string)
    ensures r <= s
    ensures r == [] || !IsSpace(r[|r| - 1])
    ensures forall i :: |r| <= i < |s| ==> IsSpace(s[i])
  {
    if s != [] && IsSpace(s[|s| - 1]) then RStrip(s[..|s| - 1]) else s
  }

  /** clean_filename. */
  function CleanFilename(isAlnum: char -> bool, filename: string): (r: string)
    ensures |r| <= |filename|
    ensures AllAllowed(isAlnum, r)
    ensures r == [] || !IsSpace(r[|r| - 1])
  {
    RStrip(Keep(isAlnum, filename))
  }

  /** `a` can be obtained from `b` by deleting characters. */
  predicate IsSubsequence(a: string, b: string)
    decreases |b|
  {
    if a == [] then true
    else if b == [] then false
    else (a[0] == b[0] && IsSubsequence(a[1..], b[1..])) || IsSubsequence(a, b[1..])
  }

  lemma {:induction false} KeepIsSubsequence(isAlnum: char -> bool, s: string)
    ensures IsSubsequence(Keep(isAlnum, s), s)
  {
    if s != [] {
      KeepIsSubsequence(isAlnum, s[1..]);
    }
  }

  /** A prefix of a subsequence of `b` is a subsequence of `b`. */
  lemma {:induction false} PrefixOfSubsequence(a: string, b: string, c: string)
    requires a <= b && IsSubsequence(b, c)
    ensures IsSubsequence(a, c)
    decreases |c|
  {
    if a != [] {
      assert b != [] && c != [];
      if b[0] == c[0] && IsSubsequence(b[1..], c[1..]) {
        PrefixOfSubsequence(a[1..], b[1..], c[1..]);
      } else {
        PrefixOfSubsequence(a, b, c[1..]);
      }
    }
  }

  /** The sanitized name is obtained from the input by deleting characters:
      nothing is inserted, replaced or reordered. */
  lemma CleanIsSubsequence(isAlnum: char -> bool, s: string)
    ensures IsSubsequence(CleanFilename(isAlnum, s), s)
  {
    KeepIsSubsequence(isAlnum, s);
    PrefixOfSubsequence(CleanFilename(isAlnum, s), Keep(isAlnum, s), s);
  }

  /** Filtering distributes over concatenation. */
  lemma {:induction false} KeepAppend(isAlnum: char -> bool, a: string, b: string)
    ensures Keep(isAlnum, a + b) == Keep(isAlnum, a) + Keep(isAlnum, b)
  {
    if a != [] {
      var ab := a + b;
      assert ab[0] == a[0] && ab[1..] == a[1..] + b;
      KeepAppend(isAlnum, a[1..], b);
      if Allowed(isAlnum, a[0]) {
        calc {
          Keep(isAlnum, ab);
          [a[0]] + Keep(isAlnum, a[1..] + b);
          [a[0]] + (Keep(isAlnum, a[1..]) + Keep(isAlnum, b));
          ([a[0]] + Keep(isAlnum, a[1..])) + Keep(isAlnum, b);
          Keep(isAlnum, a) + Keep(isAlnum, b);
        }
      }
    } else {
      assert a + b == b;
    }
  }

  /** The filter changes a string exactly when it holds a character that
      is not allowed. */
  lemma {:induction false} KeepIdentity(isAlnum: char -> bool, s: string)
    ensures Keep(isAlnum, s) == s <==> AllAllowed(isAlnum, s)
  {
    if s != [] {
      KeepIdentity(isAlnum, s[1..]);
      if AllAllowed(isAlnum, s) {
        assert AllAllowed(isAlnum, s[1..]) by {
          forall i | 0 <= i < |s[1..]| ensures Allowed(isAlnum, s[1..][i]) {
            assert s[1..][i] == s[i + 1];
          }
        }
      }
    }
  }

  /** Whatever character comes out of clean_filename was in the input and
      is allowed. */
  lemma CleanMembership(isAlnum: char -> bool, s: string, c: char)
    requires c in CleanFilename(isAlnum, s)
    ensures c in s && Allowed(isAlnum, c)
  {
    CleanIsSubsequence(isAlnum, s);
    SubsequenceMembers(CleanFilename(isAlnum, s), s, c);
  }

  lemma {:induction false} SubsequenceMembers(a: string, b: string, c: char)
    requires IsSubsequence(a, b) && c in a
    ensures c in b
    decreases |b|
  {
    if a[0] == b[0] && IsSubsequence(a[1..], b[1..]) {
      if c != a[0] {
        SubsequenceMembers(a[1..], b[1..], c);
      }
    } else {
      SubsequenceMembers(a, b[1..], c);
    }
  }

  /** clean_filename leaves a string unchanged exactly when every character
      is allowed and the string does not end in whitespace. */
  lemma CleanFixedPoint(isAlnum: char -> bool, s: string)
    ensures CleanFilename(isAlnum, s) == s <==>
            AllAllowed(isAlnum, s) && (s == [] || !IsSpace(s[|s| - 1]))
  {
    KeepIdentity(isAlnum, s);
  }

  /** Sanitizing twice is the same as sanitizing once. */
  lemma CleanIdempotent(isAlnum: char -> bool, s: string)
    ensures CleanFilename(isAlnum, CleanFilename(isAlnum, s)) == CleanFilename(isAlnum, s)
  {
    CleanFixedPoint(isAlnum, CleanFilename(isAlnum, s));
  }

  /** Because no alphanumeric character is whitespace, the only characters
      `rstrip()` can remove after the filter are plain spaces. */
  lemma RStripRemovesOnlySpaces(isAlnum: char -> bool, s: string)
    requires SpaceNotAlnum(isAlnum)
    ensures CleanFilename(isAlnum, s) <= Keep(isAlnum, s)
    ensures forall i :: |CleanFilename(isAlnum, s)| <= i < |Keep(isAlnum, s)| ==>
                          Keep(isAlnum, s)[i] == ' '
  {
    var k := Keep(isAlnum, s);
    forall i | |CleanFilename(isAlnum, s)| <= i < |k| ensures k[i] == ' ' {
      assert IsSpace(k[i]) && Allowed(isAlnum, k[i]);
    }
  }

  /** A string of ASCII letters, digits, spaces, `.` and `_` passes the
      filter unchanged. */
  lemma KeepAsciiName(isAlnum: char -> bool, s: string)
    requires AsciiAlnumIncluded(isAlnum)
    requires forall i :: 0 <= i < |s| ==> AsciiAlnum(s[i]) || s[i] in " ._"
    ensures Keep(isAlnum, s) == s
  {
    KeepIdentity(isAlnum, s);
  }

  /** Appending a suffix of allowed characters that does not end in
      whitespace: the suffix comes through clean_filename untouched and only
      the prefix is filtered (and not stripped). */
  lemma CleanKeepsSuffix(isAlnum: char -> bool, p: string, suffix: string)
    requires Keep(isAlnum, suffix) == suffix
    requires suffix != [] && !IsSpace(suffix[|suffix| - 1])
    ensures CleanFilename(isAlnum, p + suffix) == Keep(isAlnum, p) + suffix
  {
    KeepAppend(isAlnum, p, suffix);
    var k := Keep(isAlnum, p) + suffix;
    assert k[|k| - 1] == suffix[|suffix| - 1];
  }
}
