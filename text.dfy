/**
  The string operations of Rust's `str` that the power converter chains together:
  `to_lowercase` (ASCII letters only), `ends_with`, `replace` and `trim`.
  Strings are sequences of Unicode scalar values, as Rust's `char` is.
 */
module RustStr {

  // ---------------------------------------------------------------------------
  // Lower-casing
  // ---------------------------------------------------------------------------

  predicate IsAsciiUpper(c: char) {
    'A' <= c <= 'Z'
  }

  /** The lower-case form of one character; only ASCII letters change. */
  function LowerChar(c: char): (r: char)
    ensures IsAsciiUpper(c) ==> r as int == c as int + 32
    ensures !IsAsciiUpper(c) ==> r == c
    ensures !IsAsciiUpper(r)
  {
    if IsAsciiUpper(c) then (c as int + 32) as char else c
  }

  /** `s.to_lowercase()`, restricted to ASCII case folding: each character lowered in place. */
  function ToLower(s: string): (r: string)
    ensures |r| == |s|
  {
    seq(|s|, i requires 0 <= i < |s| => LowerChar(s[i]))
  }

  /** Two characters that are equal, or are the capital and small forms of one ASCII letter. */
  predicate SameLetterIgnoringAsciiCase(a: char, b: char) {
    a == b
    || (IsAsciiUpper(a) && b as int == a as int + 32)
    || (IsAsciiUpper(b) && a as int == b as int + 32)
  }

  /** Two strings that differ at most in the case of ASCII letters. */
  predicate EqualIgnoringAsciiCase(s: string, t: string) {
    |s| == |t| && forall i :: 0 <= i < |s| ==> SameLetterIgnoringAsciiCase(s[i], t[i])
  }

  /** Two characters lower to the same character exactly when they differ only in ASCII case. */
  lemma LowerCharEqualIff(a: char, b: char)
    ensures LowerChar(a) == LowerChar(b) <==> SameLetterIgnoringAsciiCase(a, b)
  {
  }

  /** Lower-casing identifies exactly the strings that differ only in ASCII case. */
  lemma ToLowerEqualIff(s: string, t: string)
    ensures ToLower(s) == ToLower(t) <==> EqualIgnoringAsciiCase(s, t)
  {
    if |s| == |t| {
      forall i | 0 <= i < |s|
        ensures ToLower(s)[i] == ToLower(t)[i] <==> SameLetterIgnoringAsciiCase(s[i], t[i])
      {
        LowerCharEqualIff(s[i], t[i]);
      }
      if EqualIgnoringAsciiCase(s, t) {
        assert forall i :: 0 <= i < |s| ==> ToLower(s)[i] == ToLower(t)[i];
      }
    }
  }

  /** A text without ASCII capitals is its own lower-case form. */
  lemma ToLowerFixed(s: string)
    requires forall k :: 0 <= k < |s| ==> !IsAsciiUpper(s[k])
    ensures ToLower(s) == s
  {
  }

  lemma ToLowerIdempotent(s: string)
    ensures ToLower(ToLower(s)) == ToLower(s)
  {
  }

  lemma ToLowerConcat(s: string, t: string)
    ensures ToLower(s + t) == ToLower(s) + ToLower(t)
  {
  }

  // ---------------------------------------------------------------------------
  // Prefixes, suffixes and occurrences
  // ---------------------------------------------------------------------------

  predicate StartsWith(s: string, prefix: string) {
    |prefix| <= |s| && s[..|prefix|] == prefix
  }

  /** `s.ends_with(suffix)`. */
  predicate EndsWith(s: string, suffix: string) {
    |suffix| <= |s| && s[|s| - |suffix|..] == suffix
  }

  /** `ends_with` holds exactly when the string is some text followed by the suffix. */
  lemma EndsWithIff(s: string, suffix: string)
    ensures EndsWith(s, suffix) <==> exists t :: s == t + suffix
  {
    if EndsWith(s, suffix) {
      var t := s[..|s| - |suffix|];
      assert s == t + suffix;
    }
    if exists t :: s == t + suffix {
      var t :| s == t + suffix;
      assert s[|s| - |suffix|..] == suffix;
    }
  }

  /** `pattern` occurs somewhere in `s`. */
  predicate Occurs(s: string, pattern: string)
    decreases |s|
  {
    |pattern| <= |s| && (StartsWith(s, pattern) || Occurs(s[1..], pattern))
  }

  /** `pattern` appears in `s` at position `i`. */
  predicate MatchAt(s: string, pattern: string, i: int) {
    0 <= i <= |s| - |pattern| && s[i..i + |pattern|] == pattern
  }

  /** `Occurs` holds exactly when the pattern appears at some position. */
  lemma {:induction false} OccursIff(s: string, pattern: string)
    ensures Occurs(s, pattern) <==> exists i :: MatchAt(s, pattern, i)
    decreases |s|
  {
    if |pattern| <= |s| {
      if StartsWith(s, pattern) {
        assert MatchAt(s, pattern, 0);
      } else {
        OccursIff(s[1..], pattern);
        if Occurs(s[1..], pattern) {
          var i :| MatchAt(s[1..], pattern, i);
          assert s[i + 1..i + 1 + |pattern|] == s[1..][i..i + |pattern|];
          assert MatchAt(s, pattern, i + 1);
        }
        if exists i :: MatchAt(s, pattern, i) {
          var i :| MatchAt(s, pattern, i);
          assert i != 0;
          assert s[1..][i - 1..i - 1 + |pattern|] == s[i..i + |pattern|];
          assert MatchAt(s[1..], pattern, i - 1);
        }
      }
    } else {
      assert forall i :: !MatchAt(s, pattern, i);
    }
  }

  /** No proper prefix of `p` is also a suffix of it, so two matches of `p` can never overlap. */
  predicate BorderFree(p: string) {
    forall k :: 0 < k < |p| ==> !IsBorder(p, k)
  }

  /** The first `k` characters of `p` are also its last `k`. */
  predicate IsBorder(p: string, k: nat)
    requires k <= |p|
  {
    p[..k] == p[|p| - k..]
  }

  // ---------------------------------------------------------------------------
  // Replace-all
  // ---------------------------------------------------------------------------

  /**
    `s.replace(from, to)`: scans left to right and replaces every
    non-overlapping match of `from`; scanning resumes after each match.
   */
  function Replace(s: string, from: string, to: string): (r: string)
    requires |from| > 0
    decreases |s|
  {
    if |s| < |from| then s
    else if StartsWith(s, from) then to + Replace(s[|from|..], from, to)
    else [s[0]] + Replace(s[1..], from, to)
  }

  /** The number of matches `Replace` replaces. */
  function CountMatches(s: string, pattern: string): (r: nat)
    requires |pattern| > 0
    decreases |s|
  {
    if |s| < |pattern| then 0
    else if StartsWith(s, pattern) then 1 + CountMatches(s[|pattern|..], pattern)
    else CountMatches(s[1..], pattern)
  }

  /** Each match replaced changes the length by the difference of the two texts. */
  lemma {:induction false} ReplaceLength(s: string, from: string, to: string)
    requires |from| > 0
    ensures |Replace(s, from, to)| == |s| + CountMatches(s, from) * (|to| - |from|)
    decreases |s|
  {
    var d := |to| - |from|;
    if |s| < |from| {
      assert CountMatches(s, from) == 0;
    } else if StartsWith(s, from) {
      var t := s[|from|..];
      ReplaceLength(t, from, to);
      var c := CountMatches(t, from);
      assert CountMatches(s, from) == 1 + c;
      assert |Replace(s, from, to)| == |to| + |Replace(t, from, to)|;
      MulSucc(c, d);
    } else {
      var t := s[1..];
      ReplaceLength(t, from, to);
      assert CountMatches(s, from) == CountMatches(t, from);
      assert |Replace(s, from, to)| == 1 + |Replace(t, from, to)|;
    }
  }

  lemma MulSucc(c: int, d: int)
    ensures (1 + c) * d == c * d + d
  {
  }

  /** Removing a token shortens the text by the token's length once per match. */
  lemma RemoveLength(s: string, token: string)
    requires |token| > 0
    ensures |Replace(s, token, "")| == |s| - |token| * CountMatches(s, token)
  {
    ReplaceLength(s, token, "");
  }

  /** A text without any occurrence of the pattern comes back unchanged and has no matches. */
  lemma {:induction false} ReplaceAbsent(s: string, from: string, to: string)
    requires |from| > 0
    requires !Occurs(s, from)
    ensures Replace(s, from, to) == s
    ensures CountMatches(s, from) == 0
    decreases |s|
  {
    if |s| >= |from| {
      ReplaceAbsent(s[1..], from, to);
      assert s == [s[0]] + s[1..];
    }
  }

  /** A border-free token that does not occur in a non-empty `s` cannot match at the front of `s + token + rest`. */
  lemma NoMatchBeforeToken(s: string, token: string, rest: string)
    requires |token| > 0 && BorderFree(token)
    requires s != [] && !Occurs(s, token)
    ensures !StartsWith(s + token + rest, token)
  {
    var u := s + token + rest;
    if |s| < |token| {
      // a match at the front would make `token[..k]` a border of `token`
      var k := |token| - |s|;
      assert !IsBorder(token, k);
      assert u[..|token|] == s + token[..k];
      assert (s + token[..k])[|s|..] == token[..k];
    } else {
      assert u[..|token|] == s[..|token|];
    }
  }

  /**
    When `s` holds no occurrence of a border-free pattern, the first match in
    `s + from + rest` is the one right after `s`.
   */
  lemma {:induction false} ReplaceAfterClean(s: string, from: string, to: string, rest: string)
    requires |from| > 0 && BorderFree(from)
    requires !Occurs(s, from)
    ensures Replace(s + from + rest, from, to) == s + to + Replace(rest, from, to)
    ensures CountMatches(s + from + rest, from) == 1 + CountMatches(rest, from)
    decreases |s|
  {
    var u := s + from + rest;
    if s == [] {
      assert u == from + rest;
      assert StartsWith(u, from);
      assert u[|from|..] == rest;
    } else {
      NoMatchBeforeToken(s, from, rest);
      var t := s[1..];
      assert !Occurs(t, from);
      assert u[1..] == t + from + rest;
      ReplaceAfterClean(t, from, to, rest);
      assert Replace(u, from, to) == [s[0]] + Replace(t + from + rest, from, to);
      assert CountMatches(u, from) == CountMatches(t + from + rest, from);
      assert s + to == [s[0]] + (t + to);
    }
  }

  /** Stripping a trailing border-free token from text that does not contain it gives the text back. */
  lemma RemoveSuffix(s: string, token: string)
    requires |token| > 0 && BorderFree(token)
    requires !Occurs(s, token)
    ensures Replace(s + token, token, "") == s
    ensures CountMatches(s + token, token) == 1
  {
    ReplaceAfterClean(s, token, "", []);
    assert s + token + [] == s + token;
  }

  /** Two clean parts, each followed by the token: removing the token joins the parts. */
  lemma RemoveTwice(a: string, b: string, token: string)
    requires |token| > 0 && BorderFree(token)
    requires !Occurs(a, token) && !Occurs(b, token)
    ensures Replace(a + token + (b + token), token, "") == a + b
  {
    ReplaceAfterClean(a, token, "", b + token);
    RemoveSuffix(b, token);
    assert a + "" + b == a + b;
  }

  /** A text in which the token occurs holds at least one match of it. */
  lemma {:induction false} OccursCounted(s: string, token: string)
    requires |token| > 0 && Occurs(s, token)
    ensures CountMatches(s, token) >= 1
    decreases |s|
  {
    if !StartsWith(s, token) {
      OccursCounted(s[1..], token);
    }
  }

  /** A suffix is an occurrence. */
  lemma {:induction false} EndsWithOccurs(s: string, token: string)
    requires EndsWith(s, token)
    ensures Occurs(s, token)
    decreases |s|
  {
    if !StartsWith(s, token) {
      assert s[1..][|s| - 1 - |token|..] == s[|s| - |token|..];
      EndsWithOccurs(s[1..], token);
    }
  }

  /** A token whose first character is missing from `s` does not occur in `s`. */
  lemma {:induction false} FirstCharAbsent(s: string, token: string)
    requires |token| > 0
    requires forall k :: 0 <= k < |s| ==> s[k] != token[0]
    ensures !Occurs(s, token)
    decreases |s|
  {
    if |token| <= |s| {
      assert s[..|token|][0] != token[0];
      FirstCharAbsent(s[1..], token);
    }
  }

  // ---------------------------------------------------------------------------
  // Trimming
  // ---------------------------------------------------------------------------

  /** Rust's `char::is_whitespace`: the Unicode White_Space property. */
  predicate IsWhitespace(c: char) {
    ('\t' <= c <= '\r') || c == ' ' || c == '\U{0085}' || c == '\U{00A0}'
    || c == '\U{1680}' || ('\U{2000}' <= c <= '\U{200A}') || c == '\U{2028}'
    || c == '\U{2029}' || c == '\U{202F}' || c == '\U{205F}' || c == '\U{3000}'
  }

  predicate AllWhitespace(s: string) {
    forall k :: 0 <= k < |s| ==> IsWhitespace(s[k])
  }

  /** `s.trim_start()`: drop whitespace from the front. */
  function TrimStart(s: string): (r: string)
    decreases |s|
  {
    if |s| > 0 && IsWhitespace(s[0]) then TrimStart(s[1..]) else s
  }

  /** `s.trim_end()`: drop whitespace from the back. */
  function TrimEnd(s: string): (r: string)
    decreases |s|
  {
    if |s| > 0 && IsWhitespace(s[|s| - 1]) then TrimEnd(s[..|s| - 1]) else s
  }

  /** `s.trim()`: `s` with leading and trailing whitespace removed. */
  function Trim(s: string): (r: string) {
    TrimEnd(TrimStart(s))
  }

  /** `TrimStart` keeps the longest suffix that does not start with whitespace. */
  lemma {:induction false} TrimStartSpec(s: string)
    ensures var r := TrimStart(s);
            |r| <= |s| && r == s[|s| - |r|..] && AllWhitespace(s[..|s| - |r|])
            && (r != [] ==> !IsWhitespace(r[0]))
    decreases |s|
  {
    if |s| > 0 && IsWhitespace(s[0]) {
      var t := s[1..];
      TrimStartSpec(t);
      var r := TrimStart(t);
      assert r == s[|s| - |r|..];
      var w := s[..|s| - |r|];
      forall k | 0 <= k < |w| ensures IsWhitespace(w[k]) {
        if k > 0 {
          assert w[k] == t[..|t| - |r|][k - 1];
        }
      }
    }
  }

  /** `TrimEnd` keeps the longest prefix that does not end with whitespace. */
  lemma {:induction false} TrimEndSpec(s: string)
    ensures var r := TrimEnd(s);
            |r| <= |s| && r == s[..|r|] && AllWhitespace(s[|r|..])
            && (r != [] ==> !IsWhitespace(r[|r| - 1]))
    decreases |s|
  {
    if |s| > 0 && IsWhitespace(s[|s| - 1]) {
      var t := s[..|s| - 1];
      TrimEndSpec(t);
      var r := TrimEnd(t);
      assert r == s[..|r|];
      var w := s[|r|..];
      forall k | 0 <= k < |w| ensures IsWhitespace(w[k]) {
        if k < |t| - |r| {
          assert w[k] == t[|r|..][k];
        }
      }
    }
  }

  /** `r` is the slice of `s` at `i`, with only whitespace around it in `s`. */
  predicate TrimmedAt(s: string, r: string, i: int) {
    0 <= i <= |s| - |r| && s[i..i + |r|] == r && AllWhitespace(s[..i]) && AllWhitespace(s[i + |r|..])
  }

  /** Trimming the front and then the back leaves a slice of `s` with only whitespace around it. */
  lemma TrimmedAtParts(s: string, t: string, r: string)
    requires |t| <= |s| && t == s[|s| - |t|..] && AllWhitespace(s[..|s| - |t|])
    requires |r| <= |t| && r == t[..|r|] && AllWhitespace(t[|r|..])
    ensures TrimmedAt(s, r, |s| - |t|)
  {
    var i := |s| - |t|;
    assert s[i..i + |r|] == s[i..][..|r|];
    assert s[i + |r|..] == s[i..][|r|..];
  }

  /** The trimmed text is a slice of the input, with only whitespace around it and none at its ends. */
  lemma TrimSpec(s: string)
    ensures var r := Trim(s);
            |r| <= |s|
            && (r != [] ==> !IsWhitespace(r[0]) && !IsWhitespace(r[|r| - 1]))
            && exists i :: TrimmedAt(s, r, i)
  {
    var t := TrimStart(s);
    TrimStartSpec(s);
    TrimEndSpec(t);
    TrimmedAtParts(s, t, TrimEnd(t));
  }

  /** Skipping exactly the leading whitespace is what `TrimStart` does. */
  lemma {:induction false} TrimStartAt(s: string, i: nat)
    requires i <= |s| && AllWhitespace(s[..i])
    requires i < |s| ==> !IsWhitespace(s[i])
    ensures TrimStart(s) == s[i..]
    decreases i
  {
    if i > 0 {
      assert IsWhitespace(s[..i][0]);
      assert s[1..][..i - 1] == s[1..i];
      assert forall k :: 0 <= k < i - 1 ==> s[1..i][k] == s[..i][k + 1];
      TrimStartAt(s[1..], i - 1);
      assert s[1..][i - 1..] == s[i..];
    }
  }

  /** Dropping exactly the trailing whitespace is what `TrimEnd` does. */
  lemma {:induction false} TrimEndAt(s: string, j: nat)
    requires j <= |s| && AllWhitespace(s[j..])
    requires 0 < j ==> !IsWhitespace(s[j - 1])
    ensures TrimEnd(s) == s[..j]
    decreases |s| - j
  {
    if j < |s| {
      var u := s[..|s| - 1];
      assert IsWhitespace(s[j..][|s| - 1 - j]);
      assert forall k :: 0 <= k < |u| - j ==> u[j..][k] == s[j..][k];
      TrimEndAt(u, j);
      assert u[..j] == s[..j];
    }
  }

  /** The contract of `Trim` determines its result: any whitespace-free-edged slice with only whitespace around it is the trimmed text. */
  lemma TrimUnique(s: string, r: string, i: nat)
    requires TrimmedAt(s, r, i)
    requires r != [] ==> !IsWhitespace(r[0]) && !IsWhitespace(r[|r| - 1])
    ensures Trim(s) == r
  {
    if r == [] {
      assert forall k :: 0 <= k < |s| ==> IsWhitespace(s[k]) by {
        forall k | 0 <= k < |s| ensures IsWhitespace(s[k]) {
          if k < i { assert s[..i][k] == s[k]; } else { assert s[i..][k - i] == s[k]; }
        }
      }
      TrimStartAt(s, |s|);
      TrimEndAt([], 0);
    } else {
      assert s[i] == r[0];
      TrimStartAt(s, i);
      var t := s[i..];
      assert t[..|r|] == r;
      assert t[|r|..] == s[i + |r|..];
      TrimEndAt(t, |r|);
    }
  }

  /** A text with no whitespace at either end is left as it is. */
  lemma TrimNoEdges(s: string)
    requires s != [] ==> !IsWhitespace(s[0]) && !IsWhitespace(s[|s| - 1])
    ensures Trim(s) == s
  {
  }

  lemma TrimIdempotent(s: string)
    ensures Trim(Trim(s)) == Trim(s)
  {
    TrimSpec(s);
    TrimNoEdges(Trim(s));
  }
}
