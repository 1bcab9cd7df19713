/** `SecurityMiddleware.sanitizeText`: a JavaScript string goes through two
    global regular-expression deletions (script blocks, then tags), a `trim`,
    and a length check that throws. Strings are sequences of Unicode scalar
    values; the length check counts UTF-16 code units, as JavaScript's
    `length` does. */
module Sanitizer {
  import opened Common

  /** The largest accepted length, in UTF-16 code units. */
  const MaxLength := 10000

  const TooLongMessage := "Text too long. Maximum 10,000 characters allowed."

  /** JavaScript's `length`: characters outside the Basic Multilingual Plane
      take two UTF-16 code units. */
  function Utf16Length(s: string): (n: nat)
    ensures |s| <= n <= 2 * |s|
  {
    if s == [] then 0
    else (if s[0] as int > 0xFFFF then 2 else 1) + Utf16Length(s[1..])
  }

  /** Deleting characters never makes the UTF-16 length grow. */
  lemma {:induction false} Utf16LengthOfSubsequence(a: string, b: string)
    requires IsSubsequence(a, b)
    ensures Utf16Length(a) <= Utf16Length(b)
    decreases |b|
  {
    if a == [] {
    } else if a[0] == b[0] {
      Utf16LengthOfSubsequence(a[1..], b[1..]);
    } else {
      Utf16LengthOfSubsequence(a, b[1..]);
    }
  }

  // ---------------------------------------------------------------------------
  // Pattern matching, as the two regular expressions do it

  /** `\w` of a JavaScript regular expression without the `u` flag. */
  predicate IsWordChar(c: char) {
    'a' <= c <= 'z' || 'A' <= c <= 'Z' || '0' <= c <= '9' || c == '_'
  }

  /** Case folding of the `i` flag without the `u` flag: it only ever maps
      ASCII letters onto ASCII letters. */
  function AsciiLower(c: char): char {
    if 'A' <= c <= 'Z' then (c as int + 32) as char else c
  }

  /** `s` begins with the lower-case word `pat`, letters compared case-insensitively. */
  predicate StartsWithIgnoringCase(s: string, pat: string) {
    |pat| <= |s| && forall k :: 0 <= k < |pat| ==> AsciiLower(s[k]) == pat[k]
  }

  const ScriptOpen := "<script"
  const ScriptClose := "</script>"

  /** A case-insensitive `</script>` starts at position `k` of `s`. */
  predicate ClosesAt(s: string, k: nat) {
    k + |ScriptClose| <= |s| && StartsWithIgnoringCase(s[k..], ScriptClose)
  }

  /** `<script\b`: `s` begins with `<script`, case-insensitively, and no word
      character follows it. */
  predicate OpensScript(s: string) {
    StartsWithIgnoringCase(s, ScriptOpen) && (|s| == |ScriptOpen| || !IsWordChar(s[|ScriptOpen|]))
  }

  /** The first position at or after `from` where `</script>` starts
      (case-insensitively). */
  function FindScriptClose(s: string, from: nat): (r: Option<nat>)
    decreases |s| - from
    ensures r.Some? ==> from <= r.value && ClosesAt(s, r.value)
  {
    if from + |ScriptClose| > |s| then None
    else if StartsWithIgnoringCase(s[from..], ScriptClose) then Some(from)
    else FindScriptClose(s, from + 1)
  }

  /** `FindScriptClose` finds the first `</script>` from `from` on, and
      finds none only when there is none. */
  lemma {:induction false} FindScriptCloseIsFirst(s: string, from: nat)
    ensures var r := FindScriptClose(s, from);
            && (r.Some? ==> forall k: nat :: from <= k < r.value ==> !ClosesAt(s, k))
            && (r.None? ==> forall k: nat :: from <= k ==> !ClosesAt(s, k))
    decreases |s| - from
  {
    if from + |ScriptClose| > |s| {
      forall k: nat | from <= k
        ensures !ClosesAt(s, k)
      {
      }
    } else if !StartsWithIgnoringCase(s[from..], ScriptClose) {
      FindScriptCloseIsFirst(s, from + 1);
      var r := FindScriptClose(s, from + 1);
      assert FindScriptClose(s, from) == r;
      if r.Some? {
        forall k: nat | from <= k < r.value
          ensures !ClosesAt(s, k)
        {
          if k == from {
            assert !StartsWithIgnoringCase(s[from..], ScriptClose);
          }
        }
      }
    }
  }

  /** The first position at or after `from` holding `c`. */
  function FindChar(s: string, c: char, from: nat): (r: Option<nat>)
    decreases |s| - from
    ensures r.Some? ==> from <= r.value < |s| && s[r.value] == c
    ensures r.Some? ==> forall k :: from <= k < r.value ==> s[k] != c
    ensures r.None? ==> forall k :: from <= k < |s| ==> s[k] != c
  {
    if from >= |s| then None
    else if s[from] == c then Some(from)
    else FindChar(s, c, from + 1)
  }

  /** The two regular expressions of the sanitiser:
      ScriptBlock is `/<script\b[^<]*(?:(?!<\/script>)<[^<]*)*<\/script>/gi`,
      which matches from `<script` (followed by a word boundary) through the
      first `</script>` after it; Tag is `/<[^>]*>/g`, which matches from a
      `<` through the next `>`. */
  datatype Pattern = ScriptBlock | Tag

  /** The length of the match of `p` that starts at the first character of
      `s`, if there is one. */
  function MatchAt(p: Pattern, s: string): (r: Option<nat>)
    ensures r.Some? ==> 0 < r.value <= |s| && s[0] == '<' && s[r.value - 1] == '>'
  {
    match p
    case ScriptBlock =>
      if OpensScript(s) then
        match FindScriptClose(s, |ScriptOpen|)
        case Some(j) =>
          assert AsciiLower(s[j + 8]) == '>';
          Some(j + |ScriptClose|)
        case None => None
      else None
    case Tag =>
      if s != [] && s[0] == '<' then
        match FindChar(s, '>', 1)
        case Some(j) => Some(j + 1)
        case None => None
      else None
  }

  /** A tag match exists exactly when a `<` has a `>` after it, and it ends
      at the first one. */
  lemma TagMatchIsFirstClose(s: string)
    ensures var r := MatchAt(Tag, s);
            && (r.Some? <==> s != [] && s[0] == '<' && '>' in s[1..])
            && (r.Some? ==> forall k :: 1 <= k < r.value - 1 ==> s[k] != '>')
  {
    if s != [] && s[0] == '<' {
      match FindChar(s, '>', 1)
      case Some(j) =>
        assert s[1..][j - 1] == '>';
      case None =>
        assert forall k :: 0 <= k < |s[1..]| ==> s[1..][k] == s[k + 1];
    }
  }

  /** A script match exists exactly when `<script\b` is followed somewhere
      by a `</script>`, and it ends with the first one. */
  lemma ScriptMatchIsFirstClose(s: string)
    ensures var r := MatchAt(ScriptBlock, s);
            && (r.Some? <==> OpensScript(s) && exists k: nat :: |ScriptOpen| <= k && ClosesAt(s, k))
            && (r.Some? ==>
                  && |ScriptOpen| + |ScriptClose| <= r.value
                  && ClosesAt(s, r.value - |ScriptClose|)
                  && forall k: nat :: |ScriptOpen| <= k < r.value - |ScriptClose| ==> !ClosesAt(s, k))
  {
    FindScriptCloseIsFirst(s, |ScriptOpen|);
  }

  /** `s.replace(p, "")` for a global regular expression: scanning left to
      right, every match is deleted and the scan resumes after it; where no
      match starts, the character is kept. */
  function DeleteMatches(p: Pattern, s: string): (r: string)
    decreases |s|
    ensures |r| <= |s|
  {
    if s == [] then []
    else match MatchAt(p, s)
      case Some(n) => DeleteMatches(p, s[n..])
      case None => [s[0]] + DeleteMatches(p, s[1..])
  }

  /** A deletion pass only deletes: what it returns is a subsequence of its input. */
  lemma {:induction false} DeleteMatchesDeletes(p: Pattern, s: string)
    ensures IsSubsequence(DeleteMatches(p, s), s)
    decreases |s|
  {
    if s != [] {
      match MatchAt(p, s)
      case Some(n) =>
        DeleteMatchesDeletes(p, s[n..]);
        SubsequenceOfSuffix(DeleteMatches(p, s), s, n);
      case None =>
        DeleteMatchesDeletes(p, s[1..]);
        assert ([s[0]] + DeleteMatches(p, s[1..]))[1..] == DeleteMatches(p, s[1..]);
    }
  }

  // ---------------------------------------------------------------------------
  // Markup

  /** No `<` is followed, anywhere later, by a `>`: nothing in the text can
      still be read as a tag. */
  predicate NoTagPair(s: string) {
    forall i, j :: 0 <= i < j < |s| && s[i] == '<' ==> s[j] != '>'
  }

  lemma NoTagPairTail(s: string)
    requires s != [] && NoTagPair(s)
    ensures NoTagPair(s[1..])
  {
    forall i, j | 0 <= i < j < |s| - 1 && s[1..][i] == '<'
      ensures s[1..][j] != '>'
    {
      assert s[1..][i] == s[i + 1] && s[1..][j] == s[j + 1];
    }
  }

  lemma NoTagPairSlice(s: string, a: nat, b: nat)
    requires a <= b <= |s| && NoTagPair(s)
    ensures NoTagPair(s[a..b])
  {
    forall i, j | 0 <= i < j < b - a && s[a..b][i] == '<'
      ensures s[a..b][j] != '>'
    {
      assert s[a..b][i] == s[a + i] && s[a..b][j] == s[a + j];
    }
  }

  /** In text without tag pairs no match of either pattern starts anywhere,
      so a deletion pass leaves it as it is. */
  lemma {:induction false} DeleteMatchesKeepsTagFree(p: Pattern, s: string)
    requires NoTagPair(s)
    ensures DeleteMatches(p, s) == s
    decreases |s|
  {
    if s != [] {
      var m := MatchAt(p, s);
      if m.Some? {
        assert false;
      }
      NoTagPairTail(s);
      DeleteMatchesKeepsTagFree(p, s[1..]);
    }
  }

  /** The tag pass leaves no tag pair behind: a `<` it keeps had no `>`
      anywhere after it. */
  lemma {:induction false} TagPassRemovesMarkup(s: string)
    ensures NoTagPair(DeleteMatches(Tag, s))
    decreases |s|
  {
    if s != [] {
      match MatchAt(Tag, s)
      case Some(n) =>
        TagPassRemovesMarkup(s[n..]);
      case None =>
        var rest := DeleteMatches(Tag, s[1..]);
        TagPassRemovesMarkup(s[1..]);
        if s[0] == '<' {
          assert FindChar(s, '>', 1).None?;
          assert forall k :: 0 <= k < |s[1..]| ==> s[1..][k] != '>';
          DeleteMatchesDeletes(Tag, s[1..]);
          forall k | 0 <= k < |rest|
            ensures rest[k] != '>'
          {
            SubsequenceMembers(rest, s[1..], rest[k]);
          }
        }
        var r := [s[0]] + rest;
        forall i, j | 0 <= i < j < |r| && r[i] == '<'
          ensures r[j] != '>'
        {
          assert r[j] == rest[j - 1];
          if i > 0 {
            assert r[i] == rest[i - 1];
          }
        }
    }
  }

  /** A character other than `<` starts no match, so a pass keeps it. */
  lemma FirstCharKept(p: Pattern, s: string)
    requires s != [] && s[0] != '<'
    ensures DeleteMatches(p, s) == [s[0]] + DeleteMatches(p, s[1..])
  {
    assert MatchAt(p, s).None?;
  }

  /** One step of `PlainTextKept`: a first character other than `<` is kept. */
  lemma KeptWithoutOpenBracket(x: string, rest: string)
    requires x != [] && x[0] != '<'
    requires DeleteMatches(Tag, x[1..] + rest) == x[1..] + DeleteMatches(Tag, rest)
    ensures DeleteMatches(Tag, x + rest) == x + DeleteMatches(Tag, rest)
  {
    var s := x + rest;
    assert s[0] == x[0] && s[1..] == x[1..] + rest;
    FirstCharKept(Tag, s);
    HeadThenTail(x, DeleteMatches(Tag, rest));
  }

  /** Putting back the first character of `x` before the rest of `x`. */
  lemma HeadThenTail(x: string, y: string)
    requires x != []
    ensures [x[0]] + (x[1..] + y) == x + y
  {
    assert x == [x[0]] + x[1..];
  }

  /** Text without `<` starts no tag, so the tag pass keeps it
      as it is and carries on after it. */
  lemma {:induction false} PlainTextKept(x: string, rest: string)
    requires forall k :: 0 <= k < |x| ==> x[k] != '<'
    ensures DeleteMatches(Tag, x + rest) == x + DeleteMatches(Tag, rest)
    decreases |x|
  {
    if x == [] {
      assert x + rest == rest;
    } else {
      forall k | 0 <= k < |x[1..]|
        ensures x[1..][k] != '<'
      {
        assert x[1..][k] == x[k + 1];
      }
      PlainTextKept(x[1..], rest);
      KeptWithoutOpenBracket(x, rest);
    }
  }

  /** A tag is deleted from its `<` through the first `>` after it, and the
      scan resumes right after that `>`. */
  lemma TagDeletedThroughFirstClose(t: string, rest: string)
    requires forall k :: 0 <= k < |t| ==> t[k] != '>'
    ensures DeleteMatches(Tag, ['<'] + t + ['>'] + rest) == DeleteMatches(Tag, rest)
  {
    var s := ['<'] + t + ['>'] + rest;
    assert s[1..][|t|] == '>';
    TagMatchIsFirstClose(s);
    var n := MatchAt(Tag, s).value;
    forall k | 1 <= k <= |t|
      ensures s[k] != '>'
    {
      assert s[k] == t[k - 1];
    }
    assert s[|t| + 1] == '>';
    assert n == |t| + 2;
    assert s[n..] == rest;
  }

  /** Text between two tags survives the tag pass; the tags do not. */
  lemma TextBetweenTagsKept(t1: string, x: string, t2: string, rest: string)
    requires forall k :: 0 <= k < |t1| ==> t1[k] != '>'
    requires forall k :: 0 <= k < |x| ==> x[k] != '<'
    requires forall k :: 0 <= k < |t2| ==> t2[k] != '>'
    ensures DeleteMatches(Tag, ['<'] + t1 + ['>'] + x + ['<'] + t2 + ['>'] + rest)
            == x + DeleteMatches(Tag, rest)
  {
    var tail := ['<'] + t2 + ['>'] + rest;
    assert ['<'] + t1 + ['>'] + x + ['<'] + t2 + ['>'] + rest == ['<'] + t1 + ['>'] + (x + tail);
    TagDeletedThroughFirstClose(t1, x + tail);
    PlainTextKept(x, tail);
    TagDeletedThroughFirstClose(t2, rest);
  }

  // ---------------------------------------------------------------------------
  // String.prototype.trim

  /** The characters `trim` removes: ECMAScript WhiteSpace (tab, vertical tab,
      form feed, space, no-break space, byte order mark and the other
      space separators of category Zs) and LineTerminator. */
  predicate IsTrimmable(c: char) {
    || c == '\t' || c == '\n' || c == '\U{000B}' || c == '\U{000C}' || c == '\r'
    || c == ' ' || c == '\U{00A0}' || c == '\U{1680}'
    || ('\U{2000}' <= c <= '\U{200A}')
    || c == '\U{2028}' || c == '\U{2029}' || c == '\U{202F}' || c == '\U{205F}'
    || c == '\U{3000}' || c == '\U{FEFF}'
  }

  /** Removes the longest whitespace prefix. */
  function TrimStart(s: string): (r: string)
    ensures |r| <= |s| && r == s[|s| - |r|..]
    ensures r == [] || !IsTrimmable(r[0])
    ensures forall k :: 0 <= k < |s| - |r| ==> IsTrimmable(s[k])
  {
    if s != [] && IsTrimmable(s[0]) then
      var r := TrimStart(s[1..]);
      LeadingWhitespaceStep(s, s[1..], r);
      r
    else s
  }

  /** Removes the longest whitespace suffix. */
  function TrimEnd(s: string): (r: string)
    ensures |r| <= |s| && r == s[..|r|]
    ensures r == [] || !IsTrimmable(r[|r| - 1])
    ensures forall k :: |r| <= k < |s| ==> IsTrimmable(s[k])
  {
    if s != [] && IsTrimmable(s[|s| - 1]) then
      var r := TrimEnd(s[..|s| - 1]);
      TrailingWhitespaceStep(s, s[..|s| - 1], r);
      r
    else s
  }

  /** One step of `TrimStart`: a whitespace character before whitespace and
      then `r` is whitespace before `r`. */
  lemma LeadingWhitespaceStep(s: string, tail: string, r: string)
    requires s != [] && IsTrimmable(s[0]) && tail == s[1..]
    requires |r| <= |tail| && r == tail[|tail| - |r|..]
    requires forall k :: 0 <= k < |tail| - |r| ==> IsTrimmable(tail[k])
    ensures r == s[|s| - |r|..]
    ensures forall k :: 0 <= k < |s| - |r| ==> IsTrimmable(s[k])
  {
    forall k | 0 < k < |s| - |r|
      ensures IsTrimmable(s[k])
    {
      assert s[k] == tail[k - 1];
    }
  }

  /** One step of `TrimEnd`, at the other end. */
  lemma TrailingWhitespaceStep(s: string, init: string, r: string)
    requires s != [] && IsTrimmable(s[|s| - 1]) && init == s[..|s| - 1]
    requires |r| <= |init| && r == init[..|r|]
    requires forall k :: |r| <= k < |init| ==> IsTrimmable(init[k])
    ensures r == s[..|r|]
    ensures forall k :: |r| <= k < |s| ==> IsTrimmable(s[k])
  {
    forall k | |r| <= k < |init|
      ensures IsTrimmable(s[k])
    {
      assert s[k] == init[k];
    }
  }

  /** Neither end of `s` is whitespace. */
  predicate IsTrimmed(s: string) {
    s == [] || (!IsTrimmable(s[0]) && !IsTrimmable(s[|s| - 1]))
  }

  /** `trim()`: the text between the whitespace at both ends, which is left
      with no whitespace at either end. */
  function Trim(s: string): (r: string)
    ensures IsTrimmed(r)
    // Only whitespace is removed, and only at the two ends.
    ensures exists a, b :: 0 <= a <= b <= |s| && r == s[a..b]
                           && (forall k :: 0 <= k < a ==> IsTrimmable(s[k]))
                           && (forall k :: b <= k < |s| ==> IsTrimmable(s[k]))
  {
    TrimIsSlice(s);
    TrimCutsTrailing(s);
    TrimEnd(TrimStart(s))
  }

  /** The two trimming steps together keep a slice of `s`. */
  lemma TrimIsSlice(s: string)
    ensures var t := TrimStart(s);
            var a := |s| - |t|;
            a + |TrimEnd(t)| <= |s| && TrimEnd(t) == s[a..a + |TrimEnd(t)|]
  {
    var t := TrimStart(s);
    SuffixOfSlice(s, |s| - |t|, TrimEnd(t));
  }

  /** A prefix of the suffix of `s` from `a` is a slice of `s`. */
  lemma SuffixOfSlice(s: string, a: nat, r: string)
    requires a <= |s| && |r| <= |s| - a && r == s[a..][..|r|]
    ensures r == s[a..a + |r|]
  {
  }

  /** What `TrimEnd` cuts after `TrimStart` is whitespace at the end of `s`. */
  lemma TrimCutsTrailing(s: string)
    ensures var t := TrimStart(s);
            forall k :: |s| - |t| + |TrimEnd(t)| <= k < |s| ==> IsTrimmable(s[k])
  {
    var t := TrimStart(s);
    WhitespaceTailOfSuffix(s, |s| - |t|, |TrimEnd(t)|);
  }

  /** Whitespace from position `m` of the suffix of `s` from `a` on is
      whitespace from position `a + m` of `s` on. */
  lemma WhitespaceTailOfSuffix(s: string, a: nat, m: nat)
    requires a + m <= |s|
    requires forall k :: m <= k < |s[a..]| ==> IsTrimmable(s[a..][k])
    ensures forall k :: a + m <= k < |s| ==> IsTrimmable(s[k])
  {
    forall k | a + m <= k < |s|
      ensures IsTrimmable(s[k])
    {
      assert s[k] == s[a..][k - a];
    }
  }

  /** `trim()` leaves trimmed text as it is. */
  lemma TrimKeepsTrimmed(s: string)
    requires IsTrimmed(s)
    ensures Trim(s) == s
  {
  }

  /** `trim()` only deletes characters. */
  lemma TrimOnlyDeletes(s: string)
    ensures IsSubsequence(Trim(s), s)
  {
    var a, b :| 0 <= a <= b <= |s| && Trim(s) == s[a..b];
    SliceIsSubsequence(s, a, b);
  }

  // ---------------------------------------------------------------------------
  // sanitizeText

  /** What every successful sanitisation returns: within the length bound,
      no whitespace at either end, no tag pair. */
  predicate IsSanitized(s: string) {
    Utf16Length(s) <= MaxLength && IsTrimmed(s) && NoTagPair(s)
  }

  /** `sanitizeText(text)`. The source also throws "Input must be a string"
      for a non-string argument; here the argument is a string by type. */
  function Sanitize(text: string): (r: Result<string>)
    ensures r.Failure? <==> Utf16Length(Stripped(text)) > MaxLength
    ensures r.Success? ==> r.value == Stripped(text)
    ensures r.Failure? ==> r.error == Error(TooLongMessage)
    ensures r.Success? ==> IsSanitized(r.value) && |r.value| <= MaxLength
  {
    var sanitized := Stripped(text);
    if Utf16Length(sanitized) > MaxLength then Failure(Error(TooLongMessage))
    else Success(sanitized)
  }

  /** The three passes, before the length check: the result has no
      whitespace at either end and no tag pair. */
  function Stripped(text: string): (r: string)
    ensures IsTrimmed(r) && NoTagPair(r)
  {
    var withoutScripts := DeleteMatches(ScriptBlock, text);
    var withoutTags := DeleteMatches(Tag, withoutScripts);
    TagPassRemovesMarkup(withoutScripts);
    var r := Trim(withoutTags);
    var a, b :| 0 <= a <= b <= |withoutTags| && r == withoutTags[a..b];
    NoTagPairSlice(withoutTags, a, b);
    r
  }

  /** The three passes only delete characters. */
  lemma StrippedOnlyDeletes(text: string)
    ensures IsSubsequence(Stripped(text), text)
  {
    var withoutScripts := DeleteMatches(ScriptBlock, text);
    var withoutTags := DeleteMatches(Tag, withoutScripts);
    DeleteMatchesDeletes(ScriptBlock, text);
    DeleteMatchesDeletes(Tag, withoutScripts);
    TrimOnlyDeletes(withoutTags);
    SubsequenceTrans(Trim(withoutTags), withoutTags, withoutScripts);
    SubsequenceTrans(Trim(withoutTags), withoutScripts, text);
  }

  /** Sanitising only deletes characters: its output is a subsequence of its input. */
  lemma SanitizeOnlyDeletes(text: string)
    requires Sanitize(text).Success?
    ensures IsSubsequence(Sanitize(text).value, text)
  {
    StrippedOnlyDeletes(text);
  }

  /** The length policy applies to the sanitised text, so any input that is
      short enough before sanitising is accepted. */
  lemma ShortInputAccepted(text: string)
    requires Utf16Length(text) <= MaxLength
    ensures Sanitize(text).Success?
  {
    StrippedOnlyDeletes(text);
    Utf16LengthOfSubsequence(Stripped(text), text);
  }

  /** Text that is already sanitised comes back unchanged. */
  lemma SanitizedIsFixedPoint(s: string)
    requires IsSanitized(s)
    ensures Sanitize(s) == Success(s)
  {
    DeleteMatchesKeepsTagFree(ScriptBlock, s);
    DeleteMatchesKeepsTagFree(Tag, s);
    TrimKeepsTrimmed(s);
  }

  /** Sanitising is idempotent on its successful outputs. */
  lemma SanitizeIdempotent(text: string)
    requires Sanitize(text).Success?
    ensures Sanitize(Sanitize(text).value) == Sanitize(text)
  {
    SanitizedIsFixedPoint(Sanitize(text).value);
  }

  /** A `>` (or a `<`) that is not part of a tag pair survives sanitising. */
  lemma LoneAngleBracketKept()
    ensures Sanitize("a > b") == Success("a > b")
  {
    var s := "a > b";
    assert Utf16Length(s[4..]) == 1 && Utf16Length(s[3..]) == 2 && Utf16Length(s[2..]) == 3;
    assert Utf16Length(s) == 5;
    SanitizedIsFixedPoint(s);
  }

  /** The script pass leaves `<b>>` alone: no `<script` starts in it. */
  lemma BracketExampleHasNoScript()
    ensures DeleteMatches(ScriptBlock, "<b>>") == "<b>>"
  {
    var s := "<b>>";
    assert !StartsWithIgnoringCase(s, ScriptOpen) by {
      assert AsciiLower(s[1]) != ScriptOpen[1];
    }
    assert MatchAt(ScriptBlock, s[1..]).None? && MatchAt(ScriptBlock, s[2..]).None?;
    assert MatchAt(ScriptBlock, s[3..]).None?;
    assert s[3..][1..] == [] && s[2..][1..] == s[3..] && s[1..][1..] == s[2..];
  }

  /** A `>` after a removed tag survives too: text that contained markup can
      still contain an angle bracket after sanitising. */
  lemma BracketAfterTagKept()
    ensures Sanitize("<b>>") == Success(">")
  {
    BracketExampleStripped();
    assert Utf16Length(">") == 1;
  }

  /** The three passes turn `<b>>` into `>`. */
  lemma BracketExampleStripped()
    ensures Stripped("<b>>") == ">"
  {
    BracketExampleHasNoScript();
    BracketExampleTagPass();
    assert Trim(">") == ">";
    assert Stripped("<b>>") == Trim(DeleteMatches(Tag, DeleteMatches(ScriptBlock, "<b>>")));
  }

  /** The tag pass deletes `<b>` from `<b>>` and keeps the second `>`. */
  lemma BracketExampleTagPass()
    ensures DeleteMatches(Tag, "<b>>") == ">"
  {
    var s := "<b>>";
    assert FindChar(s, '>', 1) == Some(2);
    assert MatchAt(Tag, s) == Some(3) && s[3..] == ">";
  }

  /** A string that begins with a lower-case word, letter for letter, begins
      with it ignoring case. */
  lemma LiteralPrefixMatches(s: string, pat: string)
    requires |pat| <= |s| && s[..|pat|] == pat
    requires forall k :: 0 <= k < |pat| ==> AsciiLower(pat[k]) == pat[k]
    ensures StartsWithIgnoringCase(s, pat)
  {
    forall k | 0 <= k < |pat|
      ensures AsciiLower(s[k]) == pat[k]
    {
      assert s[k] == s[..|pat|][k];
    }
  }

  /** `</script>` is written in lower case. */
  lemma ScriptCloseIsLowerCase()
    ensures forall k :: 0 <= k < |ScriptClose| ==> AsciiLower(ScriptClose[k]) == ScriptClose[k]
  {
  }

  /** The example's opening `<script`, followed by a non-word character. */
  lemma ScriptExampleOpens(s: string)
    requires s == "<script>x</script>hi"
    ensures StartsWithIgnoringCase(s, ScriptOpen) && !IsWordChar(s[|ScriptOpen|])
  {
    assert s[..7] == ScriptOpen;
  }

  /** The example's first `</script>` after the opening tag starts at 9. */
  lemma ScriptExampleCloses(s: string)
    requires s == "<script>x</script>hi"
    ensures FindScriptClose(s, |ScriptOpen|) == Some(9)
  {
    assert !StartsWithIgnoringCase(s[7..], ScriptClose) by {
      assert AsciiLower(s[7..][0]) != ScriptClose[0];
    }
    assert !StartsWithIgnoringCase(s[8..], ScriptClose) by {
      assert AsciiLower(s[8..][0]) != ScriptClose[0];
    }
    assert s[9..][..|ScriptClose|] == ScriptClose;
    ScriptCloseIsLowerCase();
    LiteralPrefixMatches(s[9..], ScriptClose);
    assert FindScriptClose(s, 8) == Some(9);
  }

  /** The script pattern matches `<script>` through the first `</script>`. */
  lemma ScriptExampleMatch()
    ensures MatchAt(ScriptBlock, "<script>x</script>hi") == Some(18)
  {
    var s := "<script>x</script>hi";
    ScriptExampleOpens(s);
    ScriptExampleCloses(s);
  }

  /** A script block is deleted together with its contents. */
  lemma ScriptBlockRemoved()
    ensures Sanitize("<script>x</script>hi") == Success("hi")
  {
    var s := "<script>x</script>hi";
    ScriptExampleMatch();
    assert s[18..] == "hi";
    assert Utf16Length("hi"[1..]) == 1;
    assert IsSanitized("hi");
    DeleteMatchesKeepsTagFree(ScriptBlock, "hi");
    DeleteMatchesKeepsTagFree(Tag, "hi");
    assert DeleteMatches(ScriptBlock, s) == "hi";
    SanitizedIsFixedPoint("hi");
  }

}
