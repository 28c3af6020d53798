/** The text helpers of StringUtil: trimming, lower-casing, joining, splitting,
    slugs, truthy flags and truncation.

    Strings are `seq<char>`, and a `char` is a Unicode scalar value: a
    character outside the Basic Multilingual Plane is one `char` here and
    two UTF-16 code units in Java. A Java reference that may be null is an
    `Option<string>`.
 */
module StringUtil {
  import opened Wrappers
  import Sequences

  /* ---------------------------------------------------------------------- */
  /* Character classes                                                       */
  /* ---------------------------------------------------------------------- */

  /** Guava's CharMatcher.whitespace(): the characters with the Unicode
      White_Space property. */
  predicate IsWhitespace(c: char) {
    || c == '\t' || c == '\n' || c == '\U{0B}' || c == '\U{0C}' || c == '\r' || c == ' '
    || c == '\U{85}' || c == '\U{A0}' || c == '\U{1680}'
    || ('\U{2000}' <= c <= '\U{200A}')
    || c == '\U{2028}' || c == '\U{2029}' || c == '\U{202F}' || c == '\U{205F}'
    || c == '\U{3000}'
  }

  predicate IsAsciiUpper(c: char) {
    'A' <= c <= 'Z'
  }

  /** The characters a slug keeps: ASCII digits, lower-case Latin letters and '-'. */
  predicate IsSlugChar(c: char) {
    ('0' <= c <= '9') || ('a' <= c <= 'z') || c == '-'
  }

  /** Slug characters other than the hyphen. */
  predicate IsLowerAlnum(c: char) {
    ('0' <= c <= '9') || ('a' <= c <= 'z')
  }

  /** String.toLowerCase restricted to ASCII letters. */
  function LowerChar(c: char): (r: char)
    ensures !IsAsciiUpper(r)
    ensures !IsAsciiUpper(c) ==> r == c
    ensures IsWhitespace(r) <==> IsWhitespace(c)
  {
    if IsAsciiUpper(c) then (c as int - 'A' as int + 'a' as int) as char else c
  }

  predicate AllWhitespace(s: string) {
    forall i :: 0 <= i < |s| ==> IsWhitespace(s[i])
  }

  /** Neither a leading nor a trailing whitespace character. */
  predicate IsTrimmed(s: string) {
    |s| == 0 || (!IsWhitespace(s[0]) && !IsWhitespace(s[|s| - 1]))
  }

  /** No character of `s` is accepted by the matcher. */
  predicate NoneMatch(s: string, matches: char -> bool) {
    forall i :: 0 <= i < |s| ==> !matches(s[i])
  }

  /** How many characters of `s` the matcher accepts. */
  function CountMatching(s: string, matches: char -> bool): nat {
    if |s| == 0 then 0
    else (if matches(s[0]) then 1 else 0) + CountMatching(s[1..], matches)
  }

  /* ---------------------------------------------------------------------- */
  /* Character-wise rewriting (CharMatcher.replaceFrom / retainFrom)         */
  /* ---------------------------------------------------------------------- */

  function MapChars(s: string, f: char -> char): (r: string)
    ensures |r| == |s|
    ensures forall i :: 0 <= i < |s| ==> r[i] == f(s[i])
  {
    seq(|s|, i requires 0 <= i < |s| => f(s[i]))
  }

  /** CharMatcher.retainFrom: the characters the matcher accepts, in order. */
  function Retain(s: string, keep: char -> bool): (r: string)
    ensures |r| <= |s|
    ensures forall i :: 0 <= i < |r| ==> keep(r[i])
  {
    if |s| == 0 then ""
    else (if keep(s[0]) then [s[0]] else "") + Retain(s[1..], keep)
  }

  function ToLower(s: string): (r: string)
    ensures |r| == |s|
    ensures forall i :: 0 <= i < |s| ==> r[i] == LowerChar(s[i])
    ensures forall i :: 0 <= i < |r| ==> !IsAsciiUpper(r[i])
  {
    MapChars(s, LowerChar)
  }

  /* ---------------------------------------------------------------------- */
  /* trim, lowerTrim, isNullEmptyOrBlank                                     */
  /* ---------------------------------------------------------------------- */

  /** Cutting `s` to `s[i..j]` removes only whitespace and leaves no
      whitespace at either end. */
  predicate TrimsAt(s: string, i: int, j: int) {
    && 0 <= i <= j <= |s|
    && AllWhitespace(s[..i])
    && AllWhitespace(s[j..])
    && IsTrimmed(s[i..j])
  }

  /** `r` is what is left of `s` after removing a whitespace prefix and a
      whitespace suffix, and `r` itself has no whitespace at either end. */
  ghost predicate IsTrimOf(r: string, s: string) {
    exists i, j :: TrimsAt(s, i, j) && r == s[i..j]
  }

  function TrimLeading(s: string): (r: string)
    ensures |r| <= |s| && r == s[|s| - |r|..]
    ensures AllWhitespace(s[..|s| - |r|])
    ensures |r| == 0 || !IsWhitespace(r[0])
  {
    if |s| > 0 && IsWhitespace(s[0]) then
      var r := TrimLeading(s[1..]);
      assert s[..|s| - |r|] == [s[0]] + s[1..][..|s| - 1 - |r|];
      r
    else
      s
  }

  function TrimTrailing(s: string): (r: string)
    ensures |r| <= |s| && r == s[..|r|]
    ensures AllWhitespace(s[|r|..])
    ensures |r| == 0 || !IsWhitespace(r[|r| - 1])
  {
    if |s| > 0 && IsWhitespace(s[|s| - 1]) then
      var r := TrimTrailing(s[..|s| - 1]);
      assert s[|r|..] == s[..|s| - 1][|r|..] + [s[|s| - 1]];
      r
    else
      s
  }

  /** CharMatcher.whitespace().trimFrom on a non-null sequence. */
  function TrimFrom(s: string): (r: string)
    ensures IsTrimOf(r, s)
    ensures IsTrimmed(r)
    ensures |r| <= |s|
    ensures forall k :: 0 <= k < |r| ==> r[k] in s
  {
    var lead := TrimLeading(s);
    var r := TrimTrailing(lead);
    TrimCuts(s, lead, r);
    r
  }

  /** The two one-sided trims cut s at i = |s| - |lead| and j = i + |r|. */
  lemma TrimCuts(s: string, lead: string, r: string)
    requires |lead| <= |s| && lead == s[|s| - |lead|..] && AllWhitespace(s[..|s| - |lead|])
    requires |lead| == 0 || !IsWhitespace(lead[0])
    requires |r| <= |lead| && r == lead[..|r|] && AllWhitespace(lead[|r|..])
    requires |r| == 0 || !IsWhitespace(r[|r| - 1])
    ensures IsTrimOf(r, s)
    ensures forall k :: 0 <= k < |r| ==> r[k] in s
  {
    var i := |s| - |lead|;
    var j := i + |r|;
    CutPositions(s, lead, r);
    assert IsTrimmed(r) by {
      if |r| > 0 {
        assert r[0] == lead[0];
      }
    }
    assert TrimsAt(s, i, j);
    SliceMembers(s, i, j);
  }

  /** Where the two cuts fall in s. */
  lemma CutPositions(s: string, lead: string, r: string)
    requires |lead| <= |s| && lead == s[|s| - |lead|..]
    requires |r| <= |lead| && r == lead[..|r|]
    ensures r == s[|s| - |lead|..|s| - |lead| + |r|]
    ensures s[|s| - |lead| + |r|..] == lead[|r|..]
  {
  }

  lemma SliceMembers(s: string, i: int, j: int)
    requires 0 <= i <= j <= |s|
    ensures forall k :: 0 <= k < j - i ==> s[i..j][k] in s
  {
    forall k | 0 <= k < j - i ensures s[i..j][k] in s {
      assert s[i..j][k] == s[i + k];
    }
  }

  /** StringUtil.trim: null becomes the empty string. */
  function Trim(o: Option<string>): (r: string)
    ensures IsTrimmed(r)
    ensures o.None? ==> r == ""
    ensures o.Some? ==> IsTrimOf(r, o.value)
  {
    if o.None? then "" else TrimFrom(o.value)
  }

  /** The cut positions of a trim, stated character by character. */
  lemma TrimsAtFacts(s: string, i: int, j: int)
    requires TrimsAt(s, i, j)
    ensures forall k :: 0 <= k < i ==> IsWhitespace(s[k])
    ensures forall k :: j <= k < |s| ==> IsWhitespace(s[k])
    ensures i < j ==> !IsWhitespace(s[i]) && !IsWhitespace(s[j - 1])
  {
    forall k | 0 <= k < i ensures IsWhitespace(s[k]) {
      assert s[..i][k] == s[k];
    }
    forall k | j <= k < |s| ensures IsWhitespace(s[k]) {
      assert s[j..][k - j] == s[k];
    }
    if i < j {
      assert s[i..j][0] == s[i] && s[i..j][j - i - 1] == s[j - 1];
    }
  }

  /** Any two trims of the same string agree: the trim is unique. */
  lemma TrimUnique(s: string, r1: string, r2: string)
    requires IsTrimOf(r1, s) && IsTrimOf(r2, s)
    ensures r1 == r2
  {
    var i1, j1 :| TrimsAt(s, i1, j1) && r1 == s[i1..j1];
    var i2, j2 :| TrimsAt(s, i2, j2) && r2 == s[i2..j2];
    TrimsAtFacts(s, i1, j1);
    TrimsAtFacts(s, i2, j2);
    // If only one cut were empty, s would be all whitespace, yet the other
    // cut starts at a character that is not; so both are empty or they agree.
    if i1 < j1 && i2 < j2 {
      assert i1 == i2;
      assert j1 == j2;
    }
  }

  /** StringUtil.lowerTrim. */
  function LowerTrim(o: Option<string>): (r: string)
    ensures IsTrimmed(r)
    ensures |r| == |Trim(o)|
    ensures forall i :: 0 <= i < |r| ==> r[i] == LowerChar(Trim(o)[i])
    ensures forall i :: 0 <= i < |r| ==> !IsAsciiUpper(r[i])
  {
    var t := Trim(o);
    var r := ToLower(t);
    assert |t| > 0 ==> r[0] == LowerChar(t[0]) && r[|r| - 1] == LowerChar(t[|t| - 1]);
    r
  }

  /** A trimmed string is its own trim. */
  lemma TrimOfTrimmed(s: string)
    requires IsTrimmed(s)
    ensures TrimFrom(s) == s
  {
    assert s[..0] == [] && s[|s|..] == [] && s[0..|s|] == s;
    assert TrimsAt(s, 0, |s|);
    TrimUnique(s, TrimFrom(s), s);
  }

  /** lowerTrim is idempotent: its result is already lower-case and trimmed. */
  lemma LowerTrimIdempotent(o: Option<string>)
    ensures LowerTrim(Some(LowerTrim(o))) == LowerTrim(o)
  {
    var r := LowerTrim(o);
    TrimOfTrimmed(r);
    LowerOfLower(r);
  }

  lemma LowerOfLower(s: string)
    requires forall i :: 0 <= i < |s| ==> !IsAsciiUpper(s[i])
    ensures ToLower(s) == s
  {
  }

  /** A string trims to nothing exactly when it is all whitespace. */
  lemma TrimEmptyIffBlank(s: string, t: string)
    requires IsTrimOf(t, s)
    ensures |t| == 0 <==> AllWhitespace(s)
  {
    var i, j :| TrimsAt(s, i, j) && t == s[i..j];
    TrimsAtFacts(s, i, j);
  }

  /** StringUtil.isNullEmptyOrBlank: nothing is left after trimming. */
  function IsNullEmptyOrBlank(o: Option<string>): (r: bool)
    ensures r <==> o.None? || AllWhitespace(o.value)
  {
    var t := Trim(o);
    if o.None? then true
    else
      TrimEmptyIffBlank(o.value, t);
      |t| == 0
  }

  /* ---------------------------------------------------------------------- */
  /* concat and join                                                         */
  /* ---------------------------------------------------------------------- */

  /** StringBuilder.append(Object): a null reference is written as "null". */
  function Show(o: Option<string>): string {
    if o.None? then "null" else o.value
  }

  /** The text StringBuilder.append writes for each argument, in order. */
  function Shown(objs: seq<Option<string>>): (r: seq<string>)
    ensures |r| == |objs|
    ensures forall k :: 0 <= k < |objs| ==> r[k] == Show(objs[k])
  {
    seq(|objs|, k requires 0 <= k < |objs| => Show(objs[k]))
  }

  /** StringUtil.concat: every argument appended in order, a null one as
      "null". */
  function Concat(objs: seq<Option<string>>): (r: string)
    ensures r == Sequences.Flatten(Shown(objs))
  {
    if |objs| == 0 then ""
    else
      var init := objs[..|objs| - 1];
      assert Shown(objs) == Shown(init) + [Show(objs[|objs| - 1])];
      Sequences.FlattenSnoc(Shown(init), Show(objs[|objs| - 1]));
      Concat(init) + Show(objs[|objs| - 1])
  }

  /** Concatenating two argument lists is concatenating their results. */
  lemma ConcatAppend(a: seq<Option<string>>, b: seq<Option<string>>)
    ensures Concat(a + b) == Concat(a) + Concat(b)
  {
    assert Shown(a + b) == Shown(a) + Shown(b);
    Sequences.FlattenAppend(Shown(a), Shown(b));
  }

  /** Joiner.on(separator).join over parts that are all present. */
  function JoinAll(xs: seq<string>, sep: string): string {
    if |xs| == 0 then ""
    else if |xs| == 1 then xs[0]
    else xs[0] + sep + JoinAll(xs[1..], sep)
  }

  /** Joining one more part appends the separator and that part. */
  lemma {:induction false} JoinAllSnoc(xs: seq<string>, x: string, sep: string)
    requires |xs| > 0
    ensures JoinAll(xs + [x], sep) == JoinAll(xs, sep) + sep + x
    decreases |xs|
  {
    if |xs| == 1 {
      assert xs + [x] == [xs[0], x];
      assert JoinAll([x], sep) == x;
    } else {
      assert (xs + [x])[1..] == xs[1..] + [x];
      JoinAllSnoc(xs[1..], x, sep);
    }
  }

  /** Joined text holds a character only if a part or the separator does. */
  lemma {:induction false} JoinAllNoneMatch(xs: seq<string>, sep: string, matches: char -> bool)
    requires NoneMatch(sep, matches)
    requires forall k :: 0 <= k < |xs| ==> NoneMatch(xs[k], matches)
    ensures NoneMatch(JoinAll(xs, sep), matches)
    decreases |xs|
  {
    if |xs| > 1 {
      JoinAllNoneMatch(xs[1..], sep, matches);
      var rest := JoinAll(xs[1..], sep);
      assert JoinAll(xs, sep) == xs[0] + sep + rest;
      forall i | 0 <= i < |JoinAll(xs, sep)| ensures !matches(JoinAll(xs, sep)[i]) {
        if i < |xs[0]| {
          assert JoinAll(xs, sep)[i] == xs[0][i];
        } else if i < |xs[0]| + |sep| {
          assert JoinAll(xs, sep)[i] == sep[i - |xs[0]|];
        } else {
          assert JoinAll(xs, sep)[i] == rest[i - |xs[0]| - |sep|];
        }
      }
    }
  }

  /** The present (non-null) parts, in order. */
  function Present(parts: seq<Option<string>>): (r: seq<string>)
    ensures |r| <= |parts|
    ensures forall x :: x in r <==> Some(x) in parts
  {
    if |parts| == 0 then []
    else
      var rest := Present(parts[1..]);
      assert forall x :: Some(x) in parts <==> Some(x) == parts[0] || Some(x) in parts[1..];
      if parts[0].Some? then [parts[0].value] + rest else rest
  }

  /** The matcher of a single character. */
  function CharIs(c: char): char -> bool {
    x => x == c
  }

  /** StringUtil.join: Joiner.on(separator).skipNulls(). With no non-null
      part the text is empty; with a one-character separator that no part
      contains, splitting the text there gives back the non-null parts. */
  function Join(parts: seq<Option<string>>, sep: string): (r: string)
    ensures |Present(parts)| == 0 ==> r == ""
    ensures |Present(parts)| > 0 && |sep| == 1 && (forall x :: x in Present(parts) ==> sep[0] !in x) ==>
      Pieces(r, CharIs(sep[0])) == Present(parts)
  {
    var xs := Present(parts);
    if |xs| > 0 && |sep| == 1 && (forall x :: x in xs ==> sep[0] !in x) then
      assert sep == [sep[0]];
      assert forall k :: 0 <= k < |xs| ==> xs[k] in xs;
      PiecesOfJoin(xs, CharIs(sep[0]), sep[0]);
      JoinAll(xs, sep)
    else
      JoinAll(xs, sep)
  }

  /** Null parts contribute neither text nor a separator: removing one
      from anywhere in the list leaves the joined text unchanged. */
  lemma JoinSkipsNulls(a: seq<Option<string>>, b: seq<Option<string>>, sep: string)
    ensures Join(a + [None] + b, sep) == Join(a + b, sep)
  {
    PresentSkipsNull(a, b);
  }

  lemma {:induction false} PresentSkipsNull(a: seq<Option<string>>, b: seq<Option<string>>)
    ensures Present(a + [None] + b) == Present(a + b)
    decreases |a|
  {
    if |a| == 0 {
      assert a + [None] + b == [None] + b;
      assert ([None] + b)[1..] == b;
      assert a + b == b;
    } else {
      assert (a + [None] + b)[0] == a[0] && (a + b)[0] == a[0];
      assert (a + [None] + b)[1..] == a[1..] + [None] + b;
      assert (a + b)[1..] == a[1..] + b;
      PresentSkipsNull(a[1..], b);
    }
  }

  /* ---------------------------------------------------------------------- */
  /* split                                                                   */
  /* ---------------------------------------------------------------------- */

  /** The raw pieces between separator characters (Splitter.on(matcher)
      before trimming and omitting): one more piece than separators. */
  function Pieces(s: string, sep: char -> bool): (r: seq<string>)
    ensures |r| == CountMatching(s, sep) + 1
    ensures forall k :: 0 <= k < |r| ==> NoneMatch(r[k], sep)
  {
    if |s| == 0 then [""]
    else
      var rest := Pieces(s[1..], sep);
      if sep(s[0]) then [""] + rest
      else [[s[0]] + rest[0]] + rest[1..]
  }

  function TrimAll(ps: seq<string>): (r: seq<string>)
    ensures |r| == |ps|
    ensures forall k :: 0 <= k < |r| ==> r[k] == TrimFrom(ps[k])
  {
    seq(|ps|, k requires 0 <= k < |ps| => TrimFrom(ps[k]))
  }

  /** Splitter.omitEmptyStrings: drop the empty pieces, keep the order. */
  function NonEmpty(ps: seq<string>): (r: seq<string>)
    ensures |r| <= |ps|
    ensures forall k :: 0 <= k < |r| ==> r[k] != "" && r[k] in ps
    ensures forall x :: x in ps && x != "" ==> x in r
  {
    if |ps| == 0 then []
    else if ps[0] == "" then NonEmpty(ps[1..])
    else [ps[0]] + NonEmpty(ps[1..])
  }

  /** StringUtil.split(sequence, matcher, omitEmptyStrings): split on every
      character the matcher accepts, trim each piece, and optionally drop the
      empty ones. */
  function Split(s: string, sep: char -> bool, omitEmptyStrings: bool): (r: seq<string>)
    ensures forall k :: 0 <= k < |r| ==> IsTrimmed(r[k]) && NoneMatch(r[k], sep)
    ensures omitEmptyStrings ==> forall k :: 0 <= k < |r| ==> r[k] != ""
    ensures !omitEmptyStrings ==> |r| == CountMatching(s, sep) + 1
  {
    var ps := Pieces(s, sep);
    var trimmed := TrimAll(ps);
    TrimAllClean(ps, sep);
    if omitEmptyStrings then NonEmpty(trimmed) else trimmed
  }

  /** Trimming pieces that hold no separator leaves trimmed pieces that
      still hold none. */
  lemma TrimAllClean(ps: seq<string>, sep: char -> bool)
    requires forall k :: 0 <= k < |ps| ==> NoneMatch(ps[k], sep)
    ensures forall x :: x in TrimAll(ps) ==> IsTrimmed(x) && NoneMatch(x, sep)
  {
    var trimmed := TrimAll(ps);
    forall x | x in trimmed ensures IsTrimmed(x) && NoneMatch(x, sep) {
      var k :| 0 <= k < |trimmed| && trimmed[k] == x;
      TrimKeepsNoneMatch(ps[k], sep);
    }
  }

  lemma TrimKeepsNoneMatch(s: string, sep: char -> bool)
    requires NoneMatch(s, sep)
    ensures IsTrimmed(TrimFrom(s)) && NoneMatch(TrimFrom(s), sep)
  {
    var r := TrimFrom(s);
    forall k | 0 <= k < |r| ensures !sep(r[k]) {
      var i :| 0 <= i < |s| && s[i] == r[k];
    }
  }

  /** Splitting at a single separator character and joining the pieces with
      that character gives the original text back. */
  lemma {:induction false} JoinPieces(s: string, sep: char -> bool, c: char)
    requires forall x :: sep(x) <==> x == c
    ensures JoinAll(Pieces(s, sep), [c]) == s
    decreases |s|
  {
    if |s| > 0 {
      var rest := Pieces(s[1..], sep);
      JoinPieces(s[1..], sep, c);
      if !sep(s[0]) {
        if |rest| > 1 {
          assert [[s[0]] + rest[0]] + rest[1..] == [[s[0]] + rest[0]] + rest[1..];
          assert JoinAll(rest, [c]) == rest[0] + [c] + JoinAll(rest[1..], [c]);
        }
      }
    }
  }

  /** Pieces of a text whose first part holds no separator. */
  lemma {:induction false} PiecesOfPrefix(x: string, rest: string, sep: char -> bool)
    requires NoneMatch(x, sep)
    ensures Pieces(x + rest, sep) == [x + Pieces(rest, sep)[0]] + Pieces(rest, sep)[1..]
    decreases |x|
  {
    if |x| > 0 {
      assert (x + rest)[0] == x[0] && !sep(x[0]);
      assert (x + rest)[1..] == x[1..] + rest;
      var p := Pieces(x[1..] + rest, sep);
      var q := Pieces(rest, sep);
      assert Pieces(x + rest, sep) == [[x[0]] + p[0]] + p[1..];
      PiecesOfPrefix(x[1..], rest, sep);
      assert p[0] == x[1..] + q[0] && p[1..] == q[1..];
      assert [x[0]] + (x[1..] + q[0]) == x + q[0];
    } else {
      var q := Pieces(rest, sep);
      assert x + rest == rest && x + q[0] == q[0];
      assert [q[0]] + q[1..] == q;
    }
  }

  /** Joining parts that hold no separator character and splitting the
      result at that character gives the parts back. */
  lemma {:induction false} PiecesOfJoin(xs: seq<string>, sep: char -> bool, c: char)
    requires |xs| > 0
    requires sep(c)
    requires forall k :: 0 <= k < |xs| ==> NoneMatch(xs[k], sep)
    ensures Pieces(JoinAll(xs, [c]), sep) == xs
    decreases |xs|
  {
    if |xs| == 1 {
      PiecesOfPrefix(xs[0], "", sep);
      assert xs[0] + "" == xs[0];
    } else {
      var tail := JoinAll(xs[1..], [c]);
      PiecesOfJoin(xs[1..], sep, c);
      assert JoinAll(xs, [c]) == xs[0] + ([c] + tail);
      PiecesOfPrefix(xs[0], [c] + tail, sep);
      assert ([c] + tail)[0] == c && ([c] + tail)[1..] == tail;
      assert Pieces([c] + tail, sep) == [""] + xs[1..];
      assert xs[0] + "" == xs[0];
      assert xs == [xs[0]] + xs[1..];
    }
  }

  /** Without omitting empty strings, split undoes join for parts that are
      trimmed and hold no separator character. */
  lemma SplitJoinRoundTrip(xs: seq<string>, sep: char -> bool, c: char)
    requires |xs| > 0
    requires sep(c)
    requires forall k :: 0 <= k < |xs| ==> IsTrimmed(xs[k]) && NoneMatch(xs[k], sep)
    ensures Split(JoinAll(xs, [c]), sep, false) == xs
  {
    PiecesOfJoin(xs, sep, c);
    TrimAllOfTrimmed(xs);
  }

  /** Trimming parts that are already trimmed changes nothing. */
  lemma TrimAllOfTrimmed(xs: seq<string>)
    requires forall k :: 0 <= k < |xs| ==> IsTrimmed(xs[k])
    ensures TrimAll(xs) == xs
  {
    forall k | 0 <= k < |xs| ensures TrimFrom(xs[k]) == xs[k] {
      TrimOfTrimmed(xs[k]);
    }
  }

  /** With omitEmptyStrings, splitting a join of separator-free parts
      gives the trimmed parts back, less the ones that trim to nothing. */
  lemma SplitOmitJoin(xs: seq<string>, sep: char -> bool, c: char)
    requires |xs| > 0
    requires sep(c)
    requires forall k :: 0 <= k < |xs| ==> NoneMatch(xs[k], sep)
    ensures Split(JoinAll(xs, [c]), sep, true) == NonEmpty(TrimAll(xs))
  {
    PiecesOfJoin(xs, sep, c);
  }

  /** Omitting empty strings from a list that holds none changes nothing. */
  lemma {:induction false} NonEmptyOfNonEmpty(ps: seq<string>)
    requires forall k :: 0 <= k < |ps| ==> ps[k] != ""
    ensures NonEmpty(ps) == ps
  {
    if |ps| > 0 {
      NonEmptyOfNonEmpty(ps[1..]);
      assert ps == [ps[0]] + ps[1..];
    }
  }

  /** With omitEmptyStrings, split undoes join for non-empty parts that are
      trimmed and hold no separator character. */
  lemma SplitOmitJoinRoundTrip(xs: seq<string>, sep: char -> bool, c: char)
    requires |xs| > 0
    requires sep(c)
    requires forall k :: 0 <= k < |xs| ==> xs[k] != "" && IsTrimmed(xs[k]) && NoneMatch(xs[k], sep)
    ensures Split(JoinAll(xs, [c]), sep, true) == xs
  {
    SplitOmitJoin(xs, sep, c);
    TrimAllOfTrimmed(xs);
    NonEmptyOfNonEmpty(xs);
  }

  /** StringUtil.toParagraphs: null gives no paragraphs; otherwise the
      non-blank lines, trimmed. */
  function ToParagraphs(o: Option<string>): (r: seq<string>)
    ensures o.None? ==> r == []
    ensures forall k :: 0 <= k < |r| ==> r[k] != "" && IsTrimmed(r[k])
    ensures forall k :: 0 <= k < |r| ==> NoneMatch(r[k], LineBreak)
  {
    if o.None? then [] else Split(o.value, LineBreak, true)
  }

  /** The LINE_BREAKS matcher: '\n' or '\r'. */
  function LineBreak(c: char): bool {
    c == '\n' || c == '\r'
  }

  /** The paragraphs of lines joined by '\n' are the lines, trimmed, with
      the blank ones left out. */
  lemma ParagraphsOfLines(lines: seq<string>)
    requires |lines| > 0
    requires forall k :: 0 <= k < |lines| ==> NoneMatch(lines[k], LineBreak)
    ensures ToParagraphs(Some(JoinAll(lines, "\n"))) == NonEmpty(TrimAll(lines))
  {
    SplitOmitJoin(lines, LineBreak, '\n');
  }

  /* ---------------------------------------------------------------------- */
  /* truthy                                                                  */
  /* ---------------------------------------------------------------------- */

  const TruthyValues: set<string> := {"y", "yes", "1", "true"}

  /** `s` spells the lower-case word `v` in any mix of ASCII letter case. */
  predicate EqualsIgnoringCase(s: string, v: string) {
    |s| == |v| && forall i :: 0 <= i < |s| ==> LowerChar(s[i]) == v[i]
  }

  /** StringUtil.truthy: case-insensitive membership in TruthyValues;
      a null argument throws a NullPointerException. */
  function Truthy(o: Option<string>): (r: Result<bool, Exception>)
    ensures r.Failure? <==> o.None?
    ensures r.Success? ==> (r.value <==> exists v :: v in TruthyValues && EqualsIgnoringCase(o.value, v))
    ensures r.Success? && r.value ==> |o.value| in {1, 3, 4}
  {
    if o.None? then Failure(NullPointer)
    else
      var lower := ToLower(o.value);
      assert forall v :: EqualsIgnoringCase(o.value, v) <==> v == lower;
      Success(lower in TruthyValues)
  }

  /** Truthy does not depend on ASCII letter case. */
  lemma TruthyIgnoresCase(s: string, t: string)
    requires |s| == |t|
    requires forall i :: 0 <= i < |s| ==> LowerChar(s[i]) == LowerChar(t[i])
    ensures Truthy(Some(s)) == Truthy(Some(t))
  {
    assert ToLower(s) == ToLower(t);
  }

  /* ---------------------------------------------------------------------- */
  /* slug                                                                    */
  /* ---------------------------------------------------------------------- */

  /** The rest of `s` after its leading run of matching characters. */
  function DropWhile(s: string, matches: char -> bool): (r: string)
    ensures |r| <= |s|
    ensures |r| == 0 || !matches(r[0])
  {
    if |s| > 0 && matches(s[0]) then DropWhile(s[1..], matches) else s
  }

  /** CharMatcher.collapseFrom: every run of matching characters becomes a
      single replacement character. */
  function Collapse(s: string, matches: char -> bool, replacement: char): (r: string)
    ensures |r| <= |s|
    decreases |s|
  {
    if |s| == 0 then ""
    else if matches(s[0]) then [replacement] + Collapse(DropWhile(s[1..], matches), matches, replacement)
    else [s[0]] + Collapse(s[1..], matches, replacement)
  }

  function HyphenToSpace(c: char): char {
    if c == '-' then ' ' else c
  }

  function SeparatorToHyphen(c: char): char {
    if IsWhitespace(c) || c == '_' then '-' else c
  }

  /** StringUtil.slug. */
  function Slug(o: Option<string>): (r: string)
    ensures forall i :: 0 <= i < |r| ==> IsSlugChar(r[i])
    ensures |r| <= |Trim(o)|
    ensures IsNullEmptyOrBlank(o) ==> r == ""
  {
    var t := LowerTrim(o);
    if |t| == 0 then t else SlugOf(t)
  }

  /** The rewriting steps of slug, applied to the lower-cased, trimmed text. */
  function SlugOf(t: string): (r: string)
    ensures forall i :: 0 <= i < |r| ==> IsSlugChar(r[i])
    ensures |r| <= |t|
  {
    // '-' becomes a space so that "like - this" collapses to one separator
    var spaced := MapChars(t, HyphenToSpace);
    var collapsed := Collapse(spaced, IsWhitespace, ' ');
    var hyphened := MapChars(collapsed, SeparatorToHyphen);
    Retain(hyphened, IsSlugChar)
  }

  /** Retain ignores a character-wise rewrite that leaves the kept
      characters alone and never turns a dropped character into a kept one. */
  lemma {:induction false} RetainMapChars(s: string, f: char -> char, keep: char -> bool)
    requires forall c :: keep(c) ==> f(c) == c
    requires forall c :: !keep(c) ==> !keep(f(c))
    ensures Retain(MapChars(s, f), keep) == Retain(s, keep)
    decreases |s|
  {
    if |s| > 0 {
      assert MapChars(s, f)[1..] == MapChars(s[1..], f);
      RetainMapChars(s[1..], f, keep);
    }
  }

  lemma {:induction false} RetainDropWhile(s: string, matches: char -> bool, keep: char -> bool)
    requires forall c :: matches(c) ==> !keep(c)
    ensures Retain(DropWhile(s, matches), keep) == Retain(s, keep)
    decreases |s|
  {
    if |s| > 0 && matches(s[0]) {
      RetainDropWhile(s[1..], matches, keep);
    }
  }

  /** Collapsing runs of characters that are not kept changes nothing the
      retain step keeps. */
  lemma {:induction false} RetainCollapse(s: string, matches: char -> bool, replacement: char, keep: char -> bool)
    requires forall c :: matches(c) ==> !keep(c)
    requires !keep(replacement)
    ensures Retain(Collapse(s, matches, replacement), keep) == Retain(s, keep)
    decreases |s|
  {
    if |s| > 0 {
      if matches(s[0]) {
        var d := DropWhile(s[1..], matches);
        RetainCollapse(d, matches, replacement, keep);
        RetainDropWhile(s[1..], matches, keep);
        assert Collapse(s, matches, replacement) == [replacement] + Collapse(d, matches, replacement);
      } else {
        RetainCollapse(s[1..], matches, replacement, keep);
      }
    }
  }

  lemma {:induction false} RetainRetain(s: string, outer: char -> bool, inner: char -> bool)
    requires forall c :: inner(c) ==> outer(c)
    ensures Retain(Retain(s, outer), inner) == Retain(s, inner)
    decreases |s|
  {
    if |s| > 0 {
      RetainRetain(s[1..], outer, inner);
      var t := Retain(s, outer);
      if outer(s[0]) {
        assert t == [s[0]] + Retain(s[1..], outer);
        assert t[0] == s[0] && t[1..] == Retain(s[1..], outer);
      } else {
        assert t == Retain(s[1..], outer);
      }
    }
  }

  lemma SlugOfKeepsLettersAndDigits(t: string)
    ensures Retain(SlugOf(t), IsLowerAlnum) == Retain(t, IsLowerAlnum)
  {
    var spaced := MapChars(t, HyphenToSpace);
    var collapsed := Collapse(spaced, IsWhitespace, ' ');
    var hyphened := MapChars(collapsed, SeparatorToHyphen);
    calc {
      Retain(SlugOf(t), IsLowerAlnum);
      Retain(Retain(hyphened, IsSlugChar), IsLowerAlnum);
      { RetainRetain(hyphened, IsSlugChar, IsLowerAlnum); }
      Retain(hyphened, IsLowerAlnum);
      { RetainMapChars(collapsed, SeparatorToHyphen, IsLowerAlnum); }
      Retain(collapsed, IsLowerAlnum);
      { RetainCollapse(spaced, IsWhitespace, ' ', IsLowerAlnum); }
      Retain(spaced, IsLowerAlnum);
      { RetainMapChars(t, HyphenToSpace, IsLowerAlnum); }
      Retain(t, IsLowerAlnum);
    }
  }

  /** A slug keeps exactly the ASCII digits and lower-case letters of the
      lower-cased, trimmed input, in their original order; only hyphens are
      added or removed around them. */
  lemma SlugKeepsLettersAndDigits(o: Option<string>)
    ensures Retain(Slug(o), IsLowerAlnum) == Retain(LowerTrim(o), IsLowerAlnum)
  {
    var t := LowerTrim(o);
    if |t| > 0 {
      SlugOfKeepsLettersAndDigits(t);
    }
  }

  /* ---------------------------------------------------------------------- */
  /* truncate                                                                */
  /* ---------------------------------------------------------------------- */

  const Dots := "..."

  /** String.lastIndexOf(c, from): the greatest index <= from holding c,
      or -1; a `from` past the end searches the whole string. */
  function LastIndexOf(s: string, c: char, from: int): (r: int)
    ensures -1 <= r < |s|
    ensures r >= 0 ==> r <= from && s[r] == c
    ensures forall k :: r < k <= from && 0 <= k < |s| ==> s[k] != c
    decreases from
  {
    if from < 0 then -1
    else if from >= |s| then LastIndexOf(s, c, |s| - 1)
    else if s[from] == c then from
    else LastIndexOf(s, c, from - 1)
  }

  /** Where the word-safe cut ends: at the last space at an index in
      (0, cut], or at `cut` when there is none. */
  predicate WordSafeEnd(s: string, cut: int, end: int)
    requires 0 <= cut < |s|
  {
    || (0 < end <= cut && s[end] == ' ' && forall k :: end < k <= cut ==> s[k] != ' ')
    || (end == cut && forall k :: 0 < k <= cut ==> s[k] != ' ')
  }

  /** StringUtil.truncate(s, length, appendDots, wordSafe). A null string
      is rejected; a cut index below zero makes String.substring throw. */
  function Truncate(o: Option<string>, length: int, appendDots: bool, wordSafe: bool): (r: Result<string, Exception>)
    ensures o.None? ==> r == Failure(IllegalArgument)
    ensures o.Some? && |o.value| <= length ==> r == Success(o.value)
    ensures o.Some? && |o.value| > length ==>
      (r.Failure? <==> length < (if appendDots then |Dots| else 0))
    ensures r.Success? ==> |r.value| <= length
    ensures r.Success? && |o.value| > length && appendDots ==>
      |r.value| >= |Dots| && r.value[|r.value| - |Dots|..] == Dots
    ensures r.Success? && |o.value| > length ==>
      var kept := if appendDots then r.value[..|r.value| - |Dots|] else r.value;
      var cut := if appendDots then length - |Dots| else length;
      && 0 <= cut < |o.value|
      && kept == o.value[..|kept|]
      && (!wordSafe ==> |kept| == cut)
      && (wordSafe ==> WordSafeEnd(o.value, cut, |kept|))
  {
    if o.None? then Failure(IllegalArgument)
    else
      var s := o.value;
      if |s| <= length then Success(s)
      else
        var cut := if appendDots then length - |Dots| else length;
        if cut < 0 then Failure(IndexOutOfBounds)
        else
          var last := LastIndexOf(s, ' ', cut);
          var end := if wordSafe && last > 0 then last else cut;
          var kept := s[..end];
          Success(if appendDots then kept + Dots else kept)
  }
}
