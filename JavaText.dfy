/**
 * The java.lang.String operations the core relies on, modelled over ASCII.
 *
 * Java has three different notions of "white space", and the core uses all three:
 * `trim()` strips every char whose code is at most U+0020, the regular expression
 * `\s` matches space, tab, line feed, vertical tab, form feed and carriage return,
 * and `isBlank()` uses `Character.isWhitespace`, which on ASCII also admits the
 * four separators U+001C..U+001F.
 */
module JavaText {
  import opened Wrappers


  /** Chars that `String.trim()` removes from both ends. */
  predicate IsTrimmed(c: char) {
    c <= ' '
  }

  /** Chars matched by the regular-expression class `\s`. */
  predicate IsRegexSpace(c: char) {
    c == ' ' || c == '\t' || c == '\n' || c == '\U{B}' || c == '\U{C}' || c == '\r'
  }

  /** `Character.isWhitespace` restricted to ASCII. */
  predicate IsWhitespace(c: char) {
    ('\t' <= c <= '\r') || ('\U{1C}' <= c <= '\U{1F}') || c == ' '
  }

  /** `String.isBlank()`: empty or only white space. */
  predicate IsBlank(s: string) {
    forall i :: 0 <= i < |s| ==> IsWhitespace(s[i])
  }

  /** A Java reference that is neither null nor blank. */
  predicate IsPresent(s: Option<string>) {
    s.Some? && !IsBlank(s.value)
  }

  lemma RegexSpaceIsTrimmed(c: char)
    ensures IsRegexSpace(c) ==> IsTrimmed(c)
  {
  }

  function TrimStart(s: string): (r: string)
    ensures |r| <= |s| && r == s[|s| - |r|..]
    ensures forall i :: 0 <= i < |s| - |r| ==> IsTrimmed(s[i])
    ensures |r| > 0 ==> !IsTrimmed(r[0])
  {
    if |s| > 0 && IsTrimmed(s[0]) then TrimStart(s[1..]) else s
  }

  function TrimEnd(s: string): (r: string)
    ensures |r| <= |s| && r == s[..|r|]
    ensures forall i :: |r| <= i < |s| ==> IsTrimmed(s[i])
    ensures |r| > 0 ==> !IsTrimmed(r[|r| - 1])
  {
    if |s| > 0 && IsTrimmed(s[|s| - 1]) then TrimEnd(s[..|s| - 1]) else s
  }

  /** `String.trim()`: the contiguous middle of `s` left after stripping chars at most U+0020 from both ends. */
  function Trim(s: string): (r: string)
    ensures |r| <= |s| && forall c :: c in r ==> c in s
    ensures |r| > 0 ==> !IsTrimmed(r[0]) && !IsTrimmed(r[|r| - 1])
    ensures |s| > 0 && !IsTrimmed(s[0]) && !IsTrimmed(s[|s| - 1]) ==> r == s
  {
    var t := TrimStart(s);
    var r := TrimEnd(t);
    assert r == s[|s| - |t|..|s| - |t| + |r|];
    r
  }

  /** Stripping a leading run of chars at most U+0020 that ends at `a` leaves `s[a..]`. */
  lemma {:induction false} TrimStartAt(s: string, a: nat)
    requires a <= |s| && forall k :: 0 <= k < a ==> IsTrimmed(s[k])
    requires a < |s| ==> !IsTrimmed(s[a])
    ensures TrimStart(s) == s[a..]
    decreases a
  {
    if a > 0 {
      assert IsTrimmed(s[0]);
      TrimStartAt(s[1..], a - 1);
      assert s[1..][a - 1..] == s[a..];
    }
  }

  /** Stripping a trailing run of chars at most U+0020 that starts at `b` leaves `s[..b]`. */
  lemma {:induction false} TrimEndAt(s: string, b: nat)
    requires b <= |s| && forall k :: b <= k < |s| ==> IsTrimmed(s[k])
    requires b > 0 ==> !IsTrimmed(s[b - 1])
    ensures TrimEnd(s) == s[..b]
    decreases |s| - b
  {
    if b < |s| {
      assert IsTrimmed(s[|s| - 1]);
      TrimEndAt(s[..|s| - 1], b);
      assert s[..|s| - 1][..b] == s[..b];
    }
  }

  /**
   * What `trim()` keeps is the middle of `s`: whenever `s` splits into a run of
   * chars at most U+0020, a middle that neither starts nor ends with one, and
   * another such run, the result is that middle.
   */
  lemma TrimIsMiddle(s: string, a: nat, b: nat)
    requires a <= b <= |s|
    requires forall k :: 0 <= k < a ==> IsTrimmed(s[k])
    requires forall k :: b <= k < |s| ==> IsTrimmed(s[k])
    requires a < b ==> !IsTrimmed(s[a]) && !IsTrimmed(s[b - 1])
    ensures Trim(s) == s[a..b]
  {
    if a == b {
      TrimOfBlank(s);
    } else {
      TrimOfMiddle(s, a, b);
    }
  }

  lemma TrimOfBlank(s: string)
    requires forall k :: 0 <= k < |s| ==> IsTrimmed(s[k])
    ensures Trim(s) == []
  {
    TrimStartAt(s, |s|);
    assert s[|s|..] == [];
    TrimEndAt([], 0);
  }

  lemma TrimOfMiddle(s: string, a: nat, b: nat)
    requires a < b <= |s|
    requires forall k :: 0 <= k < a ==> IsTrimmed(s[k])
    requires forall k :: b <= k < |s| ==> IsTrimmed(s[k])
    requires !IsTrimmed(s[a]) && !IsTrimmed(s[b - 1])
    ensures Trim(s) == s[a..b]
  {
    StripBothEnds(s, a, b);
    TrimUnfold(s);
  }

  lemma TrimUnfold(s: string)
    ensures Trim(s) == TrimEnd(TrimStart(s))
  {
  }

  lemma StripBothEnds(s: string, a: nat, b: nat)
    requires a < b <= |s|
    requires forall k :: 0 <= k < a ==> IsTrimmed(s[k])
    requires forall k :: b <= k < |s| ==> IsTrimmed(s[k])
    requires !IsTrimmed(s[a]) && !IsTrimmed(s[b - 1])
    ensures TrimEnd(TrimStart(s)) == s[a..b]
  {
    TrimStartAt(s, a);
    StripEndOfSuffix(s, TrimStart(s), a, b);
  }

  lemma StripEndOfSuffix(s: string, t: string, a: nat, b: nat)
    requires a < b <= |s| && t == s[a..]
    requires forall k :: b <= k < |s| ==> IsTrimmed(s[k])
    requires !IsTrimmed(s[b - 1])
    ensures TrimEnd(t) == s[a..b]
  {
    SuffixEnds(s, a, b);
    TrimEndAt(t, b - a);
    SliceOfSuffix(s, a, b);
  }

  lemma SliceOfSuffix(s: string, a: nat, b: nat)
    requires a <= b <= |s|
    ensures s[a..][..b - a] == s[a..b]
  {
  }

  /** How `s[a..]` ends, given how `s` ends. */
  lemma SuffixEnds(s: string, a: nat, b: nat)
    requires a < b <= |s|
    requires forall k :: b <= k < |s| ==> IsTrimmed(s[k])
    requires !IsTrimmed(s[b - 1])
    ensures forall k :: b - a <= k < |s[a..]| ==> IsTrimmed(s[a..][k])
    ensures !IsTrimmed(s[a..][b - a - 1])
  {
    var t := s[a..];
    forall k | b - a <= k < |t|
      ensures IsTrimmed(t[k])
    {
      assert t[k] == s[a + k];
    }
  }

  lemma WhitespaceIsTrimmed(c: char)
    ensures IsWhitespace(c) ==> IsTrimmed(c)
  {
  }

  lemma TrimOfEmpty()
    ensures Trim("") == ""
  {
  }

  lemma NotInConcat(x: char, a: string, b: string)
    requires x !in a && x !in b
    ensures x !in a + b
  {
  }

  /** `s.replace(from, to)` for single chars. */
  function ReplaceChar(s: string, from: char, to: char): (r: string)
    ensures |r| == |s|
    ensures forall i :: 0 <= i < |s| ==> r[i] == (if s[i] == from then to else s[i])
  {
    seq(|s|, i requires 0 <= i < |s| => if s[i] == from then to else s[i])
  }

  /** The suffix of `s` left after its leading run of `\s` chars. */
  function DropSpaces(s: string): (r: string)
    ensures |r| <= |s| && r == s[|s| - |r|..]
    ensures forall i :: 0 <= i < |s| - |r| ==> IsRegexSpace(s[i])
    ensures |r| > 0 ==> !IsRegexSpace(r[0])
  {
    if |s| > 0 && IsRegexSpace(s[0]) then DropSpaces(s[1..]) else s
  }

  /** The chars of `s` that are not matched by `\s`, in order. */
  function NonSpace(s: string): string
    decreases |s|
  {
    if |s| == 0 then "" else (if IsRegexSpace(s[0]) then "" else [s[0]]) + NonSpace(s[1..])
  }

  /** Dropping a leading run of white space keeps the other chars. */
  lemma {:induction false} NonSpaceOfDropSpaces(s: string)
    ensures NonSpace(DropSpaces(s)) == NonSpace(s)
    decreases |s|
  {
    if |s| > 0 && IsRegexSpace(s[0]) {
      NonSpaceOfDropSpaces(s[1..]);
    }
  }

  /** `s.replaceAll("\\s+", " ")`: every maximal run of `\s` chars becomes one space. */
  function CollapseSpaces(s: string): (r: string)
    ensures |r| <= |s|
    ensures forall c :: c in r ==> c == ' ' || c in s
    ensures IsCollapsed(r)
    ensures |s| > 0 && !IsRegexSpace(s[0]) ==> |r| > 0 && r[0] == s[0]
    decreases |s|
  {
    if |s| == 0 then ""
    else if IsRegexSpace(s[0]) then
      var rest := DropSpaces(s);
      assert forall c :: c in rest ==> c in s;
      " " + CollapseSpaces(rest)
    else
      assert forall c :: c in s[1..] ==> c in s;
      [s[0]] + CollapseSpaces(s[1..])
  }

  /** `NonSpace` looks at one char at a time. */
  lemma NonSpaceCons(c: char, t: string)
    ensures NonSpace([c] + t) == (if IsRegexSpace(c) then "" else [c]) + NonSpace(t)
  {
    assert ([c] + t)[1..] == t;
  }

  /** One step of `CollapseSpaces`: a run of white space becomes one space, any other char stays. */
  lemma CollapseStep(s: string)
    requires |s| > 0
    ensures IsRegexSpace(s[0]) ==> CollapseSpaces(s) == [' '] + CollapseSpaces(DropSpaces(s))
    ensures !IsRegexSpace(s[0]) ==> CollapseSpaces(s) == [s[0]] + CollapseSpaces(s[1..])
  {
  }

  /** Collapsing changes only white space: every other char is kept, in order. */
  lemma {:induction false} CollapseKeepsNonSpace(s: string)
    ensures NonSpace(CollapseSpaces(s)) == NonSpace(s)
    decreases |s|
  {
    if |s| > 0 {
      NonSpaceCons(s[0], s[1..]);
      assert s == [s[0]] + s[1..];
      if IsRegexSpace(s[0]) {
        var rest := DropSpaces(s);
        NonSpaceOfDropSpaces(s);
        CollapseKeepsNonSpace(rest);
        CollapseStep(s);
        NonSpaceCons(' ', CollapseSpaces(rest));
      } else {
        CollapseKeepsNonSpace(s[1..]);
        CollapseStep(s);
        NonSpaceCons(s[0], CollapseSpaces(s[1..]));
      }
    }
  }

  /** Collapsing keeps a last char that is not white space. */
  lemma {:induction false} CollapseKeepsLast(s: string)
    requires |s| > 0 && !IsRegexSpace(s[|s| - 1])
    ensures |CollapseSpaces(s)| > 0 && CollapseSpaces(s)[|CollapseSpaces(s)| - 1] == s[|s| - 1]
    decreases |s|
  {
    if IsRegexSpace(s[0]) {
      var rest := DropSpaces(s);
      assert |rest| > 0;
      CollapseKeepsLast(rest);
    } else if |s| > 1 {
      CollapseKeepsLast(s[1..]);
    }
  }

  /** Collapsing a trimmed string leaves it trimmed. */
  lemma CollapseOfTrimmed(t: string)
    requires |t| > 0 ==> !IsTrimmed(t[0]) && !IsTrimmed(t[|t| - 1])
    ensures var r := CollapseSpaces(t); |r| > 0 ==> !IsTrimmed(r[0]) && !IsTrimmed(r[|r| - 1])
  {
    if |t| > 0 {
      RegexSpaceIsTrimmed(t[0]);
      RegexSpaceIsTrimmed(t[|t| - 1]);
      CollapseKeepsLast(t);
    }
  }

  /** `s.trim().replaceAll("\\s+", " ")`: trimmed ends, single plain spaces inside. */
  function TrimCollapse(s: string): (r: string)
    ensures forall c :: c in r ==> c == ' ' || c in s
    ensures |r| > 0 ==> !IsTrimmed(r[0]) && !IsTrimmed(r[|r| - 1])
    ensures IsCollapsed(r)
  {
    var t := Trim(s);
    CollapseOfTrimmed(t);
    CollapseSpaces(t)
  }

  /** Trimming and collapsing keeps every non-white-space char of the trimmed middle, in order. */
  lemma TrimCollapseKeepsNonSpace(s: string)
    ensures NonSpace(TrimCollapse(s)) == NonSpace(Trim(s))
  {
    CollapseKeepsNonSpace(Trim(s));
  }

  /** A string that is already trimmed and collapsed is left alone. */
  lemma TrimCollapseOfNormal(t: string)
    requires |t| > 0 ==> !IsTrimmed(t[0]) && !IsTrimmed(t[|t| - 1])
    requires IsCollapsed(t)
    ensures TrimCollapse(t) == t
  {
    assert Trim(t) == t;
    CollapseOfCollapsed(t);
  }

  /** `s` already has the shape `replaceAll("\\s+", " ")` produces. */
  predicate IsCollapsed(s: string) {
    && (forall i :: 0 <= i < |s| ==> IsRegexSpace(s[i]) ==> s[i] == ' ')
    && (forall i :: 0 <= i < |s| - 1 ==> !(IsRegexSpace(s[i]) && IsRegexSpace(s[i + 1])))
  }

  lemma {:induction false} CollapseOfCollapsed(s: string)
    requires IsCollapsed(s)
    ensures CollapseSpaces(s) == s
    decreases |s|
  {
    if |s| > 0 {
      var t := s[1..];
      assert IsCollapsed(t) by {
        forall i | 0 <= i < |t| ensures t[i] == s[i + 1] {}
      }
      CollapseOfCollapsed(t);
      if IsRegexSpace(s[0]) {
        assert s[0] == ' ';
        assert |t| > 0 ==> !IsRegexSpace(t[0]) by {
          if |t| > 0 {
            assert t[0] == s[1];
          }
        }
        DropSpacesOfWord(t);
        assert DropSpaces(s) == DropSpaces(t);
        assert CollapseSpaces(s) == " " + CollapseSpaces(t);
        assert s == " " + t;
      } else {
        assert CollapseSpaces(s) == [s[0]] + CollapseSpaces(t);
        assert s == [s[0]] + t;
      }
    }
  }

  /** A string that does not start with white space has nothing to drop. */
  lemma DropSpacesOfWord(t: string)
    requires |t| > 0 ==> !IsRegexSpace(t[0])
    ensures DropSpaces(t) == t
  {
  }

  function ToUpperChar(c: char): char {
    if 'a' <= c <= 'z' then (c as int - 'a' as int + 'A' as int) as char else c
  }

  function ToLowerChar(c: char): char {
    if 'A' <= c <= 'Z' then (c as int - 'A' as int + 'a' as int) as char else c
  }

  /** `toUpperCase(Locale.ROOT)` on ASCII. */
  function ToUpper(s: string): (r: string)
    ensures |r| == |s| && forall i :: 0 <= i < |s| ==> r[i] == ToUpperChar(s[i])
  {
    seq(|s|, i requires 0 <= i < |s| => ToUpperChar(s[i]))
  }

  /** `toLowerCase()` on ASCII. */
  function ToLower(s: string): (r: string)
    ensures |r| == |s| && forall i :: 0 <= i < |s| ==> r[i] == ToLowerChar(s[i])
  {
    seq(|s|, i requires 0 <= i < |s| => ToLowerChar(s[i]))
  }

  /** `lit.equalsIgnoreCase(s)`: false for a null `s`, else the same length and equal chars up to ASCII case. */
  predicate EqualsIgnoreCase(lit: string, s: Option<string>) {
    s.Some? && |s.value| == |lit| &&
    forall i :: 0 <= i < |lit| ==> ToUpperChar(lit[i]) == ToUpperChar(s.value[i])
  }

  /** `s.contains(sub)`. */
  predicate Contains(s: string, sub: string) {
    exists i :: 0 <= i <= |s| - |sub| && IsPrefix(sub, s[i..])
  }

  /** `s.startsWith(p)`. */
  predicate IsPrefix(p: string, s: string) {
    |p| <= |s| && s[..|p|] == p
  }

  /** `String.split` with limit 0 drops the trailing empty strings of the pieces. */
  function DropTrailingEmpty(parts: seq<string>): (r: seq<string>)
    ensures |r| <= |parts| && r == parts[..|r|]
    ensures forall i :: |r| <= i < |parts| ==> parts[i] == ""
    ensures |r| > 0 ==> r[|r| - 1] != ""
  {
    if |parts| > 0 && parts[|parts| - 1] == "" then DropTrailingEmpty(parts[..|parts| - 1]) else parts
  }

  /**
   * `String.split(regex)` given the pieces between the matches: with no match the
   * string itself comes back, otherwise the trailing empty pieces are dropped.
   */
  function SplitResult(pieces: seq<string>): seq<string> {
    if |pieces| == 1 then pieces else DropTrailingEmpty(pieces)
  }

  /** `parts.length > k ? parts[k] : ""`. */
  function PartOr(parts: seq<string>, k: nat): string {
    if k < |parts| then parts[k] else ""
  }

  /** Dropping trailing empty pieces never changes what `PartOr` reads. */
  lemma PartOrOfSplitResult(pieces: seq<string>, k: nat)
    ensures PartOr(SplitResult(pieces), k) == PartOr(pieces, k)
  {
  }
}
