/**
 * Turning the result of an identity-document analysis into "docSignals": the
 * visual fields, read generously under several key names, are reconciled with
 * the machine-readable zone, and the outcome carries mismatch, expiry,
 * cropping and quality signals plus human-readable reasons in a fixed order.
 *
 * The analysis result itself comes from a cloud SDK; it is modelled as plain
 * data (`AnalyzeResult`, `AnalyzedDoc`, `Field`), and the current date is a
 * parameter.
 */
module DocSignals {
  import opened Wrappers
  import opened JavaText
  import opened JavaTime
  import opened Mrz

  // ---------------------------------------------------------------------------
  // Normalised comparison
  // ---------------------------------------------------------------------------

  predicate IsNormChar(c: char) {
    IsUpperLetter(c) || IsDigit(c)
  }

  /** `normalize`: upper-case, then keep only A-Z and 0-9. */
  function Normalize(s: string): (r: string)
    ensures |r| <= |s|
    ensures forall i :: 0 <= i < |r| ==> IsNormChar(r[i])
    decreases |s|
  {
    if |s| == 0 then ""
    else
      var c := ToUpperChar(s[0]);
      (if IsNormChar(c) then [c] else []) + Normalize(s[1..])
  }

  /** One char normalises to itself upper-cased when that is a capital letter or a digit, and to nothing otherwise. */
  lemma NormalizeChar(c: char)
    ensures Normalize([c]) == if IsNormChar(ToUpperChar(c)) then [ToUpperChar(c)] else []
  {
    assert [c][1..] == [];
  }

  /** `normalize` works char by char: it distributes over concatenation. */
  lemma {:induction false} NormalizeConcat(a: string, b: string)
    ensures Normalize(a + b) == Normalize(a) + Normalize(b)
    decreases |a|
  {
    if |a| == 0 {
      assert a + b == b;
    } else {
      assert (a + b)[0] == a[0];
      assert (a + b)[1..] == a[1..] + b;
      NormalizeConcat(a[1..], b);
    }
  }

  /** A string made only of A-Z and 0-9 is its own normal form. */
  lemma {:induction false} NormalizeOfNormal(s: string)
    requires forall i :: 0 <= i < |s| ==> IsNormChar(s[i])
    ensures Normalize(s) == s
    decreases |s|
  {
    if |s| > 0 {
      NormalizeOfNormal(s[1..]);
      assert [s[0]] + s[1..] == s;
    }
  }

  /** `normalize` is idempotent. */
  lemma NormalizeIdempotent(s: string)
    ensures Normalize(Normalize(s)) == Normalize(s)
  {
    NormalizeOfNormal(Normalize(s));
  }

  /** `normalize` does not see ASCII case. */
  lemma {:induction false} NormalizeIgnoresCase(s: string)
    ensures Normalize(ToLower(s)) == Normalize(s)
    ensures Normalize(ToUpper(s)) == Normalize(s)
    decreases |s|
  {
    if |s| > 0 {
      NormalizeIgnoresCase(s[1..]);
      assert ToLower(s)[1..] == ToLower(s[1..]);
      assert ToUpper(s)[1..] == ToUpper(s[1..]);
    }
  }

  /** `safeEqualsNorm`: false when either side is null, else equality of the normal forms. */
  predicate SafeEqualsNorm(a: Option<string>, b: Option<string>) {
    a.Some? && b.Some? && Normalize(a.value) == Normalize(b.value)
  }

  /**
   * Case and a separator that is not a letter or digit do not matter: for instance
   * "Anna-Maria" matches "ANNA MARIA".
   */
  lemma {:induction false} SeparatorIsIgnored(a: string, b: string, c: char, d: char)
    requires !IsNormChar(ToUpperChar(c)) && !IsNormChar(ToUpperChar(d))
    ensures SafeEqualsNorm(Some(a + [c] + b), Some(ToUpper(a) + [d] + ToUpper(b)))
  {
    NormalizeConcat(a + [c], b);
    NormalizeConcat(a, [c]);
    NormalizeConcat(ToUpper(a) + [d], ToUpper(b));
    NormalizeConcat(ToUpper(a), [d]);
    NormalizeChar(c);
    NormalizeChar(d);
    NormalizeIgnoresCase(a);
    NormalizeIgnoresCase(b);
  }

  /** A present value equals itself and its upper- and lower-case forms; the relation is symmetric. */
  lemma SafeEqualsNormProperties(a: Option<string>, b: Option<string>)
    ensures a.None? || b.None? ==> !SafeEqualsNorm(a, b)
    ensures SafeEqualsNorm(a, b) <==> SafeEqualsNorm(b, a)
    ensures a.Some? ==> SafeEqualsNorm(a, a)
    ensures a.Some? ==> SafeEqualsNorm(a, Some(ToUpper(a.value))) && SafeEqualsNorm(a, Some(ToLower(a.value)))
  {
    if a.Some? {
      NormalizeIgnoresCase(a.value);
    }
  }

  // ---------------------------------------------------------------------------
  // Choosing among candidate values
  // ---------------------------------------------------------------------------

  /** `coalesce`: the first value that is neither null nor blank, unchanged. */
  function Coalesce(ss: seq<Option<string>>): (r: Option<string>)
    ensures r.Some? ==> IsPresent(r) && exists i :: 0 <= i < |ss| && ss[i] == r && forall j :: 0 <= j < i ==> !IsPresent(ss[j])
    ensures r.None? <==> forall i :: 0 <= i < |ss| ==> !IsPresent(ss[i])
  {
    if |ss| == 0 then None
    else if IsPresent(ss[0]) then ss[0]
    else
      var r := Coalesce(ss[1..]);
      assert forall i :: 1 <= i < |ss| ==> ss[i] == ss[1..][i - 1];
      r
  }

  /** `firstNonBlank`: the first value that is neither null nor blank, trimmed. */
  function FirstNonBlank(ss: seq<Option<string>>): (r: Option<string>)
    ensures r.Some? ==> exists i :: 0 <= i < |ss| && IsPresent(ss[i]) && r.value == Trim(ss[i].value) && forall j :: 0 <= j < i ==> !IsPresent(ss[j])
    ensures r.None? <==> forall i :: 0 <= i < |ss| ==> !IsPresent(ss[i])
  {
    match Coalesce(ss)
    case None => None
    case Some(v) => Some(Trim(v))
  }

  /**
   * `joinName`: null when both sides are null or blank; the trimmed other side
   * when one is; otherwise both joined by a single space, trimmed and collapsed.
   */
  function JoinName(left: Option<string>, right: Option<string>): (r: Option<string>)
    ensures r.None? <==> !IsPresent(left) && !IsPresent(right)
    ensures !IsPresent(left) && IsPresent(right) ==> r == Some(Trim(right.value))
    ensures IsPresent(left) && !IsPresent(right) ==> r == Some(Trim(left.value))
    ensures r.Some? && |r.value| > 0 ==> !IsTrimmed(r.value[0]) && !IsTrimmed(r.value[|r.value| - 1])
  {
    if !IsPresent(left) && !IsPresent(right) then None
    else if !IsPresent(left) then Some(Trim(right.value))
    else if !IsPresent(right) then Some(Trim(left.value))
    else Some(TrimCollapse(left.value + " " + right.value))
  }

  /** Two names already in normal form are joined by exactly one space. */
  lemma JoinNameOfWords(left: string, right: string)
    requires |left| > 0 && !IsTrimmed(left[0]) && !IsTrimmed(left[|left| - 1]) && IsCollapsed(left)
    requires |right| > 0 && !IsTrimmed(right[0]) && !IsTrimmed(right[|right| - 1]) && IsCollapsed(right)
    ensures JoinName(Some(left), Some(right)) == Some(left + " " + right)
  {
    WhitespaceIsTrimmed(left[0]);
    WhitespaceIsTrimmed(right[0]);
    var both := left + " " + right;
    forall k | 0 <= k < |both|
      ensures both[k] == (if k < |left| then left[k] else if k == |left| then ' ' else right[k - |left| - 1])
    {
    }
    assert IsCollapsed(both) by {
      RegexSpaceIsTrimmed(left[|left| - 1]);
      RegexSpaceIsTrimmed(right[0]);
      forall k | 0 <= k < |both| - 1
        ensures !(IsRegexSpace(both[k]) && IsRegexSpace(both[k + 1]))
      {
        if k < |left| - 1 {
          assert both[k] == left[k] && both[k + 1] == left[k + 1];
        } else if k > |left| {
          assert both[k] == right[k - |left| - 1] && both[k + 1] == right[k - |left|];
        }
      }
    }
    TrimCollapseOfNormal(both);
  }

  /** `clamp`: `max(lo, min(hi, v))`. */
  function Clamp(v: real, lo: real, hi: real): (r: real)
    ensures lo <= hi ==> lo <= r <= hi
    ensures lo <= v <= hi ==> r == v
    ensures v < lo ==> r == lo
    ensures lo <= hi < v ==> r == hi
  {
    var m := if hi < v then hi else v;
    if lo < m then m else lo
  }

  // ---------------------------------------------------------------------------
  // The analysis result
  // ---------------------------------------------------------------------------

  /** One extracted field: its OCR content, its typed string value and its typed date. */
  datatype Field = Field(content: Option<string>, valueString: Option<string>, valueDate: Option<LocalDate>)

  /** The first analysed document: its field map (null when absent) and its confidence. */
  datatype AnalyzedDoc = AnalyzedDoc(fields: Option<map<string, Field>>, confidence: Option<real>)

  /** The whole analysis: the analysed documents (null when absent) and the page text. */
  datatype AnalyzeResult = AnalyzeResult(documents: Option<seq<AnalyzedDoc>>, content: Option<string>)

  function FieldAt(f: Option<map<string, Field>>, key: string): Option<Field> {
    if f.Some? && key in f.value then Some(f.value[key]) else None
  }

  /** `contentOf`: the content when it is not blank, else the string value when that is not blank, else null. */
  function ContentOf(f: Option<map<string, Field>>, key: string): (r: Option<string>)
    ensures r.Some? ==> IsPresent(r)
    ensures r.Some? ==> FieldAt(f, key).Some? && (r == FieldAt(f, key).value.content || r == FieldAt(f, key).value.valueString)
    ensures r.None? <==> FieldAt(f, key).None? || (!IsPresent(FieldAt(f, key).value.content) && !IsPresent(FieldAt(f, key).value.valueString))
    ensures FieldAt(f, key).Some? && IsPresent(FieldAt(f, key).value.content) ==> r == FieldAt(f, key).value.content
    ensures FieldAt(f, key).Some? && !IsPresent(FieldAt(f, key).value.content) && r.Some? ==> r == FieldAt(f, key).value.valueString
  {
    match FieldAt(f, key)
    case None => None
    case Some(df) =>
      if IsPresent(df.content) then df.content
      else if IsPresent(df.valueString) then df.valueString
      else None
  }

  /**
   * `dateOf`: the typed date as `LocalDate.toString` prints it, else a string
   * value shaped dddd-dd-dd, else null.
   */
  function DateOf(f: Option<map<string, Field>>, key: string): (r: Option<string>)
    ensures r.Some? ==> FieldAt(f, key).Some? && IsIsoShape(r.value)
    ensures FieldAt(f, key).Some? && FieldAt(f, key).value.valueDate.Some? ==>
      r.Some? && ParseIsoDate(r.value) == FieldAt(f, key).value.valueDate
    ensures FieldAt(f, key).Some? && FieldAt(f, key).value.valueDate.None? ==>
      r == (var vs := FieldAt(f, key).value.valueString; if vs.Some? && IsIsoShape(vs.value) then vs else None)
  {
    match FieldAt(f, key)
    case None => None
    case Some(df) =>
      if df.valueDate.Some? then
        ParseFormat(df.valueDate.value);
        Some(FormatIsoDate(df.valueDate.value))
      else if df.valueString.Some? && IsIsoShape(df.valueString.value) then df.valueString
      else None
  }

  // ---------------------------------------------------------------------------
  // MRZ lines
  // ---------------------------------------------------------------------------

  /** Single-char line terminators matched by the regular expression `\R`. */
  predicate IsLineBreak(c: char) {
    c == '\n' || c == '\U{B}' || c == '\U{C}' || c == '\r' || c == '\U{85}' || c == '\U{2028}' || c == '\U{2029}'
  }

  /** `s` holds no line terminator. */
  predicate NoLineBreak(s: string) {
    forall i :: 0 <= i < |s| ==> !IsLineBreak(s[i])
  }

  /** The pieces of `s` between the matches of `\R`, where "\r\n" is one match. */
  function LinePieces(s: string): (r: seq<string>)
    ensures |r| >= 1
    ensures forall k :: 0 <= k < |r| ==> NoLineBreak(r[k])
    decreases |s|
  {
    if |s| == 0 then [""]
    else if |s| >= 2 && s[0] == '\r' && s[1] == '\n' then [""] + LinePieces(s[2..])
    else if IsLineBreak(s[0]) then [""] + LinePieces(s[1..])
    else
      var rest := LinePieces(s[1..]);
      [[s[0]] + rest[0]] + rest[1..]
  }

  /** A string without line terminators is one piece. */
  lemma {:induction false} LinePiecesOfLine(a: string)
    requires forall i :: 0 <= i < |a| ==> !IsLineBreak(a[i])
    ensures LinePieces(a) == [a]
    decreases |a|
  {
    if |a| > 0 {
      LinePiecesOfLine(a[1..]);
      assert [a[0]] + a[1..] == a;
    }
  }

  /** A line without terminators followed by a break is split off first. */
  lemma {:induction false} LinePiecesSplit(a: string, sep: string, b: string)
    requires forall i :: 0 <= i < |a| ==> !IsLineBreak(a[i])
    requires sep == "\n" || sep == "\r\n"
    ensures LinePieces(a + sep + b) == [a] + LinePieces(b)
    decreases |a|
  {
    var s := a + sep + b;
    if |a| == 0 {
      assert s == sep + b;
      if sep == "\r\n" {
        assert s[2..] == b;
      } else {
        assert s[1..] == b;
      }
    } else {
      assert s[1..] == a[1..] + sep + b;
      LinePiecesSplit(a[1..], sep, b);
      assert [a[0]] + a[1..] == a;
    }
  }

  /** `mrz.split("\\R")`, then the first two lines when there are at least two. */
  function MrzLines(mrz: Option<string>): (r: (Option<string>, Option<string>))
    ensures mrz.None? ==> r == (None, None)
    ensures r.0.Some? <==> r.1.Some?
    ensures r.0.Some? ==> NoLineBreak(r.0.value) && NoLineBreak(r.1.value)
  {
    match mrz
    case None => (None, None)
    case Some(text) =>
      var lines := SplitResult(LinePieces(text));
      if |lines| >= 2 then (Some(lines[0]), Some(lines[1])) else (None, None)
  }

  /** Two lines separated by LF or CRLF are recovered as the MRZ lines. */
  lemma MrzLinesOfTwo(l1: string, sep: string, l2: string)
    requires forall i :: 0 <= i < |l1| ==> !IsLineBreak(l1[i])
    requires forall i :: 0 <= i < |l2| ==> !IsLineBreak(l2[i])
    requires |l2| > 0
    requires sep == "\n" || sep == "\r\n"
    ensures MrzLines(Some(l1 + sep + l2)) == (Some(l1), Some(l2))
  {
    LinePiecesSplit(l1, sep, l2);
    LinePiecesOfLine(l2);
    assert LinePieces(l1 + sep + l2) == [l1, l2];
  }

  // ---------------------------------------------------------------------------
  // docSignals
  // ---------------------------------------------------------------------------

  const MrzFailedReason := "MRZ present but failed check-digit validation (ICAO 9303)."
  const InconsistencyReason := "Inconsistency between MRZ and visual fields."
  const ExpiredReason := "Document expired."
  const CroppedReason := "Cropped/partial frame detected."

  /** The four reasons, in the order they may appear. */
  const ReasonOrder := [MrzFailedReason, InconsistencyReason, ExpiredReason, CroppedReason]

  datatype IdInfo = IdInfo(fullName: Option<string>, dob: Option<string>, docNo: Option<string>, country: Option<string>)

  datatype Signals = Signals(
    documentRef: string,
    idInfo: IdInfo,
    mrzValid: bool,
    identityMismatch: bool,
    expired: bool,
    quality: real,
    croppingHint: bool,
    reasons: seq<string>)

  /**
   * What `toDocSignals` produces: the "no-document-parsed" error, the signals,
   * or the exception that escapes it (an MRZ birth year that does not parse).
   */
  datatype DocOutcome = NoDocumentParsed(documentRef: string) | Produced(signals: Signals) | Thrown(error: string)

  /** The visual fields as read from the field map. */
  datatype Visual = Visual(name: Option<string>, docNo: Option<string>, dob: Option<string>, expiry: Option<string>)

  /** The five candidates for the visual name, in the order they are tried. */
  function NameCandidates(f: Option<map<string, Field>>): seq<Option<string>> {
    [ContentOf(f, "FullName"),
     ContentOf(f, "Name"),
     JoinName(ContentOf(f, "FirstName"), ContentOf(f, "LastName")),
     JoinName(ContentOf(f, "GivenName"), ContentOf(f, "Surname")),
     JoinName(ContentOf(f, "GivenNames"), ContentOf(f, "Surname"))]
  }

  /** The visual name: full name, name, or one of three first/last pairs, the first that is not blank, trimmed. */
  /** `firstNonBlank` takes a present head, and skips one that is not. */
  lemma FirstNonBlankStep(ss: seq<Option<string>>)
    requires |ss| > 0
    ensures IsPresent(ss[0]) ==> FirstNonBlank(ss) == Some(Trim(ss[0].value))
    ensures !IsPresent(ss[0]) ==> FirstNonBlank(ss) == FirstNonBlank(ss[1..])
  {
  }

  function VisualName(f: Option<map<string, Field>>): (r: Option<string>)
    ensures r.None? <==> forall i :: 0 <= i < 5 ==> !IsPresent(NameCandidates(f)[i])
    ensures IsPresent(ContentOf(f, "FullName")) ==> r == Some(Trim(ContentOf(f, "FullName").value))
    ensures !IsPresent(ContentOf(f, "FullName")) && IsPresent(ContentOf(f, "Name")) ==> r == Some(Trim(ContentOf(f, "Name").value))
    ensures r.Some? && |r.value| > 0 ==> !IsTrimmed(r.value[0]) && !IsTrimmed(r.value[|r.value| - 1])
  {
    var ss := NameCandidates(f);
    FirstNonBlankStep(ss);
    FirstNonBlankStep(ss[1..]);
    FirstNonBlank(ss)
  }

  /** An ISO-shaped date is not blank and `trim()` leaves it alone. */
  lemma IsoShapeIsPresent(s: string)
    requires IsIsoShape(s)
    ensures !IsBlank(s) && Trim(s) == s
  {
    assert !IsWhitespace(s[0]);
  }

  /**
   * The visual birth date: `firstNonBlank` over the two birth-date keys comes down
   * to the first date present, since a date is never blank and has nothing to trim.
   */
  function BirthDateOf(f: Option<map<string, Field>>): (r: Option<string>)
    ensures r == if DateOf(f, "DateOfBirth").Some? then DateOf(f, "DateOfBirth") else DateOf(f, "BirthDate")
    ensures r.Some? ==> IsIsoShape(r.value)
  {
    var b1 := DateOf(f, "DateOfBirth");
    var b2 := DateOf(f, "BirthDate");
    FirstOfTwoDates(b1, b2);
    FirstNonBlank([b1, b2])
  }

  /** `firstNonBlank` of two optional ISO dates is the first one present. */
  lemma FirstOfTwoDates(b1: Option<string>, b2: Option<string>)
    requires b1.Some? ==> IsIsoShape(b1.value)
    requires b2.Some? ==> IsIsoShape(b2.value)
    ensures FirstNonBlank([b1, b2]) == if b1.Some? then b1 else b2
  {
    var ss := [b1, b2];
    FirstNonBlankStep(ss);
    if b1.Some? {
      IsoShapeIsPresent(b1.value);
    } else {
      assert ss[1..] == [b2];
      FirstNonBlankStep([b2]);
      assert [b2][1..] == [];
      if b2.Some? {
        IsoShapeIsPresent(b2.value);
      }
    }
  }

  /** The visual fields. */
  function VisualOf(f: Option<map<string, Field>>): (v: Visual)
    ensures v.name == VisualName(f) && v.docNo == ContentOf(f, "DocumentNumber")
    ensures v.dob == BirthDateOf(f) && v.expiry == DateOf(f, "DateOfExpiration")
  {
    Visual(VisualName(f), ContentOf(f, "DocumentNumber"), BirthDateOf(f), DateOf(f, "DateOfExpiration"))
  }

  /** The MRZ text and the record decoded from its first two lines. */
  function MrzText(f: Option<map<string, Field>>): Option<string> {
    ContentOf(f, "MachineReadableZone")
  }

  function MrzOf(f: Option<map<string, Field>>): Result<MrzInfo> {
    var (l1, l2) := MrzLines(MrzText(f));
    MrzRecord(l1, l2)
  }

  /** A per-field mismatch: both sides present and different after normalisation. */
  predicate Differs(v: Option<string>, m: Option<string>) {
    v.Some? && m.Some? && !SafeEqualsNorm(v, m)
  }

  /** The birth dates are compared as plain strings. */
  predicate DatesDiffer(v: Option<string>, m: Option<string>) {
    v.Some? && m.Some? && v.value != m.value
  }

  predicate Mismatch(v: Visual, m: MrzInfo) {
    Differs(v.name, m.fullName) || Differs(v.docNo, m.docNo) || DatesDiffer(v.dob, m.dobIso)
  }

  /** The expiry date parses and lies strictly before today. */
  predicate IsExpired(expiry: Option<string>, today: Date) {
    expiry.Some? && ParseIsoDate(expiry.value).Some? && Before(ParseIsoDate(expiry.value).value, today)
  }

  predicate HasCroppedHint(content: Option<string>) {
    content.Some? && Contains(ToLower(content.value), "cropped")
  }

  /** The reasons appear in `ReasonOrder`'s order, each at most once. */
  predicate InReasonOrder(reasons: seq<string>) {
    && (forall i :: 0 <= i < |reasons| ==> reasons[i] in ReasonOrder)
    && forall i, j :: 0 <= i < j < |reasons| ==> RankOf(reasons[i]) < RankOf(reasons[j])
  }

  /** The four reasons are distinct and ranked 0 to 3. */
  lemma ReasonRanks()
    ensures RankOf(MrzFailedReason) == 0 && RankOf(InconsistencyReason) == 1
    ensures RankOf(ExpiredReason) == 2 && RankOf(CroppedReason) == 3
  {
    assert |MrzFailedReason| == 58;
    assert |InconsistencyReason| == 44;
    assert |ExpiredReason| == 17;
    assert |CroppedReason| == 31;
  }

  function RankOf(reason: string): int {
    if reason == MrzFailedReason then 0
    else if reason == InconsistencyReason then 1
    else if reason == ExpiredReason then 2
    else 3
  }

  predicate HasDocument(r: Option<AnalyzeResult>) {
    r.Some? && r.value.documents.Some? && |r.value.documents.value| > 0
  }

  function FirstDoc(r: Option<AnalyzeResult>): AnalyzedDoc
    requires HasDocument(r)
  {
    r.value.documents.value[0]
  }

  /**
   * The quality is the confidence (0 when there is none) clamped to [0, 1]: it
   * lies in [0, 1], is 0 without a confidence and the confidence itself when that
   * is in range.
   */
  predicate QualityOf(quality: real, confidence: Option<real>) {
    && quality == Clamp(confidence.GetOr(0.0), 0.0, 1.0)
    && 0.0 <= quality <= 1.0
    && (confidence.None? ==> quality == 0.0)
    && (confidence.Some? && 0.0 <= confidence.value <= 1.0 ==> quality == confidence.value)
  }

  /**
   * Each reason is present exactly when its condition holds: MRZ text present
   * but the checks failed; checks passed but a field differs; expired; cropped.
   * They come in the fixed order.
   */
  predicate ReasonsFor(reasons: seq<string>, v: Visual, m: MrzInfo, mrzPresent: bool, today: Date, content: Option<string>) {
    && (MrzFailedReason in reasons <==> mrzPresent && !m.validChecks)
    && (InconsistencyReason in reasons <==> m.validChecks && Mismatch(v, m))
    && (ExpiredReason in reasons <==> IsExpired(v.expiry, today))
    && (CroppedReason in reasons <==> HasCroppedHint(content))
    && InReasonOrder(reasons)
  }

  /** Each identity field is the visual value when that is not blank, else the MRZ value when that is not blank. */
  function IdInfoFor(v: Visual, m: MrzInfo, countryRegion: Option<string>, nationality: Option<string>): IdInfo {
    IdInfo(
      Coalesce([v.name, m.fullName]),
      Coalesce([v.dob, m.dobIso]),
      Coalesce([v.docNo, m.docNo]),
      Coalesce([countryRegion, nationality]))
  }

  /**
   * The signals of a document with visual fields `v`, decoded MRZ record `m`,
   * country fields, confidence and page text.
   */
  predicate SignalsFor(s: Signals, docRef: string, v: Visual, m: MrzInfo, mrzPresent: bool,
                       countryRegion: Option<string>, nationality: Option<string>,
                       confidence: Option<real>, content: Option<string>, today: Date) {
    && s.documentRef == docRef
    && s.mrzValid == m.validChecks
    && (s.identityMismatch <==> Mismatch(v, m))
    && (s.expired <==> IsExpired(v.expiry, today))
    && (s.croppingHint <==> HasCroppedHint(content))
    && QualityOf(s.quality, confidence)
    && ReasonsFor(s.reasons, v, m, mrzPresent, today, content)
    && s.idInfo == IdInfoFor(v, m, countryRegion, nationality)
  }

  /** `expired`: false unless the expiry date is present, parses, and lies before today. */
  method ExpirySignal(vExp: Option<string>, today: Date) returns (expired: bool)
    ensures expired <==> IsExpired(vExp, today)
  {
    expired := false;
    if vExp.Some? {
      var parsedExp := ParseIsoDate(vExp.value);
      if parsedExp.Some? {
        expired := Before(parsedExp.value, today);
      }
    }
  }

  /**
   * The fallback to the MRZ name and the three comparisons. Falling back never
   * produces a name mismatch (the MRZ name equals itself after normalisation),
   * and the reported name is as if no fallback had happened.
   */
  method CompareWithMrz(visual: Visual, mi: MrzInfo) returns (vName: Option<string>, mismatch: bool)
    ensures visual.name.Some? ==> vName == visual.name
    ensures visual.name.None? ==> vName == mi.fullName
    ensures mismatch <==> Mismatch(visual, mi)
    ensures Coalesce([vName, mi.fullName]) == Coalesce([visual.name, mi.fullName])
  {
    vName := visual.name;
    if vName.None? && mi.fullName.Some? {
      vName := mi.fullName;
      SafeEqualsNormProperties(vName, vName);
      assert Coalesce([vName, mi.fullName]) == Coalesce([visual.name, mi.fullName]) by {
        assert [visual.name, mi.fullName][1..] == [mi.fullName];
        assert [vName, mi.fullName][1..] == [mi.fullName];
      }
    }
    var nameMismatch := (vName.Some? && mi.fullName.Some?) && !SafeEqualsNorm(vName, mi.fullName);
    var docNoMismatch := (visual.docNo.Some? && mi.docNo.Some?) && !SafeEqualsNorm(visual.docNo, mi.docNo);
    var dobMismatch := (visual.dob.Some? && mi.dobIso.Some?) && visual.dob.value != mi.dobIso.value;
    mismatch := nameMismatch || docNoMismatch || dobMismatch;
  }

  /** `quality`: the confidence, 0 when absent, clamped to [0, 1]. */
  method QualitySignal(confidence: Option<real>) returns (quality: real)
    ensures QualityOf(quality, confidence)
  {
    var conf := if confidence.Some? then confidence.value else 0.0;
    quality := Clamp(conf, 0.0, 1.0);
  }

  /** The reasons list, appended to in the fixed order. */
  method CollectReasons(mrzPresent: bool, validChecks: bool, mismatch: bool, expired: bool, croppingHint: bool)
    returns (reasons: seq<string>)
    ensures MrzFailedReason in reasons <==> mrzPresent && !validChecks
    ensures InconsistencyReason in reasons <==> validChecks && mismatch
    ensures ExpiredReason in reasons <==> expired
    ensures CroppedReason in reasons <==> croppingHint
    ensures InReasonOrder(reasons)
  {
    ReasonRanks();
    reasons := [];
    if mrzPresent && !validChecks {
      reasons := reasons + [MrzFailedReason];
    }
    if validChecks && mismatch {
      reasons := reasons + [InconsistencyReason];
    }
    if expired {
      reasons := reasons + [ExpiredReason];
    }
    if croppingHint {
      reasons := reasons + [CroppedReason];
    }
  }

  /**
   * `toDocSignals`: reads the visual fields, decodes the MRZ, falls back to the
   * MRZ name when there is no visual one, compares the fields present on both
   * sides, and appends the reasons one by one.
   */
  method ToDocSignals(r: Option<AnalyzeResult>, docRef: string, today: Date) returns (out: DocOutcome)
    ensures !HasDocument(r) <==> out == NoDocumentParsed(docRef)
    ensures out.Thrown? <==> HasDocument(r) && MrzOf(FirstDoc(r).fields).Failure?
    ensures out.Thrown? ==> out.error == "NumberFormatException"
    ensures out.Produced? ==>
      var f := FirstDoc(r).fields;
      && HasDocument(r) && MrzOf(f).Success?
      && SignalsFor(out.signals, docRef, VisualOf(f), MrzOf(f).value, MrzText(f).Some?,
                    ContentOf(f, "CountryRegion"), ContentOf(f, "Nationality"),
                    FirstDoc(r).confidence, r.value.content, today)
  {
    if !HasDocument(r) {
      return NoDocumentParsed(docRef);
    }
    var d := r.value.documents.value[0];
    var f := d.fields;

    var vName := VisualName(f);
    var vDocNo := ContentOf(f, "DocumentNumber");
    var vDob := FirstNonBlank([DateOf(f, "DateOfBirth"), DateOf(f, "BirthDate")]);
    var vExp := DateOf(f, "DateOfExpiration");

    var mrz := ContentOf(f, "MachineReadableZone");
    var (l1, l2) := MrzLines(mrz);
    var parsed := ParseMrz(l1, l2);
    if parsed.Failure? {
      BirthYearFailure(l1, l2);
      return Thrown(parsed.error);
    }
    var signals := BuildSignals(docRef, Visual(vName, vDocNo, vDob, vExp), parsed.value, mrz.Some?,
                                ContentOf(f, "CountryRegion"), ContentOf(f, "Nationality"),
                                d.confidence, r.value.content, today);
    out := Produced(signals);
  }

  /**
   * The rest of `toDocSignals` once the fields are read and the MRZ decoded:
   * the fallback to the MRZ name, the comparisons of the fields present on both
   * sides, the expiry, cropping and quality signals, and the reasons.
   */
  method BuildSignals(docRef: string, visual: Visual, mi: MrzInfo, mrzPresent: bool,
                      countryRegion: Option<string>, nationality: Option<string>,
                      confidence: Option<real>, content: Option<string>, today: Date)
    returns (s: Signals)
    ensures s.documentRef == docRef
    ensures s.mrzValid == mi.validChecks
    ensures s.identityMismatch <==> Mismatch(visual, mi)
    ensures s.expired <==> IsExpired(visual.expiry, today)
    ensures s.croppingHint <==> HasCroppedHint(content)
    ensures QualityOf(s.quality, confidence)
    ensures ReasonsFor(s.reasons, visual, mi, mrzPresent, today, content)
    ensures s.idInfo == IdInfoFor(visual, mi, countryRegion, nationality)
  {
    var vName, mismatch := CompareWithMrz(visual, mi);
    var expired := ExpirySignal(visual.expiry, today);
    var croppingHint := content.Some? && Contains(ToLower(content.value), "cropped");
    var quality := QualitySignal(confidence);
    var reasons := CollectReasons(mrzPresent, mi.validChecks, mismatch, expired, croppingHint);
    var idInfo := IdInfo(
      Coalesce([vName, mi.fullName]),
      Coalesce([visual.dob, mi.dobIso]),
      Coalesce([visual.docNo, mi.docNo]),
      Coalesce([countryRegion, nationality]));
    s := Signals(docRef, idInfo, mi.validChecks, mismatch, expired, quality, croppingHint, reasons);
  }

  /** The only exception the MRZ record can carry. */
  lemma BirthYearFailure(l1: Option<string>, l2: Option<string>)
    requires MrzRecord(l1, l2).Failure?
    ensures MrzRecord(l1, l2).error == "NumberFormatException"
  {
  }
}
