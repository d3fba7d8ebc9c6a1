/**
 * Decoding and validating the two-line machine-readable zone (MRZ) of a passport:
 * clamped fixed-offset slicing of the second line, the weighted modulo-10 check
 * digit of ICAO Doc 9303, the name on the first line and the birth date.
 *
 * The offsets are the ones the extractor uses, which are not those of the TD3
 * layout in ICAO Doc 9303 Part 4: nationality is read at [11,14), the birth date
 * at [14,20) with its check digit at 20, the expiry date at [22,28) with its check
 * digit at 28, and the composite check digit at 42.
 */
module Mrz {
  import opened Wrappers
  import opened JavaText

  predicate IsDigit(c: char) {
    '0' <= c <= '9'
  }

  predicate IsUpperLetter(c: char) {
    'A' <= c <= 'Z'
  }

  // ---------------------------------------------------------------------------
  // Check digits
  // ---------------------------------------------------------------------------

  /** The value of one MRZ char in the check-digit sum. */
  function MrzVal(c: char): (v: nat)
    ensures v <= 35
    ensures v == 0 <==> c == '<' || c == '0' || !(IsDigit(c) || IsUpperLetter(c))
    ensures IsDigit(c) ==> v <= 9
    ensures IsUpperLetter(c) ==> 10 <= v
  {
    if c == '<' then 0
    else if IsDigit(c) then c as int - '0' as int
    else if IsUpperLetter(c) then 10 + (c as int - 'A' as int)
    else 0
  }

  /** Distinct digits and capital letters have distinct values. */
  lemma MrzValInjective(c: char, d: char)
    requires IsDigit(c) || IsUpperLetter(c)
    requires IsDigit(d) || IsUpperLetter(d)
    requires MrzVal(c) == MrzVal(d)
    ensures c == d
  {
  }

  /**
   * On digits and on capital letters the value strictly increases, so with `'0'`
   * at 0, `'A'` at 10 and all values at most 35 the table is 0..9 for the digits
   * and 10..35 for the letters.
   */
  lemma MrzValIncreasing(c: char, d: char)
    requires (IsDigit(c) && IsDigit(d)) || (IsUpperLetter(c) && IsUpperLetter(d))
    requires c < d
    ensures MrzVal(c) < MrzVal(d)
    ensures MrzVal('A') == 10
  {
  }

  /** The weights 7, 3, 1, repeating. */
  function Weight(i: nat): (w: nat)
    ensures w == 7 || w == 3 || w == 1
  {
    if i % 3 == 0 then 7 else if i % 3 == 1 then 3 else 1
  }

  /** The weights repeat with period 3, starting 7, 3, 1. */
  lemma WeightCycle(i: nat)
    ensures Weight(i) == Weight(i % 3) && Weight(i + 3) == Weight(i)
    ensures Weight(0) == 7 && Weight(1) == 3 && Weight(2) == 1
  {
  }

  /** The sum of value times weight over all chars of `s`. */
  function WeightedSum(s: string): nat
    decreases |s|
  {
    if |s| == 0 then 0 else WeightedSum(s[..|s| - 1]) + MrzVal(s[|s| - 1]) * Weight(|s| - 1)
  }

  /** `cd` is a digit and equals the weighted sum of `data` modulo 10. */
  predicate CheckDigitOk(data: string, cd: char) {
    IsDigit(cd) && WeightedSum(data) % 10 == cd as int - '0' as int
  }

  /** `checkDigit`: accumulates the weighted sum in a loop. */
  method CheckDigit(data: string, cd: char) returns (ok: bool)
    ensures ok <==> CheckDigitOk(data, cd)
    ensures !IsDigit(cd) ==> !ok
  {
    if !IsDigit(cd) {
      return false;
    }
    var sum := 0;
    var i := 0;
    while i < |data|
      invariant 0 <= i <= |data|
      invariant sum == WeightedSum(data[..i])
    {
      assert data[..i + 1][..i] == data[..i];
      sum := sum + MrzVal(data[i]) * Weight(i);
      i := i + 1;
    }
    assert data[..i] == data;
    ok := sum % 10 == cd as int - '0' as int;
  }

  /** Replacing the char at `i` changes the sum by the weight times the change of value. */
  lemma {:induction false} WeightedSumUpdate(s: string, i: nat, c: char)
    requires i < |s|
    ensures WeightedSum(s[i := c]) == WeightedSum(s) + Weight(i) * (MrzVal(c) - MrzVal(s[i]))
    decreases |s|
  {
    var t := s[i := c];
    var n := |s| - 1;
    var w := Weight(n);
    assert WeightedSum(s) == WeightedSum(s[..n]) + MrzVal(s[n]) * w;
    assert WeightedSum(t) == WeightedSum(t[..n]) + MrzVal(t[n]) * w;
    if i == n {
      assert t[..n] == s[..n];
      assert w * (MrzVal(c) - MrzVal(s[i])) == MrzVal(c) * w - MrzVal(s[i]) * w;
    } else {
      assert t[..n] == s[..n][i := c];
      assert t[n] == s[n];
      WeightedSumUpdate(s[..n], i, c);
    }
  }

  /** Since 7, 3 and 1 are invertible modulo 10, a multiple of them is 0 modulo 10 only with the factor. */
  lemma WeightCancels(total: int, w: int, d: int)
    requires w == 7 || w == 3 || w == 1
    requires (total + w * d) % 10 == total % 10
    ensures d % 10 == 0
  {
    var q := (total + w * d) / 10 - total / 10;
    assert w * d == 10 * q;
    if w == 7 {
      assert d == 10 * (3 * q - 2 * d);
    } else if w == 3 {
      assert d == 10 * (7 * q - 2 * d);
    } else {
      assert d == 10 * q;
    }
  }

  lemma SameRemainder(a: int, b: int)
    requires (a - b) % 10 == 0
    ensures a % 10 == b % 10
  {
    var k := (a - b) / 10;
    assert a == b + 10 * k;
  }

  /**
   * A single substitution whose value differs modulo 10 always breaks a check
   * digit that held before.
   */
  lemma CheckDigitDetectsSubstitution(data: string, cd: char, i: nat, c: char)
    requires CheckDigitOk(data, cd)
    requires i < |data|
    requires MrzVal(c) % 10 != MrzVal(data[i]) % 10
    ensures !CheckDigitOk(data[i := c], cd)
  {
    var a: int, b: int := MrzVal(c), MrzVal(data[i]);
    var total, w := WeightedSum(data), Weight(i);
    WeightedSumUpdate(data, i, c);
    var delta := w * (a - b);
    assert WeightedSum(data[i := c]) == total + delta;
    if CheckDigitOk(data[i := c], cd) {
      assert (total + delta) % 10 == total % 10;
      WeightCancels(total, w, a - b);
      SameRemainder(a, b);
      assert false;
    }
  }

  /**
   * The scheme cannot tell '0' from 'A' (values 0 and 10): such a substitution
   * leaves a valid check digit valid.
   */
  lemma CheckDigitMissesZeroForA(data: string, cd: char, i: nat)
    requires CheckDigitOk(data, cd)
    requires i < |data| && data[i] == '0'
    ensures CheckDigitOk(data[i := 'A'], cd)
  {
    WeightedSumUpdate(data, i, 'A');
    var w := Weight(i);
    assert WeightedSum(data[i := 'A']) == WeightedSum(data) + 10 * w;
  }

  // ---------------------------------------------------------------------------
  // Bounds-safe access
  // ---------------------------------------------------------------------------

  function Max(a: int, b: int): int { if a < b then b else a }
  function Min(a: int, b: int): int { if a < b then a else b }

  /**
   * `safeSub`: the part of `s` that lies in [start, end) — never an
   * out-of-range read; "" for a null string or an empty overlap.
   */
  function SafeSub(s: Option<string>, start: int, end: int): (r: string)
    ensures s.None? ==> r == ""
    ensures s.Some? ==> |r| == Max(0, Min(end, |s.value|) - Max(0, start))
    ensures s.Some? ==> forall k :: 0 <= k < |r| ==> r[k] == s.value[Max(0, start) + k]
    ensures s.Some? && 0 <= start <= end <= |s.value| ==> r == s.value[start..end]
  {
    match s
    case None => ""
    case Some(t) =>
      var len := |t|;
      var a := Max(0, Min(start, len));
      var b := Max(a, Min(end, len));
      if a >= b then "" else t[a..b]
  }

  /** `safeChar`: the char at `idx`, or the neutral digit '0' for a null string or an index outside it. */
  function SafeChar(s: Option<string>, idx: int): (c: char)
    ensures s.Some? && 0 <= idx < |s.value| ==> c == s.value[idx]
    ensures s.None? || idx < 0 || |s.value| <= idx ==> c == '0'
  {
    if s.Some? && 0 <= idx < |s.value| then s.value[idx] else '0'
  }

  // ---------------------------------------------------------------------------
  // Names
  // ---------------------------------------------------------------------------

  /** `stripFillers`: fillers become spaces, the ends are trimmed and white-space runs collapse. */
  function StripFillers(s: string): (r: string)
    ensures '<' !in r
    ensures |r| > 0 ==> !IsTrimmed(r[0]) && !IsTrimmed(r[|r| - 1])
    ensures IsCollapsed(r)
  {
    var u := ReplaceChar(s, '<', ' ');
    assert '<' !in u;
    TrimCollapse(u)
  }

  /** Applying `stripFillers` again changes nothing. */
  lemma StripFillersIdempotent(s: string)
    ensures StripFillers(StripFillers(s)) == StripFillers(s)
  {
    var r := StripFillers(s);
    assert ReplaceChar(r, '<', ' ') == r;
    assert Trim(r) == r;
    CollapseOfCollapsed(r);
    assert TrimCollapse(r) == r;
  }

  /** `p` holds no "<<". */
  predicate NoDoubleFiller(p: string) {
    forall k :: 0 <= k < |p| - 1 ==> !(p[k] == '<' && p[k + 1] == '<')
  }

  /** The pieces of `s` between the non-overlapping matches of "<<", left to right. */
  function FillerPieces(s: string): (r: seq<string>)
    ensures |r| >= 1 && IsPrefix(r[0], s)
    ensures forall k :: 0 <= k < |r| ==> NoDoubleFiller(r[k])
    decreases |s|
  {
    if |s| < 2 then [s]
    else if s[0] == '<' && s[1] == '<' then [""] + FillerPieces(s[2..])
    else
      var rest := FillerPieces(s[1..]);
      var head := [s[0]] + rest[0];
      assert forall k :: 1 <= k < |head| ==> head[k] == s[k];
      [head] + rest[1..]
  }

  /** The pieces joined back with "<<". */
  function JoinFillers(pieces: seq<string>): string
    requires |pieces| >= 1
    decreases |pieces|
  {
    if |pieces| == 1 then pieces[0] else pieces[0] + "<<" + JoinFillers(pieces[1..])
  }

  /** Splitting at "<<" loses nothing: joining the pieces with "<<" gives the string back. */
  lemma {:induction false} FillerPiecesJoin(s: string)
    ensures JoinFillers(FillerPieces(s)) == s
    decreases |s|
  {
    if |s| >= 2 {
      FillerStep(s);
      if s[0] == '<' && s[1] == '<' {
        FillerPiecesJoin(s[2..]);
        JoinAfterEmpty(FillerPieces(s[2..]));
        assert "<<" + s[2..] == s;
      } else {
        FillerPiecesJoin(s[1..]);
        JoinExtendedHead(s[0], FillerPieces(s[1..]));
        assert [s[0]] + s[1..] == s;
      }
    }
  }

  /** One step of `FillerPieces` on a string of at least two chars. */
  lemma FillerStep(s: string)
    requires |s| >= 2
    ensures s[0] == '<' && s[1] == '<' ==> FillerPieces(s) == [""] + FillerPieces(s[2..])
    ensures !(s[0] == '<' && s[1] == '<') ==>
      FillerPieces(s) == [[s[0]] + FillerPieces(s[1..])[0]] + FillerPieces(s[1..])[1..]
  {
  }

  /** An empty first piece contributes only its separator. */
  lemma JoinAfterEmpty(pieces: seq<string>)
    requires |pieces| >= 1
    ensures JoinFillers([""] + pieces) == "<<" + JoinFillers(pieces)
  {
    assert ([""] + pieces)[1..] == pieces;
  }

  /** Extending the first piece by `c` extends the joined string by `c`. */
  lemma JoinExtendedHead(c: char, pieces: seq<string>)
    requires |pieces| >= 1
    ensures JoinFillers([[c] + pieces[0]] + pieces[1..]) == [c] + JoinFillers(pieces)
  {
    var q := [[c] + pieces[0]] + pieces[1..];
    if |pieces| > 1 {
      assert q[1..] == pieces[1..];
      ConsAssoc(c, pieces[0], "<<" + JoinFillers(pieces[1..]));
    }
  }

  lemma ConsAssoc(c: char, x: string, y: string)
    ensures [c] + x + y == [c] + (x + y)
  {
  }

  /** `(given + " " + surname).trim().replaceAll("\\s+", " ")`. */
  function JoinWords(given: string, surname: string): (name: string)
    requires '<' !in given && '<' !in surname
    ensures '<' !in name
    ensures |name| > 0 ==> !IsTrimmed(name[0]) && !IsTrimmed(name[|name| - 1])
    ensures IsCollapsed(name)
  {
    NotInConcat('<', given, " " + surname);
    TrimCollapse(given + " " + surname)
  }

  /** The first two pieces of line 1 split on "<<", after dropping a leading "P<". */
  function NameFields(l1: string): (r: (string, string))
    ensures NoDoubleFiller(r.0) && NoDoubleFiller(r.1)
    ensures IsPrefix(r.0, if IsPrefix("P<", l1) then l1[2..] else l1)
  {
    var l := if IsPrefix("P<", l1) then l1[2..] else l1;
    var parts := SplitResult(FillerPieces(l));
    (PartOr(parts, 0), PartOr(parts, 1))
  }

  /**
   * The name of line 1 as "GIVEN NAMES SURNAME": drop a leading "P<", split on
   * "<<", drop the three-letter issuer code from the first part when it is longer
   * than three chars, and turn fillers into single spaces.
   */
  function DecodeName(l1: string): (name: string)
    ensures '<' !in name
    ensures |name| > 0 ==> !IsTrimmed(name[0]) && !IsTrimmed(name[|name| - 1])
    ensures IsCollapsed(name)
  {
    var (left, right) := NameFields(l1);
    var surname := StripFillers(if |left| > 3 then left[3..] else left);
    // `stripFillers(right).replace('<',' ').trim().replaceAll("\\s+"," ")` is stripFillers applied twice
    var given := StripFillers(StripFillers(right));
    JoinWords(given, surname)
  }

  // ---------------------------------------------------------------------------
  // Birth date
  // ---------------------------------------------------------------------------

  function DigitValue(c: char): int
    requires IsDigit(c)
  {
    c as int - '0' as int
  }

  /**
   * `Integer.parseInt` of a two-char string: two digits, or a sign followed by a
   * digit; anything else throws NumberFormatException.
   */
  function ParseTwoDigitInt(s: string): (r: Option<int>)
    requires |s| == 2
    ensures r.None? <==> !(IsDigit(s[1]) && (IsDigit(s[0]) || s[0] == '+' || s[0] == '-'))
    ensures IsDigit(s[0]) && IsDigit(s[1]) ==> r == Some(10 * DigitValue(s[0]) + DigitValue(s[1]))
    ensures s[0] == '+' && IsDigit(s[1]) ==> r == Some(DigitValue(s[1]))
    ensures s[0] == '-' && IsDigit(s[1]) ==> r == Some(-DigitValue(s[1]))
    ensures r.Some? ==> -9 <= r.value <= 99
  {
    if IsDigit(s[0]) && IsDigit(s[1]) then Some(10 * DigitValue(s[0]) + DigitValue(s[1]))
    else if s[0] == '+' && IsDigit(s[1]) then Some(DigitValue(s[1]))
    else if s[0] == '-' && IsDigit(s[1]) then Some(-DigitValue(s[1]))
    else None
  }

  /** The century rule: two-digit years from 30 on are 19xx, the others 20xx. */
  function FullYear(yy: int): int {
    if yy >= 30 then 1900 + yy else 2000 + yy
  }

  /** The value of a string of four decimal digits. */
  function FourDigitValue(s: string): int
    requires |s| == 4 && forall k :: 0 <= k < 4 ==> IsDigit(s[k])
  {
    1000 * DigitValue(s[0]) + 100 * DigitValue(s[1]) + 10 * DigitValue(s[2]) + DigitValue(s[3])
  }

  /** YYMMDD to "YYYY-MM-DD" with the fixed century cutover; a year that does not parse throws. */
  function BirthDateIso(dob: string): (r: Result<string>)
    requires |dob| == 6
    ensures r.Success? <==> ParseTwoDigitInt(dob[..2]).Some?
    ensures r.Failure? ==> r.error == "NumberFormatException"
    ensures (forall k :: 0 <= k < 6 ==> IsDigit(dob[k])) ==>
      && r.Success? && |r.value| == 10
      && (forall k :: 0 <= k < 4 ==> IsDigit(r.value[k]))
      && FourDigitValue(r.value[..4]) == FullYear(10 * DigitValue(dob[0]) + DigitValue(dob[1]))
      && r.value[4] == '-' && r.value[5..7] == dob[2..4]
      && r.value[7] == '-' && r.value[8..] == dob[4..6]
  {
    match ParseTwoDigitInt(dob[..2])
    case None => Failure("NumberFormatException")
    case Some(yy) =>
      var century := if yy >= 30 then "19" else "20";
      Success(century + dob[..2] + "-" + dob[2..4] + "-" + dob[4..6])
  }

  // ---------------------------------------------------------------------------
  // The record
  // ---------------------------------------------------------------------------

  /** What `parseMrz` extracts; `None` stands for a field left null. */
  datatype MrzInfo = MrzInfo(fullName: Option<string>, docNo: Option<string>, dobIso: Option<string>, validChecks: bool)

  /** The record of a missing or short MRZ. */
  const NoMrz := MrzInfo(None, None, None, false)

  /** The string the composite check digit covers: [0,10) + [11,21) + [22,29) + [29,42). */
  function Composite(l2: string): (c: string)
    requires |l2| >= 42
    ensures |c| == 40
  {
    l2[0..10] + l2[11..21] + l2[22..29] + l2[29..42]
  }

  /** All four check digits of line 2 hold, at the offsets the extractor uses. */
  predicate ChecksValid(l2: string)
    requires |l2| >= 43
  {
    && CheckDigitOk(l2[0..9], l2[9])
    && CheckDigitOk(l2[14..20], l2[20])
    && CheckDigitOk(l2[22..28], l2[28])
    && CheckDigitOk(Composite(l2), l2[42])
  }

  /**
   * The record as a function of the two lines: no fields and `validChecks` false
   * for a missing line or a line 2 shorter than 43 chars; a failure when the birth
   * year does not parse; otherwise the decoded fields and the four checks.
   */
  function MrzRecord(l1: Option<string>, l2: Option<string>): (r: Result<MrzInfo>)
    ensures l1.None? || l2.None? || |l2.value| < 43 ==> r == Success(NoMrz)
    ensures r.Failure? <==> l1.Some? && l2.Some? && |l2.value| >= 43 && ParseTwoDigitInt(l2.value[14..16]).None?
    ensures r.Failure? ==> r.error == "NumberFormatException"
    ensures r.Success? && l1.Some? && l2.Some? && |l2.value| >= 43 ==>
      && (r.value.validChecks <==> ChecksValid(l2.value))
      && r.value.fullName == Some(DecodeName(l1.value))
      && r.value.docNo == Some(StripFillers(l2.value[0..9]))
      && r.value.dobIso == Some(BirthDateIso(l2.value[14..20]).value)
  {
    if l1.None? || l2.None? || |l2.value| < 43 then Success(NoMrz)
    else
      var line2 := l2.value;
      var dob := BirthDateIso(line2[14..20]);
      assert dob.Success? <==> ParseTwoDigitInt(line2[14..16]).Some? by {
        assert line2[14..20][..2] == line2[14..16];
      }
      if dob.Failure? then Failure(dob.error)
      else
        Success(MrzInfo(Some(DecodeName(l1.value)), Some(StripFillers(line2[0..9])), Some(dob.value),
                        ChecksValid(line2)))
  }

  /** `parseMrz`: fills the record field by field from clamped reads of the two lines. */
  method ParseMrz(l1: Option<string>, l2: Option<string>) returns (r: Result<MrzInfo>)
    ensures r == MrzRecord(l1, l2)
    ensures l1.None? || l2.None? || |l2.value| < 43 ==> r == Success(NoMrz)
    ensures r.Success? && r.value.validChecks ==> l2.Some? && |l2.value| >= 43 && ChecksValid(l2.value)
  {
    if l1.None? || l2.None? || |l2.value| < 43 {
      return Success(NoMrz);
    }
    var docNo := SafeSub(l2, 0, 9);
    var docNoCd := SafeChar(l2, 9);
    var dob := SafeSub(l2, 14, 20);
    var dobCd := SafeChar(l2, 20);
    var exp := SafeSub(l2, 22, 28);
    var expCd := SafeChar(l2, 28);
    var comp := SafeSub(l2, 0, 10) + SafeSub(l2, 11, 21) + SafeSub(l2, 22, 29) + SafeSub(l2, 29, 42);
    var compCd := SafeChar(l2, 42);

    var okDoc := CheckDigit(docNo, docNoCd);
    var okDob := CheckDigit(dob, dobCd);
    var okExp := CheckDigit(exp, expCd);
    var okCmp := CheckDigit(comp, compCd);
    var validChecks := okDoc && okDob && okExp && okCmp;
    var docNoText := StripFillers(docNo);
    var fullName := DecodeName(l1.value);

    var iso := BirthDateIso(dob);
    if iso.Failure? {
      return Failure(iso.error);
    }
    r := Success(MrzInfo(Some(fullName), Some(docNoText), Some(iso.value), validChecks));
  }

  /**
   * Changing one char of line 2 inside the composite region, to one whose value
   * differs modulo 10, turns a valid MRZ invalid.
   */
  lemma CompositeDetectsSubstitution(l2: string, p: nat, c: char)
    requires |l2| >= 43 && ChecksValid(l2)
    requires p < 10 || 11 <= p < 21 || 22 <= p < 42
    requires MrzVal(c) % 10 != MrzVal(l2[p]) % 10
    ensures !ChecksValid(l2[p := c])
  {
    var q := if p < 10 then p else if p < 21 then p - 1 else p - 2;
    var l2' := l2[p := c];
    assert Composite(l2') == Composite(l2)[q := c];
    assert Composite(l2)[q] == l2[p];
    CheckDigitDetectsSubstitution(Composite(l2), l2[42], q, c);
  }

  /**
   * Line 1 of the specimen of ICAO Doc 9303, "P<UTOERIKSSON<<ANNA<MARIA<<<<<<<<<<<<<<<<<<<":
   * document code, issuing state, surname, given names, filler.
   */
  const SpecimenLine1 := "P<" + "UTO" + "ERIKSSON" + "<<" + "ANNA<MARIA" + "<<" + "<<<<<<<<<<<<<<<<<"
  /**
   * Line 2 of the specimen of ICAO Doc 9303, "L898902C<3UTO6908061F9406236ZE184226B<<<<<10",
   * in its TD3 fields: document number and check digit, nationality, birth date
   * and check digit, sex, expiry date and check digit, optional data and check
   * digit, composite check digit.
   */
  const SpecimenLine2 := "L898902C<" + "3" + "UTO" + "690806" + "1" + "F" + "940623" + "6" + "ZE184226B<<<<<" + "1" + "0"

  /** A name field of line 1: capital letters with single fillers between words. */
  predicate IsNameField(w: string) {
    && |w| > 0 && IsUpperLetter(w[0]) && IsUpperLetter(w[|w| - 1])
    && (forall k :: 0 <= k < |w| ==> IsUpperLetter(w[k]) || w[k] == '<')
    && (forall k :: 0 <= k < |w| - 1 ==> !(w[k] == '<' && w[k + 1] == '<'))
  }

  /** Splitting on "<<" takes off a first piece that holds no "<<" and does not end in a filler. */
  lemma {:induction false} FillerPiecesSplit(a: string, b: string)
    requires forall k :: 0 <= k < |a| - 1 ==> !(a[k] == '<' && a[k + 1] == '<')
    requires |a| > 0 ==> a[|a| - 1] != '<'
    ensures FillerPieces(a + "<<" + b) == [a] + FillerPieces(b)
    decreases |a|
  {
    var s := a + "<<" + b;
    if |a| == 0 {
      assert s[2..] == b;
    } else {
      assert s[1..] == a[1..] + "<<" + b;
      assert !(s[0] == '<' && s[1] == '<') by {
        if |a| == 1 {
          assert s[0] == a[0] && a[0] != '<';
        } else {
          assert s[0] == a[0] && s[1] == a[1];
        }
      }
      FillerPiecesSplit(a[1..], b);
      assert [a[0]] + a[1..] == a;
    }
  }

  /** A name field reads as its words separated by single spaces. */
  lemma NameFieldStrips(w: string)
    requires IsNameField(w)
    ensures StripFillers(w) == ReplaceChar(w, '<', ' ')
    ensures var t := ReplaceChar(w, '<', ' ');
            && |t| > 0 && IsUpperLetter(t[0]) && IsUpperLetter(t[|t| - 1])
            && '<' !in t && IsCollapsed(t)
  {
    var t := ReplaceChar(w, '<', ' ');
    forall k | 0 <= k < |t|
      ensures IsUpperLetter(t[k]) || t[k] == ' '
      ensures IsRegexSpace(t[k]) <==> w[k] == '<'
    {
    }
    assert IsCollapsed(t);
    TrimCollapseOfNormal(t);
  }

  /** The first two "<<"-pieces of a well-formed line 1. */
  lemma StandardNameFields(issuer: string, surname: string, given: string, rest: string)
    requires |issuer| == 3 && forall k :: 0 <= k < 3 ==> IsUpperLetter(issuer[k])
    requires IsNameField(surname) && IsNameField(given)
    ensures NameFields("P<" + issuer + surname + "<<" + given + "<<" + rest) == (issuer + surname, given)
  {
    var l1 := "P<" + issuer + surname + "<<" + given + "<<" + rest;
    var left := issuer + surname;
    assert IsPrefix("P<", l1);
    assert l1[2..] == left + "<<" + (given + "<<" + rest);
    assert forall k :: 0 <= k < |left| - 1 ==> !(left[k] == '<' && left[k + 1] == '<') by {
      forall k | 0 <= k < |left| - 1
        ensures !(left[k] == '<' && left[k + 1] == '<')
      {
        if k < 3 {
          assert left[k] == issuer[k];
        } else {
          assert left[k] == surname[k - 3] && left[k + 1] == surname[k - 2];
        }
      }
    }
    FillerPiecesSplit(left, given + "<<" + rest);
    FillerPiecesSplit(given, rest);
    var pieces := FillerPieces(l1[2..]);
    assert pieces[0] == left && pieces[1] == given;
    PartOrOfSplitResult(pieces, 0);
    PartOrOfSplitResult(pieces, 1);
  }

  /** Joining two names already in normal form only puts a space between them. */
  lemma JoinNormalWords(g: string, sn: string)
    requires |g| > 0 && IsUpperLetter(g[0]) && IsUpperLetter(g[|g| - 1]) && '<' !in g && IsCollapsed(g)
    requires |sn| > 0 && IsUpperLetter(sn[0]) && IsUpperLetter(sn[|sn| - 1]) && '<' !in sn && IsCollapsed(sn)
    ensures JoinWords(g, sn) == g + " " + sn
  {
    var both := g + " " + sn;
    forall k | 0 <= k < |both|
      ensures both[k] == (if k < |g| then g[k] else if k == |g| then ' ' else sn[k - |g| - 1])
    {
    }
    assert IsCollapsed(both);
    TrimCollapseOfNormal(both);
  }

  /**
   * A well-formed line 1, "P<" + issuer + surname + "<<" + given names + "<<" + any
   * rest, decodes to the given names and the surname, fillers read as spaces.
   */
  lemma DecodeStandardName(issuer: string, surname: string, given: string, rest: string)
    requires |issuer| == 3 && forall k :: 0 <= k < 3 ==> IsUpperLetter(issuer[k])
    requires IsNameField(surname) && IsNameField(given)
    ensures DecodeName("P<" + issuer + surname + "<<" + given + "<<" + rest)
            == ReplaceChar(given, '<', ' ') + " " + ReplaceChar(surname, '<', ' ')
  {
    StandardNameFields(issuer, surname, given, rest);
    assert (issuer + surname)[3..] == surname;
    NameFieldStrips(surname);
    NameFieldStrips(given);
    StripFillersIdempotent(given);
    JoinNormalWords(ReplaceChar(given, '<', ' '), ReplaceChar(surname, '<', ' '));
  }

  lemma SpecimenNameFields()
    ensures IsNameField("ANNA<MARIA") && IsNameField("ERIKSSON")
    ensures ReplaceChar("ANNA<MARIA", '<', ' ') == "ANNA MARIA"
    ensures ReplaceChar("ERIKSSON", '<', ' ') == "ERIKSSON"
  {
    var g := ReplaceChar("ANNA<MARIA", '<', ' ');
    forall k | 0 <= k < 10 ensures g[k] == "ANNA MARIA"[k] {}
    var sn := ReplaceChar("ERIKSSON", '<', ' ');
    forall k | 0 <= k < 8 ensures sn[k] == "ERIKSSON"[k] {}
  }

  /** Three words joined by single spaces. */
  lemma SpecimenJoin(a: string, b: string, name: string)
    requires a == "ANNA MARIA" && b == "ERIKSSON" && name == "ANNA MARIA ERIKSSON"
    ensures a + " " + b == name
  {
    var j := a + " " + b;
    assert |j| == |name|;
    forall k | 0 <= k < |name| ensures j[k] == name[k] {}
  }

  /** Line 1 of the specimen passport of ICAO Doc 9303 decodes to "ANNA MARIA ERIKSSON". */
  lemma SpecimenName(l1: string)
    requires l1 == SpecimenLine1
    ensures DecodeName(l1) == "ANNA MARIA ERIKSSON"
  {
    SpecimenNameParts("UTO", "ERIKSSON", "ANNA<MARIA", "<<<<<<<<<<<<<<<<<", "ANNA MARIA ERIKSSON");
  }

  lemma SpecimenNameParts(issuer: string, surname: string, given: string, rest: string, name: string)
    requires issuer == "UTO" && surname == "ERIKSSON" && given == "ANNA<MARIA" && rest == "<<<<<<<<<<<<<<<<<"
    requires name == "ANNA MARIA ERIKSSON"
    ensures DecodeName("P<" + issuer + surname + "<<" + given + "<<" + rest) == name
  {
    SpecimenNameFields();
    DecodeStandardName(issuer, surname, given, rest);
    SpecimenJoin(ReplaceChar(given, '<', ' '), ReplaceChar(surname, '<', ' '), name);
  }


  /** The sum over a prefix grows by one weighted value per char. */
  lemma WeightedSumStep(s: string, n: nat)
    requires n < |s|
    ensures WeightedSum(s[..n + 1]) == WeightedSum(s[..n]) + MrzVal(s[n]) * Weight(n)
  {
    assert s[..n + 1][..n] == s[..n];
  }

  /** The specimen's document number "L898902C<" checks out against its check digit '3'. */
  lemma SpecimenDocNumberPasses(l2: string)
    requires l2 == SpecimenLine2
    ensures CheckDigitOk(l2[0..9], l2[9])
  {
    var d := l2[0..9];
    assert d == "L898902C<";
    SpecimenDocNumberSum(d);
    assert l2[9] == '3';
  }

  /**
   * At the extractor's offsets the char read as the specimen's birth-date check
   * digit is the sex 'F', so the record is not valid.
   */
  lemma SpecimenChecksFail(l2: string)
    requires l2 == SpecimenLine2
    ensures |l2| == 44 && l2[20] == 'F' && !ChecksValid(l2)
  {
    assert l2[20] == 'F';
    assert !CheckDigitOk(l2[14..20], l2[20]);
  }

  /** The weighted sum of the specimen's document number "L898902C<" is 313. */
  lemma SpecimenDocNumberSum(d: string)
    requires |d| == 9
    requires d[0] == 'L' && d[1] == '8' && d[2] == '9' && d[3] == '8' && d[4] == '9'
    requires d[5] == '0' && d[6] == '2' && d[7] == 'C' && d[8] == '<'
    ensures WeightedSum(d) == 313
  {
    WeightedSumStep(d, 0);
    WeightedSumStep(d, 1);
    WeightedSumStep(d, 2);
    assert WeightedSum(d[..3]) == 180;
    WeightedSumStep(d, 3);
    WeightedSumStep(d, 4);
    WeightedSumStep(d, 5);
    assert WeightedSum(d[..6]) == 263;
    WeightedSumStep(d, 6);
    WeightedSumStep(d, 7);
    WeightedSumStep(d, 8);
    assert d[..9] == d;
  }

  /** The specimen's birth date 690806, read one char late as 908061, becomes "1990-80-61". */
  lemma SpecimenBirthDate(l2: string)
    requires l2 == SpecimenLine2
    ensures BirthDateIso(l2[14..20]) == Success("1990-80-61")
  {
    assert l2[14] == '9';
    assert l2[15] == '0';
    assert l2[16] == '8';
    assert l2[17] == '0';
    assert l2[18] == '6';
    assert l2[19] == '1';
    var dob := l2[14..20];
    assert dob[0] == '9' && dob[1] == '0' && dob[2] == '8' && dob[3] == '0' && dob[4] == '6' && dob[5] == '1';
    assert ParseTwoDigitInt(dob[..2]) == Some(90);
    var iso := "19" + dob[..2] + "-" + dob[2..4] + "-" + dob[4..6];
    assert |iso| == 10;
    forall k | 0 <= k < 10 ensures iso[k] == "1990-80-61"[k] {
      if k < 2 { } else if k < 4 { assert iso[k] == dob[k - 2]; } else if k == 4 { }
      else if k < 7 { assert iso[k] == dob[k - 3]; } else if k == 7 { } else { assert iso[k] == dob[k - 4]; }
    }
    assert iso == "1990-80-61";
    assert BirthDateIso(dob) == Success(iso);
  }
}
