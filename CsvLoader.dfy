/**
 * The CSV reading of `LoaderController`: the quote-aware line tokeniser
 * `parseCsvLine` and the loop of `readCsvFromClasspath` that zips the header
 * columns with each line's values into an insertion-ordered map.
 */
module CsvLoader {
  import opened Wrappers
  import opened JavaText

  const Quote: char := '"'
  const Comma: char := ','

  // ---------------------------------------------------------------------------
  // The tokeniser
  // ---------------------------------------------------------------------------

  /**
   * The commas of `s` read outside quotes, when reading starts in quote state
   * `inQuotes`: a `""` inside quotes is one escaped quote, any other quote
   * toggles the state.
   */
  function UnquotedCommas(s: string, inQuotes: bool): nat
    decreases |s|
  {
    if |s| == 0 then 0
    else if s[0] == Quote then
      if inQuotes && |s| > 1 && s[1] == Quote then UnquotedCommas(s[2..], true)
      else UnquotedCommas(s[1..], !inQuotes)
    else (if s[0] == Comma && !inQuotes then 1 else 0) + UnquotedCommas(s[1..], inQuotes)
  }

  /**
   * The tokens of the rest `s` of a line, given the tokens `done` already closed,
   * the token `cur` being built and the quote state. Every unquoted comma closes
   * one token and the end of the line closes the last one.
   */
  function Lex(s: string, inQuotes: bool, cur: string, done: seq<string>): (r: seq<string>)
    ensures |r| == |done| + 1 + UnquotedCommas(s, inQuotes)
    ensures r[..|done|] == done
    decreases |s|
  {
    if |s| == 0 then done + [cur]
    else if s[0] == Quote then
      if inQuotes && |s| > 1 && s[1] == Quote then Lex(s[2..], true, cur + [Quote], done)
      else Lex(s[1..], !inQuotes, cur, done)
    else if s[0] == Comma && !inQuotes then
      var r := Lex(s[1..], false, [], done + [cur]);
      assert r[..|done|] == (r[..|done| + 1])[..|done|];
      r
    else Lex(s[1..], inQuotes, cur + [s[0]], done)
  }

  /** What `parseCsvLine` returns: nothing for a null line, else one token more than the unquoted commas. */
  function Tokens(line: Option<string>): (r: seq<string>)
    ensures line.None? ==> r == []
    ensures line.Some? ==> |r| == 1 + UnquotedCommas(line.value, false)
  {
    if line.None? then [] else Lex(line.value, false, [], [])
  }

  /**
   * `parseCsvLine`: one pass over the chars with a `cur` buffer and an `inQuotes`
   * flag, skipping the second char of an escaped `""`.
   */
  method ParseCsvLine(line: Option<string>) returns (tokens: seq<string>)
    ensures tokens == Tokens(line)
  {
    tokens := [];
    if line.None? {
      return;
    }
    var s := line.value;
    var cur: string := [];
    var inQuotes := false;
    var i := 0;
    while i < |s|
      invariant 0 <= i <= |s|
      invariant Lex(s[i..], inQuotes, cur, tokens) == Tokens(line)
    {
      var c := s[i];
      assert s[i..][1..] == s[i + 1..];
      if c == Quote {
        if inQuotes && i + 1 < |s| && s[i + 1] == Quote {
          assert s[i..][2..] == s[i + 2..];
          cur := cur + [Quote];
          i := i + 1;
        } else {
          inQuotes := !inQuotes;
        }
      } else if c == Comma && !inQuotes {
        tokens := tokens + [cur];
        cur := [];
      } else {
        cur := cur + [c];
      }
      i := i + 1;
    }
    tokens := tokens + [cur];
  }

  /** Closed tokens never change: the result is always `done` followed by what the rest yields. */
  lemma {:induction false} LexFrom(s: string, inQuotes: bool, cur: string, done: seq<string>)
    ensures Lex(s, inQuotes, cur, done) == done + Lex(s, inQuotes, cur, [])
    decreases |s|
  {
    if |s| == 0 {
    } else if s[0] == Quote {
      if inQuotes && |s| > 1 && s[1] == Quote {
        LexFrom(s[2..], true, cur + [Quote], done);
      } else {
        LexFrom(s[1..], !inQuotes, cur, done);
      }
    } else if s[0] == Comma && !inQuotes {
      LexFrom(s[1..], false, [], done + [cur]);
      LexFrom(s[1..], false, [], [cur]);
      var rest := Lex(s[1..], false, [], []);
      assert [] + [cur] == [cur];
      assert done + [cur] + rest == done + ([cur] + rest);
    } else {
      LexFrom(s[1..], inQuotes, cur + [s[0]], done);
    }
  }

  // ---------------------------------------------------------------------------
  // Lines without quotes
  // ---------------------------------------------------------------------------

  /** `String.join(",", tokens)` for a nonempty list. */
  function JoinCommas(tokens: seq<string>): string
    requires |tokens| > 0
    decreases |tokens|
  {
    if |tokens| == 1 then tokens[0] else tokens[0] + [Comma] + JoinCommas(tokens[1..])
  }

  lemma {:induction false} NoQuoteLex(s: string, cur: string)
    requires Quote !in s && Comma !in cur
    ensures var r := Lex(s, false, cur, []);
      JoinCommas(r) == cur + s && forall k :: 0 <= k < |r| ==> Comma !in r[k]
    decreases |s|
  {
    if |s| > 0 {
      assert s == [s[0]] + s[1..];
      if s[0] == Comma {
        NoQuoteLex(s[1..], []);
        LexFrom(s[1..], false, [], [cur]);
        var rest := Lex(s[1..], false, [], []);
        assert [] + [cur] == [cur];
        assert Lex(s, false, cur, []) == [cur] + rest;
        assert ([cur] + rest)[1..] == rest;
      } else {
        NoQuoteLex(s[1..], cur + [s[0]]);
        assert cur + [s[0]] + s[1..] == cur + s;
      }
    }
  }

  /**
   * A line with no quote is split at every comma: no token holds a comma, and
   * joining the tokens with commas gives the line back.
   */
  lemma NoQuoteRoundTrip(line: string)
    requires Quote !in line
    ensures var r := Tokens(Some(line));
      JoinCommas(r) == line && forall k :: 0 <= k < |r| ==> Comma !in r[k]
  {
    NoQuoteLex(line, []);
  }

  /** A joined line of two or more pieces: the first piece, a comma, then the rest joined. */
  lemma JoinHead(a: seq<string>)
    requires |a| > 1
    ensures var j := JoinCommas(a);
      |a[0]| < |j| && j[|a[0]|] == Comma && j[..|a[0]|] == a[0] && j[|a[0]| + 1..] == JoinCommas(a[1..])
  {
    var j := JoinCommas(a);
    assert j == a[0] + [Comma] + JoinCommas(a[1..]);
  }

  /** Comma-free pieces are determined by their comma-joined line: the split is unique. */
  lemma {:induction false} CommaFreeSplitIsUnique(a: seq<string>, b: seq<string>)
    requires |a| > 0 && |b| > 0 && JoinCommas(a) == JoinCommas(b)
    requires forall k :: 0 <= k < |a| ==> Comma !in a[k]
    requires forall k :: 0 <= k < |b| ==> Comma !in b[k]
    ensures a == b
    decreases |a|
  {
    var j := JoinCommas(a);
    if |a| == 1 && |b| == 1 {
    } else if |a| == 1 {
      JoinHead(b);
      assert false;
    } else if |b| == 1 {
      JoinHead(a);
      assert false;
    } else {
      JoinHead(a);
      JoinHead(b);
      if |a[0]| < |b[0]| {
        assert false;
      } else if |b[0]| < |a[0]| {
        assert false;
      }
      CommaFreeSplitIsUnique(a[1..], b[1..]);
      assert a == [a[0]] + a[1..];
      assert b == [b[0]] + b[1..];
    }
  }

  // ---------------------------------------------------------------------------
  // Quoted fields
  // ---------------------------------------------------------------------------

  /** A field's text inside quotes: each quote doubled. */
  function Escape(f: string): (r: string)
    ensures |r| >= |f|
    decreases |f|
  {
    if |f| == 0 then []
    else if f[0] == Quote then [Quote, Quote] + Escape(f[1..])
    else [f[0]] + Escape(f[1..])
  }

  /** A field written the CSV way: escaped and between quotes. */
  function Quoted(f: string): string {
    [Quote] + Escape(f) + [Quote]
  }

  /**
   * Inside quotes, an escaped field and its closing quote add exactly the field
   * to the current token, commas included, and leave the quotes.
   */
  lemma {:induction false} LexEscaped(f: string, rest: string, cur: string, done: seq<string>)
    requires |rest| == 0 || rest[0] != Quote
    ensures Lex(Escape(f) + [Quote] + rest, true, cur, done) == Lex(rest, false, cur + f, done)
    decreases |f|
  {
    var s := Escape(f) + [Quote] + rest;
    if |f| == 0 {
      assert s == [Quote] + rest;
      assert s[1..] == rest;
      assert cur + f == cur;
    } else {
      var t := Escape(f[1..]) + [Quote] + rest;
      var c := f[0];
      if c == Quote {
        assert s == [Quote, Quote] + t;
      } else {
        assert s == [c] + t;
      }
      LexInQuotes(s, cur, done, c, t);
      LexEscaped(f[1..], rest, cur + [c], done);
      assert cur + [c] + f[1..] == cur + f;
    }
  }

  /** Inside quotes, an escaped quote or any other char `c` goes into the current token. */
  lemma LexInQuotes(s: string, cur: string, done: seq<string>, c: char, t: string)
    requires s == (if c == Quote then [Quote, Quote] else [c]) + t
    ensures Lex(s, true, cur, done) == Lex(t, true, cur + [c], done)
  {
    if c == Quote {
      assert s[2..] == t;
    } else {
      assert s[1..] == t;
    }
  }

  /** A line of quoted fields separated by commas. */
  function QuotedLine(fields: seq<string>): string
    requires |fields| > 0
    decreases |fields|
  {
    if |fields| == 1 then Quoted(fields[0]) else Quoted(fields[0]) + [Comma] + QuotedLine(fields[1..])
  }

  /** An opening quote, an escaped field and the closing quote put exactly the field into the current token. */
  lemma LexQuotedField(f: string, rest: string, done: seq<string>)
    requires |rest| == 0 || rest[0] != Quote
    ensures Lex(Quoted(f) + rest, false, [], done) == Lex(rest, false, f, done)
  {
    var s := Quoted(f) + rest;
    assert s[0] == Quote;
    assert s[1..] == Escape(f) + [Quote] + rest;
    LexEscaped(f, rest, [], done);
    assert [] + f == f;
  }

  lemma {:induction false} LexQuotedLine(fields: seq<string>, done: seq<string>)
    requires |fields| > 0
    ensures Lex(QuotedLine(fields), false, [], done) == done + fields
    decreases |fields|
  {
    var f := fields[0];
    if |fields| == 1 {
      LexQuotedField(f, [], done);
      assert Quoted(f) + [] == Quoted(f);
      assert fields == [f];
    } else {
      var tail := QuotedLine(fields[1..]);
      LexQuotedField(f, [Comma] + tail, done);
      assert Quoted(f) + [Comma] + tail == Quoted(f) + ([Comma] + tail);
      assert ([Comma] + tail)[1..] == tail;
      LexQuotedLine(fields[1..], done + [f]);
      assert done + [f] + fields[1..] == done + fields;
    }
  }

  /**
   * Quoting round trip: fields written between quotes with their quotes doubled
   * and joined by commas are read back exactly, commas and quotes inside them
   * included.
   */
  lemma QuotedRoundTrip(fields: seq<string>)
    requires |fields| > 0
    ensures Tokens(Some(QuotedLine(fields))) == fields
  {
    LexQuotedLine(fields, []);
  }

  lemma {:induction false} LexOpenQuote(x: string, cur: string, done: seq<string>)
    requires Quote !in x
    ensures Lex(x, true, cur, done) == done + [cur + x]
    decreases |x|
  {
    if |x| == 0 {
      assert cur + x == cur;
    } else {
      assert x[0] in x;
      LexOpenQuote(x[1..], cur + [x[0]], done);
      assert cur + [x[0]] + x[1..] == cur + x;
    }
  }

  /**
   * An unclosed quote is no error: from an opening quote on, the rest of the
   * line, commas included, ends the last token.
   */
  lemma UnclosedQuote(x: string, cur: string, done: seq<string>)
    requires Quote !in x
    ensures Lex([Quote] + x, false, cur, done) == done + [cur + x]
  {
    assert ([Quote] + x)[1..] == x;
    LexOpenQuote(x, cur, done);
  }

  // ---------------------------------------------------------------------------
  // Rows
  // ---------------------------------------------------------------------------

  /** A `LinkedHashMap<String, Object>` row: its entries in insertion order. */
  type Row = seq<(string, string)>

  function Get(row: Row, key: string): Option<string>
    decreases |row|
  {
    if |row| == 0 then None
    else if row[0].0 == key then Some(row[0].1)
    else Get(row[1..], key)
  }

  /** The keys of a row, in order. */
  function Keys(row: Row): (r: seq<string>)
    ensures |r| == |row|
    decreases |row|
  {
    if |row| == 0 then [] else [row[0].0] + Keys(row[1..])
  }

  predicate Distinct(s: seq<string>) {
    forall a, b :: 0 <= a < b < |s| ==> s[a] != s[b]
  }

  /** `put`: a present key keeps its place and takes the new value, a new key goes last. */
  function Put(row: Row, key: string, value: string): (r: Row)
    ensures Get(r, key) == Some(value)
    ensures forall k :: k != key ==> Get(r, k) == Get(row, k)
    ensures Get(row, key).None? ==> r == row + [(key, value)]
    decreases |row|
  {
    if |row| == 0 then [(key, value)]
    else if row[0].0 == key then [(key, value)] + row[1..]
    else [row[0]] + Put(row[1..], key, value)
  }

  /** `put` adds a key only when it is new, and then last: the insertion order of `LinkedHashMap`. */
  lemma {:induction false} PutKeys(row: Row, key: string, value: string)
    ensures Keys(Put(row, key, value)) == if key in Keys(row) then Keys(row) else Keys(row) + [key]
    decreases |row|
  {
    if |row| > 0 && row[0].0 != key {
      PutKeys(row[1..], key, value);
      assert Keys(row) == [row[0].0] + Keys(row[1..]);
      assert key in Keys(row) <==> key in Keys(row[1..]);
    }
  }

  /** `put` never duplicates a key. */
  lemma PutKeepsDistinct(row: Row, key: string, value: string)
    requires Distinct(Keys(row))
    ensures Distinct(Keys(Put(row, key, value)))
  {
    PutKeys(row, key, value);
  }

  /** The keys `row.put` is called with: every header column trimmed. */
  function TrimmedNames(cols: seq<string>): (r: seq<string>)
    ensures |r| == |cols|
  {
    seq(|cols|, i requires 0 <= i < |cols| => Trim(cols[i]))
  }

  /** The row built from the column names `names`: each name put with its value, in order. */
  function Zipped(names: seq<string>, parts: seq<string>): Row
    decreases |names|
  {
    if |names| == 0 then []
    else Put(Zipped(names[..|names| - 1], parts), names[|names| - 1], PartOr(parts, |names| - 1))
  }

  /**
   * The loop body of `readCsvFromClasspath` for one line: `row.put(cols[i].trim(),
   * i < parts.size() ? parts[i] : "")` for every header column.
   */
  method BuildRow(cols: seq<string>, parts: seq<string>) returns (row: Row)
    ensures row == Zipped(TrimmedNames(cols), parts)
  {
    ghost var names := TrimmedNames(cols);
    row := [];
    for i := 0 to |cols|
      invariant row == Zipped(names[..i], parts)
    {
      var v := if i < |parts| then parts[i] else "";
      assert names[..i + 1][..i] == names[..i];
      row := Put(row, Trim(cols[i]), v);
    }
    assert names[..|cols|] == names;
  }

  /** The last position before `m` holding the name `key`. */
  function LastColumn(names: seq<string>, key: string, m: nat): (r: Option<nat>)
    requires m <= |names|
    ensures r.Some? ==> r.value < m && names[r.value] == key
    decreases m
  {
    if m == 0 then None
    else if names[m - 1] == key then Some(m - 1)
    else LastColumn(names, key, m - 1)
  }

  /** `LastColumn` finds the last position of that name, and finds none only when no position has it. */
  lemma {:induction false} LastColumnIsLast(names: seq<string>, key: string, m: nat)
    requires m <= |names|
    ensures var r := LastColumn(names, key, m);
      (r.Some? ==> forall i :: r.value < i < m ==> names[i] != key) &&
      (r.None? ==> forall i :: 0 <= i < m ==> names[i] != key)
    decreases m
  {
    if m > 0 && names[m - 1] != key {
      LastColumnIsLast(names, key, m - 1);
    }
  }

  lemma {:induction false} LastColumnAgrees(n1: seq<string>, n2: seq<string>, key: string, m: nat)
    requires m <= |n1| && m <= |n2| && n1[..m] == n2[..m]
    ensures LastColumn(n1, key, m) == LastColumn(n2, key, m)
    decreases m
  {
    if m > 0 {
      assert n1[m - 1] == n1[..m][m - 1];
      assert n2[m - 1] == n2[..m][m - 1];
      assert n1[..m - 1] == n1[..m][..m - 1];
      assert n2[..m - 1] == n2[..m][..m - 1];
      LastColumnAgrees(n1, n2, key, m - 1);
    }
  }

  /** The value a name gets: the line's value at the last column of that name, or "" past the line's end. */
  function ColumnValue(names: seq<string>, parts: seq<string>, key: string): Option<string> {
    match LastColumn(names, key, |names|)
    case None => None
    case Some(i) => Some(PartOr(parts, i))
  }

  /** A built row holds each of its names once. */
  lemma {:induction false} ZippedKeysDistinct(names: seq<string>, parts: seq<string>)
    ensures Distinct(Keys(Zipped(names, parts)))
    decreases |names|
  {
    if |names| > 0 {
      var init := names[..|names| - 1];
      ZippedKeysDistinct(init, parts);
      PutKeepsDistinct(Zipped(init, parts), names[|names| - 1], PartOr(parts, |names| - 1));
    }
  }

  /**
   * The value a built row holds for a key is the line's value at the last
   * column of that name, or "" when the line is too short for it; a key that
   * names no column is absent.
   */
  lemma {:induction false} ZippedLookup(names: seq<string>, parts: seq<string>, key: string)
    ensures Get(Zipped(names, parts), key) == ColumnValue(names, parts, key)
    decreases |names|
  {
    if |names| > 0 {
      var n := |names| - 1;
      var init := names[..n];
      ZippedLookup(init, parts, key);
      LastColumnAgrees(init, names, key, n);
    }
  }

  /** Each name paired with the line's value at its position, or "". */
  function Pairs(names: seq<string>, parts: seq<string>): (r: Row)
    ensures |r| == |names|
  {
    seq(|names|, i requires 0 <= i < |names| => (names[i], PartOr(parts, i)))
  }

  /**
   * With distinct names a row has one entry per column, in header order,
   * holding the line's value at that position: extra values are dropped and
   * missing ones are "".
   */
  lemma {:induction false} ZippedOfDistinctNames(names: seq<string>, parts: seq<string>)
    requires Distinct(names)
    ensures Zipped(names, parts) == Pairs(names, parts)
    decreases |names|
  {
    if |names| > 0 {
      var n := |names| - 1;
      LastNameIsNew(names, parts);
      ZippedOfDistinctNames(names[..n], parts);
      PairsSnoc(names, parts);
    }
  }

  /** Under distinct names the last name is not yet a key of the row built before it. */
  lemma LastNameIsNew(names: seq<string>, parts: seq<string>)
    requires |names| > 0 && Distinct(names)
    ensures Distinct(names[..|names| - 1])
    ensures Get(Zipped(names[..|names| - 1], parts), names[|names| - 1]).None?
  {
    var n := |names| - 1;
    var init := names[..n];
    ZippedLookup(init, parts, names[n]);
  }

  lemma PairsSnoc(names: seq<string>, parts: seq<string>)
    requires |names| > 0
    ensures var n := |names| - 1;
      Pairs(names, parts) == Pairs(names[..n], parts) + [(names[n], PartOr(parts, n))]
  {
    var n := |names| - 1;
    var r := Pairs(names[..n], parts) + [(names[n], PartOr(parts, n))];
    assert forall i :: 0 <= i < |names| ==> r[i] == Pairs(names, parts)[i];
  }

  /**
   * The zipping loop of `readCsvFromClasspath` after the header line: a null
   * header is the "CSV is empty" error, else one row per remaining line, built
   * from the header's trimmed tokens and the line's tokens.
   */
  method ReadRows(header: Option<string>, lines: seq<string>) returns (out: Result<seq<Row>>)
    ensures header.None? <==> out.Failure?
    ensures out.Success? ==> |out.value| == |lines|
    ensures out.Success? ==> forall k :: 0 <= k < |lines| ==>
      out.value[k] == Zipped(TrimmedNames(Tokens(header)), Tokens(Some(lines[k])))
  {
    if header.None? {
      return Failure("CSV is empty");
    }
    var cols := ParseCsvLine(header);
    var rows: seq<Row> := [];
    for k := 0 to |lines|
      invariant |rows| == k
      invariant forall m :: 0 <= m < k ==> rows[m] == Zipped(TrimmedNames(cols), Tokens(Some(lines[m])))
    {
      var parts := ParseCsvLine(Some(lines[k]));
      var row := BuildRow(cols, parts);
      rows := rows + [row];
    }
    return Success(rows);
  }
}
