/**
 * The transaction records the fraud heuristics work on: the decoded JSON
 * objects, their defensive conversion into `Tx` values, and the stable sort by
 * timestamp (`List.sort` with `Comparator.comparing`, null timestamps keyed as
 * the epoch).
 */
module Transactions {
  import opened Wrappers

  /** A value of a decoded JSON object, as Jackson hands it over inside a `Map<String,Object>`. */
  datatype JsonValue = JNull | JNumber(number: real) | JText(text: string) | JBool(flag: bool) | JComposite

  /** One decoded transaction object. */
  type Record = map<string, JsonValue>

  /**
   * The library conversions the agent relies on, which are not part of this model:
   * `String.valueOf` of numbers and nested values, `Instant.parse` (an instant in
   * epoch seconds, `None` where it throws) and `Double.parseDouble` (`None` where it
   * throws).
   */
  datatype Conversions = Conversions(
    render: JsonValue -> string,
    parseInstant: string -> Option<int>,
    parseDouble: string -> Option<real>)

  /** A transaction after conversion; `None` stands for a null field. */
  datatype Tx = Tx(ts: Option<int>, amt: real, country: Option<string>, channel: Option<string>, device: Option<string>)

  /** `t.get(key)`: null for a missing key and for a JSON null. */
  function Get(rec: Record, key: string): Option<JsonValue> {
    if key in rec && !rec[key].JNull? then Some(rec[key]) else None
  }

  /** `String.valueOf(o)` for a non-null value. */
  function ValueOf(conv: Conversions, v: JsonValue): string {
    match v
    case JText(s) => s
    case JBool(b) => if b then "true" else "false"
    case _ => conv.render(v)
  }

  /** `parseInstant`: null for a null value and for text `Instant.parse` rejects. */
  function ParseInstant(conv: Conversions, o: Option<JsonValue>): (r: Option<int>)
    ensures o.None? ==> r.None?
    ensures o.Some? ==> r == conv.parseInstant(ValueOf(conv, o.value))
    ensures o.Some? && o.value.JText? ==> r == conv.parseInstant(o.value.text)
  {
    if o.None? then None else conv.parseInstant(ValueOf(conv, o.value))
  }

  /** `toDouble`: 0 for null and for text that is not a number; a JSON number is taken as it is. */
  function ToDouble(conv: Conversions, o: Option<JsonValue>): (r: real)
    ensures o.None? ==> r == 0.0
    ensures o.Some? && o.value.JNumber? ==> r == o.value.number
    ensures o.Some? && !o.value.JNumber? && conv.parseDouble(ValueOf(conv, o.value)).None? ==> r == 0.0
    ensures o.Some? && !o.value.JNumber? && conv.parseDouble(ValueOf(conv, o.value)).Some? ==>
      r == conv.parseDouble(ValueOf(conv, o.value)).value
  {
    match o
    case None => 0.0
    case Some(JNumber(x)) => x
    case Some(v) => conv.parseDouble(ValueOf(conv, v)).GetOr(0.0)
  }

  /** `asStr`: null stays null, anything else becomes its text. */
  function AsStr(conv: Conversions, o: Option<JsonValue>): (r: Option<string>)
    ensures r.None? <==> o.None?
    ensures o.Some? && o.value.JText? ==> r == Some(o.value.text)
  {
    if o.None? then None else Some(ValueOf(conv, o.value))
  }

  /** The body of the conversion loop: one `Tx` from one decoded object. */
  function ConvertRecord(conv: Conversions, rec: Record): (t: Tx)
    ensures Get(rec, "ts").None? ==> t.ts.None?
    ensures Get(rec, "amt").None? ==> t.amt == 0.0
    ensures t.country.None? <==> Get(rec, "country").None?
    ensures t.channel.None? <==> Get(rec, "channel").None?
    ensures t.device.None? <==> Get(rec, "device").None?
    ensures Get(rec, "ts").Some? ==> t.ts == conv.parseInstant(ValueOf(conv, Get(rec, "ts").value))
    ensures Get(rec, "amt").Some? && Get(rec, "amt").value.JNumber? ==> t.amt == Get(rec, "amt").value.number
    ensures Get(rec, "country").Some? && Get(rec, "country").value.JText? ==> t.country == Some(Get(rec, "country").value.text)
    ensures Get(rec, "channel").Some? && Get(rec, "channel").value.JText? ==> t.channel == Some(Get(rec, "channel").value.text)
    ensures Get(rec, "device").Some? && Get(rec, "device").value.JText? ==> t.device == Some(Get(rec, "device").value.text)
  {
    Tx(ParseInstant(conv, Get(rec, "ts")),
       ToDouble(conv, Get(rec, "amt")),
       AsStr(conv, Get(rec, "country")),
       AsStr(conv, Get(rec, "channel")),
       AsStr(conv, Get(rec, "device")))
  }

  /**
   * The conversion loop of `analyzeTransactions`. A null element of the decoded
   * array makes `t.get` throw a NullPointerException, which ends the loop with
   * `None`; otherwise there is exactly one `Tx` per element, in order.
   */
  method ConvertRecords(conv: Conversions, txs: seq<Option<Record>>) returns (parsed: Option<seq<Tx>>)
    ensures parsed.None? <==> exists k :: 0 <= k < |txs| && txs[k].None?
    ensures parsed.Some? ==> |parsed.value| == |txs|
    ensures parsed.Some? ==> forall k :: 0 <= k < |txs| ==> txs[k].Some? && parsed.value[k] == ConvertRecord(conv, txs[k].value)
  {
    var acc: seq<Tx> := [];
    for k := 0 to |txs|
      invariant |acc| == k
      invariant forall p :: 0 <= p < k ==> txs[p].Some? && acc[p] == ConvertRecord(conv, txs[p].value)
    {
      if txs[k].None? {
        return None;
      }
      acc := acc + [ConvertRecord(conv, txs[k].value)];
    }
    return Some(acc);
  }

  /** The sort key: the timestamp, with `Instant.EPOCH` (0) for a null one. */
  function Key(t: Tx): int {
    t.ts.GetOr(0)
  }

  predicate SortedByKey(s: seq<Tx>) {
    forall a, b :: 0 <= a <= b < |s| ==> Key(s[a]) <= Key(s[b])
  }

  /** The elements of `s` whose key is `k`, in their order in `s`. */
  function WithKey(s: seq<Tx>, k: int): seq<Tx>
    decreases |s|
  {
    if |s| == 0 then []
    else WithKey(s[..|s| - 1], k) + (if Key(s[|s| - 1]) == k then [s[|s| - 1]] else [])
  }

  /** Every element of `WithKey(s, k)` is an element of `s` with key `k`. */
  lemma {:induction false} WithKeyMember(s: seq<Tx>, k: int, e: Tx)
    requires e in WithKey(s, k)
    ensures e in s && Key(e) == k
    decreases |s|
  {
    var s' := s[..|s| - 1];
    if e in WithKey(s', k) {
      WithKeyMember(s', k, e);
      assert s == s' + [s[|s| - 1]];
    }
  }

  lemma {:induction false} WithKeyConcat(a: seq<Tx>, b: seq<Tx>, k: int)
    ensures WithKey(a + b, k) == WithKey(a, k) + WithKey(b, k)
    decreases |b|
  {
    if |b| == 0 {
      assert a + b == a;
    } else {
      var b' := b[..|b| - 1];
      assert (a + b)[..|a + b| - 1] == a + b';
      assert (a + b)[|a + b| - 1] == b[|b| - 1];
      WithKeyConcat(a, b', k);
    }
  }

  /** Inserting `x` into a sorted sequence after every element whose key is not larger. */
  function InsertByKey(x: Tx, t: seq<Tx>): (r: seq<Tx>)
    ensures |r| == |t| + 1 && multiset(r) == multiset(t) + multiset{x}
    decreases |t|
  {
    if |t| == 0 || Key(t[|t| - 1]) <= Key(x) then t + [x]
    else
      var t' := t[..|t| - 1];
      assert t == t' + [t[|t| - 1]];
      InsertByKey(x, t') + [t[|t| - 1]]
  }

  lemma {:induction false} InsertKeepsSorted(x: Tx, t: seq<Tx>)
    requires SortedByKey(t)
    ensures SortedByKey(InsertByKey(x, t))
    decreases |t|
  {
    if |t| > 0 && Key(x) < Key(t[|t| - 1]) {
      var t', y := t[..|t| - 1], t[|t| - 1];
      var r' := InsertByKey(x, t');
      InsertKeepsSorted(x, t');
      forall a | 0 <= a < |r'| ensures Key(r'[a]) <= Key(y) {
        assert r'[a] in multiset(t') + multiset{x};
        if r'[a] != x {
          var c :| 0 <= c < |t'| && t'[c] == r'[a];
        }
      }
    }
  }

  /** `[e]` when `e` has key `k`, else nothing. */
  function Only(e: Tx, k: int): seq<Tx> {
    if Key(e) == k then [e] else []
  }

  lemma WithKeySnoc(s: seq<Tx>, e: Tx, k: int)
    ensures WithKey(s + [e], k) == WithKey(s, k) + Only(e, k)
  {
    assert (s + [e])[..|s|] == s;
  }

  /** Insertion keeps the elements of every key in their order and puts `x` last among its key. */
  lemma {:induction false} InsertStable(x: Tx, t: seq<Tx>, k: int)
    ensures WithKey(InsertByKey(x, t), k) == WithKey(t, k) + Only(x, k)
    decreases |t|
  {
    if |t| == 0 || Key(t[|t| - 1]) <= Key(x) {
      assert InsertByKey(x, t) == t + [x];
      WithKeySnoc(t, x, k);
    } else {
      var t', y := t[..|t| - 1], t[|t| - 1];
      var r' := InsertByKey(x, t');
      assert InsertByKey(x, t) == r' + [y];
      assert t == t' + [y];
      InsertStable(x, t', k);
      WithKeySnoc(r', y, k);
      WithKeySnoc(t', y, k);
      assert Only(x, k) == [] || Only(y, k) == [];
    }
  }

  /**
   * `parsed.sort(Comparator.comparing(a -> a.ts == null ? Instant.EPOCH : a.ts))`:
   * `List.sort` is stable, so the result is ordered by key and the elements of each
   * key keep their input order.
   */
  function SortByKey(s: seq<Tx>): (r: seq<Tx>)
    ensures SortedByKey(r)
    ensures multiset(r) == multiset(s)
    ensures forall k :: WithKey(r, k) == WithKey(s, k)
    decreases |s|
  {
    if |s| == 0 then []
    else
      var x := s[|s| - 1];
      var rest := SortByKey(s[..|s| - 1]);
      assert s == s[..|s| - 1] + [x];
      assert forall k :: WithKey(InsertByKey(x, rest), k) == WithKey(s, k) by {
        forall k ensures WithKey(InsertByKey(x, rest), k) == WithKey(s, k) {
          InsertStable(x, rest, k);
        }
      }
      InsertKeepsSorted(x, rest);
      InsertByKey(x, rest)
  }

  /** In a sorted sequence no element has a larger key than the last one. */
  lemma LastKeyIsLargest(s: seq<Tx>, e: Tx)
    requires SortedByKey(s) && e in s
    ensures Key(e) <= Key(s[|s| - 1])
  {
    var c :| 0 <= c < |s| && s[c] == e;
  }

  /** The last element of `a` is among the elements of its key, so it occurs in `b`. */
  lemma LastIsShared(a: seq<Tx>, b: seq<Tx>)
    requires |a| > 0
    requires WithKey(a, Key(a[|a| - 1])) == WithKey(b, Key(a[|a| - 1]))
    ensures a[|a| - 1] in b
  {
    var x := a[|a| - 1];
    assert a == a[..|a| - 1] + [x];
    WithKeySnoc(a[..|a| - 1], x, Key(x));
    assert x in WithKey(b, Key(x));
    WithKeyMember(b, Key(x), x);
  }

  /** Two sorted sequences with the same elements per key end with elements of the same key. */
  lemma SameLastKey(a: seq<Tx>, b: seq<Tx>)
    requires SortedByKey(a) && SortedByKey(b) && |a| > 0 && |b| > 0
    requires WithKey(a, Key(a[|a| - 1])) == WithKey(b, Key(a[|a| - 1]))
    requires WithKey(a, Key(b[|b| - 1])) == WithKey(b, Key(b[|b| - 1]))
    ensures Key(a[|a| - 1]) == Key(b[|b| - 1])
  {
    LastIsShared(a, b);
    LastIsShared(b, a);
    LastKeyIsLargest(b, a[|a| - 1]);
    LastKeyIsLargest(a, b[|b| - 1]);
  }

  /** Two sequences whose last elements share a key, and that agree on that key, end with the same element. */
  lemma SameLast(a: seq<Tx>, b: seq<Tx>)
    requires |a| > 0 && |b| > 0 && Key(a[|a| - 1]) == Key(b[|b| - 1])
    requires WithKey(a, Key(a[|a| - 1])) == WithKey(b, Key(a[|a| - 1]))
    ensures a[|a| - 1] == b[|b| - 1]
  {
    var k := Key(a[|a| - 1]);
    var wa, wb := WithKey(a, k), WithKey(b, k);
    assert wa == WithKey(a[..|a| - 1], k) + [a[|a| - 1]];
    assert wb == WithKey(b[..|b| - 1], k) + [b[|b| - 1]];
    assert wa[|wa| - 1] == a[|a| - 1];
    assert wb[|wb| - 1] == b[|b| - 1];
  }

  /** Removing the same last element keeps the elements per key equal. */
  lemma DropSameLast(a: seq<Tx>, b: seq<Tx>, k: int)
    requires |a| > 0 && |b| > 0 && a[|a| - 1] == b[|b| - 1]
    requires WithKey(a, k) == WithKey(b, k)
    ensures WithKey(a[..|a| - 1], k) == WithKey(b[..|b| - 1], k)
  {
    var a', b', x := a[..|a| - 1], b[..|b| - 1], a[|a| - 1];
    assert a == a' + [x] && b == b' + [x];
    WithKeySnoc(a', x, k);
    WithKeySnoc(b', x, k);
    var wa, wb := WithKey(a', k), WithKey(b', k);
    assert wa == WithKey(a, k)[..|wa|];
    assert wb == WithKey(b, k)[..|wb|];
  }

  /**
   * A sorted sequence is determined by the order of the elements within each key:
   * every stable sort of `s` gives `SortByKey(s)`, whatever algorithm it uses.
   */
  lemma {:induction false} StableSortIsUnique(a: seq<Tx>, b: seq<Tx>)
    requires SortedByKey(a) && SortedByKey(b)
    requires forall k :: WithKey(a, k) == WithKey(b, k)
    ensures a == b
    decreases |a| + |b|
  {
    if |a| > 0 && |b| > 0 {
      SameLastKey(a, b);
      SameLast(a, b);
      var a', b' := a[..|a| - 1], b[..|b| - 1];
      forall k ensures WithKey(a', k) == WithKey(b', k) {
        DropSameLast(a, b, k);
      }
      StableSortIsUnique(a', b');
      assert a == a' + [a[|a| - 1]];
      assert b == b' + [b[|b| - 1]];
    } else if |a| > 0 {
      LastIsShared(a, b);
    } else if |b| > 0 {
      LastIsShared(b, a);
    }
  }
}
