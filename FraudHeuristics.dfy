/**
 * The deterministic heuristics of the fraud agent (`analyzeTransactions`): the
 * near-threshold cash-deposit count, the three two-pointer sliding-window scans
 * and the geo-risk test, over the converted transactions sorted by timestamp.
 * Timestamps are epoch seconds, so a window of `win` seconds contains the
 * transactions at most `win` seconds before its last one.
 */
module FraudHeuristics {
  import opened Wrappers
  import opened JavaText
  import opened Transactions

  const Hour := 3600
  /** `Duration.ofHours(24)`, the velocity window. */
  const VelocityWindow := 24 * Hour
  /** `Duration.ofHours(72)`, the structuring window. */
  const StructuringWindow := 72 * Hour
  /** `Duration.ofHours(48)`, the device-hopping window. */
  const DeviceWindow := 48 * Hour

  function Max(a: int, b: int): int {
    if a >= b then a else b
  }

  predicate AllTimed(txs: seq<Tx>) {
    forall k :: 0 <= k < |txs| ==> txs[k].ts.Some?
  }

  // ---------------------------------------------------------------------------
  // The window a two-pointer scan keeps for each end position
  // ---------------------------------------------------------------------------

  /**
   * `txs.get(p).ts != null && Duration.between(txs.get(p).ts, end).compareTo(win) > 0`
   * for the end at `j`: the left index may move past `p`.
   */
  predicate Evicts(txs: seq<Tx>, p: nat, j: nat, win: int)
    requires p < |txs| && j < |txs|
  {
    txs[p].ts.Some? && txs[j].ts.Some? && txs[j].ts.value - txs[p].ts.value > win
  }

  function StartFrom(txs: seq<Tx>, j: nat, win: int, p: nat): (s: nat)
    requires p <= j < |txs|
    ensures p <= s <= j
    ensures forall q :: p <= q < s ==> Evicts(txs, q, j, win)
    ensures s < j ==> !Evicts(txs, s, j, win)
    decreases j - p
  {
    if p < j && Evicts(txs, p, j, win) then StartFrom(txs, j, win, p + 1) else p
  }

  /**
   * Where the window that ends at `j` starts: the first position the left index
   * cannot pass, because it is `j` itself, has a null timestamp or lies within
   * `win` of `j`.
   */
  function WindowStart(txs: seq<Tx>, j: nat, win: int): (s: nat)
    requires j < |txs|
    ensures s <= j
    ensures forall q :: 0 <= q < s ==> Evicts(txs, q, j, win)
    ensures s < j ==> !Evicts(txs, s, j, win)
  {
    StartFrom(txs, j, win, 0)
  }

  /** `j - i + 1` once the left index has settled for the end at `j`. */
  function WindowSize(txs: seq<Tx>, j: nat, win: int): nat
    requires j < |txs|
  {
    j - WindowStart(txs, j, win) + 1
  }

  /** On a sorted list, a position evicted for one end is evicted for every later stamped end. */
  lemma EvictsLater(txs: seq<Tx>, p: nat, e: nat, j: nat, win: int)
    requires SortedByKey(txs)
    requires p < |txs| && e <= j < |txs| && txs[j].ts.Some?
    requires Evicts(txs, p, e, win)
    ensures Evicts(txs, p, j, win)
  {
    assert Key(txs[e]) <= Key(txs[j]);
  }

  /**
   * The scan's left index before the end at `j`: everything before it was
   * evicted for the stamped end at `e`, the last end handled.
   */
  ghost predicate PointerBehind(txs: seq<Tx>, i: nat, e: nat, j: nat, win: int)
    requires j <= |txs|
  {
    i <= j && (i > 0 ==> e < j && txs[e].ts.Some? && forall p :: 0 <= p < i ==> Evicts(txs, p, e, win))
  }

  /** On a sorted list, what was evicted for an earlier end is evicted for the stamped end at `j`. */
  lemma EvictedStayEvicted(txs: seq<Tx>, i: nat, e: nat, j: nat, win: int)
    requires SortedByKey(txs)
    requires j < |txs| && txs[j].ts.Some? && PointerBehind(txs, i, e, j, win)
    ensures forall p :: 0 <= p < i ==> Evicts(txs, p, j, win)
  {
    forall p | 0 <= p < i ensures Evicts(txs, p, j, win) {
      EvictsLater(txs, p, e, j, win);
    }
  }

  /** Once the left index stops for the stamped end at `j`, it is at `WindowStart(j)`, behind the next end. */
  lemma PointerSettled(txs: seq<Tx>, i: nat, j: nat, win: int)
    requires j < |txs| && txs[j].ts.Some? && i <= j
    requires forall p :: 0 <= p < i ==> Evicts(txs, p, j, win)
    requires i < j ==> !Evicts(txs, i, j, win)
    ensures i == WindowStart(txs, j, win)
    ensures PointerBehind(txs, i, j, j + 1, win)
  {
    StartIsUnique(txs, j, win, i);
  }

  /**
   * If `s` satisfies what `WindowStart` promises, it is `WindowStart`: the first
   * position the left index cannot pass is unique.
   */
  lemma StartIsUnique(txs: seq<Tx>, j: nat, win: int, s: nat)
    requires j < |txs| && s <= j
    requires forall q :: 0 <= q < s ==> Evicts(txs, q, j, win)
    requires s < j ==> !Evicts(txs, s, j, win)
    ensures s == WindowStart(txs, j, win)
  {
  }

  /** The largest window size over the stamped end positions before `m`, or 0 when there is none. */
  function MaxWindowCount(txs: seq<Tx>, win: int, m: nat): (r: nat)
    requires m <= |txs|
    ensures r <= m
    decreases m
  {
    if m == 0 then 0
    else
      var b := MaxWindowCount(txs, win, m - 1);
      if txs[m - 1].ts.None? then b else Max(b, WindowSize(txs, m - 1, win))
  }

  /** `MaxWindowCount` bounds every window size and is attained by one, or is 0 without a stamped position. */
  lemma {:induction false} MaxWindowCountIsMax(txs: seq<Tx>, win: int, m: nat)
    requires m <= |txs|
    ensures forall j :: 0 <= j < m && txs[j].ts.Some? ==> WindowSize(txs, j, win) <= MaxWindowCount(txs, win, m)
    ensures MaxWindowCount(txs, win, m) > 0 ==>
      exists j :: 0 <= j < m && txs[j].ts.Some? && MaxWindowCount(txs, win, m) == WindowSize(txs, j, win)
    ensures (forall j :: 0 <= j < m ==> txs[j].ts.None?) ==> MaxWindowCount(txs, win, m) == 0
    decreases m
  {
    if m > 0 {
      MaxWindowCountIsMax(txs, win, m - 1);
    }
  }

  /**
   * `maxTransactionsInWindow`: for each stamped end `j` the left index `i` moves
   * past stamped transactions more than `win` before it, and the best `j - i + 1`
   * is kept. On the sorted list the left index never moves back, so `i` is
   * `WindowStart(j)`.
   */
  method MaxTransactionsInWindow(txs: seq<Tx>, win: int) returns (best: int)
    requires SortedByKey(txs)
    ensures best == MaxWindowCount(txs, win, |txs|)
  {
    var n := |txs|;
    best := 0;
    var i := 0;
    ghost var last := 0;
    for j := 0 to n
      invariant PointerBehind(txs, i, last, j, win)
      invariant best == MaxWindowCount(txs, win, j)
    {
      var end := txs[j].ts;
      if end.None? {
        continue;
      }
      EvictedStayEvicted(txs, i, last, j, win);
      while i < j && txs[i].ts.Some? && end.value - txs[i].ts.value > win
        invariant i <= j
        invariant forall p :: 0 <= p < i ==> Evicts(txs, p, j, win)
      {
        i := i + 1;
      }
      PointerSettled(txs, i, j, win);
      last := j;
      best := Max(best, j - i + 1);
    }
  }

  /** The left index never moves past a null timestamp: a null one at the head is in every window. */
  lemma NullHeadIsNeverEvicted(txs: seq<Tx>, win: int)
    requires |txs| > 0 && txs[0].ts.None?
    ensures forall j :: 0 <= j < |txs| ==> WindowStart(txs, j, win) == 0
    ensures forall j :: 0 <= j < |txs| && txs[j].ts.Some? ==> j + 1 <= MaxWindowCount(txs, win, |txs|)
  {
    forall j | 0 <= j < |txs| ensures WindowStart(txs, j, win) == 0 {
      assert !Evicts(txs, 0, j, win);
    }
    MaxWindowCountIsMax(txs, win, |txs|);
  }

  // ---------------------------------------------------------------------------
  // The window count as a count over time
  // ---------------------------------------------------------------------------

  predicate Within(t: Tx, lo: int, hi: int) {
    t.ts.Some? && lo <= t.ts.value <= hi
  }

  /** The number of transactions stamped within [lo, hi]. */
  function CountBetween(txs: seq<Tx>, lo: int, hi: int): (r: nat)
    decreases |txs|
  {
    if |txs| == 0 then 0
    else CountBetween(txs[..|txs| - 1], lo, hi) + (if Within(txs[|txs| - 1], lo, hi) then 1 else 0)
  }

  /** When exactly the positions `a..b-1` are within [lo, hi], there are `b - a` of them. */
  lemma {:induction false} CountRange(txs: seq<Tx>, lo: int, hi: int, a: nat, b: nat)
    requires a <= b <= |txs|
    requires forall p :: 0 <= p < |txs| ==> (Within(txs[p], lo, hi) <==> a <= p < b)
    ensures CountBetween(txs, lo, hi) == b - a
    decreases |txs|
  {
    if |txs| > 0 {
      var m := |txs| - 1;
      var t' := txs[..m];
      var a', b' := if a < m then a else m, if b < m then b else m;
      assert forall p :: 0 <= p < m ==> t'[p] == txs[p];
      CountRange(t', lo, hi, a', b');
    }
  }

  /** The last position whose timestamp equals that of `j`. */
  function LastSame(txs: seq<Tx>, j: nat): (e: nat)
    requires j < |txs|
    ensures j <= e < |txs|
    ensures forall q :: j <= q <= e ==> txs[q].ts == txs[j].ts
    ensures e + 1 < |txs| ==> txs[e + 1].ts != txs[j].ts
    decreases |txs| - j
  {
    if j + 1 < |txs| && txs[j + 1].ts == txs[j].ts then LastSame(txs, j + 1) else j
  }

  /**
   * On a sorted, fully stamped list the window of the last transaction stamped like
   * `j` holds exactly the transactions stamped within `win` before `j`.
   */
  lemma WindowAt(txs: seq<Tx>, win: int, j: nat)
    requires SortedByKey(txs) && AllTimed(txs) && win >= 0 && j < |txs|
    ensures WindowStart(txs, LastSame(txs, j), win) == WindowStart(txs, j, win)
    ensures CountBetween(txs, txs[j].ts.value - win, txs[j].ts.value) == WindowSize(txs, LastSame(txs, j), win)
  {
    var t := txs[j].ts.value;
    var e := LastSame(txs, j);
    var s := WindowStart(txs, j, win);
    assert Key(txs[j]) == t && Key(txs[e]) == t;
    forall q | 0 <= q < s ensures Evicts(txs, q, e, win) {
      assert Evicts(txs, q, j, win);
    }
    if s < j {
      assert !Evicts(txs, s, j, win);
    }
    StartIsUnique(txs, e, win, s);
    forall p | 0 <= p < |txs| ensures Within(txs[p], t - win, t) <==> s <= p < e + 1 {
      assert Key(txs[p]) == txs[p].ts.value;
      if p < s {
        assert Evicts(txs, p, j, win);
      } else if p <= e {
        assert Key(txs[s]) <= Key(txs[p]) <= Key(txs[e]);
      } else {
        assert Key(txs[e]) <= Key(txs[e + 1]) <= Key(txs[p]);
      }
    }
    CountRange(txs, t - win, t, s, e + 1);
  }

  /**
   * On a sorted, fully stamped list the scan's result is the largest number of
   * transactions stamped within `win` before (and including) some transaction.
   */
  lemma BusiestWindow(txs: seq<Tx>, win: int)
    requires SortedByKey(txs) && AllTimed(txs) && win >= 0
    ensures forall j :: 0 <= j < |txs| ==>
      CountBetween(txs, txs[j].ts.value - win, txs[j].ts.value) <= MaxWindowCount(txs, win, |txs|)
    ensures |txs| > 0 ==>
      exists j :: 0 <= j < |txs| && MaxWindowCount(txs, win, |txs|) == CountBetween(txs, txs[j].ts.value - win, txs[j].ts.value)
  {
    var r := MaxWindowCount(txs, win, |txs|);
    MaxWindowCountIsMax(txs, win, |txs|);
    forall j | 0 <= j < |txs| ensures CountBetween(txs, txs[j].ts.value - win, txs[j].ts.value) <= r {
      WindowAt(txs, win, j);
    }
    if |txs| > 0 {
      assert WindowSize(txs, 0, win) <= r;
      var j :| 0 <= j < |txs| && txs[j].ts.Some? && r == WindowSize(txs, j, win);
      WindowAt(txs, win, j);
    }
  }

  // ---------------------------------------------------------------------------
  // Near-threshold cash deposits
  // ---------------------------------------------------------------------------

  /** A cash deposit (channel compared ignoring case) of at least 9000 and below 10000. */
  predicate IsNear10k(t: Tx) {
    EqualsIgnoreCase("cash_deposit", t.channel) && 9000.0 <= t.amt < 10000.0
  }

  /** The number of near-threshold cash deposits, stamped or not. */
  function Near10kCount(txs: seq<Tx>): (r: nat)
    ensures r <= |txs|
    decreases |txs|
  {
    if |txs| == 0 then 0
    else (if IsNear10k(txs[0]) then 1 else 0) + Near10kCount(txs[1..])
  }

  /** The stream filter of `countNear10kInWindow`: the stamped near-threshold cash deposits, in order. */
  function TimedNear10k(txs: seq<Tx>): (r: seq<Tx>)
    ensures |r| <= Near10kCount(txs)
    ensures forall t :: t in r <==> t in txs && IsNear10k(t) && t.ts.Some?
    ensures forall t :: multiset(r)[t] == (if IsNear10k(t) && t.ts.Some? then multiset(txs)[t] else 0)
    decreases |txs|
  {
    if |txs| == 0 then []
    else
      assert txs == [txs[0]] + txs[1..];
      (if IsNear10k(txs[0]) && txs[0].ts.Some? then [txs[0]] else []) + TimedNear10k(txs[1..])
  }

  /** `near` after `near.sort(Comparator.comparing(x -> x.ts))`. */
  function NearSorted(txs: seq<Tx>): (r: seq<Tx>)
    ensures SortedByKey(r) && AllTimed(r) && |r| <= Near10kCount(txs)
    ensures multiset(r) == multiset(TimedNear10k(txs))
    ensures forall k :: WithKey(r, k) == WithKey(TimedNear10k(txs), k)
  {
    var near := TimedNear10k(txs);
    var r := SortByKey(near);
    assert forall k :: 0 <= k < |r| ==> r[k] in near by {
      forall k | 0 <= k < |r| ensures r[k] in near {
        assert r[k] in multiset(r);
      }
    }
    r
  }

  /**
   * `countNear10kInWindow`: the two-pointer scan over the stamped near-threshold
   * deposits. It never exceeds the plain near-threshold count, so a structuring
   * pattern is always also threshold skirting.
   */
  method CountNear10kInWindow(txs: seq<Tx>, win: int) returns (best: int)
    ensures best == MaxWindowCount(NearSorted(txs), win, |NearSorted(txs)|)
    ensures best <= Near10kCount(txs)
  {
    var near := NearSorted(txs);
    best := ScanStamped(near, win);
  }

  /** The scan of `countNear10kInWindow` over its sorted, stamped `near` list. */
  method ScanStamped(near: seq<Tx>, win: int) returns (best: int)
    requires SortedByKey(near) && AllTimed(near)
    ensures best == MaxWindowCount(near, win, |near|)
  {
    var n := |near|;
    best := 0;
    var i := 0;
    ghost var last := 0;
    for j := 0 to n
      invariant PointerBehind(near, i, last, j, win)
      invariant best == MaxWindowCount(near, win, j)
    {
      var end := near[j].ts.value;
      EvictedStayEvicted(near, i, last, j, win);
      while i < j && end - near[i].ts.value > win
        invariant i <= j
        invariant forall p :: 0 <= p < i ==> Evicts(near, p, j, win)
      {
        i := i + 1;
      }
      PointerSettled(near, i, j, win);
      last := j;
      best := Max(best, j - i + 1);
    }
  }

  /**
   * With all deposits stamped into `near`, a structuring pattern is some deposit
   * with at least three deposits (itself included) stamped within the window before it.
   */
  lemma StructuringMeans(txs: seq<Tx>, win: int)
    requires win >= 0
    ensures var near := NearSorted(txs);
      MaxWindowCount(near, win, |near|) >= 3 <==>
      exists j :: 0 <= j < |near| && CountBetween(near, near[j].ts.value - win, near[j].ts.value) >= 3
  {
    BusiestWindow(NearSorted(txs), win);
  }

  // ---------------------------------------------------------------------------
  // Distinct devices
  // ---------------------------------------------------------------------------

  /** A stamped transaction with a non-blank device: what the device map counts. */
  predicate Tracked(t: Tx) {
    t.ts.Some? && t.device.Some? && !IsBlank(t.device.value)
  }

  /** The distinct devices of the tracked transactions at positions `lo..hi-1`. */
  function DevicesIn(txs: seq<Tx>, lo: nat, hi: nat): set<string>
    requires lo <= hi <= |txs|
  {
    set p | lo <= p < hi && Tracked(txs[p]) :: txs[p].device.value
  }

  /** How many tracked transactions at positions `lo..hi-1` used device `d`. */
  function Uses(txs: seq<Tx>, lo: nat, hi: nat, d: string): nat
    requires lo <= hi <= |txs|
    decreases hi - lo
  {
    if lo == hi then 0
    else (if Tracked(txs[lo]) && txs[lo].device.value == d then 1 else 0) + Uses(txs, lo + 1, hi, d)
  }

  lemma {:induction false} UsesExtend(txs: seq<Tx>, lo: nat, hi: nat, d: string)
    requires lo <= hi < |txs|
    ensures Uses(txs, lo, hi + 1, d) == Uses(txs, lo, hi, d) + (if Tracked(txs[hi]) && txs[hi].device.value == d then 1 else 0)
    decreases hi - lo
  {
    if lo < hi {
      UsesExtend(txs, lo + 1, hi, d);
    }
  }

  /** A device is in use in a range exactly when it is one of the range's distinct devices. */
  lemma {:induction false} UsesPositive(txs: seq<Tx>, lo: nat, hi: nat, d: string)
    requires lo <= hi <= |txs|
    ensures Uses(txs, lo, hi, d) > 0 <==> d in DevicesIn(txs, lo, hi)
    decreases hi - lo
  {
    if lo < hi {
      UsesPositive(txs, lo + 1, hi, d);
      if Tracked(txs[lo]) && txs[lo].device.value == d {
        assert d in DevicesIn(txs, lo, hi);
      } else if d in DevicesIn(txs, lo, hi) {
        var p :| lo <= p < hi && Tracked(txs[p]) && txs[p].device.value == d;
        assert d in DevicesIn(txs, lo + 1, hi);
      }
    }
  }

  /** `Map.merge(key, delta, Integer::sum)`: `delta` for a missing key, else the sum. */
  function Merge(freq: map<string, int>, key: string, delta: int): (r: map<string, int>)
    ensures r.Keys == freq.Keys + {key}
    ensures key in freq ==> r[key] == freq[key] + delta
    ensures key !in freq ==> r[key] == delta
    ensures forall k :: k in freq && k != key ==> r[k] == freq[k]
  {
    freq[key := if key in freq then freq[key] + delta else delta]
  }

  /**
   * The largest number of distinct devices over the windows of the stamped end
   * positions before `m`, or 0 when there is none.
   */
  function MaxDistinctDevices(txs: seq<Tx>, win: int, m: nat): nat
    requires m <= |txs|
    decreases m
  {
    if m == 0 then 0
    else
      var b := MaxDistinctDevices(txs, win, m - 1);
      if txs[m - 1].ts.None? then b else Max(b, |DevicesIn(txs, WindowStart(txs, m - 1, win), m)|)
  }

  /** `MaxDistinctDevices` bounds the device count of every window and is attained by one. */
  lemma {:induction false} MaxDistinctDevicesIsMax(txs: seq<Tx>, win: int, m: nat)
    requires m <= |txs|
    ensures forall j :: 0 <= j < m && txs[j].ts.Some? ==>
      |DevicesIn(txs, WindowStart(txs, j, win), j + 1)| <= MaxDistinctDevices(txs, win, m)
    ensures MaxDistinctDevices(txs, win, m) > 0 ==>
      exists j :: 0 <= j < m && txs[j].ts.Some? && MaxDistinctDevices(txs, win, m) == |DevicesIn(txs, WindowStart(txs, j, win), j + 1)|
    decreases m
  {
    if m > 0 {
      MaxDistinctDevicesIsMax(txs, win, m - 1);
    }
  }

  /** One more stamped end position: its window's device count joins the maximum. */
  lemma DevicesStep(txs: seq<Tx>, win: int, j: nat)
    requires j < |txs| && txs[j].ts.Some?
    ensures MaxDistinctDevices(txs, win, j + 1) == Max(MaxDistinctDevices(txs, win, j), |DevicesIn(txs, WindowStart(txs, j, win), j + 1)|)
  {
  }

  lemma SubsetSize(a: set<string>, b: set<string>)
    requires a <= b
    ensures |a| <= |b|
    decreases a
  {
    if a != {} {
      var x :| x in a;
      SubsetSize(a - {x}, b - {x});
    }
  }

  /** No window holds more distinct devices than the whole list. */
  lemma DevicesBound(txs: seq<Tx>, win: int)
    ensures MaxDistinctDevices(txs, win, |txs|) <= |DevicesIn(txs, 0, |txs|)|
  {
    var r := MaxDistinctDevices(txs, win, |txs|);
    MaxDistinctDevicesIsMax(txs, win, |txs|);
    if r > 0 {
      var j :| 0 <= j < |txs| && txs[j].ts.Some? && r == |DevicesIn(txs, WindowStart(txs, j, win), j + 1)|;
      SubsetSize(DevicesIn(txs, WindowStart(txs, j, win), j + 1), DevicesIn(txs, 0, |txs|));
    }
  }

  /** `freq` holds, for each device in use at positions `lo..hi-1`, how often it is used there, and nothing else. */
  ghost predicate Counts(freq: map<string, int>, txs: seq<Tx>, lo: nat, hi: nat)
    requires lo <= hi <= |txs|
  {
    && (forall d :: d in freq <==> Uses(txs, lo, hi, d) > 0)
    && (forall d :: d in freq ==> freq[d] == Uses(txs, lo, hi, d))
  }

  /** The keys of a counting map are the distinct devices of its range. */
  lemma CountsKeys(freq: map<string, int>, txs: seq<Tx>, lo: nat, hi: nat)
    requires lo <= hi <= |txs| && Counts(freq, txs, lo, hi)
    ensures freq.Keys == DevicesIn(txs, lo, hi)
  {
    forall d ensures d in freq <==> d in DevicesIn(txs, lo, hi) {
      UsesPositive(txs, lo, hi, d);
    }
  }

  /** Taking in position `hi`: its device, when it is tracked, is merged in with 1. */
  lemma CountsAdd(freq: map<string, int>, txs: seq<Tx>, lo: nat, hi: nat)
    requires lo <= hi < |txs| && Counts(freq, txs, lo, hi)
    ensures Tracked(txs[hi]) ==> Counts(Merge(freq, txs[hi].device.value, 1), txs, lo, hi + 1)
    ensures !Tracked(txs[hi]) ==> Counts(freq, txs, lo, hi + 1)
  {
    forall d ensures Uses(txs, lo, hi + 1, d) == Uses(txs, lo, hi, d) + (if Tracked(txs[hi]) && txs[hi].device.value == d then 1 else 0) {
      UsesExtend(txs, lo, hi, d);
    }
  }

  /**
   * Letting go of position `lo`: the device of a tracked one is merged in with -1
   * and removed once its count is no longer positive.
   */
  lemma CountsDrop(freq: map<string, int>, txs: seq<Tx>, lo: nat, hi: nat)
    requires lo < hi <= |txs| && Counts(freq, txs, lo, hi)
    ensures Tracked(txs[lo]) ==>
      var d := txs[lo].device.value;
      var f := Merge(freq, d, -1);
      Counts(if d in f && f[d] <= 0 then f - {d} else f, txs, lo + 1, hi)
    ensures !Tracked(txs[lo]) ==> Counts(freq, txs, lo + 1, hi)
  {
  }

  /**
   * The inner loop of `distinctDevicesInWindow` for the stamped end at `j`: the
   * left index moves past the evicted positions, taking their devices out of `freq`.
   * It stops at `WindowStart(j)`, with `freq` counting the devices of that window.
   */
  method ReleaseExpired(txs: seq<Tx>, win: int, j: nat, i0: nat, freq0: map<string, int>) returns (i: nat, freq: map<string, int>)
    requires j < |txs| && txs[j].ts.Some? && i0 <= j
    requires forall p :: 0 <= p < i0 ==> Evicts(txs, p, j, win)
    requires Counts(freq0, txs, i0, j + 1)
    ensures i == WindowStart(txs, j, win) && PointerBehind(txs, i, j, j + 1, win)
    ensures Counts(freq, txs, i, j + 1)
    ensures freq.Keys == DevicesIn(txs, i, j + 1)
  {
    i, freq := i0, freq0;
    var end := txs[j].ts.value;
    while i < j && txs[i].ts.Some? && end - txs[i].ts.value > win
      invariant i0 <= i <= j
      invariant forall p :: 0 <= p < i ==> Evicts(txs, p, j, win)
      invariant Counts(freq, txs, i, j + 1)
    {
      CountsDrop(freq, txs, i, j + 1);
      var dev := txs[i].device;
      if dev.Some? && !IsBlank(dev.value) {
        freq := Merge(freq, dev.value, -1);
        if dev.value in freq && freq[dev.value] <= 0 {
          freq := freq - {dev.value};
        }
      }
      i := i + 1;
    }
    PointerSettled(txs, i, j, win);
    CountsKeys(freq, txs, i, j + 1);
  }

  /**
   * `distinctDevicesInWindow`: the same scan as `maxTransactionsInWindow`, keeping
   * in `freq` how often each non-blank device occurs in the window. Every count in
   * `freq` is positive and its keys are exactly the window's distinct devices.
   */
  method DistinctDevicesInWindow(txs: seq<Tx>, win: int) returns (best: int)
    requires SortedByKey(txs)
    ensures best == MaxDistinctDevices(txs, win, |txs|)
    ensures best <= |DevicesIn(txs, 0, |txs|)|
  {
    var n := |txs|;
    best := 0;
    var i := 0;
    var freq: map<string, int> := map[];
    ghost var last := 0;
    for j := 0 to n
      invariant PointerBehind(txs, i, last, j, win)
      invariant best == MaxDistinctDevices(txs, win, j)
      invariant Counts(freq, txs, i, j)
    {
      var cur := txs[j];
      var end := cur.ts;
      if end.None? {
        CountsAdd(freq, txs, i, j);
        continue;
      }
      CountsAdd(freq, txs, i, j);
      assert Tracked(cur) == (cur.device.Some? && !IsBlank(cur.device.value));
      if cur.device.Some? && !IsBlank(cur.device.value) {
        freq := Merge(freq, cur.device.value, 1);
      }
      assert Counts(freq, txs, i, j + 1);
      EvictedStayEvicted(txs, i, last, j, win);
      i, freq := ReleaseExpired(txs, win, j, i, freq);
      DevicesStep(txs, win, j);
      last := j;
      best := Max(best, |freq.Keys|);
    }
    DevicesBound(txs, win);
  }

  // ---------------------------------------------------------------------------
  // Geo risk and the signal list
  // ---------------------------------------------------------------------------

  const HighRiskCountries: set<string> := {"IR", "KP", "SY", "RU", "BY", "AF", "YE"}

  /** An outbound wire (channel compared ignoring case) to a high-risk country (compared upper-cased). */
  predicate IsGeoRisk(t: Tx) {
    EqualsIgnoreCase("wire_out", t.channel) && t.country.Some? && ToUpper(t.country.value) in HighRiskCountries
  }

  predicate HasGeoRisk(txs: seq<Tx>) {
    exists k :: 0 <= k < |txs| && IsGeoRisk(txs[k])
  }

  /** The geo test looks at each transaction alone, so sorting the list does not change it. */
  lemma GeoRiskIgnoresOrder(a: seq<Tx>, b: seq<Tx>)
    requires multiset(a) == multiset(b)
    ensures HasGeoRisk(a) <==> HasGeoRisk(b)
  {
    forall x, y: seq<Tx> | multiset(x) == multiset(y) && HasGeoRisk(x) ensures HasGeoRisk(y) {
      var k :| 0 <= k < |x| && IsGeoRisk(x[k]);
      assert x[k] in multiset(y);
      var j :| 0 <= j < |y| && y[j] == x[k];
    }
  }

  /** Upper-casing the channel and the country does not change the geo test. */
  lemma GeoRiskIgnoresCase(t: Tx)
    requires t.channel.Some? && t.country.Some?
    ensures IsGeoRisk(t) <==>
      IsGeoRisk(t.(channel := Some(ToUpper(t.channel.value)), country := Some(ToUpper(t.country.value))))
  {
    var c := t.country.value;
    assert ToUpper(ToUpper(c)) == ToUpper(c);
  }

  datatype Signal = ThresholdSkirting | VelocitySpike | StructuringPattern | GeoRisk | DeviceHopping {
    /** The label the agent reports. */
    function Name(): string {
      match this
      case ThresholdSkirting => "THRESHOLD_SKIRTING"
      case VelocitySpike => "VELOCITY_SPIKE"
      case StructuringPattern => "STRUCTURING_PATTERN"
      case GeoRisk => "GEO_RISK"
      case DeviceHopping => "DEVICE_HOPPING"
    }

    /** The position of the signal's test in `analyzeTransactions`. */
    function Rank(): nat {
      match this
      case ThresholdSkirting => 0
      case VelocitySpike => 1
      case StructuringPattern => 2
      case GeoRisk => 3
      case DeviceHopping => 4
    }
  }

  /** Signals listed in the order of their tests, so none twice. */
  predicate InSignalOrder(signals: seq<Signal>) {
    forall a, b :: 0 <= a < b < |signals| ==> signals[a].Rank() < signals[b].Rank()
  }

  /** Every signal listed has a rank below `k`. */
  predicate RanksBelow(signals: seq<Signal>, k: nat) {
    forall x :: x in signals ==> x.Rank() < k
  }

  /** Appending a signal of a higher rank keeps the list in order. */
  lemma Push(signals: seq<Signal>, x: Signal)
    requires InSignalOrder(signals) && RanksBelow(signals, x.Rank())
    ensures InSignalOrder(signals + [x]) && RanksBelow(signals + [x], x.Rank() + 1)
    ensures forall y :: y in signals + [x] <==> y in signals || y == x
  {
  }

  /** The converted records, in input order, of a decoded array without null elements. */
  function Converted(conv: Conversions, recs: seq<Option<Record>>): seq<Tx> {
    seq(|recs|, k requires 0 <= k < |recs| => ConvertRecord(conv, recs[k].GetOr(map[])))
  }

  /**
   * The sorted transactions `analyzeTransactions` runs its tests on, or `None`
   * where it returns the empty list first: a null or blank argument, text the
   * decoder rejects, an empty array, or a null element (whose NullPointerException
   * the method's catch swallows).
   */
  function Prepared(json: Option<string>, decode: string -> Option<seq<Option<Record>>>, conv: Conversions): (r: Option<seq<Tx>>)
    ensures json.None? || IsBlank(json.value) ==> r.None?
    ensures r.Some? <==>
      && json.Some? && !IsBlank(json.value) && decode(json.value).Some?
      && |decode(json.value).value| > 0
      && forall k :: 0 <= k < |decode(json.value).value| ==> decode(json.value).value[k].Some?
    ensures r.Some? ==> 0 < |r.value| && SortedByKey(r.value)
    ensures r.Some? ==>
      && multiset(r.value) == multiset(Converted(conv, decode(json.value).value))
      && forall key :: WithKey(r.value, key) == WithKey(Converted(conv, decode(json.value).value), key)
  {
    if json.None? || IsBlank(json.value) then None
    else
      match decode(json.value)
      case None => None
      case Some(recs) =>
        if |recs| == 0 || exists k :: 0 <= k < |recs| && recs[k].None? then None
        else Some(SortByKey(Converted(conv, recs)))
  }

  /** Each signal is reported exactly when its test holds on `parsed`. */
  predicate ReportsExactly(signals: seq<Signal>, parsed: seq<Tx>) {
    var near := NearSorted(parsed);
    && (ThresholdSkirting in signals <==> Near10kCount(parsed) >= 3)
    && (VelocitySpike in signals <==> MaxWindowCount(parsed, VelocityWindow, |parsed|) >= 5)
    && (StructuringPattern in signals <==> MaxWindowCount(near, StructuringWindow, |near|) >= 3)
    && (GeoRisk in signals <==> HasGeoRisk(parsed))
    && (DeviceHopping in signals <==> MaxDistinctDevices(parsed, DeviceWindow, |parsed|) >= 3)
  }

  /** The five tests of `analyzeTransactions` on the sorted transactions, appending a signal each. */
  method RunHeuristics(parsed: seq<Tx>) returns (signals: seq<Signal>)
    requires SortedByKey(parsed)
    ensures ThresholdSkirting in signals <==> Near10kCount(parsed) >= 3
    ensures VelocitySpike in signals <==> MaxWindowCount(parsed, VelocityWindow, |parsed|) >= 5
    ensures StructuringPattern in signals <==> MaxWindowCount(NearSorted(parsed), StructuringWindow, |NearSorted(parsed)|) >= 3
    ensures GeoRisk in signals <==> HasGeoRisk(parsed)
    ensures DeviceHopping in signals <==> MaxDistinctDevices(parsed, DeviceWindow, |parsed|) >= 3
    ensures InSignalOrder(signals)
    ensures StructuringPattern in signals ==> ThresholdSkirting in signals
  {
    signals := [];
    var near10k := Near10kCount(parsed);
    if near10k >= 3 {
      Push(signals, ThresholdSkirting);
      signals := signals + [ThresholdSkirting];
    }
    assert InSignalOrder(signals) && RanksBelow(signals, 1) && (ThresholdSkirting in signals <==> near10k >= 3);
    var maxIn24h := MaxTransactionsInWindow(parsed, VelocityWindow);
    if maxIn24h >= 5 {
      Push(signals, VelocitySpike);
      signals := signals + [VelocitySpike];
    }
    assert InSignalOrder(signals) && RanksBelow(signals, 2) && (ThresholdSkirting in signals <==> near10k >= 3)
      && (VelocitySpike in signals <==> maxIn24h >= 5);
    var structuring := CountNear10kInWindow(parsed, StructuringWindow);
    if structuring >= 3 {
      Push(signals, StructuringPattern);
      signals := signals + [StructuringPattern];
    }
    assert InSignalOrder(signals) && RanksBelow(signals, 3) && (ThresholdSkirting in signals <==> near10k >= 3)
      && (VelocitySpike in signals <==> maxIn24h >= 5) && (StructuringPattern in signals <==> structuring >= 3);
    if HasGeoRisk(parsed) {
      Push(signals, GeoRisk);
      signals := signals + [GeoRisk];
    }
    assert InSignalOrder(signals) && RanksBelow(signals, 4) && (ThresholdSkirting in signals <==> near10k >= 3)
      && (VelocitySpike in signals <==> maxIn24h >= 5) && (StructuringPattern in signals <==> structuring >= 3)
      && (GeoRisk in signals <==> HasGeoRisk(parsed));
    var devices := DistinctDevicesInWindow(parsed, DeviceWindow);
    if devices >= 3 {
      Push(signals, DeviceHopping);
      signals := signals + [DeviceHopping];
    }
  }

  /**
   * `analyzeTransactions` without its JSON decoding, which `decode` stands for
   * (`None` where Jackson throws or yields null): the empty list where the method
   * returns early, else the signals whose tests hold, in the order of the tests.
   */
  method AnalyzeTransactions(json: Option<string>, decode: string -> Option<seq<Option<Record>>>, conv: Conversions)
    returns (signals: seq<Signal>)
    ensures Prepared(json, decode, conv).None? ==> signals == []
    ensures Prepared(json, decode, conv).Some? ==> ReportsExactly(signals, Prepared(json, decode, conv).value)
    ensures InSignalOrder(signals)
    ensures StructuringPattern in signals ==> ThresholdSkirting in signals
  {
    signals := [];
    if json.None? || IsBlank(json.value) {
      return;
    }
    var decoded := decode(json.value);
    if decoded.None? {
      return;
    }
    var txs := decoded.value;
    if |txs| == 0 {
      return;
    }
    var converted := ConvertRecords(conv, txs);
    if converted.None? {
      return;
    }
    assert converted.value == Converted(conv, txs);
    var parsed := SortByKey(converted.value);
    signals := RunHeuristics(parsed);
  }
}
