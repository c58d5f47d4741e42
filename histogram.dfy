/**
  Tempo resolution (`calculateBPM`): each kept interval is rounded to tenths
  of a second and counted in a plain object used as a dictionary; the key
  with the highest count, in the order the object enumerates its keys, gives
  the tempo as 60 / interval.

  Rounding: `Math.round(x * 10)` rounds halves upward, so the rounded key is
  t = Floor(10 * x + 1/2) tenths, and 60 / (t / 10) = 600 / t.

  Key order: a JavaScript object lists its own keys that are array indices
  (canonical numeric strings of integers from 0 to 2^32 - 2) first, in
  ascending numeric order, and all other string keys after them in the order
  they were created (OrdinaryOwnPropertyKeys, section 10.1.11.1 of ECMA-262,
  2023 edition). Key t / 10 is an array index exactly when t is a
  non-negative multiple of 10 with t / 10 at most 2^32 - 2.

  Tie-break: the `reduce` keeps its accumulator only when its count is
  strictly greater, so of the keys with the highest count the LAST in
  enumeration order wins.
 */
module TempoHistogram {
  import opened Sequences
  import opened Intervals

  const DefaultBpm: real := 120.0
  const MaxArrayIndex: int := 4294967294

  /** `Math.round(x * 10)`: the interval in tenths of a second, halves rounded up. */
  function Tenths(x: real): (t: int)
    ensures t as real <= 10.0 * x + 0.5 < t as real + 1.0
  {
    (10.0 * x + 0.5).Floor
  }

  /** A plausible interval rounds to between 1 and 40 tenths. */
  lemma PlausibleTenths(x: real)
    requires Plausible(x)
    ensures 1 <= Tenths(x) <= 40
  {
    var y := 10.0 * x + 0.5;
    assert 1.5 < y < 40.5;
    assert (y.Floor as real) <= y < (y.Floor as real) + 1.0;
  }

  /** The dictionary key of t tenths, written as a string, is an array index. */
  predicate IsIndexKey(t: int)
  {
    0 <= t && t % 10 == 0 && t / 10 <= MaxArrayIndex
  }

  /** Every other key: enumerated after the index keys, in creation order. */
  predicate IsOrdinaryKey(t: int)
  {
    !IsIndexKey(t)
  }

  /** The rounded key of each interval, in order. */
  function RoundedKeys(intervals: seq<real>): (ts: seq<int>)
    ensures |ts| == |intervals|
  {
    seq(|intervals|, i requires 0 <= i < |intervals| => Tenths(intervals[i]))
  }

  /** The counts dictionary after counting `ts` one by one (`(counts[r] || 0) + 1`). */
  function Histogram(ts: seq<int>): (h: map<int, nat>)
    ensures forall t :: t in h <==> t in ts
    decreases |ts|
  {
    if |ts| == 0 then map[]
    else
      var init := ts[..|ts| - 1];
      var t := ts[|ts| - 1];
      assert ts == init + [t];
      var h := Histogram(init);
      h[t := (if t in h then h[t] else 0) + 1]
  }

  /** Each key of the counts dictionary maps to its number of occurrences. */
  lemma {:induction false} HistogramCounts(ts: seq<int>)
    ensures forall t :: t in Histogram(ts) ==> Histogram(ts)[t] == multiset(ts)[t]
    decreases |ts|
  {
    if |ts| > 0 {
      var init := ts[..|ts| - 1];
      assert ts == init + [ts[|ts| - 1]];
      HistogramCounts(init);
    }
  }

  /** Counting one more key bumps its entry, or creates it at 1. */
  lemma HistogramSnoc(init: seq<int>, t: int)
    ensures Histogram(init + [t]) == Histogram(init)[t := (if t in Histogram(init) then Histogram(init)[t] else 0) + 1]
  {
    assert (init + [t])[..|init|] == init;
  }

  /** The order in which counting `ts` creates the dictionary's keys: each key once, at its first occurrence. */
  function InsertionOrder(ts: seq<int>): (o: seq<int>)
    ensures forall t :: t in o <==> t in ts
    ensures forall t :: multiset(o)[t] <= 1
    decreases |ts|
  {
    if |ts| == 0 then []
    else
      var init := ts[..|ts| - 1];
      var t := ts[|ts| - 1];
      assert ts == init + [t];
      var o := InsertionOrder(init);
      if t in o then o else o + [t]
  }

  /** Counting one more key appends it to the creation order exactly when it is new. */
  lemma InsertionOrderSnoc(init: seq<int>, t: int)
    ensures InsertionOrder(init + [t]) == if t in InsertionOrder(init) then InsertionOrder(init) else InsertionOrder(init) + [t]
  {
    assert (init + [t])[..|init|] == init;
  }

  /** One step of the counting loop: the dictionary has the key exactly when the creation order has it. */
  lemma CountStep(init: seq<int>, t: int)
    ensures (t in Histogram(init)) == (t in InsertionOrder(init))
    ensures Histogram(init + [t]) == Histogram(init)[t := (if t in Histogram(init) then Histogram(init)[t] else 0) + 1]
    ensures InsertionOrder(init + [t]) == if t in InsertionOrder(init) then InsertionOrder(init) else InsertionOrder(init) + [t]
  {
    HistogramSnoc(init, t);
    InsertionOrderSnoc(init, t);
  }

  /** Non-decreasing. */
  predicate Ascending(s: seq<int>)
  {
    forall i, j :: 0 <= i < j < |s| ==> s[i] <= s[j]
  }

  /** Inserts x into an ascending sequence, keeping it ascending. */
  function InsertAscending(x: int, s: seq<int>): (r: seq<int>)
    requires Ascending(s)
    ensures Ascending(r)
    ensures multiset(r) == multiset(s) + multiset{x}
    decreases |s|
  {
    if |s| == 0 || x <= s[0] then
      ConsAscending(x, s);
      [x] + s
    else
      assert s == [s[0]] + s[1..];
      var rest := InsertAscending(x, s[1..]);
      BoundedByHead(s, x, rest);
      ConsAscending(s[0], rest);
      [s[0]] + rest
  }

  /** Every element of `rest`, made of x and the tail of s, is at least the head of s. */
  lemma BoundedByHead(s: seq<int>, x: int, rest: seq<int>)
    requires Ascending(s) && |s| > 0 && s[0] < x
    requires multiset(rest) == multiset(s[1..]) + multiset{x}
    ensures forall k :: 0 <= k < |rest| ==> s[0] <= rest[k]
  {
    forall k | 0 <= k < |rest|
      ensures s[0] <= rest[k]
    {
      var y := rest[k];
      assert y in multiset(rest);
      if y != x {
        assert y in multiset(s[1..]);
        var i :| 0 <= i < |s[1..]| && s[1..][i] == y;
        assert s[i + 1] == y;
      }
    }
  }

  /** Prefixing an ascending sequence with a lower bound of its elements keeps it ascending. */
  lemma ConsAscending(a: int, rest: seq<int>)
    requires Ascending(rest)
    requires forall k :: 0 <= k < |rest| ==> a <= rest[k]
    ensures Ascending([a] + rest)
  {
    var r := [a] + rest;
    forall i, j | 0 <= i < j < |r|
      ensures r[i] <= r[j]
    {
      assert r[j] == rest[j - 1];
      if i > 0 {
        assert r[i] == rest[i - 1];
      }
    }
  }

  /** The keys sorted in ascending numeric order. */
  function SortAscending(s: seq<int>): (r: seq<int>)
    ensures Ascending(r)
    ensures multiset(r) == multiset(s)
    decreases |s|
  {
    if |s| == 0 then []
    else
      assert s == [s[0]] + s[1..];
      InsertAscending(s[0], SortAscending(s[1..]))
  }

  /**
    `Object.keys` of a dictionary whose keys were created in `order`: the index
    keys first, ascending; then the other keys in creation order.
   */
  function OwnKeys(order: seq<int>): (keys: seq<int>)
    ensures multiset(keys) == multiset(order)
    ensures forall i, j :: 0 <= i < j < |keys| && IsIndexKey(keys[j]) ==> IsIndexKey(keys[i]) && keys[i] <= keys[j]
    ensures Filter(keys, IsOrdinaryKey) == Filter(order, IsOrdinaryKey)
  {
    var indexKeys := SortAscending(Filter(order, IsIndexKey));
    var ordinaryKeys := Filter(order, IsOrdinaryKey);
    FilterPartition(order, IsIndexKey, IsOrdinaryKey);
    SortedIndexKeysFirst(indexKeys, ordinaryKeys, order);
    OrdinaryKeysKeepOrder(indexKeys, ordinaryKeys, order);
    indexKeys + ordinaryKeys
  }

  lemma SortedIndexKeysAreIndexKeys(indexKeys: seq<int>, order: seq<int>)
    requires indexKeys == SortAscending(Filter(order, IsIndexKey))
    ensures forall x :: x in indexKeys ==> IsIndexKey(x)
  {
    forall x | x in indexKeys
      ensures IsIndexKey(x)
    {
      assert x in multiset(Filter(order, IsIndexKey));
    }
  }

  lemma FilteredKeysAreOrdinary(ordinaryKeys: seq<int>, order: seq<int>)
    requires ordinaryKeys == Filter(order, IsOrdinaryKey)
    ensures forall k :: 0 <= k < |ordinaryKeys| ==> !IsIndexKey(ordinaryKeys[k])
  {
    forall k | 0 <= k < |ordinaryKeys|
      ensures !IsIndexKey(ordinaryKeys[k])
    {
      assert ordinaryKeys[k] in ordinaryKeys;
    }
  }

  lemma SortedIndexKeysFirst(indexKeys: seq<int>, ordinaryKeys: seq<int>, order: seq<int>)
    requires indexKeys == SortAscending(Filter(order, IsIndexKey))
    requires ordinaryKeys == Filter(order, IsOrdinaryKey)
    ensures forall i, j :: 0 <= i < j < |indexKeys + ordinaryKeys| && IsIndexKey((indexKeys + ordinaryKeys)[j]) ==>
      IsIndexKey((indexKeys + ordinaryKeys)[i]) && (indexKeys + ordinaryKeys)[i] <= (indexKeys + ordinaryKeys)[j]
  {
    var keys := indexKeys + ordinaryKeys;
    SortedIndexKeysAreIndexKeys(indexKeys, order);
    FilteredKeysAreOrdinary(ordinaryKeys, order);
    assert Ascending(indexKeys);
    forall i, j | 0 <= i < j < |keys| && IsIndexKey(keys[j])
      ensures IsIndexKey(keys[i]) && keys[i] <= keys[j]
    {
      assert j < |indexKeys|;
      assert keys[i] == indexKeys[i] && keys[j] == indexKeys[j];
      assert indexKeys[i] in indexKeys;
    }
  }

  lemma OrdinaryKeysKeepOrder(indexKeys: seq<int>, ordinaryKeys: seq<int>, order: seq<int>)
    requires indexKeys == SortAscending(Filter(order, IsIndexKey))
    requires ordinaryKeys == Filter(order, IsOrdinaryKey)
    ensures Filter(indexKeys + ordinaryKeys, IsOrdinaryKey) == Filter(order, IsOrdinaryKey)
  {
    SortedIndexKeysAreIndexKeys(indexKeys, order);
    FilterAppend(indexKeys, ordinaryKeys, IsOrdinaryKey);
    FilterKeepsAll(ordinaryKeys, IsOrdinaryKey);
    FilterDropsAll(indexKeys, IsOrdinaryKey);
  }

  /** `reduce((a, b) => counts[a] > counts[b] ? a : b)` over the keys. */
  function LastMaximal(keys: seq<int>, counts: map<int, nat>): (k: int)
    requires |keys| > 0
    requires forall i :: 0 <= i < |keys| ==> keys[i] in counts
    ensures k in keys && k in counts
    decreases |keys|
  {
    if |keys| == 1 then keys[0]
    else
      var init := keys[..|keys| - 1];
      var a := LastMaximal(init, counts);
      var b := keys[|keys| - 1];
      if counts[a] > counts[b] then a else b
  }

  /** One more step of the reduce. */
  lemma LastMaximalSnoc(keys: seq<int>, counts: map<int, nat>, j: nat, a: int)
    requires 1 <= j < |keys|
    requires forall i :: 0 <= i < |keys| ==> keys[i] in counts
    requires a == LastMaximal(keys[..j], counts)
    ensures a in counts && keys[j] in counts
    ensures LastMaximal(keys[..j + 1], counts) == if counts[a] > counts[keys[j]] then a else keys[j]
  {
    assert keys[..j + 1][..j] == keys[..j];
  }

  /** The reduce picks a key of highest count, and every key after it in the order has a strictly lower count. */
  lemma {:induction false} LastMaximalAt(keys: seq<int>, counts: map<int, nat>) returns (j: nat)
    requires |keys| > 0
    requires forall i :: 0 <= i < |keys| ==> keys[i] in counts
    ensures j < |keys| && keys[j] == LastMaximal(keys, counts)
    ensures forall i :: 0 <= i < |keys| ==> counts[keys[i]] <= counts[keys[j]]
    ensures forall i :: j < i < |keys| ==> counts[keys[i]] < counts[keys[j]]
    decreases |keys|
  {
    if |keys| == 1 {
      j := 0;
    } else {
      var init := keys[..|keys| - 1];
      assert forall k :: k in init ==> k in keys;
      var last := |keys| - 1;
      var b: int := keys[last];
      assert b in keys;
      j := LastMaximalAt(init, counts);
      if counts[keys[j]] <= counts[b] {
        j := last;
      }
    }
  }

  /** The keys of the counts dictionary in enumeration order. */
  function KeyOrder(intervals: seq<real>): seq<int>
  {
    OwnKeys(InsertionOrder(RoundedKeys(intervals)))
  }

  /** The enumerated keys are exactly the counted keys, each with an entry in the counts dictionary. */
  lemma EnumeratedKeys(ts: seq<int>)
    ensures forall k :: k in OwnKeys(InsertionOrder(ts)) <==> k in ts
    ensures forall i :: 0 <= i < |OwnKeys(InsertionOrder(ts))| ==> OwnKeys(InsertionOrder(ts))[i] in Histogram(ts)
    ensures |ts| > 0 ==> |OwnKeys(InsertionOrder(ts))| > 0
  {
    var order := InsertionOrder(ts);
    var keys := OwnKeys(order);
    assert forall k :: k in keys <==> k in multiset(order);
    if |ts| > 0 {
      assert ts[0] in ts;
      assert ts[0] in multiset(keys);
    }
  }

  /** The rounded key the reduce selects. */
  function ModeTenths(intervals: seq<real>): (t: int)
    requires |intervals| > 0
    ensures t in RoundedKeys(intervals)
  {
    var ts := RoundedKeys(intervals);
    EnumeratedKeys(ts);
    LastMaximal(KeyOrder(intervals), Histogram(ts))
  }

  /** The selected key is the rounded key of some interval. */
  lemma ModeIsRoundedInterval(intervals: seq<real>) returns (i: nat)
    requires |intervals| > 0
    ensures i < |intervals| && ModeTenths(intervals) == Tenths(intervals[i])
  {
    var ts := RoundedKeys(intervals);
    i :| 0 <= i < |ts| && ts[i] == ModeTenths(intervals);
  }

  /** No interval rounds to 0 tenths, which would make the source divide by zero. */
  predicate NoZeroKey(intervals: seq<real>)
  {
    forall i :: 0 <= i < |intervals| ==> Tenths(intervals[i]) != 0
  }

  /** The tempo `calculateBPM` returns, as a value. */
  function Bpm(intervals: seq<real>): real
    requires NoZeroKey(intervals)
  {
    if |intervals| == 0 then DefaultBpm
    else
      TempoOf(ModeTenths(intervals))
  }

  /** `60 / parseFloat(key)` for the key of t tenths of a second: 600 / t beats per minute. */
  function TempoOf(t: int): (bpm: real)
    requires t != 0
    ensures bpm == 600.0 / (t as real)
  {
    var seconds := (t as real) / 10.0;
    var bpm := 60.0 / seconds;
    assert bpm * seconds == 60.0;
    assert bpm * (t as real) == (bpm * seconds) * 10.0;
    bpm
  }

  /** With at least one interval the tempo is 600 / t for the selected key t, which is not 0. */
  lemma BpmOfMode(intervals: seq<real>)
    requires |intervals| > 0
    requires NoZeroKey(intervals)
    ensures ModeTenths(intervals) != 0
    ensures Bpm(intervals) == 600.0 / (ModeTenths(intervals) as real)
  {
    var i := ModeIsRoundedInterval(intervals);
  }

  /**
    With at least one interval the tempo is 600 / t for the selected key t:
    no rounded key occurs more often than t, and every key enumerated after t
    occurs strictly less often.
   */
  lemma BpmIsLastMostFrequent(intervals: seq<real>) returns (j: nat)
    requires |intervals| > 0
    requires NoZeroKey(intervals)
    ensures Bpm(intervals) == 600.0 / (ModeTenths(intervals) as real)
    ensures j < |KeyOrder(intervals)| && KeyOrder(intervals)[j] == ModeTenths(intervals)
    ensures forall t :: t in RoundedKeys(intervals) ==>
      multiset(RoundedKeys(intervals))[t] <= multiset(RoundedKeys(intervals))[ModeTenths(intervals)]
    ensures forall i :: j < i < |KeyOrder(intervals)| ==>
      multiset(RoundedKeys(intervals))[KeyOrder(intervals)[i]] < multiset(RoundedKeys(intervals))[ModeTenths(intervals)]
  {
    var ts := RoundedKeys(intervals);
    var keys := KeyOrder(intervals);
    var counts := Histogram(ts);
    EnumeratedKeys(ts);
    HistogramCounts(ts);
    j := LastMaximalAt(keys, counts);
    BpmOfMode(intervals);
    var mode := keys[j];
    assert mode == ModeTenths(intervals);
    assert counts[mode] == multiset(ts)[mode];
    forall u | u in ts
      ensures multiset(ts)[u] <= multiset(ts)[mode]
    {
      var k :| 0 <= k < |keys| && keys[k] == u;
      assert counts[u] == multiset(ts)[u];
    }
    forall i | j < i < |keys|
      ensures multiset(ts)[keys[i]] < multiset(ts)[mode]
    {
      assert counts[keys[i]] == multiset(ts)[keys[i]];
    }
  }

  /** When every interval is plausible, no key is 0 and the tempo lies between 15 and 600 beats per minute. */
  lemma BpmInRange(intervals: seq<real>)
    requires forall x :: x in intervals ==> Plausible(x)
    ensures NoZeroKey(intervals)
    ensures 15.0 <= Bpm(intervals) <= 600.0
  {
    forall i | 0 <= i < |intervals|
      ensures 1 <= Tenths(intervals[i]) <= 40
    {
      PlausibleTenths(intervals[i]);
    }
    if |intervals| > 0 {
      var i := ModeIsRoundedInterval(intervals);
      TempoBounds(ModeTenths(intervals));
    }
  }

  /** Keys of 1 to 40 tenths give tempos from 600 down to 15 beats per minute. */
  lemma TempoBounds(t: int)
    requires 1 <= t <= 40
    ensures 15.0 <= TempoOf(t) <= 600.0
  {
    var r := t as real;
    assert 600.0 / r <= 600.0 / 1.0 by { assert 600.0 <= 600.0 * r; }
    assert 600.0 / r >= 600.0 / 40.0 by { assert 600.0 * r <= 600.0 * 40.0; }
  }

  /** When every interval rounds to the same key t, the tempo is 600 / t. */
  lemma {:induction false} SingleKeyBpm(intervals: seq<real>, t: int)
    requires |intervals| > 0 && t != 0
    requires forall i :: 0 <= i < |intervals| ==> Tenths(intervals[i]) == t
    ensures NoZeroKey(intervals)
    ensures Bpm(intervals) == 600.0 / (t as real)
  {
    var i := ModeIsRoundedInterval(intervals);
    var j := BpmIsLastMostFrequent(intervals);
  }

  /**
    A tie decided by key order: intervals 0.5 s and 2.0 s are counted once
    each, under keys "0.5" and "2". Key "2" is an array index, so it is
    enumerated first, and the reduce ends on "0.5": 120 beats per minute, not
    the 30 of the key created last.
   */
  lemma TieGoesToLastEnumeratedKey()
    ensures RoundedKeys([0.5, 2.0]) == [5, 20]
    ensures KeyOrder([0.5, 2.0]) == [20, 5]
    ensures NoZeroKey([0.5, 2.0]) && Bpm([0.5, 2.0]) == 120.0
  {
    var intervals := [0.5, 2.0];
    TieRoundedKeys();
    assert KeyOrder(intervals) == [20, 5] by {
      TieInsertionOrder();
      TieOwnKeys();
    }
    assert ModeTenths(intervals) == 5 by {
      TieCounts();
      TieReduce();
    }
    assert Bpm(intervals) == TempoOf(5);
  }

  lemma TieRoundedKeys()
    ensures Tenths(0.5) == 5 && Tenths(2.0) == 20
    ensures NoZeroKey([0.5, 2.0])
    ensures RoundedKeys([0.5, 2.0]) == [5, 20]
  {
    assert Tenths(0.5) == 5 && Tenths(2.0) == 20;
  }

  lemma TieInsertionOrder()
    ensures InsertionOrder([5, 20]) == [5, 20]
  {
    assert [5, 20][..1] == [5];
    assert InsertionOrder([5]) == [5];
  }

  lemma TieOwnKeys()
    ensures OwnKeys([5, 20]) == [20, 5]
  {
    assert [5, 20][..1] == [5];
    assert Filter([5, 20], IsIndexKey) == [20] by {
      assert Filter([5], IsIndexKey) == [];
    }
    assert Filter([5, 20], IsOrdinaryKey) == [5] by {
      assert Filter([5], IsOrdinaryKey) == [5];
    }
    assert SortAscending([20]) == [20];
  }

  lemma TieCounts()
    ensures Histogram([5, 20]) == map[5 := 1, 20 := 1]
  {
    assert [5, 20][..1] == [5];
  }

  lemma TieReduce()
    ensures LastMaximal([20, 5], map[5 := 1, 20 := 1]) == 5
  {
    assert [20, 5][..1] == [20];
  }

  /** The `forEach` of `calculateBPM`: counts the rounded intervals in a dictionary, recording the order its keys are created in. */
  method CountRounded(intervals: seq<real>) returns (counts: map<int, nat>, order: seq<int>)
    ensures counts == Histogram(RoundedKeys(intervals))
    ensures order == InsertionOrder(RoundedKeys(intervals))
  {
    ghost var ts := RoundedKeys(intervals);
    counts := map[];
    order := [];
    var i := 0;
    while i < |intervals|
      invariant 0 <= i <= |intervals|
      invariant counts == Histogram(ts[..i])
      invariant order == InsertionOrder(ts[..i])
    {
      var rounded := Tenths(intervals[i]);
      assert ts[..i + 1] == ts[..i] + [rounded];
      CountStep(ts[..i], rounded);
      if rounded !in counts {
        order := order + [rounded];
      }
      counts := counts[rounded := (if rounded in counts then counts[rounded] else 0) + 1];
      i := i + 1;
    }
    assert ts[..i] == ts;
  }

  /** The `reduce` of `calculateBPM`: keeps the key seen so far unless the next key's count is at least as high. */
  method ReduceKeys(keys: seq<int>, counts: map<int, nat>) returns (mostCommon: int)
    requires |keys| > 0
    requires forall i :: 0 <= i < |keys| ==> keys[i] in counts
    ensures mostCommon == LastMaximal(keys, counts)
  {
    mostCommon := keys[0];
    assert keys[..1] == [keys[0]];
    var j := 1;
    while j < |keys|
      invariant 1 <= j <= |keys|
      invariant mostCommon == LastMaximal(keys[..j], counts)
    {
      var b := keys[j];
      LastMaximalSnoc(keys, counts, j, mostCommon);
      mostCommon := if counts[mostCommon] > counts[b] then mostCommon else b;
      j := j + 1;
    }
    assert keys[..j] == keys;
  }

  /** `calculateBPM`: 120 without intervals, else 60 over the interval the reduce selects from the counts dictionary. */
  method CalculateBpm(intervals: seq<real>) returns (bpm: real)
    requires NoZeroKey(intervals)
    ensures |intervals| == 0 ==> bpm == DefaultBpm
    ensures bpm == Bpm(intervals)
  {
    if |intervals| == 0 {
      return DefaultBpm;
    }
    var counts, order := CountRounded(intervals);
    var keys := OwnKeys(order);
    EnumeratedKeys(RoundedKeys(intervals));
    var mostCommon := ReduceKeys(keys, counts);
    BpmOfMode(intervals);
    bpm := TempoOf(mostCommon);
  }
}
