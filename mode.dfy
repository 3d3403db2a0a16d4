/** `calculateMode`: a frequency table built record by record, then a scan of
    its keys in `for...in` order that keeps the first key whose count beats
    every count seen before it. */
module Mode {
  import opened Records
  import opened Sorting

  predicate Distinct(ks: seq<real>)
  {
    forall i, j :: 0 <= i < j < |ks| ==> ks[i] != ks[j]
  }

  /** The distinct values of `xs` in order of first occurrence: the order in
      which the frequency table's keys are created. */
  function FirstOccurrences(xs: seq<real>): (ks: seq<real>)
    ensures Distinct(ks)
    ensures forall v :: v in ks <==> v in xs
  {
    if xs == [] then []
    else
      var ks := FirstOccurrences(xs[..|xs| - 1]);
      var x := xs[|xs| - 1];
      assert xs == xs[..|xs| - 1] + [x];
      if x in ks then ks else ks + [x]
  }

  /** The frequency table as a map: each value of `xs` to its number of occurrences. */
  function FrequencyOf(xs: seq<real>): map<real, nat>
  {
    map v | v in xs :: multiset(xs)[v]
  }

  /** Every entry of `keys` is a key of `freq`. */
  predicate KeysIn(keys: seq<real>, freq: map<real, nat>)
  {
    forall i :: 0 <= i < |keys| ==> keys[i] in freq
  }

  /** Sum of the counts of `keys`, last key added last. */
  function TotalCount(keys: seq<real>, freq: map<real, nat>): nat
    requires KeysIn(keys, freq)
  {
    if keys == [] then 0 else TotalCount(keys[..|keys| - 1], freq) + freq[keys[|keys| - 1]]
  }

  lemma TotalCountAppend(keys: seq<real>, freq: map<real, nat>, v: real)
    requires KeysIn(keys, freq) && v in freq
    ensures KeysIn(keys + [v], freq)
    ensures TotalCount(keys + [v], freq) == TotalCount(keys, freq) + freq[v]
  {
    assert (keys + [v])[..|keys|] == keys;
  }

  lemma {:induction false} TotalCountIgnoresOtherKeys(keys: seq<real>, freq: map<real, nat>, v: real, c: nat)
    requires KeysIn(keys, freq)
    requires v !in keys
    ensures TotalCount(keys, freq[v := c]) == TotalCount(keys, freq)
  {
    if keys != [] {
      TotalCountIgnoresOtherKeys(keys[..|keys| - 1], freq, v, c);
    }
  }

  lemma {:induction false} TotalCountBump(keys: seq<real>, freq: map<real, nat>, v: real)
    requires KeysIn(keys, freq)
    requires Distinct(keys) && v in keys
    ensures TotalCount(keys, freq[v := freq[v] + 1]) == TotalCount(keys, freq) + 1
  {
    var init := keys[..|keys| - 1];
    var last := keys[|keys| - 1];
    if last == v {
      assert v !in init;
      TotalCountIgnoresOtherKeys(init, freq, v, freq[v] + 1);
    } else {
      assert v in init;
      TotalCountBump(init, freq, v);
    }
  }

  /** Appending a value raises its count by one and leaves every other count. */
  lemma FrequencyOfSnoc(xs: seq<real>, v: real)
    ensures FrequencyOf(xs + [v]) == FrequencyOf(xs)[v := multiset(xs)[v] + 1]
  {
    var ys := xs + [v];
    var a := FrequencyOf(ys);
    var b := FrequencyOf(xs)[v := multiset(xs)[v] + 1];
    assert multiset(ys) == multiset(xs) + multiset{v};
    forall w | w in a ensures w in b && a[w] == b[w] {
      assert w in xs || w == v;
    }
    forall w | w in b ensures w in a {
      if w != v {
        assert w in xs;
      }
    }
  }

  /** `freq` and `keys` are the frequency table of `xs` and its keys in
      creation order, and the counts add up to |xs|. */
  ghost predicate IsTableOf(xs: seq<real>, freq: map<real, nat>, keys: seq<real>)
  {
    && keys == FirstOccurrences(xs)
    && freq == FrequencyOf(xs)
    && KeysIn(keys, freq)
    && TotalCount(keys, freq) == |xs|
  }

  /** One step of the `forEach` on a value not seen before: it gets count 1
      and becomes the last key. */
  lemma TableStepNew(xs: seq<real>, freq: map<real, nat>, keys: seq<real>, v: real)
    requires IsTableOf(xs, freq, keys)
    requires v !in freq
    ensures IsTableOf(xs + [v], freq[v := 1], keys + [v])
  {
    var ys := xs + [v];
    var freq' := freq[v := 1];
    assert v !in xs && v !in keys;
    assert multiset(xs)[v] == 0;
    FrequencyOfSnoc(xs, v);
    assert ys[..|xs|] == xs;
    assert KeysIn(keys, freq');
    TotalCountIgnoresOtherKeys(keys, freq, v, 1);
    TotalCountAppend(keys, freq', v);
  }

  /** One step of the `forEach` on a value seen before: its count goes up by one. */
  lemma TableStepSeen(xs: seq<real>, freq: map<real, nat>, keys: seq<real>, v: real)
    requires IsTableOf(xs, freq, keys)
    requires v in freq
    ensures IsTableOf(xs + [v], freq[v := freq[v] + 1], keys)
  {
    var ys := xs + [v];
    var freq' := freq[v := freq[v] + 1];
    assert v in xs && v in keys;
    FrequencyOfSnoc(xs, v);
    assert ys[..|xs|] == xs;
    assert KeysIn(keys, freq');
    TotalCountBump(keys, freq, v);
  }

  /** `frequencyMap` after the `forEach` (src/App.js:37-43): the key order is
      the order in which the JavaScript object received its properties. Every
      count is at least 1 and the counts add up to the group's length. */
  method FrequencyTable(xs: seq<real>) returns (freq: map<real, nat>, keys: seq<real>)
    ensures keys == FirstOccurrences(xs)
    ensures freq == FrequencyOf(xs)
    ensures forall v :: v in freq ==> freq[v] >= 1
    ensures KeysIn(keys, freq) && TotalCount(keys, freq) == |xs|
  {
    freq, keys := map[], [];
    for i := 0 to |xs|
      invariant IsTableOf(xs[..i], freq, keys)
    {
      var v := xs[i];
      assert xs[..i + 1] == xs[..i] + [v];
      if v !in freq {
        TableStepNew(xs[..i], freq, keys, v);
        freq := freq[v := 1];
        keys := keys + [v];
      } else {
        TableStepSeen(xs[..i], freq, keys, v);
        freq := freq[v := freq[v] + 1];
      }
    }
    assert xs[..|xs|] == xs;
    forall v | v in freq ensures freq[v] >= 1 {
      assert v in multiset(xs);
    }
  }

  /** A JavaScript array index: an integer in [0, 2^32 - 2]. Object keys that
      are array indices are enumerated first, in ascending numeric order. */
  predicate IsArrayIndex(v: real)
  {
    v == v.Floor as real && 0 <= v.Floor < 0xFFFF_FFFF
  }

  function ArrayIndexKeys(keys: seq<real>): (r: seq<real>)
    ensures forall i :: 0 <= i < |r| ==> IsArrayIndex(r[i])
  {
    if keys == [] then []
    else (if IsArrayIndex(keys[0]) then [keys[0]] else []) + ArrayIndexKeys(keys[1..])
  }

  function OtherKeys(keys: seq<real>): (r: seq<real>)
    ensures forall i :: 0 <= i < |r| ==> !IsArrayIndex(r[i])
  {
    if keys == [] then []
    else (if IsArrayIndex(keys[0]) then [] else [keys[0]]) + OtherKeys(keys[1..])
  }

  lemma {:induction false} KeysSplit(keys: seq<real>)
    ensures multiset(ArrayIndexKeys(keys)) + multiset(OtherKeys(keys)) == multiset(keys)
  {
    if keys != [] {
      KeysSplit(keys[1..]);
      assert keys == [keys[0]] + keys[1..];
    }
  }

  /** The order of `for (const value in frequencyMap)`: array-index keys
      ascending, then the other keys in insertion order. It visits every key
      once, no array-index key comes after a key that is not one, and the
      keys that are not array indices keep their insertion order; when no
      key is an array index, the order is the insertion order itself. */
  function ForInOrder(keys: seq<real>): (r: seq<real>)
    ensures multiset(r) == multiset(keys)
    ensures forall i, j :: 0 <= i < j < |r| && IsArrayIndex(r[j]) ==> IsArrayIndex(r[i]) && r[i] <= r[j]
    ensures OtherKeys(r) == OtherKeys(keys)
    ensures (forall i :: 0 <= i < |keys| ==> !IsArrayIndex(keys[i])) ==> r == keys
  {
    KeysSplit(keys);
    var front := SortAscending(ArrayIndexKeys(keys));
    AllArrayIndices(ArrayIndexKeys(keys), front);
    IndicesFirst(front, OtherKeys(keys));
    OtherKeysConcat(front, OtherKeys(keys));
    OtherKeysOfIndices(front);
    NoIndexKeys(OtherKeys(keys));
    NoIndexKeys(keys);
    assert ArrayIndexKeys(keys) == [] ==> front == [] by {
      assert |front| == |multiset(front)|;
    }
    front + OtherKeys(keys)
  }

  /** The keys of `a + b` that are not array indices: those of `a`, then
      those of `b`. */
  lemma {:induction false} OtherKeysConcat(a: seq<real>, b: seq<real>)
    ensures OtherKeys(a + b) == OtherKeys(a) + OtherKeys(b)
  {
    if a == [] {
      assert a + b == b;
    } else {
      var ab := a + b;
      assert ab != [] && ab[0] == a[0];
      assert ab[1..] == a[1..] + b;
      OtherKeysConcat(a[1..], b);
      var head := if IsArrayIndex(a[0]) then [] else [a[0]];
      assert OtherKeys(ab) == head + OtherKeys(a[1..] + b);
      assert OtherKeys(a) == head + OtherKeys(a[1..]);
    }
  }

  /** A sequence of array-index keys has no other keys. */
  lemma {:induction false} OtherKeysOfIndices(s: seq<real>)
    requires forall i :: 0 <= i < |s| ==> IsArrayIndex(s[i])
    ensures OtherKeys(s) == []
  {
    if s != [] {
      assert forall i :: 0 <= i < |s[1..]| ==> s[1..][i] == s[i + 1];
      OtherKeysOfIndices(s[1..]);
    }
  }

  /** A sequence with no array-index key is its own list of other keys. */
  lemma {:induction false} NoIndexKeys(s: seq<real>)
    ensures (forall i :: 0 <= i < |s| ==> !IsArrayIndex(s[i])) ==> OtherKeys(s) == s && ArrayIndexKeys(s) == []
  {
    if s != [] && forall i :: 0 <= i < |s| ==> !IsArrayIndex(s[i]) {
      assert forall i :: 0 <= i < |s[1..]| ==> s[1..][i] == s[i + 1];
      NoIndexKeys(s[1..]);
      assert s == [s[0]] + s[1..];
    }
  }

  /** A rearrangement of array-index keys holds only array-index keys. */
  lemma AllArrayIndices(ks: seq<real>, s: seq<real>)
    requires forall i :: 0 <= i < |ks| ==> IsArrayIndex(ks[i])
    requires multiset(s) == multiset(ks)
    ensures forall i :: 0 <= i < |s| ==> IsArrayIndex(s[i])
  {
    forall i | 0 <= i < |s| ensures IsArrayIndex(s[i]) {
      assert s[i] in multiset(ks);
    }
  }

  /** Ascending array-index keys followed by other keys: no array-index key
      comes after a key that is not one, and array-index keys ascend. */
  lemma IndicesFirst(front: seq<real>, rest: seq<real>)
    requires IsSorted(front) && forall i :: 0 <= i < |front| ==> IsArrayIndex(front[i])
    requires forall i :: 0 <= i < |rest| ==> !IsArrayIndex(rest[i])
    ensures forall i, j :: 0 <= i < j < |front + rest| && IsArrayIndex((front + rest)[j]) ==>
              IsArrayIndex((front + rest)[i]) && (front + rest)[i] <= (front + rest)[j]
  {
    var r := front + rest;
    forall i, j | 0 <= i < j < |r| && IsArrayIndex(r[j]) ensures IsArrayIndex(r[i]) && r[i] <= r[j] {
      if j >= |front| {
        assert false;
      }
    }
  }

  /** The order in which the mode scan visits the distinct values of `xs`:
      each value of the group exactly once. */
  function ScanOrder(xs: seq<real>): (r: seq<real>)
    ensures forall v :: v in r <==> v in xs
    ensures Distinct(r)
  {
    var ks := FirstOccurrences(xs);
    var r := ForInOrder(ks);
    assert forall v :: v in r <==> v in multiset(ks);
    DistinctPermutation(ks, r);
    r
  }

  /** A distinct sequence holds each value at most once. */
  lemma {:induction false} DistinctCountsAtMostOne(a: seq<real>, v: real)
    requires Distinct(a)
    ensures multiset(a)[v] <= 1
  {
    if a != [] {
      assert a == [a[0]] + a[1..];
      assert a[0] !in a[1..];
      assert Distinct(a[1..]) by {
        forall i, j | 0 <= i < j < |a[1..]| ensures a[1..][i] != a[1..][j] {
          assert a[1..][i] == a[i + 1] && a[1..][j] == a[j + 1];
        }
      }
      DistinctCountsAtMostOne(a[1..], v);
    }
  }

  /** A value at two positions occurs at least twice. */
  lemma RepeatCountsTwice(b: seq<real>, i: nat, j: nat)
    requires i < j < |b| && b[i] == b[j]
    ensures multiset(b)[b[i]] >= 2
  {
    assert b == b[..j] + b[j..];
    assert b[..j][i] == b[i];
    assert b[j..][0] == b[j];
    assert multiset(b[..j])[b[i]] >= 1 && multiset(b[j..])[b[i]] >= 1;
  }

  /** A rearrangement of a distinct sequence is distinct. */
  lemma DistinctPermutation(a: seq<real>, b: seq<real>)
    requires Distinct(a) && multiset(a) == multiset(b)
    ensures Distinct(b)
  {
    forall i, j | 0 <= i < j < |b| ensures b[i] != b[j] {
      if b[i] == b[j] {
        RepeatCountsTwice(b, i, j);
        DistinctCountsAtMostOne(a, b[i]);
        assert false;
      }
    }
  }

  /** When no value of the group is an array index (every non-integral
      value, such as the Flavanoids and Gamma measurements), the scan visits
      the values in order of first occurrence. */
  lemma ScanOrderIsFirstOccurrences(xs: seq<real>)
    requires forall i :: 0 <= i < |xs| ==> !IsArrayIndex(xs[i])
    ensures ScanOrder(xs) == FirstOccurrences(xs)
  {
    var ks := FirstOccurrences(xs);
    forall i | 0 <= i < |ks| ensures !IsArrayIndex(ks[i]) {
      assert ks[i] in xs;
    }
  }

  /** The position in `order` of the first key with the largest count. */
  function FirstMaxIndex(order: seq<real>, freq: map<real, nat>): (i: nat)
    requires order != []
    requires KeysIn(order, freq)
    ensures i < |order|
    ensures forall j :: 0 <= j < |order| ==> freq[order[j]] <= freq[order[i]]
    ensures forall j :: 0 <= j < i ==> freq[order[j]] < freq[order[i]]
  {
    var n := |order| - 1;
    if n == 0 then 0
    else
      var j := FirstMaxIndex(order[..n], freq);
      assert order[..n][j] == order[j];
      if freq[order[n]] > freq[order[j]] then n else j
  }

  /** The mode `calculateMode` selects (before rounding): none for an empty
      group (`mode` stays null), otherwise the first value in scan order
      among those occurring most often. */
  function ModeOf(xs: seq<real>): (m: Option<real>)
    ensures m.None? <==> xs == []
  {
    if xs == [] then None
    else
      var order := ScanOrder(xs);
      assert KeysIn(order, FrequencyOf(xs)) by {
        forall i | 0 <= i < |order| ensures order[i] in FrequencyOf(xs) {
          assert order[i] in xs;
        }
      }
      Some(order[FirstMaxIndex(order, FrequencyOf(xs))])
  }

  lemma ScanOrderKeysIn(xs: seq<real>)
    ensures KeysIn(ScanOrder(xs), FrequencyOf(xs))
  {
    var order := ScanOrder(xs);
    forall k | 0 <= k < |order| ensures order[k] in FrequencyOf(xs) {
      assert order[k] in xs;
    }
  }

  /** The mode occurs in the group and no value occurs more often. */
  lemma ModeIsMostFrequent(xs: seq<real>)
    requires xs != []
    ensures ModeOf(xs).value in xs
    ensures forall v :: v in xs ==> multiset(xs)[v] <= multiset(xs)[ModeOf(xs).value]
  {
    var order := ScanOrder(xs);
    var freq := FrequencyOf(xs);
    ScanOrderKeysIn(xs);
    var m := order[FirstMaxIndex(order, freq)];
    assert ModeOf(xs).value == m;
    assert m in xs;
    forall v | v in xs ensures multiset(xs)[v] <= multiset(xs)[m] {
      assert v in order;
      var j :| 0 <= j < |order| && order[j] == v;
      assert freq[order[j]] <= freq[m];
    }
  }

  /** Ties go to scan order: every value occurring at least as often as the
      mode comes at or after it in the order the `for...in` loop visits keys. */
  lemma ModeWinsTiesInScanOrder(xs: seq<real>)
    requires xs != []
    ensures forall j :: 0 <= j < |ScanOrder(xs)| && multiset(xs)[ScanOrder(xs)[j]] >= multiset(xs)[ModeOf(xs).value]
              ==> ModeOf(xs).value in ScanOrder(xs)[..j + 1]
  {
    var order := ScanOrder(xs);
    var freq := FrequencyOf(xs);
    ScanOrderKeysIn(xs);
    var i := FirstMaxIndex(order, freq);
    var m := order[i];
    assert ModeOf(xs).value == m;
    forall j | 0 <= j < |order| && multiset(xs)[order[j]] >= multiset(xs)[m]
      ensures m in order[..j + 1]
    {
      assert order[j] in xs && m in xs;
      assert j >= i;
      assert order[..j + 1][i] == m;
    }
  }

  /** When no value is an array index, ties go to the value that occurs
      first in the group. */
  lemma ModeWinsTiesByFirstOccurrence(xs: seq<real>)
    requires xs != []
    requires forall i :: 0 <= i < |xs| ==> !IsArrayIndex(xs[i])
    ensures forall j :: 0 <= j < |FirstOccurrences(xs)| && multiset(xs)[FirstOccurrences(xs)[j]] >= multiset(xs)[ModeOf(xs).value]
              ==> ModeOf(xs).value in FirstOccurrences(xs)[..j + 1]
  {
    ScanOrderIsFirstOccurrences(xs);
    ModeWinsTiesInScanOrder(xs);
  }

  /** The scan at src/App.js:45-53: `mode` starts null and `maxFrequency` 0;
      a key replaces the mode only when its count is strictly greater. */
  method SelectMode(freq: map<real, nat>, order: seq<real>) returns (mode: Option<real>)
    requires KeysIn(order, freq)
    requires forall v :: v in freq ==> freq[v] >= 1
    ensures mode.None? <==> order == []
    ensures mode.Some? ==> mode.value == order[FirstMaxIndex(order, freq)]
  {
    mode := None;
    var maxFrequency := 0;
    for i := 0 to |order|
      invariant i == 0 ==> mode == None && maxFrequency == 0
      invariant i > 0 ==> mode == Some(order[..i][FirstMaxIndex(order[..i], freq)])
      invariant i > 0 ==> maxFrequency == freq[mode.value]
    {
      var value := order[i];
      assert order[..i + 1][..i] == order[..i];
      if freq[value] > maxFrequency {
        mode := Some(value);
        maxFrequency := freq[value];
      }
    }
    assert order[..|order|] == order;
  }

  /** `calculateMode`: NaN for an empty group (`roundToThree(null)`),
      otherwise the rounded mode. */
  method CalculateMode(xs: seq<real>) returns (r: Outcome)
    ensures xs == [] ==> r == NaN
    ensures xs != [] ==> r == Num(RoundToThree(ModeOf(xs).value))
  {
    var freq, keys := FrequencyTable(xs);
    var order := ForInOrder(keys);
    assert order == ScanOrder(xs);
    assert KeysIn(order, freq) by {
      forall i | 0 <= i < |order| ensures order[i] in freq {
        assert order[i] in xs;
      }
    }
    var mode := SelectMode(freq, order);
    if mode == None {
      r := NaN;
    } else {
      r := Num(RoundToThree(mode.value));
    }
  }
}
