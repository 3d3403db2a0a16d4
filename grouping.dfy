/** `distributedDataset`: the dataset grouped by its Alcohol class. */
module Grouping {
  import opened Records

  /** The Alcohol classes that occur in `data`. */
  function Classes(data: seq<Record>): set<int>
  {
    set i | 0 <= i < |data| :: data[i].alcohol
  }

  /** The Alcohol column of `data`. */
  function Alcohols(data: seq<Record>): seq<int>
  {
    seq(|data|, i requires 0 <= i < |data| => data[i].alcohol)
  }

  /** How many records of `data` belong to class `k`. */
  function Occurrences(data: seq<Record>, k: int): nat
  {
    multiset(Alcohols(data))[k]
  }

  /** The records of class `k`, in dataset order. */
  function Members(data: seq<Record>, k: int): (m: seq<Record>)
    ensures forall r :: r in m ==> r.alcohol == k
  {
    if data == [] then []
    else
      var last := data[|data| - 1];
      Members(data[..|data| - 1], k) + (if last.alcohol == k then [last] else [])
  }

  /** The positions of the records of class `k`, ascending. */
  function Positions(data: seq<Record>, k: int): seq<nat>
  {
    if data == [] then []
    else Positions(data[..|data| - 1], k) + (if data[|data| - 1].alcohol == k then [|data| - 1] else [])
  }

  lemma MembersSnoc(data: seq<Record>, r: Record)
    ensures forall k :: Members(data + [r], k) == Members(data, k) + (if r.alcohol == k then [r] else [])
    ensures Classes(data + [r]) == Classes(data) + {r.alcohol}
  {
    forall k ensures Members(data + [r], k) == Members(data, k) + (if r.alcohol == k then [r] else []) {
      MembersSnocAt(data, r, k);
    }
    ClassesSnoc(data, r);
  }

  lemma MembersSnocAt(data: seq<Record>, r: Record, k: int)
    ensures Members(data + [r], k) == Members(data, k) + (if r.alcohol == k then [r] else [])
  {
    assert (data + [r])[..|data|] == data;
  }

  lemma ClassesSnoc(data: seq<Record>, r: Record)
    ensures Classes(data + [r]) == Classes(data) + {r.alcohol}
  {
    var d := data + [r];
    forall k | k in Classes(d) ensures k in Classes(data) + {r.alcohol} {
      var i :| 0 <= i < |d| && d[i].alcohol == k;
      if i < |data| { assert data[i].alcohol == k; }
    }
    forall k | k in Classes(data) ensures k in Classes(d) {
      var i :| 0 <= i < |data| && data[i].alcohol == k;
      assert d[i].alcohol == k;
    }
    assert d[|data|].alcohol == r.alcohol;
  }

  /** A class has members exactly when it occurs in the data. */
  lemma {:induction false} MembersNonEmptyIffClass(data: seq<Record>, k: int)
    ensures Members(data, k) != [] <==> k in Classes(data)
  {
    if data != [] {
      var init := data[..|data| - 1];
      assert data == init + [data[|data| - 1]];
      MembersSnoc(init, data[|data| - 1]);
      MembersNonEmptyIffClass(init, k);
    }
  }

  /** A class has as many members as it has occurrences. */
  lemma {:induction false} MembersCount(data: seq<Record>, k: int)
    ensures |Members(data, k)| == Occurrences(data, k)
  {
    if data != [] {
      var init := data[..|data| - 1];
      var last := data[|data| - 1];
      assert Alcohols(data) == Alcohols(init) + [last.alcohol];
      MembersCount(init, k);
    }
  }

  /** The members of class `k` are exactly the records at the positions
      holding class `k`, and they appear in dataset order. */
  lemma {:induction false} MembersInDatasetOrder(data: seq<Record>, k: int)
    ensures |Positions(data, k)| == |Members(data, k)|
    ensures forall j :: 0 <= j < |Positions(data, k)| ==>
              Positions(data, k)[j] < |data| && Members(data, k)[j] == data[Positions(data, k)[j]]
    ensures forall j1, j2 :: 0 <= j1 < j2 < |Positions(data, k)| ==> Positions(data, k)[j1] < Positions(data, k)[j2]
    ensures forall i :: 0 <= i < |data| && data[i].alcohol == k ==> i in Positions(data, k)
  {
    if data != [] {
      var n := |data| - 1;
      var init := data[..n];
      MembersInDatasetOrder(init, k);
      var p := Positions(data, k);
      var p' := Positions(init, k);
      assert p[..|p'|] == p';
      forall j | 0 <= j < |p'| ensures p[j] < n && Members(data, k)[j] == data[p[j]] {
        assert init[p'[j]] == data[p'[j]];
      }
      forall i | 0 <= i < |data| && data[i].alcohol == k ensures i in p {
        if i < n {
          assert init[i].alcohol == k;
          assert i in p';
        } else {
          assert p[|p| - 1] == n;
        }
      }
    }
  }

  function Drop1(s: seq<Record>): seq<Record>
  {
    if s == [] then [] else s[1..]
  }

  /** The grouping as written: the first record of a class is stored as an
      empty list and is never added, every later record is appended. */
  function GroupedAsWritten(data: seq<Record>): (g: map<int, seq<Record>>)
    ensures g.Keys == Classes(data)
    ensures forall k :: k in g ==> |g[k]| == Occurrences(data, k) - 1
    ensures forall k :: k in g ==> forall r :: r in g[k] ==> r.alcohol == k
  {
    var g := map k | k in Classes(data) :: Drop1(Members(data, k));
    assert forall k :: k in g ==> |g[k]| == Occurrences(data, k) - 1 by {
      forall k | k in g ensures |g[k]| == Occurrences(data, k) - 1 {
        MembersNonEmptyIffClass(data, k);
        MembersCount(data, k);
      }
    }
    assert forall k :: k in g ==> forall r :: r in g[k] ==> r.alcohol == k by {
      forall k, r | k in g && r in g[k] ensures r.alcohol == k {
        assert r in Members(data, k);
      }
    }
    g
  }

  /** `acc` has a key exactly for each class with members in `data`, and
      maps it to those members but the first. */
  ghost predicate IsAsWrittenGrouping(data: seq<Record>, acc: map<int, seq<Record>>)
  {
    forall k :: (k in acc <==> Members(data, k) != []) && (k in acc ==> acc[k] == Members(data, k)[1..])
  }

  /** One step of the reduce: a class already present gets the record
      appended, a new class gets an empty list. */
  lemma GroupStep(data: seq<Record>, acc: map<int, seq<Record>>, ele: Record)
    requires IsAsWrittenGrouping(data, acc)
    ensures IsAsWrittenGrouping(data + [ele],
              acc[ele.alcohol := if ele.alcohol in acc then acc[ele.alcohol] + [ele] else []])
  {
    var d := data + [ele];
    var key := ele.alcohol;
    var acc' := acc[key := if key in acc then acc[key] + [ele] else []];
    forall k ensures (k in acc' <==> Members(d, k) != []) && (k in acc' ==> acc'[k] == Members(d, k)[1..]) {
      MembersSnocAt(data, ele, k);
      if k == key && key in acc {
        var m := Members(data, k);
        assert (m + [ele])[1..] == m[1..] + [ele];
      }
    }
  }

  /** The reduce at src/App.js:4-7: `acc[ele.Alcohol]` is `[]` for the first
      record of a class and grows by one record for each later one. */
  method GroupByAlcohol(data: seq<Record>) returns (acc: map<int, seq<Record>>)
    ensures acc.Keys == Classes(data)
    ensures forall k :: k in acc ==> Members(data, k) != [] && acc[k] == Members(data, k)[1..]
    ensures acc == GroupedAsWritten(data)
  {
    acc := map[];
    assert IsAsWrittenGrouping(data[..0], acc) by {
      assert data[..0] == [];
    }
    for i := 0 to |data|
      invariant IsAsWrittenGrouping(data[..i], acc)
    {
      var ele := data[i];
      assert data[..i + 1] == data[..i] + [ele];
      GroupStep(data[..i], acc, ele);
      acc := acc[ele.alcohol := if ele.alcohol in acc then acc[ele.alcohol] + [ele] else []];
    }
    assert data[..|data|] == data;
    assert IsAsWrittenGrouping(data, acc);
    AsWrittenCharacterized(data, acc);
  }

  /** A map with a key exactly for each class with members, mapping it to
      the class's members but the first, is the as-written grouping. */
  lemma AsWrittenCharacterized(data: seq<Record>, g: map<int, seq<Record>>)
    requires IsAsWrittenGrouping(data, g)
    ensures g.Keys == Classes(data)
    ensures g == GroupedAsWritten(data)
  {
    var h := GroupedAsWritten(data);
    forall k ensures k in g <==> k in h {
      MembersNonEmptyIffClass(data, k);
    }
    forall k | k in g ensures k in h && g[k] == h[k] {
      MembersNonEmptyIffClass(data, k);
    }
  }

  /** The grouping the code evidently intends: every record of a class,
      the first included, in dataset order. */
  function GroupedIntended(data: seq<Record>): (g: map<int, seq<Record>>)
    ensures g.Keys == Classes(data)
    ensures forall k :: k in g ==> |g[k]| == Occurrences(data, k) && g[k] != []
    ensures forall k :: k in g ==> forall r :: r in g[k] ==> r.alcohol == k
  {
    var g := map k | k in Classes(data) :: Members(data, k);
    assert forall k :: k in g ==> |g[k]| == Occurrences(data, k) && g[k] != [] by {
      forall k | k in g ensures |g[k]| == Occurrences(data, k) && g[k] != [] {
        MembersNonEmptyIffClass(data, k);
        MembersCount(data, k);
      }
    }
    g
  }

  /** The intended grouping is a partition: every record lands in the group
      of its class (and, by the contract above, in no other group). */
  lemma IntendedGroupingKeepsEveryRecord(data: seq<Record>)
    ensures forall i :: 0 <= i < |data| ==>
              data[i].alcohol in GroupedIntended(data) && data[i] in GroupedIntended(data)[data[i].alcohol]
  {
    forall i | 0 <= i < |data|
      ensures data[i].alcohol in GroupedIntended(data) && data[i] in GroupedIntended(data)[data[i].alcohol]
    {
      var k := data[i].alcohol;
      MembersInDatasetOrder(data, k);
      var j :| 0 <= j < |Positions(data, k)| && Positions(data, k)[j] == i;
      assert Members(data, k)[j] == data[i];
    }
  }

  /** As written, each group is the intended group without its first record. */
  lemma AsWrittenDropsFirstRecord(data: seq<Record>, k: int)
    requires k in Classes(data)
    ensures GroupedAsWritten(data)[k] == GroupedIntended(data)[k][1..]
  {
    MembersNonEmptyIffClass(data, k);
  }

  /** A class seen once gets an empty group instead of its one record. */
  lemma SingleRecordClassGetsEmptyGroup(r: Record)
    ensures GroupedAsWritten([r]) == map[r.alcohol := []]
    ensures GroupedIntended([r]) == map[r.alcohol := [r]]
  {
    assert [r][0].alcohol == r.alcohol;
    assert Classes([r]) == {r.alcohol};
    assert [r][..0] == [];
    assert Members([r], r.alcohol) == Members([], r.alcohol) + [r] == [r];
    assert GroupedAsWritten([r]).Keys == {r.alcohol};
    assert GroupedIntended([r]).Keys == {r.alcohol};
  }
}
