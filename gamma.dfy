/** The Gamma measurement, `(Ash * Hue) / Magnesium`, written into every
    grouped record before its statistics are computed. */
module Gamma {
  import opened Records
  import opened Aggregation

  /** The measurements Gamma reads are present and the divisor is not zero. */
  predicate GammaDefined(r: Record)
  {
    "Ash" in r.attrs && "Hue" in r.attrs && "Magnesium" in r.attrs && r.attrs["Magnesium"] != 0.0
  }

  /** Every record of every group can be given a Gamma. */
  predicate AllGammaDefined(groups: map<int, seq<Record>>)
  {
    forall k :: k in groups ==> forall i :: 0 <= i < |groups[k]| ==> GammaDefined(groups[k][i])
  }

  /** `calculateGamma`: Gamma times Magnesium is Ash times Hue. */
  function CalculateGamma(r: Record): (g: real)
    requires GammaDefined(r)
    ensures g * r.attrs["Magnesium"] == r.attrs["Ash"] * r.attrs["Hue"]
  {
    r.attrs["Ash"] * r.attrs["Hue"] / r.attrs["Magnesium"]
  }

  /** The record after `ele.Gamma = calculateGamma(ele)`: the same class and
      measurements, plus (or with a new value for) Gamma. */
  function WithGamma(r: Record): (e: Record)
    requires GammaDefined(r)
    ensures e.alcohol == r.alcohol
    ensures e.attrs.Keys == r.attrs.Keys + {"Gamma"}
    ensures forall f :: f in r.attrs && f != "Gamma" ==> e.attrs[f] == r.attrs[f]
    ensures e.attrs["Gamma"] * r.attrs["Magnesium"] == r.attrs["Ash"] * r.attrs["Hue"]
    ensures GammaDefined(e)
  {
    r.(attrs := r.attrs["Gamma" := CalculateGamma(r)])
  }

  function EnrichGroup(s: seq<Record>): (t: seq<Record>)
    requires forall i :: 0 <= i < |s| ==> GammaDefined(s[i])
    ensures |t| == |s| && forall i :: 0 <= i < |s| ==> t[i] == WithGamma(s[i])
  {
    seq(|s|, i requires 0 <= i < |s| => WithGamma(s[i]))
  }

  /** Every group after the enrichment loop: the same keys and group sizes,
      each record keeping its class and its other measurements and gaining
      its Gamma and no other field. */
  function EnrichGroups(groups: map<int, seq<Record>>): (e: map<int, seq<Record>>)
    requires AllGammaDefined(groups)
    ensures e.Keys == groups.Keys
    ensures forall k :: k in groups ==> |e[k]| == |groups[k]| && HasField(e[k], "Gamma")
    ensures forall k, i :: k in groups && 0 <= i < |groups[k]| ==>
              && e[k][i].alcohol == groups[k][i].alcohol
              && e[k][i].attrs.Keys == groups[k][i].attrs.Keys + {"Gamma"}
              && e[k][i].attrs["Gamma"] * groups[k][i].attrs["Magnesium"]
                 == groups[k][i].attrs["Ash"] * groups[k][i].attrs["Hue"]
    ensures forall k, i, f :: k in groups && 0 <= i < |groups[k]| && f in groups[k][i].attrs && f != "Gamma" ==>
              f in e[k][i].attrs && e[k][i].attrs[f] == groups[k][i].attrs[f]
  {
    map k | k in groups :: EnrichGroup(groups[k])
  }

  /** Recomputing Gamma for a record that already has it changes nothing:
      Gamma is not one of its own inputs. */
  lemma WithGammaIdempotent(r: Record)
    requires GammaDefined(r)
    ensures WithGamma(WithGamma(r)) == WithGamma(r)
  {
    var e := WithGamma(r);
    assert CalculateGamma(e) == CalculateGamma(r);
    assert e.attrs["Gamma" := CalculateGamma(e)] == e.attrs;
  }

  /** Running the enrichment again, as every render of the Gamma table does on
      the same (mutated) groups, leaves the groups as they were after the
      first run. */
  lemma EnrichIsIdempotent(groups: map<int, seq<Record>>)
    requires AllGammaDefined(groups)
    ensures AllGammaDefined(EnrichGroups(groups))
    ensures EnrichGroups(EnrichGroups(groups)) == EnrichGroups(groups)
  {
    var e := EnrichGroups(groups);
    assert AllGammaDefined(e) by {
      forall k, i | k in e && 0 <= i < |e[k]| ensures GammaDefined(e[k][i]) {
        assert e[k][i] == WithGamma(groups[k][i]);
      }
    }
    var ee := EnrichGroups(e);
    forall k | k in e ensures ee[k] == e[k] {
      forall i | 0 <= i < |e[k]| ensures ee[k][i] == e[k][i] {
        assert e[k][i] == WithGamma(groups[k][i]);
        WithGammaIdempotent(groups[k][i]);
      }
    }
  }

  /** Adding Gamma leaves a group's values of any other measurement as
      they were. */
  lemma EnrichKeepsColumn(s: seq<Record>, field: string)
    requires forall i :: 0 <= i < |s| ==> GammaDefined(s[i])
    requires HasField(s, field) && field != "Gamma"
    ensures HasField(EnrichGroup(s), field)
    ensures Column(EnrichGroup(s), field) == Column(s, field)
  {
    var t := EnrichGroup(s);
    forall i | 0 <= i < |t| ensures field in t[i].attrs && t[i].attrs[field] == s[i].attrs[field] {
      assert field in s[i].attrs;
    }
  }

  /** Adding Gamma does not change the statistics of any other measurement,
      so the Flavanoids table is the same before and after the Gamma table
      mutates the shared groups. */
  lemma EnrichmentKeepsOtherStatistics(groups: map<int, seq<Record>>, field: string)
    requires AllGammaDefined(groups) && FieldInAllGroups(groups, field) && field != "Gamma"
    ensures FieldInAllGroups(EnrichGroups(groups), field)
    ensures Summarize(EnrichGroups(groups), field) == Summarize(groups, field)
  {
    var e := EnrichGroups(groups);
    forall k | k in groups
      ensures HasField(e[k], field) && Column(e[k], field) == Column(groups[k], field)
    {
      EnrichKeepsColumn(groups[k], field);
    }
    SummarizeReadsOnlyColumns(e, groups, field);
  }

  lemma NonEmptyHasElement(s: set<int>)
    requires s != {}
    ensures exists k :: k in s
  {
    if forall k :: k !in s {
      assert false;
    }
  }

  /** The groups the Gamma table works on, shared by reference with the rest
      of the page: the enrichment writes into them. */
  class GroupedDataset {
    var groups: map<int, seq<Record>>

    constructor (groups: map<int, seq<Record>>)
      ensures this.groups == groups
    {
      this.groups := groups;
    }

    /** The inner loop at src/App.js:104-106: every record of the group under
        `key`, one at a time, gets its Gamma; no other group changes. */
    method AddGammaToGroup(key: int)
      requires key in groups
      requires forall i :: 0 <= i < |groups[key]| ==> GammaDefined(groups[key][i])
      modifies this
      ensures groups == old(groups)[key := EnrichGroup(old(groups)[key])]
    {
      var entry := groups[key];
      ghost var original := entry;
      for j := 0 to |entry|
        invariant |entry| == |original|
        invariant forall i :: 0 <= i < j ==> entry[i] == WithGamma(original[i])
        invariant forall i :: j <= i < |entry| ==> entry[i] == original[i]
        invariant groups == old(groups)[key := entry]
      {
        entry := entry[j := WithGamma(entry[j])];
        groups := groups[key := entry];
      }
      assert entry == EnrichGroup(original);
    }

    /** The loop at src/App.js:103-107: every group in turn gets its records'
        Gamma. */
    method AddGamma()
      requires AllGammaDefined(groups)
      modifies this
      ensures groups == EnrichGroups(old(groups))
    {
      ghost var original := groups;
      var pending := groups.Keys;
      while pending != {}
        invariant pending <= original.Keys && groups.Keys == original.Keys
        invariant forall k :: k in pending ==> groups[k] == original[k]
        invariant forall k :: k in original && k !in pending ==> groups[k] == EnrichGroup(original[k])
        decreases pending
      {
        assert exists key :: key in pending by { NonEmptyHasElement(pending); }
        var key :| key in pending;
        AddGammaToGroup(key);
        pending := pending - {key};
      }
      forall k | k in original ensures groups[k] == EnrichGroups(original)[k] {
      }
    }

    /** `GammaStatsTable` without its markup: enrich the groups in place,
        then summarize their Gamma values. */
    method GammaStatistics() returns (r: Option<map<int, Summary>>)
      requires AllGammaDefined(groups)
      modifies this
      ensures groups == EnrichGroups(old(groups))
      ensures FieldInAllGroups(groups, "Gamma") && r == Summarize(groups, "Gamma")
      ensures r.None? <==> exists k :: k in groups && groups[k] == []
    {
      AddGamma();
      r := Summarize(groups, "Gamma");
    }
  }
}
