/** `structuredDataObject`: mean, median and mode of one field for every group. */
module Aggregation {
  import opened Records
  import opened Statistics
  import opened Mode
  import opened Grouping

  /** The `{mean, median, mode}` entry of one group. */
  datatype Summary = Summary(mean: real, median: real, mode: real)

  /** The three statistics of a non-empty group's values, each rounded. */
  function SummaryOf(xs: seq<real>): Summary
    requires xs != []
  {
    Summary(CalculateMean(xs).value, CalculateMedian(xs).value, RoundToThree(ModeOf(xs).value))
  }

  /** Every record of every group carries `field`. */
  predicate FieldInAllGroups(groups: map<int, seq<Record>>, field: string)
  {
    forall k :: k in groups ==> HasField(groups[k], field)
  }

  /** `structuredDataObject(data, type)`. The entries are computed key by key;
      an empty group makes `calculateMedian` throw, so the whole call throws
      (None). Otherwise there is exactly one entry per group key, computed
      from that group's values of `field` alone. */
  function Summarize(groups: map<int, seq<Record>>, field: string): (r: Option<map<int, Summary>>)
    requires FieldInAllGroups(groups, field)
    ensures r.None? <==> exists k :: k in groups && groups[k] == []
    ensures r.Some? ==> r.value.Keys == groups.Keys
    ensures r.Some? ==> forall k :: k in groups ==>
              |Column(groups[k], field)| > 0 && r.value[k] == SummaryOf(Column(groups[k], field))
  {
    if exists k :: k in groups && groups[k] == [] then None
    else Some(SummaryMap(groups, field))
  }

  /** The entry of every group, when no group is empty. */
  function SummaryMap(groups: map<int, seq<Record>>, field: string): (m: map<int, Summary>)
    requires FieldInAllGroups(groups, field)
    requires forall k :: k in groups ==> groups[k] != []
    ensures m.Keys == groups.Keys
  {
    map k | k in groups :: SummaryOf(Column(groups[k], field))
  }

  /** The statistics of two groupings with the same keys and the same values
      of `field`, group by group, are the same: nothing else is read. */
  lemma SummarizeReadsOnlyColumns(g: map<int, seq<Record>>, h: map<int, seq<Record>>, field: string)
    requires FieldInAllGroups(g, field) && FieldInAllGroups(h, field)
    requires g.Keys == h.Keys
    requires forall k :: k in g ==> Column(g[k], field) == Column(h[k], field)
    ensures Summarize(g, field) == Summarize(h, field)
  {
    forall k | k in g ensures g[k] == [] <==> h[k] == [] {
      assert |Column(g[k], field)| == |Column(h[k], field)|;
    }
    var sg := Summarize(g, field);
    var sh := Summarize(h, field);
    assert sg.None? == sh.None?;
    if sg.Some? {
      forall k | k in g ensures sg.value[k] == sh.value[k] {
        assert Column(g[k], field) == Column(h[k], field);
      }
      assert sg.value.Keys == g.Keys == sh.value.Keys;
      SameEntriesSameMap(sg.value, sh.value);
    }
  }

  lemma SameEntriesSameMap(a: map<int, Summary>, b: map<int, Summary>)
    requires a.Keys == b.Keys && forall k :: k in a ==> a[k] == b[k]
    ensures a == b
  {
    forall k | k in a ensures k in b && a[k] == b[k] {}
    forall k | k in b ensures k in a {}
  }

  /** A field present in every record is present in every group, whichever
      grouping is used, because groups hold records of the dataset. */
  lemma GroupsHaveField(data: seq<Record>, field: string)
    requires HasField(data, field)
    ensures FieldInAllGroups(GroupedAsWritten(data), field)
    ensures FieldInAllGroups(GroupedIntended(data), field)
  {
    forall k | k in Classes(data)
      ensures HasField(Members(data, k), field)
    {
      MembersInDatasetOrder(data, k);
    }
    forall k | k in Classes(data)
      ensures HasField(GroupedAsWritten(data)[k], field)
    {
      MembersNonEmptyIffClass(data, k);
      var m := Members(data, k);
      assert GroupedAsWritten(data)[k] == m[1..];
      forall i | 0 <= i < |m| - 1 ensures field in m[1..][i].attrs {
        assert m[1..][i] == m[i + 1];
      }
    }
  }

  /** With the grouping as written, the statistics throw exactly when some
      Alcohol class occurs only once in the dataset. */
  lemma AsWrittenSummaryFailsIffClassSeenOnce(data: seq<Record>, field: string)
    requires HasField(data, field)
    ensures FieldInAllGroups(GroupedAsWritten(data), field)
    ensures Summarize(GroupedAsWritten(data), field).None? <==>
              exists k :: k in Classes(data) && Occurrences(data, k) == 1
  {
    GroupsHaveField(data, field);
    var g := GroupedAsWritten(data);
    forall k | k in g ensures g[k] == [] <==> Occurrences(data, k) == 1 {
      assert |g[k]| == Occurrences(data, k) - 1;
    }
  }

  /** With the intended grouping every group is non-empty, so the statistics
      never throw. */
  lemma IntendedSummaryNeverFails(data: seq<Record>, field: string)
    requires HasField(data, field)
    ensures FieldInAllGroups(GroupedIntended(data), field)
    ensures Summarize(GroupedIntended(data), field).Some?
    ensures Summarize(GroupedIntended(data), field).value.Keys == Classes(data)
  {
    GroupsHaveField(data, field);
  }
}
