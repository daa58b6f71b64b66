/**
 * The aggregation behind the analytics page: members counted per governing body,
 * candidate lists counted per owner (cut to five chart entries with shortened
 * labels) and the three headline totals.
 */
module Insights {
  import opened Wrappers
  import opened Seqs
  import opened Text

  /** One bar or slice of a chart: a label and a count. */
  datatype Entry = Entry(name: string, value: nat)

  /** What the page shows; the recent-activity series is not part of this model. */
  datatype InsightsData = InsightsData(
    totalAEs: nat,
    totalMembers: nat,
    totalUsers: nat,
    orgaoDistribution: seq<Entry>,
    aesByUser: seq<Entry>)

  /** Owner key of a list that has no owner. */
  const NoUser: string := "Sem utilizador"

  /** How many entries the per-owner chart keeps. */
  const ChartSize: nat := 5

  /** How many characters of an owner key the chart label keeps. */
  const LabelLength: nat := 8

  // ---------------------------------------------------------------------------
  // Counting per key: the specification

  /**
   * The entries of a JavaScript `Map` filled by counting `keys`: one entry per
   * distinct key, in order of first insertion, with its number of occurrences.
   */
  function Tallied(keys: seq<string>): seq<Entry> {
    var d := Distinct(keys);
    seq(|d|, i requires 0 <= i < |d| => Entry(d[i], Count(keys, d[i])))
  }

  /** Sum of the counts of a chart. */
  function Sum(es: seq<Entry>): nat {
    if es == [] then 0 else Sum(es[..|es| - 1]) + es[|es| - 1].value
  }

  lemma {:induction false} SumIsTotalCount(ks: seq<string>, keys: seq<string>)
    ensures Sum(seq(|ks|, i requires 0 <= i < |ks| => Entry(ks[i], Count(keys, ks[i])))) == TotalCount(ks, keys)
  {
    if ks != [] {
      var init := ks[..|ks| - 1];
      SumIsTotalCount(init, keys);
      var es := seq(|ks|, i requires 0 <= i < |ks| => Entry(ks[i], Count(keys, ks[i])));
      assert es[..|es| - 1] == seq(|init|, i requires 0 <= i < |init| => Entry(init[i], Count(keys, init[i])));
    }
  }

  /** The counts add up to the number of input rows. */
  lemma TalliedSum(keys: seq<string>)
    ensures Sum(Tallied(keys)) == |keys|
  {
    SumIsTotalCount(Distinct(keys), keys);
    DistinctCountsSum(keys);
  }

  /**
   * One entry per distinct key, in first-appearance order, with a count of at
   * least one that is the key's number of occurrences.
   */
  lemma TalliedShape(keys: seq<string>)
    ensures forall a, b :: 0 <= a < b < |Tallied(keys)| ==> Tallied(keys)[a].name != Tallied(keys)[b].name
    ensures forall k :: k in keys <==> exists i :: 0 <= i < |Tallied(keys)| && Tallied(keys)[i].name == k
    ensures forall i :: 0 <= i < |Tallied(keys)| ==> Tallied(keys)[i].name in keys
    ensures forall i :: 0 <= i < |Tallied(keys)| ==>
              1 <= Tallied(keys)[i].value == Count(keys, Tallied(keys)[i].name)
    ensures forall a, b :: 0 <= a < b < |Tallied(keys)| ==>
              FirstIndex(keys, Tallied(keys)[a].name) < FirstIndex(keys, Tallied(keys)[b].name)
  {
    var t, d := Tallied(keys), Distinct(keys);
    DistinctUnique(keys);
    forall k | k in keys ensures exists i :: 0 <= i < |t| && t[i].name == k {
      DistinctHas(keys, k);
      var i :| 0 <= i < |d| && d[i] == k;
      assert t[i].name == k;
    }
    forall i | 0 <= i < |t| ensures t[i].name in keys {
      DistinctHas(keys, d[i]);
    }
    forall a, b | 0 <= a < b < |t|
      ensures FirstIndex(keys, t[a].name) < FirstIndex(keys, t[b].name)
    {
      DistinctFirstAppearanceOrder(keys, a, b);
    }
  }

  // ---------------------------------------------------------------------------
  // Counting per key: the page's loop

  /** `order` and `counts` are the key order and the counters of a `Map` that has counted `prefix`. */
  ghost predicate Counted(prefix: seq<string>, order: seq<string>, counts: map<string, nat>) {
    && order == Distinct(prefix)
    && (forall k :: k in counts <==> k in order)
    && (forall k :: k in counts ==> counts[k] == Count(prefix, k))
  }

  /** One `set(key, (get(key) || 0) + 1)` keeps the map in step with one more row. */
  lemma CountedStep(prefix: seq<string>, order: seq<string>, counts: map<string, nat>, k: string)
    requires Counted(prefix, order, counts)
    ensures Counted(prefix + [k], if k in counts then order else order + [k],
                    counts[k := (if k in counts then counts[k] else 0) + 1])
  {
    DistinctSnoc(prefix, k);
    DistinctHas(prefix, k);
    forall x ensures Count(prefix + [k], x) == Count(prefix, x) + (if k == x then 1 else 0) {
      CountSnoc(prefix, k, x);
    }
  }

  /**
   * The `forEach` that reads a counter with `get(key) || 0` and stores it back
   * incremented; a `Map` is modelled by its key order and its key-to-count map.
   */
  method Tally(keys: seq<string>) returns (es: seq<Entry>)
    ensures es == Tallied(keys)
  {
    var order: seq<string> := [];
    var counts: map<string, nat> := map[];
    for i := 0 to |keys|
      invariant Counted(keys[..i], order, counts)
    {
      var k := keys[i];
      CountedStep(keys[..i], order, counts, k);
      assert keys[..i + 1] == keys[..i] + [k];
      var current := if k in counts then counts[k] else 0;
      if k !in counts {
        order := order + [k];
      }
      counts := counts[k := current + 1];
    }
    assert keys[..|keys|] == keys;
    es := seq(|order|, i requires 0 <= i < |order| => Entry(order[i], counts[order[i]]));
    CountedIsTallied(keys, order, counts, es);
  }

  /** Reading a map that has counted all the keys, in key order, gives their tally. */
  lemma CountedIsTallied(keys: seq<string>, order: seq<string>, counts: map<string, nat>, es: seq<Entry>)
    requires Counted(keys, order, counts)
    requires |es| == |order| && forall i :: 0 <= i < |order| ==> es[i] == Entry(order[i], counts[order[i]])
    ensures es == Tallied(keys)
  {
    var t := Tallied(keys);
    forall i | 0 <= i < |es| ensures es[i] == t[i] {
      assert order[i] in counts;
    }
  }

  // ---------------------------------------------------------------------------
  // Lists per owner

  /** The owner key of a list: its `user_id`, or "Sem utilizador" when that is null or empty. */
  function UserKey(userId: Option<string>): (k: string)
    ensures userId.Some? && userId.value != "" ==> k == userId.value
    ensures userId.None? || userId.value == "" ==> k == NoUser
  {
    if userId.Some? && userId.value != "" then userId.value else NoUser
  }

  /** The chart label of an owner key: its first eight characters and "...". */
  function Label(key: string): (l: string)
    ensures |l| == (if |key| < LabelLength then |key| else LabelLength) + 3
    ensures StartsWith(key, l[..|l| - 3]) && l[|l| - 3..] == "..."
  {
    Prefix(key, LabelLength) + "..."
  }

  function UserKeys(userIds: seq<Option<string>>): (ks: seq<string>)
    ensures |ks| == |userIds| && forall i :: 0 <= i < |ks| ==> ks[i] == UserKey(userIds[i])
  {
    seq(|userIds|, i requires 0 <= i < |userIds| => UserKey(userIds[i]))
  }

  /**
   * The per-owner chart: the owners in order of first appearance with their list
   * counts, relabelled, and cut to the first five.
   */
  function ByUserChart(userIds: seq<Option<string>>): seq<Entry> {
    var t := Tallied(UserKeys(userIds));
    var n := if |t| < ChartSize then |t| else ChartSize;
    seq(n, i requires 0 <= i < n => Entry(Label(t[i].name), t[i].value))
  }

  /**
   * The page's per-owner count: keys are computed per row, counted with the same
   * `Map` loop, relabelled and sliced to five.
   */
  method AesByUser(userIds: seq<Option<string>>) returns (chart: seq<Entry>)
    ensures chart == ByUserChart(userIds)
    ensures |chart| <= ChartSize
  {
    var counted := Tally(UserKeys(userIds));
    var n := if |counted| < ChartSize then |counted| else ChartSize;
    chart := seq(n, i requires 0 <= i < n => Entry(Label(counted[i].name), counted[i].value));
  }

  /**
   * The chart holds the first five owners by first appearance, with their full
   * counts; it holds every owner, and the counts add up to the number of lists,
   * exactly when there are at most five owners.
   */
  lemma ByUserChartSpec(userIds: seq<Option<string>>)
    ensures var d := Distinct(UserKeys(userIds));
      && |ByUserChart(userIds)| == (if |d| < ChartSize then |d| else ChartSize)
      && (forall i :: 0 <= i < |ByUserChart(userIds)| ==>
            ByUserChart(userIds)[i] == Entry(Label(d[i]), Count(UserKeys(userIds), d[i])))
    ensures Sum(ByUserChart(userIds)) <= |userIds|
    ensures |Distinct(UserKeys(userIds))| <= ChartSize ==> Sum(ByUserChart(userIds)) == |userIds|
  {
    ByUserChartSum(userIds);
  }

  /** The chart's counts are those of the first owners' entries of the tally. */
  lemma ByUserChartSum(userIds: seq<Option<string>>)
    ensures Sum(ByUserChart(userIds)) <= |userIds|
    ensures |Distinct(UserKeys(userIds))| <= ChartSize ==> Sum(ByUserChart(userIds)) == |userIds|
  {
    var t := Tallied(UserKeys(userIds));
    var c := ByUserChart(userIds);
    TalliedSum(UserKeys(userIds));
    SumPrefix(t, |c|);
    SumSameCounts(c, t[..|c|]);
    if |t| <= ChartSize {
      assert t[..|c|] == t;
    }
  }

  lemma {:induction false} SumPrefix(es: seq<Entry>, n: nat)
    requires n <= |es|
    ensures Sum(es[..n]) <= Sum(es)
    decreases |es|
  {
    if n < |es| {
      assert es[..|es| - 1][..n] == es[..n];
      SumPrefix(es[..|es| - 1], n);
    } else {
      assert es[..n] == es;
    }
  }

  lemma {:induction false} SumSameCounts(a: seq<Entry>, b: seq<Entry>)
    requires |a| == |b| && forall i :: 0 <= i < |a| ==> a[i].value == b[i].value
    ensures Sum(a) == Sum(b)
  {
    if a != [] {
      SumSameCounts(a[..|a| - 1], b[..|b| - 1]);
    }
  }

  /**
   * Despite the chart's "Top 5" title the cut keeps the first five owners, not the
   * five largest: a sixth owner with two lists is dropped while owners with one
   * list are kept.
   */
  lemma ChartIsNotTopFive()
    ensures var ids := [Some("u1"), Some("u2"), Some("u3"), Some("u4"), Some("u5"), Some("u6"), Some("u6")];
      && |ByUserChart(ids)| == 5
      && (forall i :: 0 <= i < 5 ==> ByUserChart(ids)[i].value == 1)
      && Count(UserKeys(ids), "u6") == 2
  {
    var ids := [Some("u1"), Some("u2"), Some("u3"), Some("u4"), Some("u5"), Some("u6"), Some("u6")];
    var owners := ["u1", "u2", "u3", "u4", "u5", "u6"];
    var keys := UserKeys(ids);
    assert keys == owners + ["u6"];
    DistinctOfUnique(owners);
    assert owners[5] == "u6";
    DistinctSnoc(owners, "u6");
    var t := Tallied(keys);
    assert |t| == 6;
    forall i | 0 <= i < 5 ensures t[i].value == 1 {
      CountSnoc(owners, "u6", owners[i]);
      CountOfUnique(owners, owners[i]);
    }
    CountSnoc(owners, "u6", "u6");
    CountOfUnique(owners, "u6");
  }

  // ---------------------------------------------------------------------------
  // The whole aggregation

  /**
   * `fetchInsights` after its queries: the query answers are parameters, a missing
   * answer is `None`, and a missing count or row set shows as 0.
   */
  method FetchInsights(aesCount: Option<nat>, aesUserIds: Option<seq<Option<string>>>,
                       memberOrgaos: Option<seq<string>>, usersCount: Option<nat>)
    returns (data: InsightsData)
    ensures data.totalAEs == aesCount.GetOr(0) && data.totalUsers == usersCount.GetOr(0)
    ensures data.totalMembers == |memberOrgaos.GetOr([])|
    ensures data.orgaoDistribution == Tallied(memberOrgaos.GetOr([]))
    ensures data.totalMembers == Sum(data.orgaoDistribution)
    ensures data.aesByUser == ByUserChart(aesUserIds.GetOr([]))
    ensures |data.aesByUser| <= ChartSize
  {
    var orgaos := if memberOrgaos.Some? then memberOrgaos.value else [];
    var distribution := Tally(orgaos);
    TalliedSum(orgaos);
    var byUser := AesByUser(if aesUserIds.Some? then aesUserIds.value else []);
    data := InsightsData(
      if aesCount.Some? then aesCount.value else 0,
      if memberOrgaos.Some? then |memberOrgaos.value| else 0,
      if usersCount.Some? then usersCount.value else 0,
      distribution,
      byUser);
  }
}
