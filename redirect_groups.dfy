/**
 * The report's grouping step (`groupRedirectsByTarget` in redirect_analyzer.js):
 * the results of the chain analysis are grouped by the target they end at, and
 * the groups are ordered by how many sources lead to them.
 */
module RedirectGroups {
  import opened RedirectChains

  /** One source of a group: the chain that reaches the target and the path it starts from. */
  datatype SourceEntry = SourceEntry(chain: seq<string>, source: string)

  /** A group per final target; the detail field is taken from the first chain that reached it. */
  datatype TargetGroup =
    | ValidGroup(target: string, finalFile: string, sources: seq<SourceEntry>)
    | ExternalGroup(target: string, externalUrl: string, sources: seq<SourceEntry>)
    | MissingGroup(target: string, missingFile: string, sources: seq<SourceEntry>)

  /** Results a grouping pass can read: each ends at a target and has a first path. */
  predicate Groupable(rs: seq<ChainResult>)
  {
    forall i :: 0 <= i < |rs| ==> !rs[i].Circular? && |rs[i].chain| > 0
  }

  function Entry(r: ChainResult): SourceEntry
    requires |r.chain| > 0
  {
    SourceEntry(r.chain, r.chain[0])
  }

  /** The object created the first time a target is met, before any source is pushed. */
  function NewGroup(r: ChainResult): (g: TargetGroup)
    requires !r.Circular?
    ensures g.target == r.finalTarget && g.sources == []
    ensures r.Valid? <==> g.ValidGroup?
    ensures r.External? <==> g.ExternalGroup?
    ensures r.MissingFile? <==> g.MissingGroup?
  {
    match r
    case Valid(_, t, f) => ValidGroup(t, f, [])
    case External(_, t, u) => ExternalGroup(t, u, [])
    case MissingFile(_, t, f, _) => MissingGroup(t, f, [])
  }

  // ---------------------------------------------------------------------------
  // The reference definition of the grouping

  /** The results that end at `t`, in their original order. */
  function Bucket(rs: seq<ChainResult>, t: string): (b: seq<ChainResult>)
    requires Groupable(rs)
    ensures Groupable(b)
    ensures forall i :: 0 <= i < |b| ==> b[i].finalTarget == t
  {
    if rs == [] then []
    else
      var n := |rs| - 1;
      Bucket(rs[..n], t) + (if rs[n].finalTarget == t then [rs[n]] else [])
  }

  /** The final targets, each once, in the order of their first appearance. */
  function Targets(rs: seq<ChainResult>): (ts: seq<string>)
    requires Groupable(rs)
    ensures forall i, j :: 0 <= i < j < |ts| ==> ts[i] != ts[j]
    ensures forall t :: t in ts <==> Bucket(rs, t) != []
  {
    if rs == [] then []
    else
      var n := |rs| - 1;
      GroupablePrefix(rs);
      var ts := Targets(rs[..n]);
      var t := rs[n].finalTarget;
      assert forall u :: Bucket(rs, u) != [] <==> Bucket(rs[..n], u) != [] || u == t;
      if t in ts then ts else ts + [t]
  }

  lemma GroupablePrefix(rs: seq<ChainResult>)
    requires Groupable(rs) && rs != []
    ensures Groupable(rs[..|rs| - 1])
  {
    var n := |rs| - 1;
    assert forall i :: 0 <= i < n ==> rs[..n][i] == rs[i];
  }

  function Entries(b: seq<ChainResult>): seq<SourceEntry>
    requires Groupable(b)
  {
    seq(|b|, k requires 0 <= k < |b| => Entry(b[k]))
  }

  /** The group of target `t`: made from the first result that reaches it, holding all of them. */
  function GroupOf(rs: seq<ChainResult>, t: string): TargetGroup
    requires Groupable(rs) && Bucket(rs, t) != []
  {
    var b := Bucket(rs, t);
    NewGroup(b[0]).(sources := Entries(b))
  }

  /** All groups, in the order their targets first appear. */
  function GroupsOf(rs: seq<ChainResult>): seq<TargetGroup>
    requires Groupable(rs)
  {
    var ts := Targets(rs);
    seq(|ts|, k requires 0 <= k < |ts| => GroupOf(rs, ts[k]))
  }

  lemma GroupableSnoc(p: seq<ChainResult>, r: ChainResult)
    requires Groupable(p) && !r.Circular? && |r.chain| > 0
    ensures Groupable(p + [r]) && (p + [r])[..|p|] == p && (p + [r])[|p|] == r
  {
  }

  /** How the reference grouping changes when one more result arrives. */
  lemma BucketSnoc(p: seq<ChainResult>, r: ChainResult, u: string)
    requires Groupable(p) && !r.Circular? && |r.chain| > 0
    ensures Groupable(p + [r])
    ensures Bucket(p + [r], u) == Bucket(p, u) + (if r.finalTarget == u then [r] else [])
  {
    GroupableSnoc(p, r);
  }

  lemma TargetsSnoc(p: seq<ChainResult>, r: ChainResult)
    requires Groupable(p) && !r.Circular? && |r.chain| > 0
    ensures Groupable(p + [r])
    ensures Targets(p + [r]) == if r.finalTarget in Targets(p) then Targets(p) else Targets(p) + [r.finalTarget]
  {
    GroupableSnoc(p, r);
  }

  lemma OtherGroupUnchanged(p: seq<ChainResult>, r: ChainResult, u: string)
    requires Groupable(p) && !r.Circular? && |r.chain| > 0
    requires r.finalTarget != u && Bucket(p, u) != []
    ensures Groupable(p + [r]) && Bucket(p + [r], u) != []
    ensures GroupOf(p + [r], u) == GroupOf(p, u)
  {
    GroupableSnoc(p, r);
    assert Bucket(p + [r], u) == Bucket(p, u);
  }

  lemma JoinExistingGroup(p: seq<ChainResult>, r: ChainResult, u: string)
    requires Groupable(p) && !r.Circular? && |r.chain| > 0
    requires r.finalTarget == u && Bucket(p, u) != []
    ensures Groupable(p + [r])
    ensures GroupOf(p + [r], u) == GroupOf(p, u).(sources := GroupOf(p, u).sources + [Entry(r)])
  {
    BucketSnoc(p, r, u);
    var b := Bucket(p, u);
    EntriesSnoc(b, r);
    assert (b + [r])[0] == b[0];
  }

  lemma OpenNewGroup(p: seq<ChainResult>, r: ChainResult, u: string)
    requires Groupable(p) && !r.Circular? && |r.chain| > 0
    requires r.finalTarget == u && Bucket(p, u) == []
    ensures Groupable(p + [r])
    ensures GroupOf(p + [r], u) == NewGroup(r).(sources := [Entry(r)])
  {
    BucketSnoc(p, r, u);
    var b := Bucket(p, u);
    EntriesSnoc(b, r);
    assert Entries(b) == [];
    assert (b + [r])[0] == r;
  }

  lemma EntriesSnoc(b: seq<ChainResult>, r: ChainResult)
    requires Groupable(b) && !r.Circular? && |r.chain| > 0
    ensures Groupable(b + [r]) && Entries(b + [r]) == Entries(b) + [Entry(r)]
  {
    GroupableSnoc(b, r);
    assert forall k :: 0 <= k < |b| ==> (b + [r])[k] == b[k];
  }

  // ---------------------------------------------------------------------------
  // The grouping loop

  /** The dictionary and its insertion order hold exactly the reference groups of `p`. */
  ghost predicate Grouped(p: seq<ChainResult>, byTarget: map<string, TargetGroup>, order: seq<string>)
  {
    && Groupable(p)
    && order == Targets(p)
    && (forall t :: t in byTarget <==> t in order)
    && (forall t :: t in byTarget ==> Bucket(p, t) != [] && byTarget[t] == GroupOf(p, t))
  }

  /** One `forEach` callback keeps the dictionary equal to the reference groups. */
  lemma GroupedStep(p: seq<ChainResult>, r: ChainResult, by0: map<string, TargetGroup>, order0: seq<string>,
                    by1: map<string, TargetGroup>, order1: seq<string>, by2: map<string, TargetGroup>)
    requires Grouped(p, by0, order0) && !r.Circular? && |r.chain| > 0
    requires r.finalTarget in by0 ==> by1 == by0 && order1 == order0
    requires r.finalTarget !in by0 ==> by1 == by0[r.finalTarget := NewGroup(r)] && order1 == order0 + [r.finalTarget]
    requires r.finalTarget in by1
    requires by2 == by1[r.finalTarget := by1[r.finalTarget].(sources := by1[r.finalTarget].sources + [Entry(r)])]
    ensures Grouped(p + [r], by2, order1)
  {
    assert order1 == Targets(p + [r]) && Groupable(p + [r]) by {
      TargetsSnoc(p, r);
    }
    assert forall u :: u in by2 <==> u in order1;
    forall u | u in by2
      ensures Bucket(p + [r], u) != [] && by2[u] == GroupOf(p + [r], u)
    {
      GroupedStepAt(p, r, by0, by1, by2, u);
    }
  }

  lemma GroupedStepAt(p: seq<ChainResult>, r: ChainResult, by0: map<string, TargetGroup>,
                      by1: map<string, TargetGroup>, by2: map<string, TargetGroup>, u: string)
    requires Groupable(p) && !r.Circular? && |r.chain| > 0
    requires forall t :: t in by0 ==> Bucket(p, t) != [] && by0[t] == GroupOf(p, t)
    requires r.finalTarget in by0 ==> by1 == by0
    requires r.finalTarget !in by0 ==> by1 == by0[r.finalTarget := NewGroup(r)] && Bucket(p, r.finalTarget) == []
    requires r.finalTarget in by1
    requires by2 == by1[r.finalTarget := by1[r.finalTarget].(sources := by1[r.finalTarget].sources + [Entry(r)])]
    requires u in by2
    ensures Groupable(p + [r]) && Bucket(p + [r], u) != [] && by2[u] == GroupOf(p + [r], u)
  {
    if u != r.finalTarget {
      OtherGroupUnchanged(p, r, u);
    } else {
      GroupedStepAtTarget(p, r, by0, by1);
    }
  }

  lemma GroupedStepAtTarget(p: seq<ChainResult>, r: ChainResult, by0: map<string, TargetGroup>, by1: map<string, TargetGroup>)
    requires Groupable(p) && !r.Circular? && |r.chain| > 0
    requires forall t :: t in by0 ==> Bucket(p, t) != [] && by0[t] == GroupOf(p, t)
    requires r.finalTarget in by0 ==> by1 == by0
    requires r.finalTarget !in by0 ==> by1 == by0[r.finalTarget := NewGroup(r)] && Bucket(p, r.finalTarget) == []
    ensures Groupable(p + [r]) && r.finalTarget in by1 && Bucket(p + [r], r.finalTarget) != []
    ensures by1[r.finalTarget].(sources := by1[r.finalTarget].sources + [Entry(r)]) == GroupOf(p + [r], r.finalTarget)
  {
    var t := r.finalTarget;
    if t in by0 {
      JoinExistingGroup(p, r, t);
    } else {
      OpenNewGroup(p, r, t);
      assert by1[t].sources + [Entry(r)] == [Entry(r)];
    }
    BucketSnoc(p, r, t);
  }

  /** Reading the dictionary back in insertion order gives the reference grouping. */
  lemma GroupedValues(rs: seq<ChainResult>, byTarget: map<string, TargetGroup>, order: seq<string>)
    requires Grouped(rs, byTarget, order)
    ensures forall k :: 0 <= k < |order| ==> order[k] in byTarget
    ensures seq(|order|, k requires 0 <= k < |order| => byTarget[order[k]]) == GroupsOf(rs)
  {
  }

  /**
   * One `forEach` pass of lines 131-145 (and likewise 149-163, 167-181): a
   * dictionary from target to group, read back in insertion order.
   */
  method GroupByTarget(rs: seq<ChainResult>) returns (groups: seq<TargetGroup>)
    requires Groupable(rs)
    ensures groups == GroupsOf(rs)
  {
    var byTarget: map<string, TargetGroup> := map[];
    var order: seq<string> := [];
    for i := 0 to |rs|
      invariant Grouped(rs[..i], byTarget, order)
    {
      var r := rs[i];
      var t := r.finalTarget;
      assert rs[..i + 1] == rs[..i] + [r];
      ghost var by0, order0 := byTarget, order;
      if t !in byTarget {
        byTarget := byTarget[t := NewGroup(r)];
        order := order + [t];
      }
      ghost var by1 := byTarget;
      byTarget := byTarget[t := byTarget[t].(sources := byTarget[t].sources + [Entry(r)])];
      GroupedStep(rs[..i], r, by0, order0, by1, order, byTarget);
    }
    assert rs[..|rs|] == rs;
    GroupedValues(rs, byTarget, order);
    groups := seq(|order|, k requires 0 <= k < |order| => byTarget[order[k]]);
  }

  // ---------------------------------------------------------------------------
  // What the grouping promises

  /** The number of sources over all groups. */
  function Total(gs: seq<TargetGroup>): nat
  {
    if gs == [] then 0 else |gs[0].sources| + Total(gs[1..])
  }

  lemma {:induction false} TotalAppend(a: seq<TargetGroup>, b: seq<TargetGroup>)
    ensures Total(a + b) == Total(a) + Total(b)
  {
    if a == [] {
      assert a + b == b;
    } else {
      assert (a + b)[1..] == a[1..] + b;
      TotalAppend(a[1..], b);
    }
  }

  lemma {:induction false} TotalGrow(gs: seq<TargetGroup>, k: nat, e: SourceEntry)
    requires k < |gs|
    ensures Total(gs[k := gs[k].(sources := gs[k].sources + [e])]) == Total(gs) + 1
  {
    if k == 0 {
      assert gs[k := gs[k].(sources := gs[k].sources + [e])][1..] == gs[1..];
    } else {
      assert gs[k := gs[k].(sources := gs[k].sources + [e])][1..] == gs[1..][k - 1 := gs[k].(sources := gs[k].sources + [e])];
      TotalGrow(gs[1..], k - 1, e);
    }
  }

  /** The k-th group belongs to the k-th target. */
  lemma GroupTargets(rs: seq<ChainResult>)
    requires Groupable(rs)
    ensures |GroupsOf(rs)| == |Targets(rs)|
    ensures forall k :: 0 <= k < |GroupsOf(rs)| ==> GroupsOf(rs)[k].target == Targets(rs)[k]
  {
  }

  /** A result whose target already has a group grows that group by one entry. */
  lemma GroupsOfSnocExisting(p: seq<ChainResult>, r: ChainResult, k: nat)
    requires Groupable(p) && !r.Circular? && |r.chain| > 0
    requires k < |Targets(p)| && Targets(p)[k] == r.finalTarget
    ensures Groupable(p + [r]) && k < |GroupsOf(p)| && GroupsOf(p)[k].target == r.finalTarget
    ensures GroupsOf(p + [r]) == GroupsOf(p)[k := GroupsOf(p)[k].(sources := GroupsOf(p)[k].sources + [Entry(r)])]
  {
    var gs, ts := GroupsOf(p), Targets(p);
    TargetsSnoc(p, r);
    GroupTargets(p);
    var gs' := gs[k := gs[k].(sources := gs[k].sources + [Entry(r)])];
    var hs := GroupsOf(p + [r]);
    assert |hs| == |gs'|;
    forall j | 0 <= j < |ts| ensures hs[j] == gs'[j] {
      if j == k {
        JoinExistingGroup(p, r, ts[j]);
      } else {
        OtherGroupUnchanged(p, r, ts[j]);
      }
    }
  }

  /** A result with a new target appends a group holding just that result. */
  lemma GroupsOfSnocNew(p: seq<ChainResult>, r: ChainResult)
    requires Groupable(p) && !r.Circular? && |r.chain| > 0
    requires r.finalTarget !in Targets(p)
    ensures Groupable(p + [r])
    ensures GroupsOf(p + [r]) == GroupsOf(p) + [NewGroup(r).(sources := [Entry(r)])]
  {
    var gs, ts := GroupsOf(p), Targets(p);
    TargetsSnoc(p, r);
    var gs' := gs + [NewGroup(r).(sources := [Entry(r)])];
    var hs := GroupsOf(p + [r]);
    assert |hs| == |gs'|;
    forall j | 0 <= j < |ts| + 1 ensures hs[j] == gs'[j] {
      if j == |ts| {
        OpenNewGroup(p, r, r.finalTarget);
      } else {
        OtherGroupUnchanged(p, r, ts[j]);
      }
    }
  }

  /** Every result is counted once: the groups hold as many sources as there were results. */
  lemma {:induction false} GroupsCountEveryResultOnce(rs: seq<ChainResult>)
    requires Groupable(rs)
    ensures Total(GroupsOf(rs)) == |rs|
  {
    if rs != [] {
      var n := |rs| - 1;
      var p, r := rs[..n], rs[n];
      assert rs == p + [r];
      GroupsCountEveryResultOnce(p);
      TotalSnoc(p, r);
    }
  }

  lemma TotalSnoc(p: seq<ChainResult>, r: ChainResult)
    requires Groupable(p) && !r.Circular? && |r.chain| > 0
    ensures Groupable(p + [r]) && Total(GroupsOf(p + [r])) == Total(GroupsOf(p)) + 1
  {
    var gs := GroupsOf(p);
    if r.finalTarget in Targets(p) {
      var k :| 0 <= k < |Targets(p)| && Targets(p)[k] == r.finalTarget;
      GroupsOfSnocExisting(p, r, k);
      TotalGrow(gs, k, Entry(r));
    } else {
      GroupsOfSnocNew(p, r);
      TotalAppend(gs, [NewGroup(r).(sources := [Entry(r)])]);
      assert Total([NewGroup(r).(sources := [Entry(r)])]) == 1;
    }
  }

  /** The bucket of a target holds exactly the results that end there. */
  lemma {:induction false} BucketMembers(rs: seq<ChainResult>, t: string, x: ChainResult)
    requires Groupable(rs)
    ensures x in Bucket(rs, t) <==> x in rs && x.finalTarget == t
  {
    if rs != [] {
      var n := |rs| - 1;
      BucketMembers(rs[..n], t, x);
      assert rs == rs[..n] + [rs[n]];
    }
  }

  /** No result before the first one reaching `t` ends at `t`. */
  predicate FirstReaching(rs: seq<ChainResult>, t: string, i: int)
    requires Groupable(rs)
  {
    && 0 <= i < |rs| && rs[i].finalTarget == t
    && (forall j :: 0 <= j < i ==> rs[j].finalTarget != t)
  }

  /** The bucket of a target starts with the first result that ends there. */
  lemma {:induction false} BucketHead(rs: seq<ChainResult>, t: string)
    requires Groupable(rs) && Bucket(rs, t) != []
    ensures exists i :: FirstReaching(rs, t, i) && rs[i] == Bucket(rs, t)[0]
  {
    var n := |rs| - 1;
    var p := rs[..n];
    assert forall j :: 0 <= j < n ==> rs[j] == p[j];
    if Bucket(p, t) != [] {
      BucketHead(p, t);
      var i :| FirstReaching(p, t, i) && p[i] == Bucket(p, t)[0];
      assert FirstReaching(rs, t, i);
    } else {
      assert Bucket(rs, t) == [rs[n]];
      forall j | 0 <= j < n ensures rs[j].finalTarget != t {
        BucketMembers(p, t, p[j]);
      }
      assert FirstReaching(rs, t, n);
    }
  }

  /** There is one group per target. */
  lemma GroupTargetsDistinct(rs: seq<ChainResult>)
    requires Groupable(rs)
    ensures var gs := GroupsOf(rs);
      forall k, k' :: 0 <= k < k' < |gs| ==> gs[k].target != gs[k'].target
  {
    GroupTargets(rs);
  }

  /** Every result is an entry of the group of its final target. */
  lemma EveryResultInItsGroup(rs: seq<ChainResult>)
    requires Groupable(rs)
    ensures var gs := GroupsOf(rs);
      forall i :: 0 <= i < |rs| ==>
        exists k :: 0 <= k < |gs| && gs[k].target == rs[i].finalTarget && Entry(rs[i]) in gs[k].sources
  {
    var gs, ts := GroupsOf(rs), Targets(rs);
    GroupTargets(rs);
    forall i | 0 <= i < |rs|
      ensures exists k :: 0 <= k < |gs| && gs[k].target == rs[i].finalTarget && Entry(rs[i]) in gs[k].sources
    {
      var t := rs[i].finalTarget;
      BucketMembers(rs, t, rs[i]);
      var b := Bucket(rs, t);
      var m :| 0 <= m < |b| && b[m] == rs[i];
      var k :| 0 <= k < |ts| && ts[k] == t;
      assert gs[k].sources[m] == Entry(rs[i]);
    }
  }

  /**
   * Every group is non-empty, and each of its entries is a result ending at
   * the group's target, recorded with the chain's first path as its source.
   */
  lemma GroupEntriesAreResults(rs: seq<ChainResult>)
    requires Groupable(rs)
    ensures var gs := GroupsOf(rs);
      && (forall k :: 0 <= k < |gs| ==> |gs[k].sources| > 0)
      && (forall k, e :: 0 <= k < |gs| && e in gs[k].sources ==>
            |e.chain| > 0 && e.source == e.chain[0]
            && (exists i :: 0 <= i < |rs| && rs[i].finalTarget == gs[k].target && Entry(rs[i]) == e))
  {
    var gs, ts := GroupsOf(rs), Targets(rs);
    GroupTargets(rs);
    forall k | 0 <= k < |gs|
      ensures gs[k] == GroupOf(rs, ts[k]) && gs[k].target == ts[k] && |gs[k].sources| > 0
    {
      assert ts[k] in ts;
    }
    forall k, e | 0 <= k < |gs| && e in gs[k].sources
      ensures |e.chain| > 0 && e.source == e.chain[0]
        && (exists i :: 0 <= i < |rs| && rs[i].finalTarget == gs[k].target && Entry(rs[i]) == e)
    {
      GroupEntryIsResult(rs, ts[k], e);
    }
  }

  /** An entry of the group of `t` is the entry of a result that ends at `t`. */
  lemma GroupEntryIsResult(rs: seq<ChainResult>, t: string, e: SourceEntry)
    requires Groupable(rs) && Bucket(rs, t) != [] && e in GroupOf(rs, t).sources
    ensures |e.chain| > 0 && e.source == e.chain[0]
    ensures exists i :: 0 <= i < |rs| && rs[i].finalTarget == t && Entry(rs[i]) == e
  {
    var b := Bucket(rs, t);
    var m :| 0 <= m < |b| && Entries(b)[m] == e;
    BucketMembers(rs, t, b[m]);
    var i :| 0 <= i < |rs| && rs[i] == b[m];
  }

  /**
   * A group's kind and detail field (`finalFile`, `externalUrl` or
   * `missingFile`) come from the first result that reached its target.
   */
  lemma GroupDetailFromFirstResult(rs: seq<ChainResult>)
    requires Groupable(rs)
    ensures var gs := GroupsOf(rs);
      forall k :: 0 <= k < |gs| ==>
        exists i :: FirstReaching(rs, gs[k].target, i) && NewGroup(rs[i]) == gs[k].(sources := [])
  {
    var gs, ts := GroupsOf(rs), Targets(rs);
    GroupTargets(rs);
    forall k | 0 <= k < |gs|
      ensures exists i :: FirstReaching(rs, gs[k].target, i) && NewGroup(rs[i]) == gs[k].(sources := [])
    {
      BucketHead(rs, ts[k]);
    }
  }

  /** The groups come in the order their targets first appear among the results. */
  lemma {:induction false} GroupsInFirstAppearanceOrder(rs: seq<ChainResult>, i: nat)
    requires Groupable(rs) && i <= |rs|
    ensures Groupable(rs[..i]) && Targets(rs[..i]) <= Targets(rs)
    decreases |rs| - i
  {
    if i == |rs| {
      assert rs[..i] == rs;
    } else {
      GroupsInFirstAppearanceOrder(rs, i + 1);
      TargetsGrow(rs, i);
    }
  }

  /** Reading one more result only appends to the targets met so far. */
  lemma TargetsGrow(rs: seq<ChainResult>, i: nat)
    requires Groupable(rs) && i < |rs|
    ensures Groupable(rs[..i]) && Groupable(rs[..i + 1]) && Targets(rs[..i]) <= Targets(rs[..i + 1])
  {
    var p := rs[..i + 1];
    assert forall j :: 0 <= j <= i ==> p[j] == rs[j];
    assert p[..i] == rs[..i];
    GroupablePrefix(p);
  }

  // ---------------------------------------------------------------------------
  // Ordering the groups (`sort((a, b) => b.sources.length - a.sources.length)`)

  function Size(g: TargetGroup): nat
  {
    |g.sources|
  }

  predicate SortedBySize(gs: seq<TargetGroup>)
  {
    forall i, j :: 0 <= i < j < |gs| ==> Size(gs[i]) >= Size(gs[j])
  }

  /** The groups of exactly `n` sources, in their order. */
  function OfSize(gs: seq<TargetGroup>, n: nat): seq<TargetGroup>
  {
    if gs == [] then [] else (if Size(gs[0]) == n then [gs[0]] else []) + OfSize(gs[1..], n)
  }

  /** Places `g` before the first group that is not larger, so equal sizes keep their order. */
  function Insert(g: TargetGroup, gs: seq<TargetGroup>): seq<TargetGroup>
  {
    if gs == [] || Size(gs[0]) <= Size(g) then [g] + gs
    else [gs[0]] + Insert(g, gs[1..])
  }

  /**
   * The comparator orders by decreasing number of sources and the sort is
   * stable, so its result is fixed: the one insertion sort below produces.
   */
  function SortBySize(gs: seq<TargetGroup>): seq<TargetGroup>
  {
    if gs == [] then [] else Insert(gs[0], SortBySize(gs[1..]))
  }

  lemma {:induction false} InsertPermutes(g: TargetGroup, gs: seq<TargetGroup>)
    ensures multiset(Insert(g, gs)) == multiset(gs) + multiset{g}
    ensures Total(Insert(g, gs)) == Size(g) + Total(gs)
  {
    if gs == [] || Size(gs[0]) <= Size(g) {
      assert ([g] + gs)[1..] == gs;
    } else {
      InsertPermutes(g, gs[1..]);
      assert ([gs[0]] + Insert(g, gs[1..]))[1..] == Insert(g, gs[1..]);
      assert gs == [gs[0]] + gs[1..];
    }
  }

  lemma {:induction false} InsertOfSize(g: TargetGroup, gs: seq<TargetGroup>, n: nat)
    ensures OfSize(Insert(g, gs), n) == (if Size(g) == n then [g] else []) + OfSize(gs, n)
  {
    if gs == [] || Size(gs[0]) <= Size(g) {
      assert ([g] + gs)[1..] == gs;
    } else {
      var rest := Insert(g, gs[1..]);
      InsertOfSize(g, gs[1..], n);
      assert ([gs[0]] + rest)[1..] == rest;
      var a := if Size(gs[0]) == n then [gs[0]] else [];
      var b := if Size(g) == n then [g] else [];
      var r := OfSize(gs[1..], n);
      assert OfSize(Insert(g, gs), n) == a + (b + r);
      assert a == [] || b == [];
      assert a + (b + r) == b + (a + r);
    }
  }

  lemma SortedCons(a: TargetGroup, rest: seq<TargetGroup>)
    requires SortedBySize(rest) && forall x :: x in rest ==> Size(a) >= Size(x)
    ensures SortedBySize([a] + rest)
  {
    forall i, j | 0 <= i < j < |[a] + rest|
      ensures Size(([a] + rest)[i]) >= Size(([a] + rest)[j])
    {
      assert ([a] + rest)[j] == rest[j - 1];
      if i > 0 {
        assert ([a] + rest)[i] == rest[i - 1];
      }
    }
  }

  lemma {:induction false} InsertSorted(g: TargetGroup, gs: seq<TargetGroup>)
    requires SortedBySize(gs)
    ensures SortedBySize(Insert(g, gs))
  {
    if gs == [] || Size(gs[0]) <= Size(g) {
      forall x | x in gs ensures Size(g) >= Size(x) {
        var i :| 0 <= i < |gs| && gs[i] == x;
      }
      SortedCons(g, gs);
    } else {
      var rest := Insert(g, gs[1..]);
      assert SortedBySize(gs[1..]);
      InsertSorted(g, gs[1..]);
      InsertPermutes(g, gs[1..]);
      forall x | x in rest ensures Size(gs[0]) >= Size(x) {
        assert x in multiset(rest);
        if x != g {
          assert x in gs[1..];
        }
      }
      SortedCons(gs[0], rest);
    }
  }

  /** The groups come out ordered by decreasing number of sources. */
  lemma {:induction false} SortBySizeIsSorted(gs: seq<TargetGroup>)
    ensures SortedBySize(SortBySize(gs))
  {
    if gs != [] {
      SortBySizeIsSorted(gs[1..]);
      InsertSorted(gs[0], SortBySize(gs[1..]));
    }
  }

  /** The sort only reorders: the same groups, each as often, and so the same total. */
  lemma {:induction false} SortBySizeIsPermutation(gs: seq<TargetGroup>)
    ensures multiset(SortBySize(gs)) == multiset(gs)
    ensures Total(SortBySize(gs)) == Total(gs)
  {
    if gs != [] {
      SortBySizeIsPermutation(gs[1..]);
      InsertPermutes(gs[0], SortBySize(gs[1..]));
      assert gs == [gs[0]] + gs[1..];
    }
  }

  /** The sort is stable: groups of equal size keep their relative order. */
  lemma {:induction false} SortBySizeIsStable(gs: seq<TargetGroup>, n: nat)
    ensures OfSize(SortBySize(gs), n) == OfSize(gs, n)
  {
    if gs != [] {
      SortBySizeIsStable(gs[1..], n);
      InsertOfSize(gs[0], SortBySize(gs[1..]), n);
    }
  }

  predicate DistinctTargets(gs: seq<TargetGroup>)
  {
    forall i, j :: 0 <= i < j < |gs| ==> gs[i].target != gs[j].target
  }

  lemma {:induction false} InsertDistinct(g: TargetGroup, gs: seq<TargetGroup>)
    requires DistinctTargets(gs) && forall x :: x in gs ==> x.target != g.target
    ensures DistinctTargets(Insert(g, gs))
  {
    if gs == [] || Size(gs[0]) <= Size(g) {
      forall i, j | 0 <= i < j < |[g] + gs| ensures ([g] + gs)[i].target != ([g] + gs)[j].target {
        assert ([g] + gs)[j] == gs[j - 1];
        if i > 0 { assert ([g] + gs)[i] == gs[i - 1]; }
      }
    } else {
      var rest := Insert(g, gs[1..]);
      InsertDistinct(g, gs[1..]);
      InsertPermutes(g, gs[1..]);
      forall i, j | 0 <= i < j < |[gs[0]] + rest| ensures ([gs[0]] + rest)[i].target != ([gs[0]] + rest)[j].target {
        var y := rest[j - 1];
        assert ([gs[0]] + rest)[j] == y;
        if i > 0 {
          assert ([gs[0]] + rest)[i] == rest[i - 1];
        } else {
          assert y in multiset(rest);
          if y != g {
            var k :| 0 <= k < |gs[1..]| && gs[1..][k] == y;
            assert gs[k + 1] == y;
          }
        }
      }
    }
  }

  /** Sorting keeps one group per target. */
  lemma {:induction false} SortBySizeKeepsTargetsDistinct(gs: seq<TargetGroup>)
    requires DistinctTargets(gs)
    ensures DistinctTargets(SortBySize(gs))
  {
    if gs != [] {
      SortBySizeKeepsTargetsDistinct(gs[1..]);
      SortBySizeIsPermutation(gs[1..]);
      forall x | x in SortBySize(gs[1..]) ensures x.target != gs[0].target {
        assert x in multiset(SortBySize(gs[1..]));
        var k :| 0 <= k < |gs[1..]| && gs[1..][k] == x;
        assert gs[k + 1] == x;
      }
      InsertDistinct(gs[0], SortBySize(gs[1..]));
    }
  }

  /**
   * What one grouping pass followed by the sort yields: groups ordered by
   * decreasing size, one per target, and nothing but the reference groups.
   */
  lemma SortedGroupsShape(rs: seq<ChainResult>)
    requires Groupable(rs)
    ensures var gs := SortBySize(GroupsOf(rs));
      && SortedBySize(gs)
      && DistinctTargets(gs)
      && (forall g :: g in gs ==> g in GroupsOf(rs))
  {
    var hs := GroupsOf(rs);
    var gs := SortBySize(hs);
    SortBySizeIsSorted(hs);
    SortBySizeIsPermutation(hs);
    GroupTargetsDistinct(rs);
    SortBySizeKeepsTargetsDistinct(hs);
    forall g | g in gs ensures g in hs {
      assert g in multiset(gs);
    }
  }

  /** After the sort the groups still hold every result exactly once. */
  lemma SortedGroupsCount(rs: seq<ChainResult>)
    requires Groupable(rs)
    ensures Total(SortBySize(GroupsOf(rs))) == |rs|
  {
    SortBySizeIsPermutation(GroupsOf(rs));
    GroupsCountEveryResultOnce(rs);
  }

  /** After the sort every result is still an entry of the group of its target. */
  lemma SortedGroupsPlace(rs: seq<ChainResult>)
    requires Groupable(rs)
    ensures forall x :: x in rs ==>
      exists g :: g in SortBySize(GroupsOf(rs)) && g.target == x.finalTarget && Entry(x) in g.sources
  {
    var hs := GroupsOf(rs);
    var gs := SortBySize(hs);
    SortBySizeIsPermutation(hs);
    EveryResultInItsGroup(rs);
    forall x | x in rs
      ensures exists g :: g in gs && g.target == x.finalTarget && Entry(x) in g.sources
    {
      var i :| 0 <= i < |rs| && rs[i] == x;
      var k :| 0 <= k < |hs| && hs[k].target == rs[i].finalTarget && Entry(rs[i]) in hs[k].sources;
      assert hs[k] in multiset(gs);
    }
  }

  // ---------------------------------------------------------------------------
  // The report

  datatype Report = Report(
    validByTarget: seq<TargetGroup>,
    externalByTarget: seq<TargetGroup>,
    invalidByTarget: seq<TargetGroup>,
    circularChains: seq<ChainResult>)

  /** The arguments the function is called with: non-empty chains, and only missing-file results as invalid. */
  predicate GroupingInput(chains: seq<ChainResult>, invalidRedirects: seq<ChainResult>)
  {
    && (forall i :: 0 <= i < |chains| ==> |chains[i].chain| > 0)
    && (forall i :: 0 <= i < |invalidRedirects| ==> invalidRedirects[i].MissingFile? && |invalidRedirects[i].chain| > 0)
  }

  lemma OfKindsGroupable(rs: seq<ChainResult>, kinds: set<Kind>)
    requires forall i :: 0 <= i < |rs| ==> |rs[i].chain| > 0
    requires CircularKind !in kinds
    ensures Groupable(OfKinds(rs, kinds))
  {
    var f := OfKinds(rs, kinds);
    forall i | 0 <= i < |f| ensures !f[i].Circular? && |f[i].chain| > 0 {
      var j :| 0 <= j < |rs| && rs[j] == f[i];
    }
  }

  /** The report `groupRedirectsByTarget` returns. */
  function ReportOf(chains: seq<ChainResult>, invalidRedirects: seq<ChainResult>): Report
    requires GroupingInput(chains, invalidRedirects)
  {
    OfKindsGroupable(chains, {ValidKind});
    OfKindsGroupable(chains, {ExternalKind});
    Report(
      SortBySize(GroupsOf(OfKinds(chains, {ValidKind}))),
      SortBySize(GroupsOf(OfKinds(chains, {ExternalKind}))),
      SortBySize(GroupsOf(invalidRedirects)),
      OfKinds(chains, {CircularKind}))
  }

  /** `groupRedirectsByTarget`: three grouping passes, each sorted, and the circular chains as they are. */
  method GroupRedirectsByTarget(chains: seq<ChainResult>, invalidRedirects: seq<ChainResult>) returns (report: Report)
    requires GroupingInput(chains, invalidRedirects)
    ensures report == ReportOf(chains, invalidRedirects)
  {
    OfKindsGroupable(chains, {ValidKind});
    OfKindsGroupable(chains, {ExternalKind});
    var validByTarget := GroupByTarget(OfKinds(chains, {ValidKind}));
    var externalByTarget := GroupByTarget(OfKinds(chains, {ExternalKind}));
    var invalidByTarget := GroupByTarget(invalidRedirects);
    var circularChains := OfKinds(chains, {CircularKind});
    report := Report(SortBySize(validByTarget), SortBySize(externalByTarget), SortBySize(invalidByTarget), circularChains);
  }

  /** Every group of a pass is of that pass's kind. */
  lemma {:induction false} GroupsOfOneKind(rs: seq<ChainResult>, kind: Kind)
    requires Groupable(rs) && forall i :: 0 <= i < |rs| ==> KindOf(rs[i]) == kind
    ensures forall g :: g in SortBySize(GroupsOf(rs)) ==>
      (kind == ValidKind ==> g.ValidGroup?) && (kind == ExternalKind ==> g.ExternalGroup?)
      && (kind == MissingKind ==> g.MissingGroup?)
  {
    var hs := GroupsOf(rs);
    SortedGroupsShape(rs);
    GroupDetailFromFirstResult(rs);
    forall g | g in SortBySize(hs)
      ensures (kind == ValidKind ==> g.ValidGroup?) && (kind == ExternalKind ==> g.ExternalGroup?)
        && (kind == MissingKind ==> g.MissingGroup?)
    {
      var k :| 0 <= k < |hs| && hs[k] == g;
      var i :| FirstReaching(rs, hs[k].target, i) && NewGroup(rs[i]) == hs[k].(sources := []);
    }
  }

  /** Each list of groups comes largest first, has one group per target, and holds groups of its own kind. */
  lemma ReportListsShape(chains: seq<ChainResult>, invalidRedirects: seq<ChainResult>)
    requires GroupingInput(chains, invalidRedirects)
    ensures var rep := ReportOf(chains, invalidRedirects);
      && SortedBySize(rep.validByTarget) && SortedBySize(rep.externalByTarget) && SortedBySize(rep.invalidByTarget)
      && DistinctTargets(rep.validByTarget) && DistinctTargets(rep.externalByTarget) && DistinctTargets(rep.invalidByTarget)
      && (forall g :: g in rep.validByTarget ==> g.ValidGroup?)
      && (forall g :: g in rep.externalByTarget ==> g.ExternalGroup?)
      && (forall g :: g in rep.invalidByTarget ==> g.MissingGroup?)
  {
    var vs, es := OfKinds(chains, {ValidKind}), OfKinds(chains, {ExternalKind});
    OfKindsGroupable(chains, {ValidKind});
    OfKindsGroupable(chains, {ExternalKind});
    SortedGroupsShape(vs);
    SortedGroupsShape(es);
    SortedGroupsShape(invalidRedirects);
    GroupsOfOneKind(vs, ValidKind);
    GroupsOfOneKind(es, ExternalKind);
    GroupsOfOneKind(invalidRedirects, MissingKind);
  }

  /**
   * Nothing is lost or counted twice: the valid and external groups and the
   * circular list together hold every chain once (the chains of the analysis
   * are never missing-file results), and the missing groups hold every
   * invalid redirect once.
   */
  lemma ReportCountsEveryChainOnce(chains: seq<ChainResult>, invalidRedirects: seq<ChainResult>)
    requires GroupingInput(chains, invalidRedirects)
    ensures var rep := ReportOf(chains, invalidRedirects);
      && ((forall r :: r in chains ==> !r.MissingFile?) ==>
            Total(rep.validByTarget) + Total(rep.externalByTarget) + |rep.circularChains| == |chains|)
      && Total(rep.invalidByTarget) == |invalidRedirects|
  {
    OfKindsGroupable(chains, {ValidKind});
    OfKindsGroupable(chains, {ExternalKind});
    SortedGroupsCount(OfKinds(chains, {ValidKind}));
    SortedGroupsCount(OfKinds(chains, {ExternalKind}));
    assert Groupable(invalidRedirects);
    SortedGroupsCount(invalidRedirects);
    OfKindsSplit(chains);
    if forall r :: r in chains ==> !r.MissingFile? {
      OfKindsNone(chains, {MissingKind});
    }
  }

  /**
   * Every chain lands in its place: a valid chain in the valid group of its
   * target, an external one in the external group of its target, every
   * invalid redirect in the missing group of its target, and the circular
   * list is exactly the circular chains.
   */
  lemma ReportPlacesEveryChain(chains: seq<ChainResult>, invalidRedirects: seq<ChainResult>)
    requires GroupingInput(chains, invalidRedirects)
    ensures var rep := ReportOf(chains, invalidRedirects);
      && (forall r :: r in chains && r.Valid? ==>
            exists g :: g in rep.validByTarget && g.target == r.finalTarget && Entry(r) in g.sources)
      && (forall r :: r in chains && r.External? ==>
            exists g :: g in rep.externalByTarget && g.target == r.finalTarget && Entry(r) in g.sources)
      && (forall r :: r in invalidRedirects ==>
            exists g :: g in rep.invalidByTarget && g.target == r.finalTarget && Entry(r) in g.sources)
      && (forall r :: r in rep.circularChains <==> r in chains && r.Circular?)
  {
    var rep := ReportOf(chains, invalidRedirects);
    var vs, es := OfKinds(chains, {ValidKind}), OfKinds(chains, {ExternalKind});
    OfKindsGroupable(chains, {ValidKind});
    OfKindsGroupable(chains, {ExternalKind});
    SortedGroupsPlace(vs);
    SortedGroupsPlace(es);
    assert Groupable(invalidRedirects);
    SortedGroupsPlace(invalidRedirects);
    forall r | r in chains && r.Valid? ensures r in vs {
      OfKindsMember(chains, {ValidKind}, r);
    }
    forall r | r in chains && r.External? ensures r in es {
      OfKindsMember(chains, {ExternalKind}, r);
    }
    forall r ensures r in rep.circularChains <==> r in chains && r.Circular? {
      OfKindsMember(chains, {CircularKind}, r);
    }
  }

  /**
   * The two arrays the analysis returns are valid arguments: its chains are
   * never empty and never missing-file results, and its invalid redirects are
   * all missing-file results.
   */
  lemma AnalysisFeedsReport(m: map<string, string>, disk: Disk, keys: seq<string>)
    requires forall i :: 0 <= i < |keys| ==> keys[i] in m
    ensures var rs := Scan(m, disk, keys).results;
      && GroupingInput(OfKinds(rs, ChainKinds), OfKinds(rs, {MissingKind}))
      && forall r :: r in OfKinds(rs, ChainKinds) ==> !r.MissingFile?
  {
    var rs := Scan(m, disk, keys).results;
    assert forall j :: 0 <= j < |rs| ==> |rs[j].chain| > 0 by {
      ResultsAreWalksOfKeys(m, disk, keys);
    }
    FilteredChainsNonEmpty(rs, ChainKinds);
    FilteredChainsNonEmpty(rs, {MissingKind});
    ChainKindsNotMissing(rs);
  }

  /** The results sent to `chains` hold no missing-file result. */
  lemma ChainKindsNotMissing(rs: seq<ChainResult>)
    ensures forall r :: r in OfKinds(rs, ChainKinds) ==> !r.MissingFile?
  {
    forall r | r in OfKinds(rs, ChainKinds) ensures !r.MissingFile? {
      OfKindsMember(rs, ChainKinds, r);
    }
  }

  /** Filtering results whose chains are all non-empty leaves results whose chains are non-empty. */
  lemma FilteredChainsNonEmpty(rs: seq<ChainResult>, kinds: set<Kind>)
    requires forall j :: 0 <= j < |rs| ==> |rs[j].chain| > 0
    ensures var fs := OfKinds(rs, kinds);
      forall i :: 0 <= i < |fs| ==> |fs[i].chain| > 0 && KindOf(fs[i]) in kinds
  {
    var fs := OfKinds(rs, kinds);
    forall i | 0 <= i < |fs| ensures |fs[i].chain| > 0 {
      var j :| 0 <= j < |rs| && rs[j] == fs[i];
    }
  }
}
