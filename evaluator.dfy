/** The applicability evaluator and the batch evaluator of app/analysis.py:
    which Conditional Access policies apply to a user with given group
    memberships. */
module Evaluator {
  import opened Models
  import opened SeqFacts

  /** Some group id of the user occurs in `xs`: the loops
      `for gid in group_ids: if gid in xs: ...` of the evaluator. */
  function AnyGroupIn(groupIds: seq<string>, xs: seq<string>): (r: bool)
    ensures r <==> exists i :: 0 <= i < |groupIds| && groupIds[i] in xs
  {
    if groupIds == [] then false
    else if groupIds[0] in xs then true
    else
      var rest := AnyGroupIn(groupIds[1..], xs);
      assert forall i :: 1 <= i < |groupIds| ==> groupIds[i] == groupIds[1..][i - 1];
      rest
  }

  /** The rule engine: the first rule that matches decides. */
  function EvaluatePolicyApplicability(p: CAPolicy, userId: string, groupIds: seq<string>): bool {
    if p.state == "disabled" then false
    else
      var includeUsers := UsersList(p, IncludeUsersKey);
      var includeGroups := UsersList(p, IncludeGroupsKey);
      var excludeUsers := UsersList(p, ExcludeUsersKey);
      var excludeGroups := UsersList(p, ExcludeGroupsKey);
      if userId in excludeUsers then false
      else if AnyGroupIn(groupIds, excludeGroups) then false
      else if AllSentinel in includeUsers then true
      else if userId in includeUsers then true
      else if AnyGroupIn(groupIds, includeGroups) then true
      else false
  }

  /** The verdict in closed form: not disabled, no exclusion matches, and
      some inclusion matches. Missing keys count as empty lists. */
  lemma AppliesClosedForm(p: CAPolicy, userId: string, groupIds: seq<string>)
    ensures EvaluatePolicyApplicability(p, userId, groupIds) <==>
      && p.state != "disabled"
      && userId !in UsersList(p, ExcludeUsersKey)
      && (forall g :: g in groupIds ==> g !in UsersList(p, ExcludeGroupsKey))
      && (|| AllSentinel in UsersList(p, IncludeUsersKey)
          || userId in UsersList(p, IncludeUsersKey)
          || exists g :: g in groupIds && g in UsersList(p, IncludeGroupsKey))
  {
    var eg := UsersList(p, ExcludeGroupsKey);
    var ig := UsersList(p, IncludeGroupsKey);
    assert AnyGroupIn(groupIds, eg) <==> exists g :: g in groupIds && g in eg by {
      if AnyGroupIn(groupIds, eg) {
        var i :| 0 <= i < |groupIds| && groupIds[i] in eg;
        assert groupIds[i] in groupIds;
      }
    }
    assert AnyGroupIn(groupIds, ig) <==> exists g :: g in groupIds && g in ig by {
      if AnyGroupIn(groupIds, ig) {
        var i :| 0 <= i < |groupIds| && groupIds[i] in ig;
        assert groupIds[i] in groupIds;
      }
    }
  }

  /** A disabled policy applies to nobody. */
  lemma DisabledNeverApplies(p: CAPolicy, userId: string, groupIds: seq<string>)
    requires p.state == "disabled"
    ensures !EvaluatePolicyApplicability(p, userId, groupIds)
  {
  }

  /** Every state other than "disabled" (report-only and unknown strings
      included) is evaluated exactly like "enabled". */
  lemma OtherStatesEvaluateAsEnabled(p: CAPolicy, userId: string, groupIds: seq<string>)
    requires p.state != "disabled"
    ensures EvaluatePolicyApplicability(p, userId, groupIds) ==
            EvaluatePolicyApplicability(p.(state := "enabled"), userId, groupIds)
  {
  }

  /** An exclusion of the user or of one of the user's groups beats every
      inclusion, the "All" sentinel included. */
  lemma ExclusionWins(p: CAPolicy, userId: string, groupIds: seq<string>)
    requires userId in UsersList(p, ExcludeUsersKey)
          || exists g :: g in groupIds && g in UsersList(p, ExcludeGroupsKey)
    ensures !EvaluatePolicyApplicability(p, userId, groupIds)
  {
    AppliesClosedForm(p, userId, groupIds);
  }

  /** With "All" among the included users and no exclusion matching, an
      enabled policy applies to every user. */
  lemma AllSentinelApplies(p: CAPolicy, userId: string, groupIds: seq<string>)
    requires p.state != "disabled"
    requires AllSentinel in UsersList(p, IncludeUsersKey)
    requires userId !in UsersList(p, ExcludeUsersKey)
    requires forall g :: g in groupIds ==> g !in UsersList(p, ExcludeGroupsKey)
    ensures EvaluatePolicyApplicability(p, userId, groupIds)
  {
    AppliesClosedForm(p, userId, groupIds);
  }

  /** The verdict depends only on the set of the user's group ids, not on
      their order or repetitions. */
  lemma DependsOnlyOnGroupSet(p: CAPolicy, userId: string, groupIds: seq<string>, others: seq<string>)
    requires forall g :: g in groupIds <==> g in others
    ensures EvaluatePolicyApplicability(p, userId, groupIds) ==
            EvaluatePolicyApplicability(p, userId, others)
  {
    AppliesClosedForm(p, userId, groupIds);
    AppliesClosedForm(p, userId, others);
  }

  // ---------------------------------------------------------------------
  // Batch evaluator

  /** The ids of the policies that apply, in input order. */
  function ApplicableIds(ps: seq<CAPolicy>, userId: string, groupIds: seq<string>): seq<string>
  {
    if ps == [] then []
    else
      var last := ps[|ps| - 1];
      ApplicableIds(ps[..|ps| - 1], userId, groupIds)
        + (if EvaluatePolicyApplicability(last, userId, groupIds) then [last.id] else [])
  }

  /** The positions of the policies that apply: strictly increasing, and
      holding exactly the positions for which the evaluator says true. */
  function SelectedIndices(ps: seq<CAPolicy>, userId: string, groupIds: seq<string>): (r: seq<nat>)
    ensures forall k :: 0 <= k < |r| ==> r[k] < |ps|
    ensures forall k, l :: 0 <= k < l < |r| ==> r[k] < r[l]
    ensures forall i :: i in r <==> 0 <= i < |ps| && EvaluatePolicyApplicability(ps[i], userId, groupIds)
  {
    if ps == [] then []
    else
      var n := |ps| - 1;
      var prefix := ps[..n];
      var r := SelectedIndices(prefix, userId, groupIds);
      assert forall i :: 0 <= i < n ==> prefix[i] == ps[i];
      r + (if EvaluatePolicyApplicability(ps[n], userId, groupIds) then [n] else [])
  }

  /** get_applicable_policies returns the ids of exactly the applicable
      positions, in increasing order. */
  lemma {:induction false} ApplicableIdsAreSelected(ps: seq<CAPolicy>, userId: string, groupIds: seq<string>)
    ensures var sel := SelectedIndices(ps, userId, groupIds);
            var ids := ApplicableIds(ps, userId, groupIds);
            |ids| == |sel| && forall k :: 0 <= k < |sel| ==> ids[k] == ps[sel[k]].id
  {
    if ps != [] {
      var n := |ps| - 1;
      var prefix := ps[..n];
      ApplicableIdsAreSelected(prefix, userId, groupIds);
      var sel0 := SelectedIndices(prefix, userId, groupIds);
      var ids0 := ApplicableIds(prefix, userId, groupIds);
      var applies := EvaluatePolicyApplicability(ps[n], userId, groupIds);
      assert SelectedIndices(ps, userId, groupIds) == sel0 + (if applies then [n] else []);
      assert ApplicableIds(ps, userId, groupIds) == ids0 + (if applies then [ps[n].id] else []);
      forall k | 0 <= k < |sel0|
        ensures ids0[k] == ps[sel0[k]].id
      {
        assert prefix[sel0[k]] == ps[sel0[k]];
      }
    }
  }

  /** At most one id per input policy. */
  lemma {:induction false} ApplicableIdsLength(ps: seq<CAPolicy>, userId: string, groupIds: seq<string>)
    ensures |ApplicableIds(ps, userId, groupIds)| <= |ps|
  {
    if ps != [] {
      ApplicableIdsLength(ps[..|ps| - 1], userId, groupIds);
    }
  }

  /** An empty policy list yields no ids. */
  lemma ApplicableIdsEmpty(userId: string, groupIds: seq<string>)
    ensures ApplicableIds([], userId, groupIds) == []
  {
  }

  lemma ApplicableIdsSnoc(ps: seq<CAPolicy>, p: CAPolicy, userId: string, groupIds: seq<string>)
    ensures ApplicableIds(ps + [p], userId, groupIds) ==
      ApplicableIds(ps, userId, groupIds) + (if EvaluatePolicyApplicability(p, userId, groupIds) then [p.id] else [])
  {
    assert (ps + [p])[..|ps|] == ps;
  }

  /** The batch evaluator distributes over concatenation of policy lists. */
  lemma {:induction false} ApplicableIdsConcat(a: seq<CAPolicy>, b: seq<CAPolicy>, userId: string, groupIds: seq<string>)
    ensures ApplicableIds(a + b, userId, groupIds) ==
            ApplicableIds(a, userId, groupIds) + ApplicableIds(b, userId, groupIds)
  {
    if b == [] {
      assert a + b == a;
    } else {
      var b0, p := b[..|b| - 1], b[|b| - 1];
      SplitLast(b);
      ApplicableIdsConcat(a, b0, userId, groupIds);
      ConcatSnoc(a, b0, p);
      ApplicableIdsSnoc(a + b0, p, userId, groupIds);
      ApplicableIdsSnoc(b0, p, userId, groupIds);
      SeqAssoc(ApplicableIds(a, userId, groupIds), ApplicableIds(b0, userId, groupIds),
        if EvaluatePolicyApplicability(p, userId, groupIds) then [p.id] else []);
    }
  }

  /** get_applicable_policies: one pass over the policies, appending the id
      of each one that applies. */
  method GetApplicablePolicies(ps: seq<CAPolicy>, userId: string, groupIds: seq<string>)
    returns (applicableIds: seq<string>)
    ensures applicableIds == ApplicableIds(ps, userId, groupIds)
    ensures |applicableIds| <= |ps|
    ensures var sel := SelectedIndices(ps, userId, groupIds);
            |applicableIds| == |sel| && forall k :: 0 <= k < |sel| ==> applicableIds[k] == ps[sel[k]].id
  {
    applicableIds := [];
    for i := 0 to |ps|
      invariant applicableIds == ApplicableIds(ps[..i], userId, groupIds)
    {
      TakeSnoc(ps, i);
      if EvaluatePolicyApplicability(ps[i], userId, groupIds) {
        applicableIds := applicableIds + [ps[i].id];
      }
    }
    TakeAll(ps);
    ApplicableIdsLength(ps, userId, groupIds);
    ApplicableIdsAreSelected(ps, userId, groupIds);
  }
}
