/** What the normaliser promises about the graph it builds. */
module GraphProperties {
  import opened Models
  import opened GraphModel
  import opened SeqFacts

  // ---------------------------------------------------------------------
  // Per-entry emission, position by position

  lemma {:induction false} ConditionNodesAt(entries: seq<string>)
    ensures |ConditionNodes(entries)| == |entries|
    ensures forall k :: 0 <= k < |entries| ==> ConditionNodes(entries)[k] == ConditionNodeOf(entries[k])
  {
    if entries != [] {
      var n := |entries| - 1;
      ConditionNodesAt(entries[..n]);
    }
  }

  lemma {:induction false} IncludeEdgesAt(entries: seq<string>, policyNodeId: string)
    ensures |IncludeEdges(entries, policyNodeId)| == |entries|
    ensures forall k :: 0 <= k < |entries| ==>
      IncludeEdges(entries, policyNodeId)[k] == Edge(ConditionNodeId(entries[k]), policyNodeId, Include)
  {
    if entries != [] {
      var n := |entries| - 1;
      IncludeEdgesAt(entries[..n], policyNodeId);
    }
  }

  lemma {:induction false} ControlNodesAt(controls: seq<string>)
    ensures |ControlNodes(controls)| == |controls|
    ensures forall k :: 0 <= k < |controls| ==> ControlNodes(controls)[k] == ControlNodeOf(controls[k])
  {
    if controls != [] {
      var n := |controls| - 1;
      ControlNodesAt(controls[..n]);
    }
  }

  lemma {:induction false} GrantEdgesAt(policyNodeId: string, controls: seq<string>)
    ensures |GrantEdges(policyNodeId, controls)| == |controls|
    ensures forall k :: 0 <= k < |controls| ==>
      GrantEdges(policyNodeId, controls)[k] == Edge(policyNodeId, ControlNodeId(controls[k]), Grant)
  {
    if controls != [] {
      var n := |controls| - 1;
      GrantEdgesAt(policyNodeId, controls[..n]);
    }
  }

  /** The include entries are "includeUsers" followed by "includeGroups";
      the guard on a null or empty users dictionary loses nothing. */
  lemma IncludeEntriesUsersFirst(p: CAPolicy)
    ensures IncludeEntries(p) == UsersList(p, IncludeUsersKey) + UsersList(p, IncludeGroupsKey)
  {
  }

  /** The nodes one policy emits: its policy node (id "policy_" + id, the
      display name, the state), then one condition node per include entry
      (label "All Users" for "All", else the entry), then one control node
      per built-in control (label the control), each in list order. */
  lemma PolicyNodesLayout(p: CAPolicy)
    ensures var inc, ctl, ns := IncludeEntries(p), Controls(p), PolicyNodes(p);
      && |ns| == 1 + |inc| + |ctl|
      && ns[0] == PolicyNode(PolicyPrefix + p.id, p.displayName, p.state)
      && (forall k :: 0 <= k < |inc| ==>
            ns[1 + k] == ConditionNode(ConditionPrefix + inc[k], ConditionLabel(inc[k])))
      && (forall k :: 0 <= k < |ctl| ==>
            ns[1 + |inc| + k] == ControlNode(ControlPrefix + ctl[k], ctl[k]))
  {
    ConditionNodesAt(IncludeEntries(p));
    ControlNodesAt(Controls(p));
  }

  /** The edges one policy emits: an Include edge from each include entry's
      condition node to the policy node, then a Grant edge from the policy
      node to each control node, each in list order. */
  lemma PolicyEdgesLayout(p: CAPolicy)
    ensures var inc, ctl, es, pid := IncludeEntries(p), Controls(p), PolicyEdges(p), PolicyPrefix + p.id;
      && |es| == |inc| + |ctl|
      && (forall k :: 0 <= k < |inc| ==> es[k] == Edge(ConditionPrefix + inc[k], pid, Include))
      && (forall k :: 0 <= k < |ctl| ==> es[|inc| + k] == Edge(pid, ControlPrefix + ctl[k], Grant))
  {
    IncludeEdgesAt(IncludeEntries(p), PolicyNodeId(p.id));
    GrantEdgesAt(PolicyNodeId(p.id), Controls(p));
  }

  /** The number of edges is the total number of include entries and
      built-in controls: no edge is ever dropped. */
  lemma {:induction false} EdgeCountIsTotal(ps: seq<CAPolicy>)
    ensures |EmittedEdges(ps)| == EdgeCount(ps)
  {
    if ps != [] {
      EdgeCountIsTotal(ps[..|ps| - 1]);
      PolicyEdgesLayout(ps[|ps| - 1]);
    }
  }

  /** A policy with a null or empty users dictionary emits no condition
      node and no Include edge; one without grant controls emits no control
      node and no Grant edge. */
  lemma AbsentAxesEmitNothing(p: CAPolicy)
    ensures p.conditions.users.None? || p.conditions.users == Some(map[]) ==>
      PolicyNodes(p) == [PolicyNodeOf(p)] + ControlNodes(Controls(p)) &&
      PolicyEdges(p) == GrantEdges(PolicyNodeId(p.id), Controls(p))
    ensures p.grantControls.None? ==>
      PolicyNodes(p) == [PolicyNodeOf(p)] + ConditionNodes(IncludeEntries(p)) &&
      PolicyEdges(p) == IncludeEdges(IncludeEntries(p), PolicyNodeId(p.id))
  {
    if p.conditions.users.None? || p.conditions.users == Some(map[]) {
      assert IncludeEntries(p) == [];
      assert PolicyNodes(p) == [PolicyNodeOf(p)] + [] + ControlNodes(Controls(p));
      assert PolicyEdges(p) == [] + GrantEdges(PolicyNodeId(p.id), Controls(p));
    }
    if p.grantControls.None? {
      assert PolicyNodes(p) == [PolicyNodeOf(p)] + ConditionNodes(IncludeEntries(p)) + [];
      assert PolicyEdges(p) == IncludeEdges(IncludeEntries(p), PolicyNodeId(p.id)) + [];
    }
  }

  /** Exclude lists never reach the graph: two policies that agree on
      everything but their exclusions (and the rest of the users
      dictionary) emit the same nodes and edges. */
  lemma ExclusionsNotRepresented(p: CAPolicy, q: CAPolicy)
    requires p.id == q.id && p.displayName == q.displayName && p.state == q.state
    requires p.grantControls == q.grantControls
    requires UsersList(p, IncludeUsersKey) == UsersList(q, IncludeUsersKey)
    requires UsersList(p, IncludeGroupsKey) == UsersList(q, IncludeGroupsKey)
    ensures PolicyNodes(p) == PolicyNodes(q)
    ensures PolicyEdges(p) == PolicyEdges(q)
  {
    IncludeEntriesUsersFirst(p);
    IncludeEntriesUsersFirst(q);
  }

  // ---------------------------------------------------------------------
  // Concatenation

  /** Appending one policy appends its nodes and edges. */
  lemma EmittedSnoc(ps: seq<CAPolicy>, p: CAPolicy)
    ensures EmittedNodes(ps + [p]) == EmittedNodes(ps) + PolicyNodes(p)
    ensures EmittedEdges(ps + [p]) == EmittedEdges(ps) + PolicyEdges(p)
  {
    assert (ps + [p])[..|ps|] == ps;
  }

  lemma EmittedConcatStep(a: seq<CAPolicy>, b0: seq<CAPolicy>, p: CAPolicy)
    requires EmittedNodes(a + b0) == EmittedNodes(a) + EmittedNodes(b0)
    requires EmittedEdges(a + b0) == EmittedEdges(a) + EmittedEdges(b0)
    ensures EmittedNodes(a + (b0 + [p])) == EmittedNodes(a) + EmittedNodes(b0 + [p])
    ensures EmittedEdges(a + (b0 + [p])) == EmittedEdges(a) + EmittedEdges(b0 + [p])
  {
    ConcatSnoc(a, b0, p);
    EmittedSnoc(a + b0, p);
    EmittedSnoc(b0, p);
    SeqAssoc(EmittedNodes(a), EmittedNodes(b0), PolicyNodes(p));
    SeqAssoc(EmittedEdges(a), EmittedEdges(b0), PolicyEdges(p));
  }

  /** The emitted lists of a concatenation of policy lists are the
      concatenations of their emitted lists. */
  lemma {:induction false} EmittedConcat(a: seq<CAPolicy>, b: seq<CAPolicy>)
    ensures EmittedNodes(a + b) == EmittedNodes(a) + EmittedNodes(b)
    ensures EmittedEdges(a + b) == EmittedEdges(a) + EmittedEdges(b)
  {
    if b == [] {
      assert a + b == a;
    } else {
      var b0, p := b[..|b| - 1], b[|b| - 1];
      SplitLast(b);
      EmittedConcat(a, b0);
      EmittedConcatStep(a, b0, p);
    }
  }

  lemma NormalizeDoubledPolicies(ps: seq<CAPolicy>)
    ensures Dedup(EmittedNodes(ps + ps)) == Dedup(EmittedNodes(ps))
    ensures EmittedEdges(ps + ps) == EmittedEdges(ps) + EmittedEdges(ps)
  {
    EmittedConcat(ps, ps);
    DedupOfDoubled(EmittedNodes(ps));
  }

  // ---------------------------------------------------------------------
  // Deduplication

  lemma IdsConcat(a: seq<Node>, b: seq<Node>)
    ensures Ids(a + b) == Ids(a) + Ids(b)
  {
  }

  /** The surviving ids are the distinct emitted ids in order of first
      emission. */
  lemma DedupIdsAreFirstIds(ns: seq<Node>)
    ensures Ids(Dedup(ns)) == FirstIds(ns)
  {
    var d, f := Dedup(ns), FirstIds(ns);
    assert |Ids(d)| == |f|;
    forall j | 0 <= j < |f|
      ensures Ids(d)[j] == f[j]
    {
      assert d[j] == ns[LastIndex(ns, f[j])];
    }
  }

  /** No two surviving nodes share an id. */
  lemma DedupIdsDistinct(ns: seq<Node>)
    ensures Distinct(Ids(Dedup(ns)))
  {
    DedupIdsAreFirstIds(ns);
  }

  /** An id survives exactly when it was emitted. */
  lemma DedupKeepsEveryId(ns: seq<Node>)
    ensures forall k :: k in Ids(Dedup(ns)) <==> k in Ids(ns)
  {
    DedupIdsAreFirstIds(ns);
  }

  lemma {:induction false} DistinctCount(s: seq<string>, k: string)
    requires Distinct(s)
    ensures multiset(s)[k] == if k in s then 1 else 0
  {
    if s != [] {
      assert s == [s[0]] + s[1..];
      assert Distinct(s[1..]);
      DistinctCount(s[1..], k);
      assert s[0] !in s[1..];
    }
  }

  /** Every emitted id occurs exactly once in the output, and no other. */
  lemma DedupEveryIdOnce(ns: seq<Node>, k: string)
    ensures multiset(Ids(Dedup(ns)))[k] == if k in Ids(ns) then 1 else 0
  {
    DedupIdsAreFirstIds(ns);
    DistinctCount(FirstIds(ns), k);
  }

  /** Each surviving node is the last emission of its id. */
  lemma DedupKeepsLastEmission(ns: seq<Node>)
    ensures forall j :: 0 <= j < |Dedup(ns)| ==>
      exists i :: 0 <= i < |ns| && ns[i] == Dedup(ns)[j] &&
        (forall l :: i < l < |ns| ==> ns[l].id != ns[i].id)
  {
    var d := Dedup(ns);
    forall j | 0 <= j < |d|
      ensures exists i :: 0 <= i < |ns| && ns[i] == d[j] &&
                          (forall l :: i < l < |ns| ==> ns[l].id != ns[i].id)
    {
      var i := LastIndex(ns, FirstIds(ns)[j]);
      assert ns[i] == d[j];
    }
  }

  lemma FirstIndexOfPrefix(ns: seq<Node>, n: nat, k: string)
    requires n <= |ns| && k in Ids(ns[..n])
    ensures k in Ids(ns) && FirstIndex(ns, k) == FirstIndex(ns[..n], k)
  {
    var r := FirstIndex(ns[..n], k);
    assert ns[..n][r] == ns[r];
    assert Ids(ns)[r] == k;
  }

  lemma FirstIndexOfNew(ns: seq<Node>)
    requires ns != [] && ns[|ns| - 1].id !in Ids(ns[..|ns| - 1])
    ensures ns[|ns| - 1].id in Ids(ns) && FirstIndex(ns, ns[|ns| - 1].id) == |ns| - 1
  {
    var n := |ns| - 1;
    assert Ids(ns)[n] == ns[n].id;
    forall i | 0 <= i < n
      ensures ns[i].id != ns[n].id
    {
      assert Ids(ns[..n])[i] == ns[i].id;
    }
    var r := FirstIndex(ns, ns[n].id);
    assert ns[r].id == ns[n].id && r <= n;
  }

  lemma {:induction false} FirstIdsInEmissionOrder(ns: seq<Node>)
    ensures forall j1, j2 :: 0 <= j1 < j2 < |FirstIds(ns)| ==>
      FirstIndex(ns, FirstIds(ns)[j1]) < FirstIndex(ns, FirstIds(ns)[j2])
  {
    if ns != [] {
      var n := |ns| - 1;
      var prefix := ns[..n];
      FirstIdsInEmissionOrder(prefix);
      var f0, f := FirstIds(prefix), FirstIds(ns);
      SplitLast(ns);
      FirstIdsSnoc(prefix, ns[n]);
      forall k | k in f0
        ensures FirstIndex(ns, k) == FirstIndex(prefix, k) < n
      {
        FirstIndexOfPrefix(ns, n, k);
      }
      forall j1, j2 | 0 <= j1 < j2 < |f|
        ensures FirstIndex(ns, f[j1]) < FirstIndex(ns, f[j2])
      {
        assert f[j1] == f0[j1];
        if j2 < |f0| {
          assert f[j2] == f0[j2];
        } else {
          FirstIndexOfNew(ns);
        }
      }
    }
  }

  /** Each surviving node sits at the position of the first emission of its
      id: the output is ordered by first emission. */
  lemma DedupAtFirstEmission(ns: seq<Node>)
    ensures forall j :: 0 <= j < |Dedup(ns)| ==> Dedup(ns)[j].id in Ids(ns)
    ensures forall j1, j2 :: 0 <= j1 < j2 < |Dedup(ns)| ==>
      FirstIndex(ns, Dedup(ns)[j1].id) < FirstIndex(ns, Dedup(ns)[j2].id)
  {
    DedupIdsAreFirstIds(ns);
    FirstIdsInEmissionOrder(ns);
    var d := Dedup(ns);
    assert forall j :: 0 <= j < |d| ==> d[j].id == Ids(d)[j];
  }

  lemma {:induction false} FirstIdsOfCoveredSuffix(a: seq<Node>, b: seq<Node>)
    requires forall k :: k in Ids(b) ==> k in Ids(a)
    ensures FirstIds(a + b) == FirstIds(a)
  {
    if b == [] {
      assert a + b == a;
    } else {
      var n := |b| - 1;
      IdsConcat(b[..n], [b[n]]);
      SplitLast(b);
      FirstIdsOfCoveredSuffix(a, b[..n]);
      ConcatSnoc(a, b[..n], b[n]);
      IdsConcat(a, b[..n]);
      assert Ids(b)[n] == b[n].id;
      FirstIdsSnoc(a + b[..n], b[n]);
    }
  }

  lemma LastWithOfDoubled(ns: seq<Node>, k: string)
    requires k in Ids(ns)
    ensures k in Ids(ns + ns) && LastWith(ns + ns, k) == LastWith(ns, k)
  {
    var r := LastIndex(ns, k);
    var d := ns + ns;
    assert d[|ns| + r] == ns[r];
    assert Ids(d)[|ns| + r] == k;
  }

  /** Deduplication forgets a repeated copy of its input. */
  lemma DedupOfDoubled(ns: seq<Node>)
    ensures Dedup(ns + ns) == Dedup(ns)
  {
    FirstIdsOfCoveredSuffix(ns, ns);
    var f := FirstIds(ns);
    forall j | 0 <= j < |f|
      ensures Dedup(ns + ns)[j] == Dedup(ns)[j]
    {
      LastWithOfDoubled(ns, f[j]);
    }
  }

  // ---------------------------------------------------------------------
  // Node ids and labels

  predicate HasPrefix(s: string, prefix: string) {
    |prefix| <= |s| && s[..|prefix|] == prefix
  }

  lemma PrefixOf(prefix: string, x: string)
    ensures HasPrefix(prefix + x, prefix) && (prefix + x)[|prefix|..] == x
  {
  }

  /** No string starts with two of the three id prefixes. */
  lemma PrefixesExclusive(s: string)
    ensures !(HasPrefix(s, PolicyPrefix) && HasPrefix(s, ConditionPrefix))
    ensures !(HasPrefix(s, PolicyPrefix) && HasPrefix(s, ControlPrefix))
    ensures !(HasPrefix(s, ConditionPrefix) && HasPrefix(s, ControlPrefix))
  {
    if HasPrefix(s, PolicyPrefix) {
      assert s[0] == s[..|PolicyPrefix|][0] == 'p';
    }
    if HasPrefix(s, ConditionPrefix) {
      assert s[0] == s[..|ConditionPrefix|][0] == 'c';
      assert s[3] == s[..|ConditionPrefix|][3] == 'd';
    }
    if HasPrefix(s, ControlPrefix) {
      assert s[3] == s[..|ControlPrefix|][3] == 't';
    }
  }

  /** Ids of different node types never collide, and each id determines
      the policy id, entry or control it was built from. */
  lemma NodeIdsPrefixFree(x: string, y: string)
    ensures PolicyNodeId(x) != ConditionNodeId(y)
    ensures PolicyNodeId(x) != ControlNodeId(y)
    ensures ConditionNodeId(x) != ControlNodeId(y)
    ensures PolicyNodeId(x) == PolicyNodeId(y) ==> x == y
    ensures ConditionNodeId(x) == ConditionNodeId(y) ==> x == y
    ensures ControlNodeId(x) == ControlNodeId(y) ==> x == y
  {
    PrefixOf(PolicyPrefix, x);
    PrefixOf(PolicyPrefix, y);
    PrefixOf(ConditionPrefix, x);
    PrefixOf(ConditionPrefix, y);
    PrefixOf(ControlPrefix, x);
    PrefixOf(ControlPrefix, y);
    PrefixesExclusive(PolicyNodeId(x));
    PrefixesExclusive(ConditionNodeId(x));
  }

  /** A condition node is labelled "All Users" for the entry "All" and
      otherwise carries the entry itself, so the label "All Users" belongs
      to exactly the entries "All" and "All Users". */
  lemma ConditionLabelRule(entry: string)
    ensures entry != AllSentinel ==> ConditionLabel(entry) == entry
    ensures ConditionLabel(entry) == AllUsersLabel <==> entry == AllSentinel || entry == AllUsersLabel
  {
  }

  /** The shape every emitted node has: its id starts with the prefix of its
      type, and the label of a condition or control node is a function of
      its id. */
  predicate Canonical(n: Node) {
    match n
    case PolicyNode(id, _, _) => HasPrefix(id, PolicyPrefix)
    case ConditionNode(id, caption) =>
      HasPrefix(id, ConditionPrefix) && caption == ConditionLabel(id[|ConditionPrefix|..])
    case ControlNode(id, caption) =>
      HasPrefix(id, ControlPrefix) && caption == id[|ControlPrefix|..]
  }

  predicate SameKind(m: Node, n: Node) {
    m.PolicyNode? == n.PolicyNode? && m.ConditionNode? == n.ConditionNode? && m.ControlNode? == n.ControlNode?
  }

  lemma PolicyNodesCanonical(p: CAPolicy)
    ensures forall i :: 0 <= i < |PolicyNodes(p)| ==> Canonical(PolicyNodes(p)[i])
  {
    PolicyNodesLayout(p);
    var inc, ctl, ns := IncludeEntries(p), Controls(p), PolicyNodes(p);
    forall i | 0 <= i < |ns|
      ensures Canonical(ns[i])
    {
      if i == 0 {
        PrefixOf(PolicyPrefix, p.id);
      } else if i < 1 + |inc| {
        var k := i - 1;
        assert ns[1 + k] == ConditionNode(ConditionPrefix + inc[k], ConditionLabel(inc[k]));
        PrefixOf(ConditionPrefix, inc[k]);
      } else {
        var k := i - 1 - |inc|;
        assert ns[1 + |inc| + k] == ControlNode(ControlPrefix + ctl[k], ctl[k]);
        PrefixOf(ControlPrefix, ctl[k]);
      }
    }
  }

  lemma {:induction false} EmittedNodesCanonical(ps: seq<CAPolicy>)
    ensures forall i :: 0 <= i < |EmittedNodes(ps)| ==> Canonical(EmittedNodes(ps)[i])
  {
    if ps != [] {
      var n := |ps| - 1;
      EmittedNodesCanonical(ps[..n]);
      PolicyNodesCanonical(ps[n]);
      var a, b := EmittedNodes(ps[..n]), PolicyNodes(ps[n]);
      assert EmittedNodes(ps) == a + b;
      forall i | 0 <= i < |a + b|
        ensures Canonical((a + b)[i])
      {
        if i >= |a| {
          assert (a + b)[i] == b[i - |a|];
        }
      }
    }
  }

  /** Two well-formed nodes with one id have one type; unless they are
      policy nodes they are equal. */
  lemma SameIdSameNode(m: Node, n: Node)
    requires Canonical(m) && Canonical(n) && m.id == n.id
    ensures SameKind(m, n)
    ensures !m.PolicyNode? ==> m == n
  {
    PrefixesExclusive(m.id);
  }

  /** Deduplication never merges nodes of different types, and it loses no
      condition or control node: only repeated policy ids can have their
      earlier attributes overwritten. */
  lemma DedupMergesOnlyLikeNodes(ps: seq<CAPolicy>)
    ensures var ns := EmittedNodes(ps);
      forall j, i :: 0 <= j < |Dedup(ns)| && 0 <= i < |ns| && Dedup(ns)[j].id == ns[i].id ==>
        SameKind(Dedup(ns)[j], ns[i])
    ensures var ns := EmittedNodes(ps);
      forall i :: 0 <= i < |ns| && !ns[i].PolicyNode? ==> ns[i] in Dedup(ns)
  {
    var ns := EmittedNodes(ps);
    var d := Dedup(ns);
    var f := FirstIds(ns);
    EmittedNodesCanonical(ps);
    forall j, i | 0 <= j < |d| && 0 <= i < |ns| && d[j].id == ns[i].id
      ensures SameKind(d[j], ns[i])
    {
      SameIdSameNode(d[j], ns[i]);
    }
    forall i | 0 <= i < |ns| && !ns[i].PolicyNode?
      ensures ns[i] in d
    {
      var k := ns[i].id;
      assert Ids(ns)[i] == k;
      assert k in f;
      var j :| 0 <= j < |f| && f[j] == k;
      SameIdSameNode(d[j], ns[i]);
    }
  }

  lemma {:induction false} FirstIdsOfDistinct(ns: seq<Node>)
    requires Distinct(Ids(ns))
    ensures FirstIds(ns) == Ids(ns)
  {
    if ns != [] {
      var n := |ns| - 1;
      var prefix := ns[..n];
      SplitLast(ns);
      IdsConcat(prefix, [ns[n]]);
      assert forall i :: 0 <= i < n ==> Ids(prefix)[i] == Ids(ns)[i];
      assert Distinct(Ids(prefix));
      FirstIdsOfDistinct(prefix);
      forall i | 0 <= i < n
        ensures Ids(prefix)[i] != ns[n].id
      {
        assert Ids(ns)[n] == ns[n].id;
      }
    }
  }

  /** A node list without repeated ids passes through deduplication
      unchanged. */
  lemma DedupOfDistinct(ns: seq<Node>)
    requires Distinct(Ids(ns))
    ensures Dedup(ns) == ns
  {
    FirstIdsOfDistinct(ns);
    forall j | 0 <= j < |ns|
      ensures Dedup(ns)[j] == ns[j]
    {
      var k := ns[j].id;
      assert Ids(ns)[j] == k;
      var r := LastIndex(ns, k);
      assert Ids(ns)[r] == k;
    }
  }

  /** Emitting again a node that is already present, when every node with
      its id equals it, leaves the deduplicated list unchanged. */
  lemma DedupOfRepeat(ns: seq<Node>, x: Node)
    requires x in ns
    requires forall i :: 0 <= i < |ns| && ns[i].id == x.id ==> ns[i] == x
    ensures Dedup(ns + [x]) == Dedup(ns)
  {
    var i :| 0 <= i < |ns| && ns[i] == x;
    assert Ids(ns)[i] == x.id;
    FirstIdsSnoc(ns, x);
    var f := FirstIds(ns);
    forall j | 0 <= j < |f|
      ensures Dedup(ns + [x])[j] == Dedup(ns)[j]
    {
      LastWithSnoc(ns, x, f[j]);
    }
  }
}
