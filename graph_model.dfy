/** The graph the normaliser of app/analysis.py builds, as values: the node
    and edge records, what each policy emits, and deduplication of nodes by
    id with the semantics of an insertion-ordered Python dict. */
module GraphModel {
  import opened Models

  datatype EdgeLabel = Include | Grant

  /** A graph node; the constructor is the node's "type". Only policy nodes
      carry a state. */
  datatype Node =
    | PolicyNode(id: string, caption: string, state: string)
    | ConditionNode(id: string, caption: string)
    | ControlNode(id: string, caption: string)

  datatype Edge = Edge(source: string, target: string, relation: EdgeLabel)

  datatype Graph = Graph(nodes: seq<Node>, edges: seq<Edge>)

  const PolicyPrefix: string := "policy_"
  const ConditionPrefix: string := "cond_user_"
  const ControlPrefix: string := "control_"
  const AllUsersLabel: string := "All Users"

  function PolicyNodeId(policyId: string): string { PolicyPrefix + policyId }
  function ConditionNodeId(entry: string): string { ConditionPrefix + entry }
  function ControlNodeId(control: string): string { ControlPrefix + control }

  function ConditionLabel(entry: string): string {
    if entry == AllSentinel then AllUsersLabel else entry
  }

  function PolicyNodeOf(p: CAPolicy): Node {
    PolicyNode(PolicyNodeId(p.id), p.displayName, p.state)
  }

  function ConditionNodeOf(entry: string): Node {
    ConditionNode(ConditionNodeId(entry), ConditionLabel(entry))
  }

  function ControlNodeOf(control: string): Node {
    ControlNode(ControlNodeId(control), control)
  }

  /** The include-side entries that become condition nodes: users first,
      then groups, and nothing when the users dictionary is null or empty. */
  function IncludeEntries(p: CAPolicy): seq<string> {
    match p.conditions.users
    case None => []
    case Some(m) =>
      if m != map[] then UsersList(p, IncludeUsersKey) + UsersList(p, IncludeGroupsKey) else []
  }

  /** The built-in grant controls, nothing when grant controls are absent. */
  function Controls(p: CAPolicy): seq<string> {
    match p.grantControls
    case None => []
    case Some(gc) => gc.builtInControls
  }

  /** The condition nodes the include loop appends, one per entry. */
  function ConditionNodes(entries: seq<string>): seq<Node> {
    if entries == [] then []
    else ConditionNodes(entries[..|entries| - 1]) + [ConditionNodeOf(entries[|entries| - 1])]
  }

  /** The Include edges the include loop appends, one per entry. */
  function IncludeEdges(entries: seq<string>, policyNodeId: string): seq<Edge> {
    if entries == [] then []
    else
      IncludeEdges(entries[..|entries| - 1], policyNodeId)
        + [Edge(ConditionNodeId(entries[|entries| - 1]), policyNodeId, Include)]
  }

  /** The control nodes the control loop appends, one per control. */
  function ControlNodes(controls: seq<string>): seq<Node> {
    if controls == [] then []
    else ControlNodes(controls[..|controls| - 1]) + [ControlNodeOf(controls[|controls| - 1])]
  }

  /** The Grant edges the control loop appends, one per control. */
  function GrantEdges(policyNodeId: string, controls: seq<string>): seq<Edge> {
    if controls == [] then []
    else
      GrantEdges(policyNodeId, controls[..|controls| - 1])
        + [Edge(policyNodeId, ControlNodeId(controls[|controls| - 1]), Grant)]
  }

  /** Everything one policy appends to the node list, in emission order. */
  function PolicyNodes(p: CAPolicy): seq<Node> {
    [PolicyNodeOf(p)] + ConditionNodes(IncludeEntries(p)) + ControlNodes(Controls(p))
  }

  /** Everything one policy appends to the edge list, in emission order. */
  function PolicyEdges(p: CAPolicy): seq<Edge> {
    IncludeEdges(IncludeEntries(p), PolicyNodeId(p.id)) + GrantEdges(PolicyNodeId(p.id), Controls(p))
  }

  /** The node list before deduplication. */
  function EmittedNodes(ps: seq<CAPolicy>): seq<Node> {
    if ps == [] then [] else EmittedNodes(ps[..|ps| - 1]) + PolicyNodes(ps[|ps| - 1])
  }

  /** The edge list, which is never deduplicated. */
  function EmittedEdges(ps: seq<CAPolicy>): seq<Edge> {
    if ps == [] then [] else EmittedEdges(ps[..|ps| - 1]) + PolicyEdges(ps[|ps| - 1])
  }

  /** Sum over the policies of their include entries and grant controls. */
  function EdgeCount(ps: seq<CAPolicy>): nat {
    if ps == [] then 0
    else EdgeCount(ps[..|ps| - 1]) + |IncludeEntries(ps[|ps| - 1])| + |Controls(ps[|ps| - 1])|
  }

  // ---------------------------------------------------------------------
  // Deduplication by id, with the semantics of an insertion-ordered dict

  function Ids(ns: seq<Node>): seq<string> {
    seq(|ns|, i requires 0 <= i < |ns| => ns[i].id)
  }

  predicate Distinct(s: seq<string>) {
    forall i, j :: 0 <= i < j < |s| ==> s[i] != s[j]
  }

  /** Position of the first node with id `k`. */
  function FirstIndex(ns: seq<Node>, k: string): (r: nat)
    requires k in Ids(ns)
    ensures r < |ns| && ns[r].id == k
    ensures forall i :: 0 <= i < r ==> ns[i].id != k
  {
    if ns[0].id == k then 0
    else
      assert Ids(ns) == [ns[0].id] + Ids(ns[1..]);
      1 + FirstIndex(ns[1..], k)
  }

  /** Position of the last node with id `k`. */
  function LastIndex(ns: seq<Node>, k: string): (r: nat)
    requires k in Ids(ns)
    ensures r < |ns| && ns[r].id == k
    ensures forall i :: r < i < |ns| ==> ns[i].id != k
  {
    var n := |ns| - 1;
    if ns[n].id == k then n
    else
      assert Ids(ns) == Ids(ns[..n]) + [ns[n].id];
      LastIndex(ns[..n], k)
  }

  /** The distinct ids in order of first emission: the dict's key order. */
  function FirstIds(ns: seq<Node>): (r: seq<string>)
    ensures Distinct(r)
    ensures forall k :: k in r <==> k in Ids(ns)
  {
    if ns == [] then []
    else
      var n := |ns| - 1;
      var r := FirstIds(ns[..n]);
      assert Ids(ns) == Ids(ns[..n]) + [ns[n].id];
      if ns[n].id in r then r else r + [ns[n].id]
  }

  /** The last node emitted with id `k`. */
  function LastWith(ns: seq<Node>, k: string): Node
    requires k in Ids(ns)
  {
    ns[LastIndex(ns, k)]
  }

  /** One node per id, at the position of the id's first emission and with
      the attributes of its last emission. */
  function Dedup(ns: seq<Node>): seq<Node> {
    var keys := FirstIds(ns);
    seq(|keys|, j requires 0 <= j < |keys| => LastWith(ns, keys[j]))
  }

  lemma IdsSnoc(ns: seq<Node>, x: Node)
    ensures Ids(ns + [x]) == Ids(ns) + [x.id]
  {
  }

  lemma FirstIdsSnoc(ns: seq<Node>, x: Node)
    ensures FirstIds(ns + [x]) == if x.id in Ids(ns) then FirstIds(ns) else FirstIds(ns) + [x.id]
  {
    assert (ns + [x])[..|ns|] == ns;
  }

  lemma LastWithSnoc(ns: seq<Node>, x: Node, k: string)
    requires k in Ids(ns) || k == x.id
    ensures k in Ids(ns + [x])
    ensures LastWith(ns + [x], k) == if k == x.id then x else LastWith(ns, k)
  {
    IdsSnoc(ns, x);
    assert (ns + [x])[..|ns|] == ns;
  }
}
