# policyOverlap analysis core, modelled in Dafny

policyOverlap reads the Conditional Access policies of a directory and
produces two things from them:

- a graph for the browser, with policy, condition and control nodes, and
  Include and Grant edges;
- the list of policies that apply to a given user with given group
  memberships.

Both come from three functions in `app/analysis.py`. This project models
them, with policy records shaped as in `app/models.py`:

- **Graph normaliser** (`normalize_policies_for_graph`), module
  `Normalizer`. Per policy it appends its nodes and edges to two lists, in
  nested loops. It then deduplicates the nodes through a dict keyed by node
  id. The methods keep those loops and the dict. They are proved equal to
  the specification functions of module `GraphModel`:
  - `PolicyNodes` and `PolicyEdges`: what one policy emits;
  - `EmittedNodes` and `EmittedEdges`: what a list of policies emits;
  - `Dedup`: insertion-ordered dict semantics, built from `FirstIds` and
    `LastWith`.

  Module `GraphProperties` proves what the graph promises: node ids are
  unique, every id appears exactly once, each node is the last emission with
  its id and sits at the place of the first one, node types never merge,
  the edge order and count, and the labelling rules.
- **Applicability evaluator** (`evaluate_policy_applicability`), module
  `Evaluator`. A rule engine in which the first matching rule decides,
  modelled as the function `EvaluatePolicyApplicability`. It is tied to a
  closed-form verdict and to its consequences: disabled never applies,
  exclusion wins, and only the set of group ids matters.
- **Batch evaluator** (`get_applicable_policies`), module `Evaluator`. A
  loop that keeps the ids of the applicable policies in input order. It is
  proved against `ApplicableIds` and against the increasing index list
  `SelectedIndices`.

Module `Models` holds the record shapes. `Scenarios` states the end-to-end
cases for every policy of the given shape: the "All" policy with an mfa
control, exclusion over group inclusion, and two policies sharing a group.
The disabled-policy case needs no scenario of its own:
`Evaluator.DisabledNeverApplies` states it for every policy, user and
group list. `SeqFacts` holds generic sequence lemmas that the proofs use.

The model follows the code on these points:

- `group_ids` is a `List[str]` (`app/analysis.py:77` and `:115`). It is
  modelled as a `seq`, and `Evaluator.DependsOnlyOnGroupSet` shows that
  only its set matters.
- `state` is a free `str`. The comment at `app/models.py:20` lists three
  values, but nothing enforces them. Every value other than `"disabled"`
  is evaluated like `"enabled"`.
- Deduplication through a Python dict keeps each id at the position of
  its first emission and gives it the attributes of its last.
- The label rule at `app/analysis.py:25` labels a condition node
  `"All Users"` for the entry `"All"`, and also for the entry
  `"All Users"` itself, which keeps its own text.
  `GraphProperties.ConditionLabelRule` states this exact iff.
- The test on `grant_controls` is the truthiness of a pydantic object,
  which is always true. A present but empty control list therefore takes
  the loop branch and emits nothing.

## Model

| member | source | states |
|---|---|---|
| Models.UsersList | app/analysis.py:86-91 | computes the list under one key of the users dictionary, with a null dictionary or a missing key read as []; its properties are stated through Evaluator.AppliesClosedForm |
| Evaluator.EvaluatePolicyApplicability | app/analysis.py:77-113 | computes the verdict by the source's rules in order: disabled, excluded user, excluded group, "All", included user, included group, otherwise false; its meaning is stated by Evaluator.AppliesClosedForm and the lemmas after it |
| Evaluator.ApplicableIds | app/analysis.py:115-121 | computes the batch result: the ids of the policies the evaluator accepts, in input order; characterised by Evaluator.ApplicableIdsAreSelected and Evaluator.ApplicableIdsConcat |
| Evaluator.AnyGroupIn | app/analysis.py:97-99 | true exactly when some id in the user's group list is in the given list |
| Evaluator.AppliesClosedForm | app/analysis.py:82-113 | applies iff state is not "disabled", the user is not excluded, no group is excluded, and "All" or the user or one of the groups is included; missing keys count as empty lists |
| Evaluator.DisabledNeverApplies | app/analysis.py:82-83 | a disabled policy applies to no user and no groups |
| Evaluator.OtherStatesEvaluateAsEnabled | app/analysis.py:82-83 | any state other than "disabled", report-only and unknown strings included, gives the same verdict as "enabled" |
| Evaluator.ExclusionWins | app/analysis.py:93-99 | an excluded user or an excluded group means not applicable, whatever the include lists hold, "All" included |
| Evaluator.AllSentinelApplies | app/analysis.py:103-104 | an enabled policy with "All" included and no matching exclusion applies to every user |
| Evaluator.DependsOnlyOnGroupSet | app/analysis.py:97-111 | two group lists with the same elements give the same verdict |
| Evaluator.SelectedIndices | app/analysis.py:115-121 | strictly increasing positions, holding exactly the positions of the policies that apply |
| Evaluator.ApplicableIdsAreSelected | app/analysis.py:115-121 | the batch result lists the ids of exactly the applicable positions, in increasing order |
| Evaluator.ApplicableIdsLength | app/analysis.py:115-121 | the result is no longer than the policy list |
| Evaluator.ApplicableIdsEmpty | app/analysis.py:117-121 | no policies give no ids |
| Evaluator.ApplicableIdsSnoc | app/analysis.py:118-120 | one more policy appends its id exactly when it applies |
| Evaluator.ApplicableIdsConcat | app/analysis.py:115-121 | the batch result on a ++ b is the result on a followed by the result on b |
| Evaluator.GetApplicablePolicies | app/analysis.py:115-121 | the loop returns the specification result: at most one id per policy, the ids of exactly the applicable policies in input order |
| GraphModel.ConditionLabel | app/analysis.py:25 | computes a condition node's label: "All Users" for the entry "All", else the entry; its exact rule is GraphProperties.ConditionLabelRule |
| GraphModel.IncludeEntries | app/analysis.py:21-22 | computes the include entries of a policy: none for a null or empty users dictionary, otherwise the include users followed by the include groups; see GraphProperties.IncludeEntriesUsersFirst |
| GraphModel.Controls | app/analysis.py:51-52 | computes the built-in controls of a policy: none when grant controls are absent, otherwise the built-in control list; see GraphProperties.AbsentAxesEmitNothing and GraphProperties.PolicyNodesLayout |
| GraphModel.ConditionNodes | app/analysis.py:23-41 | computes the condition nodes the include loop appends, in entry order; described position by position by GraphProperties.ConditionNodesAt |
| GraphModel.IncludeEdges | app/analysis.py:23-48 | computes the Include edges the include loop appends, in entry order; described position by position by GraphProperties.IncludeEdgesAt |
| GraphModel.ControlNodes | app/analysis.py:52-60 | computes the control nodes the control loop appends, in control order; described position by position by GraphProperties.ControlNodesAt |
| GraphModel.GrantEdges | app/analysis.py:52-67 | computes the Grant edges the control loop appends, in control order; described position by position by GraphProperties.GrantEdgesAt |
| GraphModel.PolicyNodes | app/analysis.py:9-67 | computes the nodes one policy emits, in emission order; laid out by GraphProperties.PolicyNodesLayout |
| GraphModel.PolicyEdges | app/analysis.py:9-67 | computes the edges one policy emits, in emission order; laid out by GraphProperties.PolicyEdgesLayout |
| GraphModel.EmittedNodes | app/analysis.py:8-67 | computes the node list before deduplication, policy by policy; see GraphProperties.EmittedConcat |
| GraphModel.EmittedEdges | app/analysis.py:8-67 | computes the edge list, policy by policy; see GraphProperties.EmittedConcat and GraphProperties.EdgeCountIsTotal |
| GraphModel.Dedup | app/analysis.py:70 | computes the dict's values: for each key in first-insertion order, the last node with that id; its properties are the Dedup lemmas of GraphProperties |
| GraphModel.FirstIndex | app/analysis.py:70 | the position of the first node with a given id: it has that id and no earlier node does |
| GraphModel.LastIndex | app/analysis.py:70 | the position of the last node with a given id: it has that id and no later node does |
| GraphModel.LastWith | app/analysis.py:70 | computes the value the dict holds for a key: the node at GraphModel.LastIndex, the last emitted with that id; see GraphModel.LastWithSnoc and GraphProperties.DedupKeepsLastEmission |
| GraphModel.FirstIds | app/analysis.py:70 | the dict's keys: pairwise distinct, and exactly the ids of the input nodes |
| GraphModel.FirstIdsSnoc | app/analysis.py:70 | inserting a node adds its id at the end of the keys exactly when the id is new |
| GraphModel.LastWithSnoc | app/analysis.py:70 | inserting a node makes it the value of its id and leaves the value of every other id unchanged |
| GraphProperties.ConditionNodesAt | app/analysis.py:23-41 | one condition node per include entry, in entry order, with id "cond_user_" + entry and the entry's label |
| GraphProperties.IncludeEdgesAt | app/analysis.py:23-48 | one Include edge per include entry, in entry order, from its condition node to the policy node |
| GraphProperties.ControlNodesAt | app/analysis.py:52-60 | one control node per built-in control, in order, with id "control_" + control and the control as label |
| GraphProperties.GrantEdgesAt | app/analysis.py:52-67 | one Grant edge per built-in control, in order, from the policy node to the control node |
| GraphProperties.IncludeEntriesUsersFirst | app/analysis.py:21-22 | the include entries are the include users followed by the include groups |
| GraphProperties.PolicyNodesLayout | app/analysis.py:9-60 | a policy emits its policy node first, then one condition node per include entry, then one control node per control |
| GraphProperties.PolicyEdgesLayout | app/analysis.py:22-67 | a policy emits its Include edges first, in entry order, then its Grant edges, in control order |
| GraphProperties.EdgeCountIsTotal | app/analysis.py:8-67 | the number of edges is the sum over the policies of their include entries and controls |
| GraphProperties.AbsentAxesEmitNothing | app/analysis.py:21-51 | absent or empty users give no condition nodes or Include edges; absent grant controls give no control nodes or Grant edges |
| GraphProperties.ExclusionsNotRepresented | app/analysis.py:21-22 | two policies that differ only in their exclude lists, or other keys in users, emit the same nodes and edges |
| GraphProperties.EmittedSnoc | app/analysis.py:8-67 | one more policy appends exactly its nodes and its edges |
| GraphProperties.EmittedConcat | app/analysis.py:8-67 | the emitted nodes and edges of a ++ b are those of a followed by those of b |
| GraphProperties.NormalizeDoubledPolicies | app/analysis.py:8-74 | normalising ps ++ ps gives the nodes of ps and the edges of ps twice |
| GraphProperties.DedupIdsAreFirstIds | app/analysis.py:70 | the surviving nodes' ids are the dict's keys in insertion order |
| GraphProperties.DedupIdsDistinct | app/analysis.py:70-73 | the surviving nodes have pairwise-distinct ids |
| GraphProperties.DedupKeepsEveryId | app/analysis.py:70-73 | an id survives exactly when some emitted node has it |
| GraphProperties.DedupEveryIdOnce | app/analysis.py:70-73 | every emitted id occurs exactly once among the surviving ids, and no other id occurs |
| GraphProperties.DedupKeepsLastEmission | app/analysis.py:70 | each surviving node is an emitted node with no later emission of the same id |
| GraphProperties.FirstIdsInEmissionOrder | app/analysis.py:70 | the keys are ordered by the position of their first emission |
| GraphProperties.DedupAtFirstEmission | app/analysis.py:70 | the surviving nodes are ordered by the first emission of their ids |
| GraphProperties.FirstIdsOfCoveredSuffix | app/analysis.py:70 | appending nodes whose ids are all already present leaves the keys unchanged |
| GraphProperties.LastWithOfDoubled | app/analysis.py:70 | in ns ++ ns the last node with each id is the last one in ns |
| GraphProperties.DedupOfDoubled | app/analysis.py:70 | deduplicating ns ++ ns gives the same nodes as deduplicating ns |
| GraphProperties.PrefixesExclusive | app/analysis.py:9-53 | no string starts with two of "policy_", "cond_user_" and "control_" |
| GraphProperties.NodeIdsPrefixFree | app/analysis.py:9-53 | node ids of different types never collide, and each id determines the policy id, entry or control it was built from |
| GraphProperties.ConditionLabelRule | app/analysis.py:25 | a condition label is the entry itself unless the entry is "All"; it is "All Users" exactly for the entries "All" and "All Users" |
| GraphProperties.PolicyNodesCanonical | app/analysis.py:9-60 | every node a policy emits carries its type's prefix, and a condition or control node's label is determined by its id |
| GraphProperties.EmittedNodesCanonical | app/analysis.py:8-60 | the same holds for every emitted node of a policy list |
| GraphProperties.SameIdSameNode | app/analysis.py:9-57 | two such nodes with the same id are of the same type, and equal unless they are policy nodes |
| GraphProperties.DedupMergesOnlyLikeNodes | app/analysis.py:9-70 | dedup merges only nodes of the same type, and every emitted condition and control node survives unchanged |
| GraphProperties.FirstIdsOfDistinct | app/analysis.py:70 | with distinct ids, the keys are the ids in order |
| GraphProperties.DedupOfDistinct | app/analysis.py:70 | nodes with distinct ids come through dedup unchanged |
| GraphProperties.DedupOfRepeat | app/analysis.py:70 | re-emitting a node equal to every node with its id changes nothing |
| Normalizer.DictInsert | app/analysis.py:70 | one dict insertion moves the dict from the state of the nodes seen so far to the state of those nodes plus one |
| Normalizer.Values | app/analysis.py:70 | computes `.values()`: the dict's values read in key order; tied to GraphModel.Dedup by Normalizer.DictValues |
| Normalizer.DictValues | app/analysis.py:70 | the dict's values, read in key order, are the deduplicated nodes |
| Normalizer.DeduplicateById | app/analysis.py:70 | the dict loop returns exactly the deduplicated list |
| Normalizer.EmittedPrefixStep | app/analysis.py:8 | one more turn of the policy loop appends that policy's nodes and edges |
| Normalizer.EmitConditions | app/analysis.py:23-48 | the include loop appends exactly the condition nodes and Include edges of the entries |
| Normalizer.EmitControls | app/analysis.py:52-67 | the control loop appends exactly the control nodes and Grant edges of the controls |
| Normalizer.EmitPolicy | app/analysis.py:9-67 | one turn of the policy loop appends exactly that policy's nodes and edges |
| Normalizer.NormalizePoliciesForGraph | app/analysis.py:4-75 | the nodes are the deduplicated emitted nodes, with distinct ids and exactly the emitted ids; the edges are all emitted edges in order, as many as the include entries and controls together |
| Scenarios.AllUsersApplies | app/analysis.py:82-104 | a policy that is not disabled and includes "All" with no exclusion applies to every user |
| Scenarios.AllUsersNodeIs | app/analysis.py:25-26 | the entry "All" gives the node "cond_user_All" labelled "All Users"; the control "mfa" gives "control_mfa" |
| Scenarios.AllUsersPolicyGraph | app/analysis.py:9-67 | the nodes and edges such a policy with the single control "mfa" emits |
| Scenarios.AllUsersScenario | app/analysis.py:4-75 | the graph of that policy is its policy node, the All Users node and the mfa node, with one Include and one Grant edge |
| Scenarios.ExclusionScenario | app/analysis.py:93-95 | excluding the user beats including the user's group |
| Scenarios.OnlyGroupGraph | app/analysis.py:9-48 | a policy that includes only one group emits its policy node, that group's condition node and one Include edge |
| Scenarios.SharedGroupScenario | app/analysis.py:4-75 | two policies including the same group share one condition node, and each gets its own Include edge from it |

## Left out

- The browser view (`app/static/js/viz.js`): layout, styling and
  highlighting are presentation only.
- HTTP routing, sessions and templates (`app/main.py`): glue around the
  two core calls.
- The login flow (`app/auth.py`) and the directory client
  (`app/graph_client.py`): network I/O. The policy list, the user id and
  the user's group ids are inputs to the model.
- pydantic validation, field aliases and default factories: only the
  record shapes are modelled.
- The conditions and fields that the core never reads (`applications`,
  `platforms`, `locations`, `clientAppTypes`, and the grant `operator`,
  `customAuthenticationFactors` and `termsOfUse`), as they affect no
  result.
- The output records are Dafny datatypes, not Cytoscape's nested
  `{"data": ...}` dicts. The `"type"` field becomes the node constructor,
  and `"label"` is called `caption` on nodes and `relation` on edges.
- The core reads only four keys of `users`. A null or non-list value under
  one of them changes what the source does, but only where the code
  reaches that value. A null gives a Python `TypeError`. In the evaluator
  a string gives a substring test. In the normaliser the two include
  values are joined by `+` at `app/analysis.py:22`. That raises a
  `TypeError` unless both are strings, and when both are, their
  characters become the condition entries. The model types every value as
  a list of strings, so it does not capture these behaviours.
- Nothing in the core mutates shared state or runs concurrently, so the
  model has no concurrency.
