# Portal dependency audit — a Dafny model

This project models the dependency crawler of the OCluster toolkit
(`OCluster/crawler.py`). The crawler takes every content item of an ArcGIS
portal and builds a dependency graph. It then flags every item that nothing
links to as abandoned ("space junk").

The model covers:

- **Item-ID discovery.** `extract_id_from_url` finds the 32-character item ID
  after `/items/` in a URL (`ItemIds.ExtractIdFromUrl`, built on a model of
  Python's `str.split` in `Strings`). `extract_ids_from_dict` walks a parsed
  JSON tree and accumulates the IDs it finds (`ItemIds.ExtractIdsFromDict`).
  It is proved equal to a plain recursive definition of "the IDs in the tree"
  (`ItemIds.IdsIn`).
- **The four relationship-mining strategies** (`Relationships`):
  - forward and reverse `related_items` queries over five relationship types;
  - the `dependent_upon` / `dependent_to` dependency API;
  - deep JSON inspection of maps and apps.

  Each produces `(source, target, kind)` tuples. Every remote call is an
  oracle (`Portal.Portal`) that answers or raises. The bare `except: pass`
  makes a raised call contribute nothing (`Portal.Answered`).
- **Steps 1 to 3 of `main`** (`Audit`):
  - the node inventory keyed by item ID;
  - the loop over every item's tuples, which keeps only edges between
    inventoried items and increments the `relationship_sources` breakdown
    counters;
  - the abandonment pass that flags and counts nodes no edge touches.

  `Audit.RunAudit` is that whole pipeline. Its counter rule is a parameter:
  - `Audit.CounterFor` is the rule as written;
  - `Audit.IntendedCounter` is the rule the counter names evidently call for
    (see Findings).

  `RunAudit(portal, items, CounterFor)` is `main` as written.

Python lists become sequences. Python sets and the edge set become Dafny
sets. The node dict becomes a map. JSON values are an inductive datatype
(`JsonValue.Json`). An object is a sequence of key/value members in
iteration order.

## Model

| member | source | states |
|---|---|---|
| `Strings.Split` | OCluster/crawler.py:103 | `str.split` with a non-empty separator: no part contains the separator, and there is more than one part exactly when the string contains it |
| `Strings.JoinSplit` | OCluster/crawler.py:103 | joining the parts of a split with the separator gives back the original string |
| `ItemIds.ExtractIdFromUrl` | OCluster/crawler.py:96-110 | a returned ID is exactly 32 characters long, and only URLs containing `/items/` yield one |
| `ItemIds.ExtractIdFromUrlMeaning` | OCluster/crawler.py:102-110 | an ID comes back iff the URL contains `/items/` and the text after the first `/items/`, cut at the first `/` and then at the first `?`, has 32 characters; the ID is that text, contains no `/` or `?`, and is the first 32 characters after `/items/` |
| `ItemIds.ExtractIdFromValue` | OCluster/crawler.py:96-99 | a value that is not a string yields no ID; a string is parsed as a URL |
| `ItemIds.ExtractIdsFromDict` | OCluster/crawler.py:64-94 | the walk only adds to the set it is given, and everything it adds is 32 characters long |
| `ItemIds.ExtractIdsIsUnion` | OCluster/crawler.py:64-94 | the accumulating walk returns exactly the given set plus the IDs the tree holds, per an independent recursive definition |
| `ItemIds.AccumulatorOnlyGrows` | OCluster/crawler.py:75-76 | walking with a non-empty `discovered` set equals that set plus a walk started from the empty set |
| `ItemIds.EntryRule` | OCluster/crawler.py:79-89 | a 32-character `itemId` string is collected; a `url` string adds only what `extract_id_from_url` finds; any other entry, including an `itemId` of another length, is walked recursively |
| `ItemIds.ListAndScalarRule` | OCluster/crawler.py:90-94 | lists are walked element by element; strings, numbers, booleans and null add nothing |
| `ItemIds.MembersIdsMembership` | OCluster/crawler.py:78-89 | an ID is among a dict's IDs exactly when one of its entries holds it |
| `ItemIds.MemberOrderIrrelevant` | OCluster/crawler.py:78-89 | two dicts with the same entries, in any order, yield the same IDs |
| `ItemIds.IdsHaveIdLength` | OCluster/crawler.py:81-87 | every ID found anywhere in a tree is 32 characters long |
| `ItemIds.FalsyHoldsNoIds` | OCluster/crawler.py:187-188 | a falsy JSON value holds no IDs, so the `if item_data:` guard never hides a reference |
| `Portal.Answered` | OCluster/crawler.py:125-130 | a call that raised contributes no related items |
| `Relationships.LinksOfType` | OCluster/crawler.py:126-128 | one tuple per related item the query listed; none when the query raised |
| `Relationships.LinksMembership` | OCluster/crawler.py:121-131 | a tuple comes out of the loop over relationship types exactly when one of the queried types reported that related item, with that type's kind and direction |
| `Relationships.ForwardRelationships` | OCluster/crawler.py:116-131 | every forward tuple starts at the inspected item and has the kind `forward_<type>` for one of the five relationship types |
| `Relationships.ReverseRelationships` | OCluster/crawler.py:133-148 | every reverse tuple ends at the inspected item and has the kind `reverse_<type>` for one of the five relationship types |
| `Relationships.IdentifiedIds` | OCluster/crawler.py:158-160 | the kept IDs are exactly those of the dependencies that have an `id` attribute; the others are skipped |
| `Relationships.IdentifiedIdsAppend` | OCluster/crawler.py:158-160 | the loop keeps list order: the IDs of two runs of dependencies are the first run's IDs followed by the second's |
| `Relationships.IdentifiedIdsSingle` | OCluster/crawler.py:159-160 | one dependency yields its ID exactly once when it has an `id` and nothing otherwise, so repeated entries give repeated IDs |
| `Relationships.DependsOn` | OCluster/crawler.py:156-162 | `depends_on` tuples start at the item; one per identified dependency; none when `dependent_upon()` raised |
| `Relationships.DependentTo` | OCluster/crawler.py:163-169 | `dependent_to` tuples end at the item; one per identified dependent; none when `dependent_to()` raised |
| `Relationships.DependenciesMembership` | OCluster/crawler.py:150-170 | a tuple is in `get_dependencies` exactly when it is `depends_on` from the item to an identified dependency, or `dependent_to` from an identified dependent into the item |
| `Relationships.GuardedIds` | OCluster/crawler.py:187-188 | behind the `if item_data:` guard, the walk yields exactly the IDs the data holds, each 32 characters long |
| `Relationships.ReferencedIds` | OCluster/crawler.py:184-188 | when the item's type is inspected and `get_data()` answered, the referenced IDs are exactly the IDs its data holds (a falsy answer holds none); otherwise there are none; all are 32 characters long |
| `Relationships.JsonRelationSetMembership` | OCluster/crawler.py:188-191 | a JSON tuple runs from the item to a referenced ID other than its own, with kind `json_reference`, and every such pair is one |
| `Relationships.ReferenceTuples` | OCluster/crawler.py:189-191 | the loop over `referenced_ids` emits one tuple per referenced ID except the item's own, with no repeats, in any order |
| `Relationships.ExtractJsonDependencies` | OCluster/crawler.py:172-194 | `extract_json_dependencies` yields exactly the item's JSON-reference tuples, each once, never a self-reference |
| `Relationships.RelationsTouchItem` | OCluster/crawler.py:234-237 | every tuple in an item's `all_rels` starts or ends at that item; the direction follows the kind |
| `Audit.Inventory` | OCluster/crawler.py:213-224 | the inventory has a node for exactly the IDs of the listed items, each under its own ID and initially abandoned |
| `Audit.InventoryLastWins` | OCluster/crawler.py:214-215 | when items share an ID, the node holds the last such item's fields |
| `Audit.NamesIn` | OCluster/crawler.py:244 | the comprehension keeps exactly the counter keys that occur inside the kind |
| `Audit.NamesInHead` | OCluster/crawler.py:244-245 | when some key occurs inside the kind, `key[0]` exists and comes no later in dict order than any key that occurs, so it is the first one |
| `Audit.NoNamesIn` | OCluster/crawler.py:244 | when no counter key occurs inside the kind, the comprehension is empty |
| `Audit.CounterForFallback` | OCluster/crawler.py:244-247 | with no key match, "json" selects the JSON counter, then "depends" selects the dependency counter, else nothing is counted |
| `Audit.LinkKindUncounted` | OCluster/crawler.py:244-247 | as written, forward and reverse kinds select no counter |
| `Audit.DependsOnCounted` | OCluster/crawler.py:246-247 | as written, `depends_on` selects the dependency counter |
| `Audit.DependentToUncounted` | OCluster/crawler.py:244-247 | as written, `dependent_to` selects no counter, because it does not contain "depends" |
| `Audit.JsonReferenceCounted` | OCluster/crawler.py:246 | as written, `json_reference` selects the JSON counter |
| `Audit.CountedKinds` | OCluster/crawler.py:244-247 | as written, only `depends_on` and `json_reference` tuples are ever counted, each on its own counter |
| `Audit.IntendedSelection` | OCluster/crawler.py:208-211 | the corrected rule puts each strategy's tuples on the counter named after that strategy |
| `Audit.KeptPairs` | OCluster/crawler.py:240-242 | every recorded edge joins two inventoried items |
| `Audit.Record` | OCluster/crawler.py:239-247 | the loop over `all_rels` adds the kept tuples' pairs to the edges, and adds one count per kept tuple to the counters |
| `Audit.EdgesOfKeptPairs` | OCluster/crawler.py:239-242 | the edges the loop collects are exactly the pairs of the kept tuples present; duplicates collapse |
| `Audit.TalliedAtMostKept` | OCluster/crawler.py:241-247 | each kept tuple moves the counters by at most one, and a dropped tuple never counts |
| `Audit.TalliedAppend` | OCluster/crawler.py:234-247 | the counts of concatenated runs of tuples add up, so each strategy's share can be counted on its own |
| `Audit.TalliedUniform` | OCluster/crawler.py:243-247 | when every tuple of a run selects the same counter, that counter counts every kept tuple of the run and the others count none |
| `Audit.DistinctKeptCount` | OCluster/crawler.py:189-191 | among distinct tuples, the number kept is the size of the kept set |
| `Audit.ItemEffect` | OCluster/crawler.py:234-247 | one item's `all_rels` adds that item's kept pairs to the edges and its counts to the counters, whatever order its JSON references come in |
| `Audit.AuditEdgesMembership` | OCluster/crawler.py:229-242 | an edge is recorded exactly when some listed item yields a kept tuple between its two ends |
| `Audit.CollectEdges` | OCluster/crawler.py:228-247 | step 2 yields exactly the audit's edges and counters over all items |
| `Audit.AuditTallyAsWritten` | OCluster/crawler.py:239-247 | as written, the forward and reverse counters stay 0; the dependency counter counts kept `depends_on` tuples only; the JSON counter counts kept `json_reference` tuples |
| `Audit.LinkEdgeUncounted` | OCluster/crawler.py:241-247 | as written, a kept forward or reverse tuple adds its edge but moves no counter |
| `Audit.EdgeWithoutCount` | OCluster/crawler.py:241-247 | a kept tuple whose kind selects no counter adds its edge and nothing else |
| `Audit.ItemTallyIntended` | OCluster/crawler.py:208-211 | under the corrected rule, each kept tuple of an item is counted once, on its own strategy's counter |
| `Audit.AuditTallyIntended` | OCluster/crawler.py:208-211 | under the corrected rule, the four counters add up to the number of kept tuples the items yield |
| `Audit.ConnectedIds` | OCluster/crawler.py:250-253 | `connected_ids` holds exactly the IDs some edge starts or ends at |
| `Audit.MarkAbandoned` | OCluster/crawler.py:255-260 | a touched node is marked not abandoned; every other node is left as it was and counted |
| `Audit.MarkedFlags` | OCluster/crawler.py:223 | since every node starts abandoned, after marking a node is abandoned iff no edge touches it; the abandoned nodes are the ones counted; nothing else changes |
| `Audit.RunAudit` | OCluster/crawler.py:206-271 | `total_items` is the item count; the nodes are exactly the item IDs, each the inventory's node up to its flag; the edges are exactly the kept edges, all between inventoried items; a node is abandoned iff no edge touches it; `abandoned_count` counts the abandoned nodes; the breakdown is the counter total under the rule |

## Left out

- **Connecting to the portal, content search and `MAX_ITEMS`.** `connect_to_gis` and `gis.content.search(..., max_items=MAX_ITEMS)` are I/O. The search result is the `items` parameter.
- **Logging and output.** Progress printing, `ok`/`err` logging and the `json.dump` to the output file (step 4) are I/O. The model stops at the `Graph` value step 4 would serialise.
- **Order of nodes and edges.** The `nodes` list and the `edges` list are modelled as a map and a set. Python's output order comes from dict insertion and set iteration.
- **Related items.** `related_items` answers are reduced to the related items' IDs. No other attribute of them is used.
- **The `hasattr(dep, 'id')` test.** It is modelled as a dependency whose `id` is optional.
- **Exceptions.** Each remote call either answers a whole list or raises. An exception raised part-way through iterating an answer is not modelled. In the source, such an exception would keep the tuples appended so far.
- **JSON values.**
  - Numbers are integers; floating point is out of scope. A float `0.0` is falsy in Python, just like `0`.
  - Duplicate keys in a parsed object are not excluded. A parsed dict would have collapsed them.
- **`ExtractJsonDependencies` order.** The order of its tuples is chosen freely, because Python's set iteration order is unspecified. Every property stated about it holds for any order.
- **Other repository parts.** The AGOL Backup Utility and MarkingDetection are not part of this model.

## Findings

| source | as written | input that shows it | evidently intended | confidence | as-written member | corrected member |
|---|---|---|---|---|---|---|
| OCluster/crawler.py:244-247 | `[k for k in relationship_sources if k in rel_type]` asks whether a whole counter key, such as "forward_relationships", occurs inside the tuple's kind. No key does, so forward and reverse tuples are never counted, and `dependent_to` (no "depends") is not counted either | an inventoried pair (a, b) and the kept tuple (a, b, "forward_f2w"): an edge is added, but every counter stays unchanged | each kept tuple counted on the counter named after its strategy: forward, reverse, dependencies (both directions) and JSON references, so the four counters add up to the kept tuples | not executed | `Audit.LinkEdgeUncounted`, `Audit.AuditTallyAsWritten` | `Audit.ItemTallyIntended`, `Audit.AuditTallyIntended` |

`Audit.RunAudit` takes the counter rule as a parameter:

- With `Audit.CounterFor` it reproduces `main` as written.
- With `Audit.IntendedCounter` it computes the corrected breakdown.

All other outputs (nodes, edges, abandonment) do not depend on the rule.
