/**
  The four relationship-mining strategies. Each turns the portal's
  answers about one item into `(source, target, kind)` tuples.
 */
module Relationships {
  import opened Wrappers
  import opened Strings
  import opened JsonValue
  import opened ItemIds
  import opened Portal

  datatype Relationship = Relationship(source: string, target: string, kind: string)

  /** The relationship types queried in both directions, in query order. */
  const RelationshipTypes: seq<string> := ["f2w", "w2m", "m2a", "Map2Service", "Service2Data"]

  /** Item types whose JSON is inspected for hidden references. */
  const InspectTypes: seq<string> :=
    ["Web Map", "Web Mapping Application", "Dashboard", "Experience Builder", "Feature Service"]

  const DependsOnKind: string := "depends_on"
  const DependentToKind: string := "dependent_to"
  const JsonReferenceKind: string := "json_reference"

  function ForwardKind(relType: string): string { "forward_" + relType }
  function ReverseKind(relType: string): string { "reverse_" + relType }

  /** The tuple for one related item: forward ones start at the inspected item, reverse ones end at it. */
  function Link(item: Item, relatedId: string, relType: string, dir: Direction): Relationship {
    match dir
    case Forward => Relationship(item.id, relatedId, ForwardKind(relType))
    case Reverse => Relationship(relatedId, item.id, ReverseKind(relType))
  }

  /** True when the portal answered the `relType` query in direction `dir` and listed `relatedId`. */
  predicate Reported(portal: Portal, item: Item, relType: string, dir: Direction, relatedId: string) {
    portal.relatedItems(item, relType, dir).Ok? && relatedId in portal.relatedItems(item, relType, dir).value
  }

  /** The tuples of one `related_items` query, in the order the portal listed the items. */
  function LinksOfType(portal: Portal, item: Item, relType: string, dir: Direction): (rels: seq<Relationship>)
    ensures |rels| == |Answered(portal.relatedItems(item, relType, dir))|
  {
    var ids := Answered(portal.relatedItems(item, relType, dir));
    seq(|ids|, k requires 0 <= k < |ids| => Link(item, ids[k], relType, dir))
  }

  /** The loop over relationship types shared by the forward and the reverse strategy. */
  function Links(portal: Portal, item: Item, types: seq<string>, dir: Direction): seq<Relationship>
    decreases |types|
  {
    if |types| == 0 then []
    else LinksOfType(portal, item, types[0], dir) + Links(portal, item, types[1..], dir)
  }

  /**
    A tuple comes out of the loop exactly when one of the queried types
    reported the related item; a query that raised contributes nothing.
   */
  lemma {:induction false} LinksMembership(portal: Portal, item: Item, types: seq<string>, dir: Direction, r: Relationship)
    ensures r in Links(portal, item, types, dir) <==>
              exists k | 0 <= k < |types| ::
                var relatedId := if dir == Forward then r.target else r.source;
                Reported(portal, item, types[k], dir, relatedId) && r == Link(item, relatedId, types[k], dir)
    decreases |types|
  {
    if |types| > 0 {
      LinksMembership(portal, item, types[1..], dir, r);
      var relatedId := if dir == Forward then r.target else r.source;
      var ids := Answered(portal.relatedItems(item, types[0], dir));
      if r in LinksOfType(portal, item, types[0], dir) {
        var k :| 0 <= k < |ids| && r == Link(item, ids[k], types[0], dir);
        assert Reported(portal, item, types[0], dir, relatedId);
      }
      if Reported(portal, item, types[0], dir, relatedId) && r == Link(item, relatedId, types[0], dir) {
        var k :| 0 <= k < |ids| && ids[k] == relatedId;
        assert LinksOfType(portal, item, types[0], dir)[k] == r;
      }
      if exists k | 0 <= k < |types| :: Reported(portal, item, types[k], dir, relatedId) && r == Link(item, relatedId, types[k], dir) {
        var k :| 0 <= k < |types| && Reported(portal, item, types[k], dir, relatedId) && r == Link(item, relatedId, types[k], dir);
        if k > 0 {
          assert types[1..][k - 1] == types[k];
        }
      }
      if exists k | 0 <= k < |types[1..]| :: Reported(portal, item, types[1..][k], dir, relatedId) && r == Link(item, relatedId, types[1..][k], dir) {
        var k :| 0 <= k < |types[1..]| && Reported(portal, item, types[1..][k], dir, relatedId) && r == Link(item, relatedId, types[1..][k], dir);
        assert types[k + 1] == types[1..][k];
      }
    }
  }

  /** `get_forward_relationships`: every tuple starts at the inspected item. */
  function ForwardRelationships(portal: Portal, item: Item): (rels: seq<Relationship>)
    ensures forall r | r in rels :: r.source == item.id
    ensures forall r | r in rels :: exists k | 0 <= k < |RelationshipTypes| :: r.kind == ForwardKind(RelationshipTypes[k])
  {
    var rels := Links(portal, item, RelationshipTypes, Forward);
    forall r | r in rels
      ensures r.source == item.id
      ensures exists k | 0 <= k < |RelationshipTypes| :: r.kind == ForwardKind(RelationshipTypes[k])
    {
      LinksMembership(portal, item, RelationshipTypes, Forward, r);
    }
    rels
  }

  /** `get_reverse_relationships`: every tuple ends at the inspected item. */
  function ReverseRelationships(portal: Portal, item: Item): (rels: seq<Relationship>)
    ensures forall r | r in rels :: r.target == item.id
    ensures forall r | r in rels :: exists k | 0 <= k < |RelationshipTypes| :: r.kind == ReverseKind(RelationshipTypes[k])
  {
    var rels := Links(portal, item, RelationshipTypes, Reverse);
    forall r | r in rels
      ensures r.target == item.id
      ensures exists k | 0 <= k < |RelationshipTypes| :: r.kind == ReverseKind(RelationshipTypes[k])
    {
      LinksMembership(portal, item, RelationshipTypes, Reverse, r);
    }
    rels
  }

  /** The IDs of the dependencies that have one, in order; the others are skipped. */
  function IdentifiedIds(deps: seq<Dependency>): (ids: seq<string>)
    ensures forall x :: x in ids <==> exists d | d in deps :: d.id == Some(x)
    ensures |ids| <= |deps|
  {
    if |deps| == 0 then []
    else
      var rest := IdentifiedIds(deps[1..]);
      assert forall d | d in deps[1..] :: d in deps;
      match deps[0].id
      case Some(x) => [x] + rest
      case None => rest
  }

  /** The IDs of a run of dependencies followed by another are the IDs of the first run followed by those of the second. */
  lemma {:induction false} IdentifiedIdsAppend(a: seq<Dependency>, b: seq<Dependency>)
    ensures IdentifiedIds(a + b) == IdentifiedIds(a) + IdentifiedIds(b)
    decreases |a|
  {
    if |a| == 0 {
      assert a + b == b;
    } else {
      assert (a + b)[0] == a[0];
      assert (a + b)[1..] == a[1..] + b;
      IdentifiedIdsAppend(a[1..], b);
    }
  }

  /** A single dependency contributes its ID once when it has one, and nothing otherwise. */
  lemma IdentifiedIdsSingle(d: Dependency)
    ensures IdentifiedIds([d]) == if d.id.Some? then [d.id.value] else []
  {
    assert [d][1..] == [];
  }

  /** The `dependent_upon()` half of `get_dependencies`: the inspected item depends on each listed one. */
  function DependsOn(portal: Portal, item: Item): (rels: seq<Relationship>)
    ensures forall r | r in rels :: r.source == item.id && r.kind == DependsOnKind
    ensures forall r | r in rels :: portal.dependentUpon(item).Ok?
    ensures |rels| == |IdentifiedIds(Answered(portal.dependentUpon(item)))|
  {
    var ids := IdentifiedIds(Answered(portal.dependentUpon(item)));
    seq(|ids|, k requires 0 <= k < |ids| => Relationship(item.id, ids[k], DependsOnKind))
  }

  /** The `dependent_to()` half of `get_dependencies`: each listed item depends on the inspected one. */
  function DependentTo(portal: Portal, item: Item): (rels: seq<Relationship>)
    ensures forall r | r in rels :: r.target == item.id && r.kind == DependentToKind
    ensures forall r | r in rels :: portal.dependentTo(item).Ok?
    ensures |rels| == |IdentifiedIds(Answered(portal.dependentTo(item)))|
  {
    var ids := IdentifiedIds(Answered(portal.dependentTo(item)));
    seq(|ids|, k requires 0 <= k < |ids| => Relationship(ids[k], item.id, DependentToKind))
  }

  /** `get_dependencies` */
  function GetDependencies(portal: Portal, item: Item): seq<Relationship> {
    DependsOn(portal, item) + DependentTo(portal, item)
  }

  /**
    The tuples of `get_dependencies` are exactly one per listed dependency
    that has an ID: `depends_on` from the item, `dependent_to` into it.
   */
  lemma DependenciesMembership(portal: Portal, item: Item, r: Relationship)
    ensures r in GetDependencies(portal, item) <==>
              || (r.kind == DependsOnKind && r.source == item.id &&
                  exists d | d in Answered(portal.dependentUpon(item)) :: d.id == Some(r.target))
              || (r.kind == DependentToKind && r.target == item.id &&
                  exists d | d in Answered(portal.dependentTo(item)) :: d.id == Some(r.source))
  {
    var up := IdentifiedIds(Answered(portal.dependentUpon(item)));
    var to := IdentifiedIds(Answered(portal.dependentTo(item)));
    if r.kind == DependsOnKind && r.source == item.id && r.target in up {
      var k :| 0 <= k < |up| && up[k] == r.target;
      assert DependsOn(portal, item)[k] == r;
    }
    if r.kind == DependentToKind && r.target == item.id && r.source in to {
      var k :| 0 <= k < |to| && to[k] == r.source;
      assert DependentTo(portal, item)[k] == r;
    }
  }

  /** `any(item_type in item.type for item_type in inspect_types)` */
  predicate Inspected(itemType: string) {
    exists k | 0 <= k < |InspectTypes| :: Contains(itemType, InspectTypes[k])
  }

  /**
    `extract_ids_from_dict(item_data)` behind the `if item_data:` guard:
    exactly the IDs the data holds, since falsy data holds none.
   */
  function GuardedIds(data: Json): (ids: set<string>)
    ensures ids == IdsIn(data)
    ensures forall x | x in ids :: |x| == IdLength
  {
    ExtractIdsIsUnion(data, {});
    if Truthy(data) then ExtractIdsFromDict(data, {})
    else
      FalsyHoldsNoIds(data);
      {}
  }

  /**
    The `referenced_ids` of `extract_json_dependencies`: the IDs in the
    item's data when its type is inspected and `get_data()` answered;
    nothing otherwise.
   */
  function ReferencedIds(portal: Portal, item: Item): (ids: set<string>)
    ensures forall x | x in ids :: |x| == IdLength
    ensures ids != {} ==> Inspected(item.itemType) && portal.getData(item).Ok?
    ensures Inspected(item.itemType) && portal.getData(item).Ok? ==> ids == IdsIn(portal.getData(item).value)
  {
    if !Inspected(item.itemType) then {}
    else
      match portal.getData(item)
      case Raised => {}
      case Ok(data) => GuardedIds(data)
  }

  /** The JSON-reference tuples of an item, as a set. */
  function JsonRelationSet(portal: Portal, item: Item): set<Relationship> {
    set x | x in ReferencedIds(portal, item) && x != item.id :: Relationship(item.id, x, JsonReferenceKind)
  }

  lemma JsonRelationSetMembership(portal: Portal, item: Item, r: Relationship)
    ensures r in JsonRelationSet(portal, item) <==>
              r.source == item.id && r.kind == JsonReferenceKind &&
              r.target in ReferencedIds(portal, item) && r.target != item.id
  {
    if r.source == item.id && r.kind == JsonReferenceKind && r.target in ReferencedIds(portal, item) && r.target != item.id {
      assert r == Relationship(item.id, r.target, JsonReferenceKind);
    }
  }

  /** No tuple occurs twice. */
  predicate Distinct(rels: seq<Relationship>) {
    forall i, j | 0 <= i < j < |rels| :: rels[i] != rels[j]
  }

  /**
    The loop of `extract_json_dependencies` over `referenced_ids`. The IDs
    come out of a set, whose iteration order is arbitrary, so the order
    of the tuples is chosen freely.
   */
  method ReferenceTuples(itemId: string, referenced: set<string>) returns (rels: seq<Relationship>)
    ensures forall r | r in rels :: r.source == itemId && r.kind == JsonReferenceKind
    ensures forall r | r in rels :: r.target in referenced && r.target != itemId
    ensures forall x | x in referenced && x != itemId :: Relationship(itemId, x, JsonReferenceKind) in rels
    ensures Distinct(rels)
  {
    rels := [];
    var remaining := referenced;
    while remaining != {}
      invariant remaining <= referenced
      invariant forall r | r in rels :: r.source == itemId && r.kind == JsonReferenceKind
      invariant forall r | r in rels :: r.target in referenced && r.target !in remaining && r.target != itemId
      invariant forall x | x in referenced && x !in remaining && x != itemId :: Relationship(itemId, x, JsonReferenceKind) in rels
      invariant Distinct(rels)
      decreases |remaining|
    {
      var refId :| refId in remaining;
      if refId != itemId {
        rels := rels + [Relationship(itemId, refId, JsonReferenceKind)];
      }
      remaining := remaining - {refId};
    }
  }

  /**
    `extract_json_dependencies`: one `json_reference` tuple from the item to
    each referenced ID other than its own, none twice.
   */
  method ExtractJsonDependencies(portal: Portal, item: Item) returns (rels: seq<Relationship>)
    ensures forall r | r in rels :: r.source == item.id && r.kind == JsonReferenceKind && r.target != r.source
    ensures forall r :: r in rels <==> r in JsonRelationSet(portal, item)
    ensures Distinct(rels)
  {
    rels := ReferenceTuples(item.id, ReferencedIds(portal, item));
    forall r
      ensures r in rels <==> r in JsonRelationSet(portal, item)
    {
      JsonRelationSetMembership(portal, item, r);
    }
  }

  /** Every tuple an item yields across the four strategies, as a set. */
  function RelationSet(portal: Portal, item: Item): set<Relationship> {
    var listed := ForwardRelationships(portal, item) + ReverseRelationships(portal, item) + GetDependencies(portal, item);
    (set r | r in listed) + JsonRelationSet(portal, item)
  }

  /**
    Every tuple an item yields involves that item: forward, `depends_on`
    and `json_reference` tuples start at it, reverse and `dependent_to`
    tuples end at it.
   */
  lemma RelationsTouchItem(portal: Portal, item: Item, r: Relationship)
    requires r in RelationSet(portal, item)
    ensures r.source == item.id || r.target == item.id
    ensures (exists t | t in RelationshipTypes :: r.kind == ForwardKind(t)) ==> r.source == item.id
    ensures (exists t | t in RelationshipTypes :: r.kind == ReverseKind(t)) ==> r.target == item.id
    ensures r.kind == DependsOnKind || r.kind == JsonReferenceKind ==> r.source == item.id
    ensures r.kind == DependentToKind ==> r.target == item.id
    ensures r.kind == JsonReferenceKind ==> r.source != r.target
  {
    var fwd := ForwardRelationships(portal, item);
    var rev := ReverseRelationships(portal, item);
    var deps := GetDependencies(portal, item);
    if r in fwd {
      assert r.kind[0] == 'f';
      assert forall t | t in RelationshipTypes :: r.kind != ReverseKind(t) by {
        forall t | t in RelationshipTypes ensures r.kind != ReverseKind(t) {
          LinkKindsStart(t);
        }
      }
    } else if r in rev {
      assert r.kind[0] == 'r';
      assert forall t | t in RelationshipTypes :: r.kind != ForwardKind(t) by {
        forall t | t in RelationshipTypes ensures r.kind != ForwardKind(t) {
          LinkKindsStart(t);
        }
      }
    } else {
      if r in deps {
        assert r.kind == DependsOnKind || r.kind == DependentToKind;
      } else {
        JsonRelationSetMembership(portal, item, r);
      }
      assert r.kind[0] == 'd' || r.kind[0] == 'j';
      assert forall t | t in RelationshipTypes :: r.kind != ForwardKind(t) && r.kind != ReverseKind(t) by {
        forall t | t in RelationshipTypes ensures r.kind != ForwardKind(t) && r.kind != ReverseKind(t) {
          LinkKindsStart(t);
        }
      }
    }
  }

  /** Forward kinds start with an 'f', reverse kinds with an 'r'. */
  lemma LinkKindsStart(relType: string)
    ensures ForwardKind(relType)[0] == 'f' && ReverseKind(relType)[0] == 'r'
  {
  }

}
