/**
  The audit itself: inventory the items, fold every strategy's tuples
  into a set of edges and a breakdown of relationship kinds, and flag as
  abandoned every item no edge touches.
 */
module Audit {
  import opened Wrappers
  import opened Strings
  import opened Portal
  import opened Relationships

  /** One entry of the node inventory. */
  datatype Node = Node(
    id: string,
    title: string,         // the "label" entry
    itemType: string,
    owner: string,
    views: int,
    access: string,
    url: string,
    isAbandoned: bool)

  /** A freshly inventoried item: assumed abandoned until an edge touches it. */
  function NewNode(item: Item): Node {
    Node(item.id, item.title, item.itemType, item.owner, item.numViews, item.access, item.homepage, true)
  }

  // ---------------------------------------------------------------------
  // Step 1: inventory
  // ---------------------------------------------------------------------

  /** True when no item after position `i` has the same ID as `items[i]`. */
  predicate LastWithItsId(items: seq<Item>, i: int)
    requires 0 <= i < |items|
  {
    forall j | i < j < |items| :: items[j].id != items[i].id
  }

  /**
    The node inventory, keyed by item ID: every listed item has a node,
    under its own ID, assumed abandoned.
   */
  function Inventory(items: seq<Item>): (nodes: map<string, Node>)
    ensures nodes.Keys == set item | item in items :: item.id
    ensures forall x | x in nodes :: nodes[x].id == x && nodes[x].isAbandoned
    decreases |items|
  {
    if |items| == 0 then map[]
    else
      var init := items[..|items| - 1];
      var last := items[|items| - 1];
      assert items == init + [last];
      Inventory(init)[last.id := NewNode(last)]
  }

  /** When several items share an ID the last one listed wins, as with repeated assignment into a dict. */
  lemma {:induction false} InventoryLastWins(items: seq<Item>, i: int)
    requires 0 <= i < |items| && LastWithItsId(items, i)
    ensures Inventory(items)[items[i].id] == NewNode(items[i])
    decreases |items|
  {
    var init := items[..|items| - 1];
    if i < |items| - 1 {
      assert init[i] == items[i];
      assert LastWithItsId(init, i) by {
        forall j | i < j < |init| ensures init[j].id != init[i].id {
          assert init[j] == items[j];
        }
      }
      InventoryLastWins(init, i);
    }
  }

  // ---------------------------------------------------------------------
  // The relationship breakdown counters
  // ---------------------------------------------------------------------

  datatype Counter = ForwardCounter | ReverseCounter | DependencyCounter | JsonCounter

  /** The counters in the order of the `relationship_sources` dict. */
  const Counters: seq<Counter> := [ForwardCounter, ReverseCounter, DependencyCounter, JsonCounter]

  /** The dict key of each counter. */
  function CounterName(c: Counter): string {
    match c
    case ForwardCounter => "forward_relationships"
    case ReverseCounter => "reverse_relationships"
    case DependencyCounter => "dependencies"
    case JsonCounter => "json_references"
  }

  /** The `relationship_sources` counters; all four start at zero. */
  datatype Breakdown = Breakdown(forward: nat, reverse: nat, dependencies: nat, json: nat)

  /** Counter by counter sum. */
  function Add(a: Breakdown, b: Breakdown): Breakdown {
    Breakdown(a.forward + b.forward, a.reverse + b.reverse, a.dependencies + b.dependencies, a.json + b.json)
  }

  /** The sum of all four counters. */
  function Total(b: Breakdown): nat {
    b.forward + b.reverse + b.dependencies + b.json
  }

  /** `n` on the selected counter and zero on the others; all zero when no counter is selected. */
  function Pick(sel: Option<Counter>, n: nat): Breakdown {
    match sel
    case None => Breakdown(0, 0, 0, 0)
    case Some(ForwardCounter) => Breakdown(n, 0, 0, 0)
    case Some(ReverseCounter) => Breakdown(0, n, 0, 0)
    case Some(DependencyCounter) => Breakdown(0, 0, n, 0)
    case Some(JsonCounter) => Breakdown(0, 0, 0, n)
  }

  lemma PickTotal(sel: Option<Counter>, n: nat)
    ensures Total(Pick(sel, n)) == if sel.Some? then n else 0
  {
    match sel
    case None =>
    case Some(c) =>
  }

  lemma AddAssoc(x: Breakdown, y: Breakdown, z: Breakdown)
    ensures Add(x, Add(y, z)) == Add(Add(x, y), z)
  {
  }

  lemma AddNone(x: Breakdown)
    ensures Add(Breakdown(0, 0, 0, 0), x) == x && Add(x, Breakdown(0, 0, 0, 0)) == x
  {
  }

  lemma AddPick(sel: Option<Counter>, m: nat, n: nat)
    ensures Add(Pick(sel, m), Pick(sel, n)) == Pick(sel, m + n)
  {
  }

  lemma TotalAdd(x: Breakdown, y: Breakdown)
    ensures Total(Add(x, y)) == Total(x) + Total(y)
  {
  }

  // ---------------------------------------------------------------------
  // Which counter a tuple increments
  // ---------------------------------------------------------------------

  /** A rule choosing, from a tuple's kind, the counter a kept tuple increments. */
  type Selector = string -> Option<Counter>

  /**
    `[k for k in relationship_sources if k in rel_type]`: exactly the
    counters whose key occurs in the kind.
   */
  function NamesIn(kind: string, cs: seq<Counter>): (r: seq<Counter>)
    ensures forall c | c in r :: c in cs && Contains(kind, CounterName(c))
    ensures forall c | c in cs && Contains(kind, CounterName(c)) :: c in r
  {
    if |cs| == 0 then []
    else if Contains(kind, CounterName(cs[0])) then [cs[0]] + NamesIn(kind, cs[1..])
    else NamesIn(kind, cs[1..])
  }

  /**
    `key[0]`: the head of the comprehension comes no later in `cs` than
    any counter whose key occurs in the kind, so it is the first one in
    dict order.
   */
  lemma {:induction false} NamesInHead(kind: string, cs: seq<Counter>, j: int)
    requires 0 <= j < |cs| && Contains(kind, CounterName(cs[j]))
    ensures |NamesIn(kind, cs)| > 0 && NamesIn(kind, cs)[0] in cs[..j + 1]
    decreases |cs|
  {
    if !Contains(kind, CounterName(cs[0])) {
      var tail := cs[1..];
      assert j > 0 && tail[j - 1] == cs[j];
      NamesInHead(kind, tail, j - 1);
      assert tail[..j] == cs[1..j + 1];
    }
  }

  /** When no counter key occurs in the kind the comprehension is empty. */
  lemma {:induction false} NoNamesIn(kind: string, cs: seq<Counter>)
    requires forall c | c in cs :: !Contains(kind, CounterName(c))
    ensures NamesIn(kind, cs) == []
    decreases |cs|
  {
    if |cs| > 0 {
      assert cs[0] in cs;
      assert forall c | c in cs[1..] :: c in cs;
      NoNamesIn(kind, cs[1..]);
    }
  }

  /**
    The counter a kept tuple of the given kind increments, as written: the
    first counter whose key occurs in the kind, else the JSON counter when
    the kind mentions "json", else the dependency counter when it
    mentions "depends", else none.
   */
  function CounterFor(kind: string): Option<Counter> {
    var named := NamesIn(kind, Counters);
    if |named| > 0 then Some(named[0])
    else if Contains(kind, "json") then Some(JsonCounter)
    else if Contains(kind, "depends") then Some(DependencyCounter)
    else None
  }

  /**
    The counter each kind evidently should increment: the one named after
    the strategy that produced the tuple.
   */
  function IntendedCounter(kind: string): Option<Counter> {
    if Contains(kind, "forward") then Some(ForwardCounter)
    else if Contains(kind, "reverse") then Some(ReverseCounter)
    else if Contains(kind, "json") then Some(JsonCounter)
    else if Contains(kind, "depend") then Some(DependencyCounter)
    else None
  }

  /** A string that lacks one of the pattern's characters does not contain the pattern. */
  lemma MissingCharacter(s: string, p: string, c: char)
    requires |p| > 0 && c in p && c !in s
    ensures !Contains(s, p)
  {
  }

  /** A pattern longer than the string does not occur in it. */
  lemma TooLong(s: string, p: string)
    requires |p| > |s|
    ensures !Contains(s, p)
  {
  }

  /** A string contains each of its non-empty prefixes. */
  lemma HasPrefix(s: string, p: string)
    requires 0 < |p| <= |s| && s[..|p|] == p
    ensures Contains(s, p)
  {
  }

  /** No relationship type holds a 'j', an 'n' or an 'o', and none is longer than twelve characters. */
  lemma RelationshipTypeLetters(relType: string)
    requires relType in RelationshipTypes
    ensures |relType| <= 12 && 'j' !in relType && 'n' !in relType && 'o' !in relType
  {
  }

  /** When no counter key occurs in a kind, the "json" and "depends" fallbacks decide. */
  lemma CounterForFallback(kind: string)
    requires NamesIn(kind, Counters) == []
    ensures CounterFor(kind) == if Contains(kind, "json") then Some(JsonCounter)
                                else if Contains(kind, "depends") then Some(DependencyCounter)
                                else None
  {
  }

  /** The kinds of the forward and reverse strategies hold no counter key, nor "json", nor "depends". */
  lemma LinkKindUncounted(relType: string, kind: string)
    requires relType in RelationshipTypes
    requires kind == ForwardKind(relType) || kind == ReverseKind(relType)
    ensures CounterFor(kind) == None
  {
    assert 'n' !in kind && 'j' !in kind && |kind| <= 20 by {
      RelationshipTypeLetters(relType);
    }
    assert NamesIn(kind, Counters) == [] by {
      TooLong(kind, CounterName(ForwardCounter));
      TooLong(kind, CounterName(ReverseCounter));
      MissingCharacter(kind, CounterName(DependencyCounter), 'n');
      MissingCharacter(kind, CounterName(JsonCounter), 'j');
      NoNamesIn(kind, Counters);
    }
    assert !Contains(kind, "json") by {
      MissingCharacter(kind, "json", 'j');
    }
    assert !Contains(kind, "depends") by {
      MissingCharacter(kind, "depends", 'n');
    }
    CounterForFallback(kind);
  }

  lemma DependsOnCounted()
    ensures CounterFor(DependsOnKind) == Some(DependencyCounter)
  {
    assert NamesIn(DependsOnKind, Counters) == [] by {
      TooLong(DependsOnKind, CounterName(ForwardCounter));
      TooLong(DependsOnKind, CounterName(ReverseCounter));
      TooLong(DependsOnKind, CounterName(DependencyCounter));
      TooLong(DependsOnKind, CounterName(JsonCounter));
      NoNamesIn(DependsOnKind, Counters);
    }
    assert !Contains(DependsOnKind, "json") by {
      MissingCharacter(DependsOnKind, "json", 'j');
    }
    assert Contains(DependsOnKind, "depends") by {
      HasPrefix(DependsOnKind, "depends");
    }
    CounterForFallback(DependsOnKind);
  }

  /** A short kind without an 'i', a 'j' or an 's' holds no counter key, nor "json", nor "depends". */
  lemma ShortKindUncounted(kind: string)
    requires |kind| <= 13 && 'i' !in kind && 'j' !in kind && 's' !in kind
    ensures CounterFor(kind) == None
  {
    assert NamesIn(kind, Counters) == [] by {
      TooLong(kind, CounterName(ForwardCounter));
      TooLong(kind, CounterName(ReverseCounter));
      MissingCharacter(kind, CounterName(DependencyCounter), 'i');
      TooLong(kind, CounterName(JsonCounter));
      NoNamesIn(kind, Counters);
    }
    assert !Contains(kind, "json") by {
      MissingCharacter(kind, "json", 'j');
    }
    assert !Contains(kind, "depends") by {
      MissingCharacter(kind, "depends", 's');
    }
    CounterForFallback(kind);
  }

  lemma DependentToUncounted()
    ensures CounterFor(DependentToKind) == None
  {
    ShortKindUncounted(DependentToKind);
  }

  /** A kind of at most fourteen characters that starts with "json" and holds no 'd' is counted as JSON. */
  lemma JsonKindCounted(kind: string)
    requires 4 <= |kind| <= 14 && kind[..4] == "json" && 'd' !in kind
    ensures CounterFor(kind) == Some(JsonCounter)
  {
    assert NamesIn(kind, Counters) == [] by {
      TooLong(kind, CounterName(ForwardCounter));
      TooLong(kind, CounterName(ReverseCounter));
      MissingCharacter(kind, CounterName(DependencyCounter), 'd');
      TooLong(kind, CounterName(JsonCounter));
      NoNamesIn(kind, Counters);
    }
    assert Contains(kind, "json") by {
      HasPrefix(kind, "json");
    }
    CounterForFallback(kind);
  }

  lemma JsonReferenceCounted()
    ensures CounterFor(JsonReferenceKind) == Some(JsonCounter)
  {
    JsonKindCounted(JsonReferenceKind);
  }

  /** The counter choice `main` makes: none for forward and reverse kinds or `dependent_to`, the dependency counter for `depends_on`, the JSON counter for `json_reference`. */
  predicate SelectsAsWritten(select: Selector) {
    && (forall t | t in RelationshipTypes :: select(ForwardKind(t)) == None && select(ReverseKind(t)) == None)
    && select(DependsOnKind) == Some(DependencyCounter)
    && select(DependentToKind) == None
    && select(JsonReferenceKind) == Some(JsonCounter)
  }

  /** Each strategy's tuples on the counter named after it, both dependency kinds on the dependency counter. */
  predicate SelectsByStrategy(select: Selector) {
    && (forall t | t in RelationshipTypes :: select(ForwardKind(t)) == Some(ForwardCounter) && select(ReverseKind(t)) == Some(ReverseCounter))
    && select(DependsOnKind) == Some(DependencyCounter)
    && select(DependentToKind) == Some(DependencyCounter)
    && select(JsonReferenceKind) == Some(JsonCounter)
  }

  /**
    As written, no counter key occurs in any tuple kind, "dependent_to"
    does not contain "depends", and so only `json_reference` and
    `depends_on` tuples are ever counted.
   */
  lemma CountedKinds()
    ensures forall t | t in RelationshipTypes :: CounterFor(ForwardKind(t)) == None && CounterFor(ReverseKind(t)) == None
    ensures CounterFor(DependsOnKind) == Some(DependencyCounter)
    ensures CounterFor(DependentToKind) == None
    ensures CounterFor(JsonReferenceKind) == Some(JsonCounter)
  {
    forall t | t in RelationshipTypes
      ensures CounterFor(ForwardKind(t)) == None && CounterFor(ReverseKind(t)) == None
    {
      LinkKindUncounted(t, ForwardKind(t));
      LinkKindUncounted(t, ReverseKind(t));
    }
    DependsOnCounted();
    DependentToUncounted();
    JsonReferenceCounted();
  }

  /** Under the intended rule forward and reverse kinds pick the forward and reverse counters. */
  lemma IntendedLinks(relType: string)
    requires relType in RelationshipTypes
    ensures IntendedCounter(ForwardKind(relType)) == Some(ForwardCounter)
    ensures IntendedCounter(ReverseKind(relType)) == Some(ReverseCounter)
  {
    assert Contains(ForwardKind(relType), "forward") by {
      assert ForwardKind(relType)[..7] == "forward";
      HasPrefix(ForwardKind(relType), "forward");
    }
    assert !Contains(ReverseKind(relType), "forward") by {
      RelationshipTypeLetters(relType);
      MissingCharacter(ReverseKind(relType), "forward", 'o');
    }
    assert Contains(ReverseKind(relType), "reverse") by {
      assert ReverseKind(relType)[..7] == "reverse";
      HasPrefix(ReverseKind(relType), "reverse");
    }
  }

  /** Under the intended rule a kind that starts with "depend" and mentions no other strategy picks the dependency counter. */
  lemma IntendedDependencyKind(kind: string)
    requires |kind| >= 6 && kind[..6] == "depend"
    requires 'f' !in kind && 'v' !in kind && 'j' !in kind
    ensures IntendedCounter(kind) == Some(DependencyCounter)
  {
    MissingCharacter(kind, "forward", 'f');
    MissingCharacter(kind, "reverse", 'v');
    MissingCharacter(kind, "json", 'j');
    HasPrefix(kind, "depend");
  }

  /** Under the intended rule both dependency kinds pick the dependency counter. */
  lemma IntendedDependencies()
    ensures IntendedCounter(DependsOnKind) == Some(DependencyCounter)
    ensures IntendedCounter(DependentToKind) == Some(DependencyCounter)
  {
    IntendedDependencyKind(DependsOnKind);
    IntendedDependencyKind(DependentToKind);
  }

  /** Under the intended rule a kind that starts with "json" and lacks a 'w' and a 'v' picks the JSON counter. */
  lemma IntendedJsonKind(kind: string)
    requires |kind| >= 4 && kind[..4] == "json"
    requires 'w' !in kind && 'v' !in kind
    ensures IntendedCounter(kind) == Some(JsonCounter)
  {
    MissingCharacter(kind, "forward", 'w');
    MissingCharacter(kind, "reverse", 'v');
    HasPrefix(kind, "json");
  }

  /** Under the intended rule JSON references pick the JSON counter. */
  lemma IntendedJson()
    ensures IntendedCounter(JsonReferenceKind) == Some(JsonCounter)
  {
    IntendedJsonKind(JsonReferenceKind);
  }

  /** The intended rule puts every strategy's tuples on the counter named after it. */
  lemma IntendedSelection()
    ensures SelectsByStrategy(IntendedCounter)
  {
    forall t | t in RelationshipTypes
      ensures IntendedCounter(ForwardKind(t)) == Some(ForwardCounter)
      ensures IntendedCounter(ReverseKind(t)) == Some(ReverseCounter)
    {
      IntendedLinks(t);
    }
    IntendedDependencies();
    IntendedJson();
  }

  // ---------------------------------------------------------------------
  // Step 2: edges and counters
  // ---------------------------------------------------------------------

  /** Only tuples between two inventoried items are tracked. */
  predicate Kept(keys: set<string>, r: Relationship) {
    r.source in keys && r.target in keys
  }

  /** The (source, target) pairs of the kept tuples among `rels`. */
  function KeptPairs(keys: set<string>, rels: set<Relationship>): (pairs: set<(string, string)>)
    ensures forall e | e in pairs :: e.0 in keys && e.1 in keys
  {
    set r | r in rels && Kept(keys, r) :: (r.source, r.target)
  }

  /** The edge set and the counters while the tuples are being absorbed. */
  datatype Tally = Tally(edges: set<(string, string)>, breakdown: Breakdown)

  /** What one tuple adds to the counters: one on the counter its kind selects, when it is kept. */
  function Increment(keys: set<string>, select: Selector, r: Relationship): Breakdown {
    if Kept(keys, r) then Pick(select(r.kind), 1) else Breakdown(0, 0, 0, 0)
  }

  /** One iteration of the loop over `all_rels`. */
  function Absorb(keys: set<string>, select: Selector, t: Tally, r: Relationship): Tally {
    if Kept(keys, r) then Tally(t.edges + {(r.source, r.target)}, Add(t.breakdown, Increment(keys, select, r)))
    else t
  }

  /** How many tuples of `rels` are kept. */
  function KeptCount(keys: set<string>, rels: seq<Relationship>): (n: nat)
    ensures n <= |rels|
  {
    if |rels| == 0 then 0 else (if Kept(keys, rels[0]) then 1 else 0) + KeptCount(keys, rels[1..])
  }

  /** What the tuples of `rels` add to the counters, one tuple after the other. */
  function Tallied(keys: set<string>, select: Selector, rels: seq<Relationship>): Breakdown {
    if |rels| == 0 then Breakdown(0, 0, 0, 0)
    else Add(Increment(keys, select, rels[0]), Tallied(keys, select, rels[1..]))
  }

  /** Each kept tuple moves the counters by at most one; dropped tuples never count. */
  lemma {:induction false} TalliedAtMostKept(keys: set<string>, select: Selector, rels: seq<Relationship>)
    ensures Total(Tallied(keys, select, rels)) <= KeptCount(keys, rels)
    decreases |rels|
  {
    if |rels| > 0 {
      var rest := rels[1..];
      var inc := Increment(keys, select, rels[0]);
      assert Total(inc) <= if Kept(keys, rels[0]) then 1 else 0 by {
        PickTotal(select(rels[0].kind), 1);
      }
      TalliedAtMostKept(keys, select, rest);
      TotalAdd(inc, Tallied(keys, select, rest));
    }
  }

  /** The pairs of the kept tuples of `rels`, collected one tuple after the other. */
  function EdgesOf(keys: set<string>, rels: seq<Relationship>): set<(string, string)> {
    if |rels| == 0 then {}
    else (if Kept(keys, rels[0]) then {(rels[0].source, rels[0].target)} else {}) + EdgesOf(keys, rels[1..])
  }

  /** Collecting the pairs one tuple at a time yields the kept pairs of the tuples present, duplicates collapsing. */
  lemma {:induction false} EdgesOfKeptPairs(keys: set<string>, rels: seq<Relationship>)
    ensures EdgesOf(keys, rels) == KeptPairs(keys, set r | r in rels)
    decreases |rels|
  {
    if |rels| > 0 {
      EdgesOfKeptPairs(keys, rels[1..]);
      assert (set r | r in rels) == {rels[0]} + (set r | r in rels[1..]);
    }
  }

  /**
    The loop over `all_rels`: the edges gain the pairs of the kept tuples
    and the counters grow per kept tuple, not per distinct edge.
   */
  function Record(keys: set<string>, select: Selector, t: Tally, rels: seq<Relationship>): (t': Tally)
    ensures t'.edges == t.edges + EdgesOf(keys, rels)
    ensures t'.breakdown == Add(t.breakdown, Tallied(keys, select, rels))
    decreases |rels|
  {
    if |rels| == 0 then t
    else
      var t' := Record(keys, select, Absorb(keys, select, t, rels[0]), rels[1..]);
      assert t'.breakdown == Add(t.breakdown, Tallied(keys, select, rels)) by {
        AddAssoc(t.breakdown, Increment(keys, select, rels[0]), Tallied(keys, select, rels[1..]));
      }
      t'
  }

  /** The counts of two concatenated runs of tuples add up. */
  lemma {:induction false} TalliedAppend(keys: set<string>, select: Selector, a: seq<Relationship>, b: seq<Relationship>)
    ensures Tallied(keys, select, a + b) == Add(Tallied(keys, select, a), Tallied(keys, select, b))
    decreases |a|
  {
    if |a| == 0 {
      assert a + b == b;
      AddNone(Tallied(keys, select, b));
    } else {
      var x := Increment(keys, select, a[0]);
      assert (a + b)[0] == a[0];
      assert (a + b)[1..] == a[1..] + b;
      assert Tallied(keys, select, a + b) == Add(x, Tallied(keys, select, a[1..] + b));
      TalliedAppend(keys, select, a[1..], b);
      assert Tallied(keys, select, a) == Add(x, Tallied(keys, select, a[1..]));
      AddAssoc(x, Tallied(keys, select, a[1..]), Tallied(keys, select, b));
    }
  }

  /** Tuples whose kinds select no counter leave the counters alone. */
  lemma {:induction false} TalliedUncounted(keys: set<string>, select: Selector, rels: seq<Relationship>)
    requires forall r | r in rels :: select(r.kind) == None
    ensures Tallied(keys, select, rels) == Breakdown(0, 0, 0, 0)
  {
    TalliedUniform(keys, select, rels, None);
  }

  /** `TalliedAppend` with the two counts named. */
  lemma TalliedPair(keys: set<string>, select: Selector, a: seq<Relationship>, b: seq<Relationship>, x: Breakdown, y: Breakdown)
    requires Tallied(keys, select, a) == x && Tallied(keys, select, b) == y
    ensures Tallied(keys, select, a + b) == Add(x, y)
  {
    TalliedAppend(keys, select, a, b);
  }

  /** The counts of four concatenated runs of tuples add up. */
  lemma TalliedFour(keys: set<string>, select: Selector, a: seq<Relationship>, b: seq<Relationship>,
                    c: seq<Relationship>, d: seq<Relationship>, w: Breakdown, x: Breakdown, y: Breakdown, z: Breakdown)
    requires Tallied(keys, select, a) == w && Tallied(keys, select, b) == x
    requires Tallied(keys, select, c) == y && Tallied(keys, select, d) == z
    ensures Tallied(keys, select, a + b + c + d) == Add(Add(Add(w, x), y), z)
  {
    assert Tallied(keys, select, a + b) == Add(w, x) by {
      TalliedPair(keys, select, a, b, w, x);
    }
    assert Tallied(keys, select, a + b + c) == Add(Add(w, x), y) by {
      TalliedPair(keys, select, a + b, c, Add(w, x), y);
    }
    TalliedPair(keys, select, a + b + c, d, Add(Add(w, x), y), z);
  }

  /** When every tuple selects the same counter, that counter counts every kept tuple and the others none. */
  lemma {:induction false} TalliedUniform(keys: set<string>, select: Selector, rels: seq<Relationship>, sel: Option<Counter>)
    requires forall r | r in rels :: select(r.kind) == sel
    ensures Tallied(keys, select, rels) == Pick(sel, KeptCount(keys, rels))
    decreases |rels|
  {
    if |rels| == 0 {
      assert Pick(sel, 0) == Breakdown(0, 0, 0, 0);
    } else {
      var rest := rels[1..];
      var k := if Kept(keys, rels[0]) then 1 else 0;
      var tail := KeptCount(keys, rest);
      assert Tallied(keys, select, rest) == Pick(sel, tail) by {
        assert forall r | r in rest :: r in rels;
        TalliedUniform(keys, select, rest, sel);
      }
      assert Increment(keys, select, rels[0]) == Pick(sel, k) by {
        assert rels[0] in rels;
      }
      AddPick(sel, k, tail);
    }
  }

  /** Among distinct tuples, the number kept is the size of the kept set. */
  lemma {:induction false} DistinctKeptCount(keys: set<string>, rels: seq<Relationship>)
    requires Distinct(rels)
    ensures KeptCount(keys, rels) == |set r | r in rels && Kept(keys, r)|
    decreases |rels|
  {
    if |rels| > 0 {
      var rest := rels[1..];
      assert Distinct(rest) by {
        forall i, j | 0 <= i < j < |rest| ensures rest[i] != rest[j] {
          assert rest[i] == rels[i + 1] && rest[j] == rels[j + 1];
        }
      }
      DistinctKeptCount(keys, rest);
      var tail := set r | r in rest && Kept(keys, r);
      assert rels[0] !in rest by {
        forall j | 0 <= j < |rest| ensures rest[j] != rels[0] {
          assert rest[j] == rels[j + 1];
        }
      }
      if Kept(keys, rels[0]) {
        assert (set r | r in rels && Kept(keys, r)) == {rels[0]} + tail;
      } else {
        assert (set r | r in rels && Kept(keys, r)) == tail;
      }
    }
  }

  // ---------------------------------------------------------------------
  // What the audit computes, stated over the items
  // ---------------------------------------------------------------------

  /** The tuples of the first three strategies for one item, in the order `all_rels` combines them. */
  function Listed(portal: Portal, item: Item): seq<Relationship> {
    ForwardRelationships(portal, item) + ReverseRelationships(portal, item) + GetDependencies(portal, item)
  }

  /** The tuples one item contributes to `all_rels`, for a given enumeration `json` of its JSON references. */
  function AllRels(portal: Portal, item: Item, json: seq<Relationship>): seq<Relationship> {
    Listed(portal, item) + json
  }

  /** How many of an item's `json_reference` tuples are kept. */
  function KeptJson(portal: Portal, item: Item, keys: set<string>): nat {
    |set r | r in JsonRelationSet(portal, item) && Kept(keys, r)|
  }

  /** What one item's tuples add to the counters, whatever order its JSON references come in. */
  function ItemTally(portal: Portal, item: Item, keys: set<string>, select: Selector): Breakdown {
    Add(Tallied(keys, select, Listed(portal, item)), Pick(select(JsonReferenceKind), KeptJson(portal, item, keys)))
  }

  /** The counters after every item's tuples have been absorbed. */
  function AuditTally(portal: Portal, items: seq<Item>, keys: set<string>, select: Selector): Breakdown
    decreases |items|
  {
    if |items| == 0 then Breakdown(0, 0, 0, 0)
    else Add(AuditTally(portal, items[..|items| - 1], keys, select), ItemTally(portal, items[|items| - 1], keys, select))
  }

  /** The kept tuples over all items, JSON references counted once each. */
  function KeptTotal(portal: Portal, items: seq<Item>, keys: set<string>): nat
    decreases |items|
  {
    if |items| == 0 then 0
    else
      var item := items[|items| - 1];
      KeptTotal(portal, items[..|items| - 1], keys) + KeptCount(keys, Listed(portal, item)) + KeptJson(portal, item, keys)
  }

  /** The kept `json_reference` tuples over all items. */
  function JsonTally(portal: Portal, items: seq<Item>, keys: set<string>): nat
    decreases |items|
  {
    if |items| == 0 then 0
    else JsonTally(portal, items[..|items| - 1], keys) + KeptJson(portal, items[|items| - 1], keys)
  }

  /** The kept `depends_on` tuples over all items, each repetition counted. */
  function DependsTally(portal: Portal, items: seq<Item>, keys: set<string>): nat
    decreases |items|
  {
    if |items| == 0 then 0
    else DependsTally(portal, items[..|items| - 1], keys) + KeptCount(keys, DependsOn(portal, items[|items| - 1]))
  }

  /** Every kept edge any item yields. */
  function AuditEdges(portal: Portal, items: seq<Item>, keys: set<string>): (edges: set<(string, string)>)
    ensures forall e | e in edges :: e.0 in keys && e.1 in keys
    decreases |items|
  {
    if |items| == 0 then {}
    else AuditEdges(portal, items[..|items| - 1], keys) + KeptPairs(keys, RelationSet(portal, items[|items| - 1]))
  }

  /** True when `item` yields a kept tuple from `e.0` to `e.1`. */
  predicate YieldsEdge(portal: Portal, item: Item, keys: set<string>, e: (string, string)) {
    exists r | r in RelationSet(portal, item) :: Kept(keys, r) && e == (r.source, r.target)
  }

  /** An item's kept pairs are exactly the edges it yields. */
  lemma KeptPairsYield(portal: Portal, item: Item, keys: set<string>, e: (string, string))
    ensures e in KeptPairs(keys, RelationSet(portal, item)) <==> YieldsEdge(portal, item, keys, e)
  {
  }

  /** Every edge an item yields is in the audit. */
  lemma {:induction false} YieldedEdgeAudited(portal: Portal, items: seq<Item>, keys: set<string>, i: int, e: (string, string))
    requires 0 <= i < |items| && YieldsEdge(portal, items[i], keys, e)
    ensures e in AuditEdges(portal, items, keys)
    decreases |items|
  {
    KeptPairsYield(portal, items[i], keys, e);
    if i < |items| - 1 {
      var init := items[..|items| - 1];
      assert init[i] == items[i];
      YieldedEdgeAudited(portal, init, keys, i, e);
    }
  }

  /** Every edge in the audit is yielded by some item: the one at position `i`. */
  lemma {:induction false} AuditedEdgeYielded(portal: Portal, items: seq<Item>, keys: set<string>, e: (string, string))
    returns (i: nat)
    requires e in AuditEdges(portal, items, keys)
    ensures i < |items| && YieldsEdge(portal, items[i], keys, e)
    decreases |items|
  {
    var last := |items| - 1;
    KeptPairsYield(portal, items[last], keys, e);
    if YieldsEdge(portal, items[last], keys, e) {
      i := last;
    } else {
      var init := items[..last];
      i := AuditedEdgeYielded(portal, init, keys, e);
      assert init[i] == items[i];
    }
  }

  /** An edge is in the audit exactly when some item yields a kept tuple between its two ends. */
  lemma AuditEdgesMembership(portal: Portal, items: seq<Item>, keys: set<string>, e: (string, string))
    ensures e in AuditEdges(portal, items, keys) <==> exists i | 0 <= i < |items| :: YieldsEdge(portal, items[i], keys, e)
  {
    if e in AuditEdges(portal, items, keys) {
      var i := AuditedEdgeYielded(portal, items, keys, e);
    }
    if exists i | 0 <= i < |items| :: YieldsEdge(portal, items[i], keys, e) {
      var i :| 0 <= i < |items| && YieldsEdge(portal, items[i], keys, e);
      YieldedEdgeAudited(portal, items, keys, i, e);
    }
  }

  /** A duplicate-free enumeration of a set of tuples of one kind counts the set's kept tuples on that kind's counter. */
  lemma EnumeratedTally(keys: set<string>, select: Selector, rels: seq<Relationship>, s: set<Relationship>, kind: string)
    requires forall r :: r in rels <==> r in s
    requires forall r | r in rels :: r.kind == kind
    requires Distinct(rels)
    ensures Tallied(keys, select, rels) == Pick(select(kind), |set r | r in s && Kept(keys, r)|)
  {
    TalliedUniform(keys, select, rels, select(kind));
    DistinctKeptCount(keys, rels);
    assert (set r | r in rels && Kept(keys, r)) == (set r | r in s && Kept(keys, r));
  }

  /**
    The effect of one item's `all_rels` on the tally: its kept pairs join
    the edges and its counts join the counters, for any enumeration order
    of its distinct JSON references.
   */
  lemma ItemEffect(portal: Portal, item: Item, keys: set<string>, select: Selector, json: seq<Relationship>, t: Tally)
    requires forall r :: r in json <==> r in JsonRelationSet(portal, item)
    requires forall r | r in json :: r.kind == JsonReferenceKind
    requires Distinct(json)
    ensures var t' := Record(keys, select, t, AllRels(portal, item, json));
            && t'.edges == t.edges + KeptPairs(keys, RelationSet(portal, item))
            && t'.breakdown == Add(t.breakdown, ItemTally(portal, item, keys, select))
  {
    var listed := Listed(portal, item);
    var rels := AllRels(portal, item, json);
    assert EdgesOf(keys, rels) == KeptPairs(keys, RelationSet(portal, item)) by {
      EdgesOfKeptPairs(keys, rels);
      assert (set r | r in rels) == (set r | r in listed) + JsonRelationSet(portal, item);
    }
    var j := Pick(select(JsonReferenceKind), KeptJson(portal, item, keys));
    assert Tallied(keys, select, json) == j by {
      EnumeratedTally(keys, select, json, JsonRelationSet(portal, item), JsonReferenceKind);
    }
    assert Tallied(keys, select, rels) == ItemTally(portal, item, keys, select) by {
      TalliedPair(keys, select, listed, json, Tallied(keys, select, listed), j);
    }
  }

  /** Every tuple of the forward strategy has the kind of one of the relationship types. */
  lemma ForwardKinds(portal: Portal, item: Item, r: Relationship)
    requires r in ForwardRelationships(portal, item)
    ensures exists t | t in RelationshipTypes :: r.kind == ForwardKind(t)
  {
    var k :| 0 <= k < |RelationshipTypes| && r.kind == ForwardKind(RelationshipTypes[k]);
    assert RelationshipTypes[k] in RelationshipTypes;
  }

  /** Every tuple of the reverse strategy has the kind of one of the relationship types. */
  lemma ReverseKinds(portal: Portal, item: Item, r: Relationship)
    requires r in ReverseRelationships(portal, item)
    ensures exists t | t in RelationshipTypes :: r.kind == ReverseKind(t)
  {
    var k :| 0 <= k < |RelationshipTypes| && r.kind == ReverseKind(RelationshipTypes[k]);
    assert RelationshipTypes[k] in RelationshipTypes;
  }

  /** Each of the first three strategies' runs, counted under `select`, when every tuple of a run selects alike. */
  lemma ListedTally(portal: Portal, item: Item, keys: set<string>, select: Selector,
                    f: Option<Counter>, v: Option<Counter>, u: Option<Counter>, d: Option<Counter>)
    requires forall t | t in RelationshipTypes :: select(ForwardKind(t)) == f && select(ReverseKind(t)) == v
    requires select(DependsOnKind) == u && select(DependentToKind) == d
    ensures Tallied(keys, select, Listed(portal, item)) ==
              Add(Add(Add(Pick(f, KeptCount(keys, ForwardRelationships(portal, item))),
                          Pick(v, KeptCount(keys, ReverseRelationships(portal, item)))),
                      Pick(u, KeptCount(keys, DependsOn(portal, item)))),
                  Pick(d, KeptCount(keys, DependentTo(portal, item))))
  {
    var fwd := ForwardRelationships(portal, item);
    var rev := ReverseRelationships(portal, item);
    var up := DependsOn(portal, item);
    var to := DependentTo(portal, item);
    assert Listed(portal, item) == fwd + rev + up + to;
    assert Tallied(keys, select, fwd) == Pick(f, KeptCount(keys, fwd)) by {
      forall r | r in fwd ensures select(r.kind) == f {
        ForwardKinds(portal, item, r);
      }
      TalliedUniform(keys, select, fwd, f);
    }
    assert Tallied(keys, select, rev) == Pick(v, KeptCount(keys, rev)) by {
      forall r | r in rev ensures select(r.kind) == v {
        ReverseKinds(portal, item, r);
      }
      TalliedUniform(keys, select, rev, v);
    }
    TalliedUniform(keys, select, up, u);
    TalliedUniform(keys, select, to, d);
    TalliedFour(keys, select, fwd, rev, up, to,
                Pick(f, KeptCount(keys, fwd)), Pick(v, KeptCount(keys, rev)),
                Pick(u, KeptCount(keys, up)), Pick(d, KeptCount(keys, to)));
  }

  /** One item's counts under `select`, when every tuple of each strategy selects alike. */
  lemma ItemTallyUniform(portal: Portal, item: Item, keys: set<string>, select: Selector,
                         f: Option<Counter>, v: Option<Counter>, u: Option<Counter>, d: Option<Counter>, j: Option<Counter>)
    requires forall t | t in RelationshipTypes :: select(ForwardKind(t)) == f && select(ReverseKind(t)) == v
    requires select(DependsOnKind) == u && select(DependentToKind) == d && select(JsonReferenceKind) == j
    ensures ItemTally(portal, item, keys, select) ==
              Add(Add(Add(Add(Pick(f, KeptCount(keys, ForwardRelationships(portal, item))),
                              Pick(v, KeptCount(keys, ReverseRelationships(portal, item)))),
                          Pick(u, KeptCount(keys, DependsOn(portal, item)))),
                      Pick(d, KeptCount(keys, DependentTo(portal, item)))),
                  Pick(j, KeptJson(portal, item, keys)))
  {
    ListedTally(portal, item, keys, select, f, v, u, d);
  }

  /** The as-written selection, summed counter by counter. */
  lemma SumAsWritten(a: nat, b: nat, c: nat, d: nat, e: nat)
    ensures Add(Add(Add(Add(Pick(None, a), Pick(None, b)), Pick(Some(DependencyCounter), c)), Pick(None, d)),
                Pick(Some(JsonCounter), e)) == Breakdown(0, 0, c, e)
  {
    var x := Add(Pick(None, a), Pick(None, b));
    assert x == Breakdown(0, 0, 0, 0);
    var y := Add(x, Pick(Some(DependencyCounter), c));
    assert y == Breakdown(0, 0, c, 0);
    var z := Add(y, Pick(None, d));
    assert z == Breakdown(0, 0, c, 0);
  }

  /** The intended selection, summed counter by counter. */
  lemma SumByStrategy(a: nat, b: nat, c: nat, d: nat, e: nat)
    ensures Add(Add(Add(Add(Pick(Some(ForwardCounter), a), Pick(Some(ReverseCounter), b)), Pick(Some(DependencyCounter), c)),
                    Pick(Some(DependencyCounter), d)),
                Pick(Some(JsonCounter), e)) == Breakdown(a, b, c + d, e)
  {
    var x := Add(Pick(Some(ForwardCounter), a), Pick(Some(ReverseCounter), b));
    assert x == Breakdown(a, b, 0, 0);
    var y := Add(x, Pick(Some(DependencyCounter), c));
    assert y == Breakdown(a, b, c, 0);
    assert Add(y, Pick(Some(DependencyCounter), d)) == Breakdown(a, b, c + d, 0);
  }

  /** Under a rule that selects as written, only an item's kept `depends_on` and `json_reference` tuples count. */
  lemma ItemTallyWhenAsWritten(portal: Portal, item: Item, keys: set<string>, select: Selector)
    requires SelectsAsWritten(select)
    ensures ItemTally(portal, item, keys, select) ==
              Breakdown(0, 0, KeptCount(keys, DependsOn(portal, item)), KeptJson(portal, item, keys))
  {
    ItemTallyUniform(portal, item, keys, select, None, None, Some(DependencyCounter), None, Some(JsonCounter));
    SumAsWritten(KeptCount(keys, ForwardRelationships(portal, item)), KeptCount(keys, ReverseRelationships(portal, item)),
                 KeptCount(keys, DependsOn(portal, item)), KeptCount(keys, DependentTo(portal, item)),
                 KeptJson(portal, item, keys));
  }

  /** Under a rule that selects as written, the counters over all items. */
  lemma {:induction false} AuditTallyWhenAsWritten(portal: Portal, items: seq<Item>, keys: set<string>, select: Selector)
    requires SelectsAsWritten(select)
    ensures var b := AuditTally(portal, items, keys, select);
            b.forward == 0 && b.reverse == 0 && b.dependencies == DependsTally(portal, items, keys) && b.json == JsonTally(portal, items, keys)
    decreases |items|
  {
    if |items| > 0 {
      var init := items[..|items| - 1];
      var item := items[|items| - 1];
      var before := AuditTally(portal, init, keys, select);
      var own := ItemTally(portal, item, keys, select);
      assert AuditTally(portal, items, keys, select) == Add(before, own);
      assert JsonTally(portal, items, keys) == JsonTally(portal, init, keys) + KeptJson(portal, item, keys);
      assert DependsTally(portal, items, keys) == DependsTally(portal, init, keys) + KeptCount(keys, DependsOn(portal, item));
      AuditTallyWhenAsWritten(portal, init, keys, select);
      ItemTallyWhenAsWritten(portal, item, keys, select);
    }
  }

  /**
    As written, the forward and reverse counters stay at zero, the
    dependency counter counts the kept `depends_on` tuples only and the
    JSON counter counts the kept `json_reference` tuples.
   */
  lemma AuditTallyAsWritten(portal: Portal, items: seq<Item>, keys: set<string>)
    ensures AuditTally(portal, items, keys, CounterFor) ==
              Breakdown(0, 0, DependsTally(portal, items, keys), JsonTally(portal, items, keys))
  {
    CountedKinds();
    AuditTallyWhenAsWritten(portal, items, keys, CounterFor);
  }

  /**
    As written, a kept forward or reverse tuple adds its edge yet moves no
    counter: no counter key such as "forward_relationships" occurs in a
    kind such as "forward_f2w".
   */
  lemma LinkEdgeUncounted(keys: set<string>, t: Tally, r: Relationship, relType: string)
    requires relType in RelationshipTypes
    requires r.kind == ForwardKind(relType) || r.kind == ReverseKind(relType)
    requires Kept(keys, r)
    ensures Record(keys, CounterFor, t, [r]) == Tally(t.edges + {(r.source, r.target)}, t.breakdown)
  {
    LinkKindUncounted(relType, r.kind);
    EdgeWithoutCount(keys, CounterFor, t, r);
  }

  /** A kept tuple whose kind selects no counter adds its edge and nothing else. */
  lemma EdgeWithoutCount(keys: set<string>, select: Selector, t: Tally, r: Relationship)
    requires select(r.kind) == None && Kept(keys, r)
    ensures Record(keys, select, t, [r]) == Tally(t.edges + {(r.source, r.target)}, t.breakdown)
  {
    assert [r][1..] == [];
    TalliedUncounted(keys, select, [r]);
    AddNone(t.breakdown);
  }

  /** Under a rule that selects by strategy, every kept tuple of an item is counted once, on its strategy's counter. */
  lemma ItemTallyWhenByStrategy(portal: Portal, item: Item, keys: set<string>, select: Selector)
    requires SelectsByStrategy(select)
    ensures ItemTally(portal, item, keys, select) ==
              Breakdown(KeptCount(keys, ForwardRelationships(portal, item)),
                        KeptCount(keys, ReverseRelationships(portal, item)),
                        KeptCount(keys, DependsOn(portal, item)) + KeptCount(keys, DependentTo(portal, item)),
                        KeptJson(portal, item, keys))
  {
    var a := KeptCount(keys, ForwardRelationships(portal, item));
    var b := KeptCount(keys, ReverseRelationships(portal, item));
    var c := KeptCount(keys, DependsOn(portal, item));
    var d := KeptCount(keys, DependentTo(portal, item));
    var e := KeptJson(portal, item, keys);
    assert ItemTally(portal, item, keys, select) ==
             Add(Add(Add(Add(Pick(Some(ForwardCounter), a), Pick(Some(ReverseCounter), b)), Pick(Some(DependencyCounter), c)),
                     Pick(Some(DependencyCounter), d)),
                 Pick(Some(JsonCounter), e)) by {
      ItemTallyUniform(portal, item, keys, select, Some(ForwardCounter), Some(ReverseCounter),
                       Some(DependencyCounter), Some(DependencyCounter), Some(JsonCounter));
    }
    SumByStrategy(a, b, c, d, e);
  }

  /** Under the intended rule every kept tuple of an item is counted once, on its own strategy's counter. */
  lemma ItemTallyIntended(portal: Portal, item: Item, keys: set<string>)
    ensures ItemTally(portal, item, keys, IntendedCounter) ==
              Breakdown(KeptCount(keys, ForwardRelationships(portal, item)),
                        KeptCount(keys, ReverseRelationships(portal, item)),
                        KeptCount(keys, DependsOn(portal, item)) + KeptCount(keys, DependentTo(portal, item)),
                        KeptJson(portal, item, keys))
  {
    IntendedSelection();
    ItemTallyWhenByStrategy(portal, item, keys, IntendedCounter);
  }

  /** Kept tuples of two concatenated runs add up. */
  lemma {:induction false} KeptCountAppend(keys: set<string>, a: seq<Relationship>, b: seq<Relationship>)
    ensures KeptCount(keys, a + b) == KeptCount(keys, a) + KeptCount(keys, b)
    decreases |a|
  {
    if |a| == 0 {
      assert a + b == b;
    } else {
      assert (a + b)[0] == a[0];
      assert (a + b)[1..] == a[1..] + b;
      KeptCountAppend(keys, a[1..], b);
    }
  }

  /** The kept tuples of the first three strategies, strategy by strategy. */
  lemma ListedKeptCount(portal: Portal, item: Item, keys: set<string>)
    ensures KeptCount(keys, Listed(portal, item)) ==
              KeptCount(keys, ForwardRelationships(portal, item)) + KeptCount(keys, ReverseRelationships(portal, item))
              + KeptCount(keys, DependsOn(portal, item)) + KeptCount(keys, DependentTo(portal, item))
  {
    var fwd := ForwardRelationships(portal, item);
    var rev := ReverseRelationships(portal, item);
    var up := DependsOn(portal, item);
    var to := DependentTo(portal, item);
    assert Listed(portal, item) == fwd + rev + up + to;
    KeptCountAppend(keys, fwd + rev + up, to);
    KeptCountAppend(keys, fwd + rev, up);
    KeptCountAppend(keys, fwd, rev);
  }

  /** Under a rule that selects by strategy, the counters add up to the number of kept tuples the items yield. */
  lemma {:induction false} AuditTotalWhenByStrategy(portal: Portal, items: seq<Item>, keys: set<string>, select: Selector)
    requires SelectsByStrategy(select)
    ensures Total(AuditTally(portal, items, keys, select)) == KeptTotal(portal, items, keys)
    decreases |items|
  {
    if |items| > 0 {
      var init := items[..|items| - 1];
      var item := items[|items| - 1];
      AuditTotalWhenByStrategy(portal, init, keys, select);
      ItemTallyWhenByStrategy(portal, item, keys, select);
      ListedKeptCount(portal, item, keys);
      TotalAdd(AuditTally(portal, init, keys, select), ItemTally(portal, item, keys, select));
    }
  }

  /** Under the intended rule the counters add up to the number of kept tuples the items yield. */
  lemma AuditTallyIntended(portal: Portal, items: seq<Item>, keys: set<string>)
    ensures Total(AuditTally(portal, items, keys, IntendedCounter)) == KeptTotal(portal, items, keys)
  {
    IntendedSelection();
    AuditTotalWhenByStrategy(portal, items, keys, IntendedCounter);
  }

  // ---------------------------------------------------------------------
  // Step 3: abandonment
  // ---------------------------------------------------------------------

  /** True when some edge starts or ends at `x`. */
  predicate Touched(edges: set<(string, string)>, x: string) {
    exists e | e in edges :: e.0 == x || e.1 == x
  }

  /** `connected_ids`: every endpoint of an edge. */
  function ConnectedIds(edges: set<(string, string)>): (ids: set<string>)
    ensures forall x :: x in ids <==> Touched(edges, x)
  {
    (set e | e in edges :: e.0) + (set e | e in edges :: e.1)
  }

  /** Settling one more pending ID adds it to the unconnected settled IDs exactly when it is unconnected. */
  lemma Settled(ids: set<string>, pending: set<string>, connected: set<string>, x: string)
    requires x in pending && pending <= ids
    ensures |set y | y in ids && y !in pending - {x} && y !in connected| ==
              |set y | y in ids && y !in pending && y !in connected| + (if x in connected then 0 else 1)
  {
    var before := set y | y in ids && y !in pending && y !in connected;
    if x in connected {
      assert (set y | y in ids && y !in pending - {x} && y !in connected) == before;
    } else {
      assert (set y | y in ids && y !in pending - {x} && y !in connected) == before + {x};
    }
  }

  /**
    The loop over the inventory: a node some edge touches is marked as not
    abandoned, every other node is counted as abandoned and left as it was.
   */
  method MarkAbandoned(nodes: map<string, Node>, edges: set<(string, string)>)
    returns (marked: map<string, Node>, abandonedCount: nat)
    ensures marked.Keys == nodes.Keys
    ensures forall x | x in marked ::
              marked[x] == if Touched(edges, x) then nodes[x].(isAbandoned := false) else nodes[x]
    ensures abandonedCount == |set x | x in nodes && !Touched(edges, x)|
  {
    var connected := ConnectedIds(edges);
    marked := nodes;
    abandonedCount := 0;
    var pending := nodes.Keys;
    while pending != {}
      invariant pending <= nodes.Keys
      invariant marked.Keys == nodes.Keys
      invariant forall x | x in marked ::
                  marked[x] == if x !in pending && x in connected then nodes[x].(isAbandoned := false) else nodes[x]
      invariant abandonedCount == |set x | x in nodes.Keys && x !in pending && x !in connected|
      decreases |pending|
    {
      var x :| x in pending;
      Settled(nodes.Keys, pending, connected, x);
      if x in connected {
        marked := marked[x := marked[x].(isAbandoned := false)];
      } else {
        abandonedCount := abandonedCount + 1;
      }
      pending := pending - {x};
    }
    assert (set x | x in nodes.Keys && x !in pending && x !in connected) == set x | x in nodes && !Touched(edges, x);
  }

  // ---------------------------------------------------------------------
  // The audit
  // ---------------------------------------------------------------------

  datatype Summary = Summary(totalItems: nat, abandonedCount: nat, breakdown: Breakdown)

  /** The audit graph written out for the visualisation. */
  datatype Graph = Graph(summary: Summary, nodes: map<string, Node>, edges: set<(string, string)>)

  /**
    One pass of step 2: the loop over the items, each item's `all_rels`
    absorbed in turn.
   */
  method CollectEdges(portal: Portal, items: seq<Item>, keys: set<string>, select: Selector) returns (tally: Tally)
    ensures tally.edges == AuditEdges(portal, items, keys)
    ensures tally.breakdown == AuditTally(portal, items, keys, select)
  {
    tally := Tally({}, Breakdown(0, 0, 0, 0));
    for i := 0 to |items|
      invariant tally.edges == AuditEdges(portal, items[..i], keys)
      invariant tally.breakdown == AuditTally(portal, items[..i], keys, select)
    {
      var json := ExtractJsonDependencies(portal, items[i]);
      ItemStep(portal, items, i, keys, select, json, tally);
      tally := Record(keys, select, tally, AllRels(portal, items[i], json));
    }
    assert items[..|items|] == items;
  }

  /** Absorbing item `i` extends the edges and counters of the items before it to those up to it. */
  lemma ItemStep(portal: Portal, items: seq<Item>, i: nat, keys: set<string>, select: Selector, json: seq<Relationship>, t: Tally)
    requires i < |items|
    requires forall r :: r in json <==> r in JsonRelationSet(portal, items[i])
    requires forall r | r in json :: r.kind == JsonReferenceKind
    requires Distinct(json)
    requires t.edges == AuditEdges(portal, items[..i], keys)
    requires t.breakdown == AuditTally(portal, items[..i], keys, select)
    ensures var t' := Record(keys, select, t, AllRels(portal, items[i], json));
            && t'.edges == AuditEdges(portal, items[..i + 1], keys)
            && t'.breakdown == AuditTally(portal, items[..i + 1], keys, select)
  {
    ItemEffect(portal, items[i], keys, select, json, t);
    PrefixStep(portal, items, i, keys, select);
  }

  /** The edges and counters of the first `i + 1` items extend those of the first `i` by item `i`'s own. */
  lemma PrefixStep(portal: Portal, items: seq<Item>, i: nat, keys: set<string>, select: Selector)
    requires i < |items|
    ensures AuditEdges(portal, items[..i + 1], keys) == AuditEdges(portal, items[..i], keys) + KeptPairs(keys, RelationSet(portal, items[i]))
    ensures AuditTally(portal, items[..i + 1], keys, select) == Add(AuditTally(portal, items[..i], keys, select), ItemTally(portal, items[i], keys, select))
  {
    var prefix := items[..i + 1];
    assert prefix[..|prefix| - 1] == items[..i] && prefix[|prefix| - 1] == items[i];
  }

  /**
    When every node starts out abandoned, after the marking a node is
    abandoned exactly when no edge touches it, and the abandoned nodes are
    the ones the marking counted.
   */
  lemma MarkedFlags(nodes: map<string, Node>, edges: set<(string, string)>, marked: map<string, Node>)
    requires forall x | x in nodes :: nodes[x].id == x && nodes[x].isAbandoned
    requires marked.Keys == nodes.Keys
    requires forall x | x in marked ::
               marked[x] == if Touched(edges, x) then nodes[x].(isAbandoned := false) else nodes[x]
    ensures forall x | x in marked :: marked[x].id == x && (!marked[x].isAbandoned <==> Touched(edges, x))
    ensures forall x | x in marked :: marked[x] == nodes[x].(isAbandoned := marked[x].isAbandoned)
    ensures (set x | x in marked && marked[x].isAbandoned) == set x | x in nodes && !Touched(edges, x)
  {
  }

  /**
    Steps 1 to 3 of `main` over the items of one content search, with the
    counter rule `select` (`CounterFor` as written): the inventory, every
    kept edge from the four strategies, the breakdown, and the abandonment
    flags and count.
   */
  method RunAudit(portal: Portal, items: seq<Item>, select: Selector) returns (g: Graph)
    ensures g.summary.totalItems == |items|
    ensures g.nodes.Keys == set item | item in items :: item.id
    ensures g.edges == AuditEdges(portal, items, g.nodes.Keys)
    ensures forall e | e in g.edges :: e.0 in g.nodes && e.1 in g.nodes
    ensures forall x | x in g.nodes :: g.nodes[x].id == x
    ensures forall x | x in g.nodes :: g.nodes[x] == Inventory(items)[x].(isAbandoned := g.nodes[x].isAbandoned)
    ensures forall x | x in g.nodes :: !g.nodes[x].isAbandoned <==> Touched(g.edges, x)
    ensures g.summary.abandonedCount == |set x | x in g.nodes && g.nodes[x].isAbandoned|
    ensures g.summary.breakdown == AuditTally(portal, items, g.nodes.Keys, select)
  {
    var nodes := Inventory(items);
    var tally := CollectEdges(portal, items, nodes.Keys, select);
    var marked, abandonedCount := MarkAbandoned(nodes, tally.edges);
    MarkedFlags(nodes, tally.edges, marked);
    g := Graph(Summary(|items|, abandonedCount, tally.breakdown), marked, tally.edges);
  }
}
