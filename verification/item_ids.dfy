/**
  Discovery of 32-character item IDs: in one URL (`extract_id_from_url`)
  and anywhere inside a JSON tree (`extract_ids_from_dict`).
 */
module ItemIds {
  import opened Wrappers
  import opened Strings
  import opened JsonValue

  /** The path fragment that precedes an item ID in a portal URL. */
  const ItemsMarker: string := "/items/"

  /** Item IDs are exactly this long. */
  const IdLength: nat := 32

  /**
    `extract_id_from_url` on a string: split at `/items/`, take the
    second part, keep what comes before the first `/` and then before the
    first `?`, and accept it only when it is 32 characters long.
   */
  function ExtractIdFromUrl(url: string): (r: Option<string>)
    ensures r.Some? ==> |r.value| == IdLength
    ensures r.Some? ==> Contains(url, ItemsMarker)
  {
    if !Contains(url, ItemsMarker) then None
    else
      var parts := Split(url, ItemsMarker);
      if |parts| > 1 then
        var itemId := Split(Split(parts[1], "/")[0], "?")[0];
        if |itemId| == IdLength then Some(itemId) else None
      else None
  }

  /** `extract_id_from_url` on an arbitrary value: anything but a string yields `None`. */
  function ExtractIdFromValue(v: Json): (r: Option<string>)
    ensures !v.JStr? ==> r.None?
    ensures v.JStr? ==> r == ExtractIdFromUrl(v.s)
  {
    match v
    case JStr(url) => ExtractIdFromUrl(url)
    case _ => None
  }

  /** The candidate ID of a URL: after the first `/items/`, cut at `/`, then at `?`. */
  function UrlSegment(url: string): string
    requires Contains(url, ItemsMarker)
  {
    Before(Before(After(url, ItemsMarker), "/"), "?")
  }

  /** A string that does not contain the one-character string `[c]` does not contain `c`. */
  lemma NotContainsChar(s: string, c: char)
    requires !Contains(s, [c])
    ensures c !in s
  {
    forall j | 0 <= j < |s|
      ensures s[j] != c
    {
      assert !OccursAt(s, [c], j);
      assert s[j..j + 1] == [s[j]];
    }
  }

  /**
    What `extract_id_from_url` returns, without reference to `split`: the
    text right after the FIRST `/items/`, cut at the first `/` and the
    first `?`, when that text is 32 characters long; `None` otherwise.
    The ID contains neither `/` nor `?`, and it is a prefix of the text
    after `/items/`.
   */
  lemma ExtractIdFromUrlMeaning(url: string)
    ensures ExtractIdFromUrl(url).Some? <==>
              Contains(url, ItemsMarker) && |UrlSegment(url)| == IdLength
    ensures ExtractIdFromUrl(url).Some? ==>
              var itemId := ExtractIdFromUrl(url).value;
              && itemId == UrlSegment(url)
              && '/' !in itemId && '?' !in itemId
              && itemId == After(url, ItemsMarker)[..IdLength]
  {
    if Contains(url, ItemsMarker) {
      var rest := After(url, ItemsMarker);
      var cut := Before(rest, "/");
      var seg := Before(cut, "?");
      assert seg == UrlSegment(url);
      assert Split(Split(Split(url, ItemsMarker)[1], "/")[0], "?")[0] == seg by {
        var parts := Split(url, ItemsMarker);
        SplitSecond(url, ItemsMarker);
        assert parts[1] == Before(rest, ItemsMarker);
        SplitHead(parts[1], "/");
        BeforeBeforeLonger(rest, "/", ItemsMarker);
        SplitHead(Split(parts[1], "/")[0], "?");
      }
      assert '/' !in seg && '?' !in seg by {
        NotContainsChar(seg, '?');
        NotContainsChar(cut, '/');
        assert seg == cut[..|seg|];
      }
    }
  }

  /** The IDs a URL contributes, as a set (empty or a singleton). */
  function UrlIds(url: string): set<string> {
    match ExtractIdFromUrl(url)
    case Some(itemId) => {itemId}
    case None => {}
  }

  // ---------------------------------------------------------------------
  // The walk as written: one accumulator threaded through the recursion.
  // ---------------------------------------------------------------------

  /** `extract_ids_from_dict(obj, discovered)` */
  function ExtractIdsFromDict(obj: Json, discovered: set<string>): (r: set<string>)
    ensures discovered <= r
    ensures forall itemId | itemId in r - discovered :: |itemId| == IdLength
    decreases obj
  {
    match obj
    case JObj(ms) => ScanMembers(ms, discovered)
    case JArr(es) => ScanElements(es, discovered)
    case _ => discovered
  }

  /** The loop over a dict's items, in iteration order. */
  function ScanMembers(ms: seq<Member>, discovered: set<string>): (r: set<string>)
    ensures discovered <= r
    ensures forall itemId | itemId in r - discovered :: |itemId| == IdLength
    decreases ms
  {
    if |ms| == 0 then discovered
    else ScanMembers(ms[1..], ScanMember(ms[0], discovered))
  }

  /** One dict entry: an `itemId` string of ID length, a `url` string, or anything else recursed into. */
  function ScanMember(m: Member, discovered: set<string>): (r: set<string>)
    ensures discovered <= r
    ensures forall itemId | itemId in r - discovered :: |itemId| == IdLength
    decreases m
  {
    if m.key == "itemId" && m.value.JStr? && |m.value.s| == IdLength then
      discovered + {m.value.s}
    else if m.key == "url" && m.value.JStr? then
      // `if item_id:`; a returned ID is 32 characters long, hence truthy
      match ExtractIdFromValue(m.value)
      case Some(itemId) => discovered + {itemId}
      case None => discovered
    else
      ExtractIdsFromDict(m.value, discovered)
  }

  /** The loop over a list's elements. */
  function ScanElements(es: seq<Json>, discovered: set<string>): (r: set<string>)
    ensures discovered <= r
    ensures forall itemId | itemId in r - discovered :: |itemId| == IdLength
    decreases es
  {
    if |es| == 0 then discovered
    else ScanElements(es[1..], ExtractIdsFromDict(es[0], discovered))
  }

  // ---------------------------------------------------------------------
  // Reference definition: the IDs a tree holds, defined compositionally.
  // ---------------------------------------------------------------------

  /** The item IDs referenced anywhere in `j`. */
  function IdsIn(j: Json): set<string>
    decreases j
  {
    match j
    case JObj(ms) => MembersIds(ms)
    case JArr(es) => ElementsIds(es)
    case _ => {}
  }

  function MembersIds(ms: seq<Member>): set<string>
    decreases ms
  {
    if |ms| == 0 then {} else MemberIds(ms[0]) + MembersIds(ms[1..])
  }

  function MemberIds(m: Member): set<string>
    decreases m
  {
    if m.key == "itemId" && m.value.JStr? && |m.value.s| == IdLength then {m.value.s}
    else if m.key == "url" && m.value.JStr? then UrlIds(m.value.s)
    else IdsIn(m.value)
  }

  function ElementsIds(es: seq<Json>): set<string>
    decreases es
  {
    if |es| == 0 then {} else IdsIn(es[0]) + ElementsIds(es[1..])
  }

  /** The accumulating walk adds exactly the IDs the tree holds to what it was given. */
  lemma {:induction false} ExtractIdsIsUnion(j: Json, discovered: set<string>)
    ensures ExtractIdsFromDict(j, discovered) == discovered + IdsIn(j)
    decreases j
  {
    match j
    case JObj(ms) => ScanMembersIsUnion(ms, discovered);
    case JArr(es) => ScanElementsIsUnion(es, discovered);
    case _ =>
  }

  lemma {:induction false} ScanMembersIsUnion(ms: seq<Member>, discovered: set<string>)
    ensures ScanMembers(ms, discovered) == discovered + MembersIds(ms)
    decreases ms
  {
    if |ms| > 0 {
      var m := ms[0];
      if !(m.key == "itemId" && m.value.JStr? && |m.value.s| == IdLength) && !(m.key == "url" && m.value.JStr?) {
        ExtractIdsIsUnion(m.value, discovered);
      }
      ScanMembersIsUnion(ms[1..], ScanMember(m, discovered));
    }
  }

  lemma {:induction false} ScanElementsIsUnion(es: seq<Json>, discovered: set<string>)
    ensures ScanElements(es, discovered) == discovered + ElementsIds(es)
    decreases es
  {
    if |es| > 0 {
      ExtractIdsIsUnion(es[0], discovered);
      ScanElementsIsUnion(es[1..], ExtractIdsFromDict(es[0], discovered));
    }
  }

  /**
    The accumulator is only added to: IDs already discovered stay, and the
    result is what was discovered plus what a fresh walk finds.
   */
  lemma AccumulatorOnlyGrows(j: Json, discovered: set<string>)
    ensures ExtractIdsFromDict(j, discovered) == discovered + ExtractIdsFromDict(j, {})
  {
    ExtractIdsIsUnion(j, discovered);
    ExtractIdsIsUnion(j, {});
  }

  /** Every ID found anywhere in a tree is 32 characters long. */
  lemma IdsHaveIdLength(j: Json)
    ensures forall itemId | itemId in IdsIn(j) :: |itemId| == IdLength
  {
    ExtractIdsIsUnion(j, {});
  }

  /** An ID is among a dict's IDs exactly when one of its entries holds it. */
  lemma {:induction false} MembersIdsMembership(ms: seq<Member>, x: string)
    ensures x in MembersIds(ms) <==> exists m | m in ms :: x in MemberIds(m)
    decreases |ms|
  {
    if |ms| > 0 {
      var rest := ms[1..];
      MembersIdsMembership(rest, x);
      if x in MemberIds(ms[0]) {
        assert ms[0] in ms;
      } else if x in MembersIds(rest) {
        var m :| m in rest && x in MemberIds(m);
        assert m in ms;
      } else {
        forall m | m in ms ensures x !in MemberIds(m) {
          assert m == ms[0] || m in rest;
        }
      }
    }
  }

  /**
    The IDs found in a dict depend only on which entries it has, not on
    their order or repetition.
   */
  lemma MemberOrderIrrelevant(ms1: seq<Member>, ms2: seq<Member>, discovered: set<string>)
    requires forall m :: m in ms1 <==> m in ms2
    ensures ExtractIdsFromDict(JObj(ms1), discovered) == ExtractIdsFromDict(JObj(ms2), discovered)
  {
    ExtractIdsIsUnion(JObj(ms1), discovered);
    ExtractIdsIsUnion(JObj(ms2), discovered);
    forall x ensures x in MembersIds(ms1) <==> x in MembersIds(ms2) {
      MembersIdsMembership(ms1, x);
      MembersIdsMembership(ms2, x);
    }
  }

  /**
    The recursion rule for one dict entry: a 32-character `itemId` string
    is collected; any `url` string contributes only what
    `extract_id_from_url` finds in it; every other value, including a
    shorter or longer `itemId` string and a non-string `url`, is walked.
   */
  lemma EntryRule(key: string, value: Json, discovered: set<string>)
    ensures key == "itemId" && value.JStr? && |value.s| == IdLength ==>
              ExtractIdsFromDict(JObj([Member(key, value)]), discovered) == discovered + {value.s}
    ensures key == "url" && value.JStr? ==>
              ExtractIdsFromDict(JObj([Member(key, value)]), discovered) == discovered + UrlIds(value.s)
    ensures !(key == "itemId" && value.JStr? && |value.s| == IdLength) && !(key == "url" && value.JStr?) ==>
              ExtractIdsFromDict(JObj([Member(key, value)]), discovered) == ExtractIdsFromDict(value, discovered)
  {
    var m := Member(key, value);
    assert [m][1..] == [];
    assert ScanMembers([m], discovered) == ScanMembers([], ScanMember(m, discovered));
    assert ExtractIdsFromDict(JObj([m]), discovered) == ScanMembers([m], discovered);
  }

  /** Lists are walked element by element, and scalars hold no IDs. */
  lemma ListAndScalarRule(j: Json, discovered: set<string>)
    ensures j.JArr? ==> ExtractIdsFromDict(j, discovered) == discovered + ElementsIds(j.elems)
    ensures !j.JArr? && !j.JObj? ==> ExtractIdsFromDict(j, discovered) == discovered
  {
    if j.JArr? {
      ScanElementsIsUnion(j.elems, discovered);
    }
  }

  /** A value that is not truthy holds no IDs, so the `if item_data:` guard changes nothing. */
  lemma FalsyHoldsNoIds(j: Json)
    requires !Truthy(j)
    ensures ExtractIdsFromDict(j, {}) == {}
  {
  }
}
