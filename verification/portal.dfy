/**
  The remote portal as the auditor sees it. Every remote call becomes a
  total function of the portal that either answers or raises; the
  auditor's bare `except: pass` turns a raise into "nothing found".
 */
module Portal {
  import opened Wrappers
  import opened JsonValue

  /** A content item as returned by the content search. */
  datatype Item = Item(
    id: string,
    title: string,
    itemType: string,
    owner: string,
    numViews: int,
    access: string,
    homepage: string)

  /** The outcome of one remote call. */
  datatype Reply<T> = Ok(value: T) | Raised

  datatype Direction = Forward | Reverse

  /** An entry of `dependent_upon()` / `dependent_to()`; `id` is absent when the entry has no `id` attribute. */
  datatype Dependency = Dependency(id: Option<string>)

  /** The remote API calls the auditor makes. */
  datatype Portal = Portal(
    // `item.related_items(rel_type, direction=...)`, reduced to the related items' IDs
    relatedItems: (Item, string, Direction) -> Reply<seq<string>>,
    // `item.dependent_upon()`
    dependentUpon: Item -> Reply<seq<Dependency>>,
    // `item.dependent_to()`
    dependentTo: Item -> Reply<seq<Dependency>>,
    // `item.get_data()`, already parsed
    getData: Item -> Reply<Json>)

  /** The answer of a list-valued call, or the empty list when it raised. */
  function Answered<T>(reply: Reply<seq<T>>): (r: seq<T>)
    ensures reply.Raised? ==> r == []
  {
    match reply
    case Ok(xs) => xs
    case Raised => []
  }
}
