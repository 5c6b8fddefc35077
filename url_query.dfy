/**
  The parts of a Foundation `URL` that the iOS controller reads, and the
  controller's `URL.valueOf` extension, which returns the value of the first
  query item carrying a given name.
*/
module UrlQuery {
  import opened Foundation

  /** One `URLQueryItem`; `value` is None for an item written without '='. */
  datatype QueryItem = QueryItem(name: string, value: Option<string>)

  /**
    A navigated URL: its `path`, its `lastPathComponent`, and the query items
    that `URLComponents` finds (None when it finds none or cannot parse the URL).
  */
  datatype Url = Url(path: string, lastPathComponent: string, queryItems: Option<seq<QueryItem>>)

  /** `first(where: { $0.name == name })`, as an index. */
  function FirstNamed(items: seq<QueryItem>, name: string): (r: Option<nat>)
    ensures r.Some? ==> r.value < |items| && items[r.value].name == name
    ensures r.Some? ==> forall j :: 0 <= j < r.value ==> items[j].name != name
    ensures r.None? ==> forall j :: 0 <= j < |items| ==> items[j].name != name
  {
    if items == [] then None
    else if items[0].name == name then Some(0)
    else match FirstNamed(items[1..], name)
      case None => None
      case Some(i) => Some(i + 1)
  }

  /** `URL.valueOf(_:)`: the value of the first query item with this name. */
  function ValueOf(u: Url, name: string): (r: Option<string>)
    ensures u.queryItems.None? ==> r.None?
    ensures r.Some? ==>
      u.queryItems.Some? &&
      (exists i :: 0 <= i < |u.queryItems.value| && u.queryItems.value[i] == QueryItem(name, r) &&
        forall j :: 0 <= j < i ==> u.queryItems.value[j].name != name)
    ensures r.None? && u.queryItems.Some? ==>
      forall i :: 0 <= i < |u.queryItems.value| && u.queryItems.value[i].name == name && u.queryItems.value[i].value.Some? ==>
        exists j :: 0 <= j < i && u.queryItems.value[j].name == name
  {
    match u.queryItems
    case None => None
    case Some(items) =>
      match FirstNamed(items, name)
      case None => None
      case Some(i) => items[i].value
  }
}
