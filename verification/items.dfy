/** `CharacterItem` (scraper/scraper/items.py): three fields, each of which
    may be unset. */
module Items {
  import opened Wrappers

  datatype Item = Item(name: Option<string>, url: Option<string>, imageUrl: Option<string>)

  /** Python truthiness of an optional string field: set and non-empty. */
  predicate Truthy(o: Option<string>) {
    o.Some? && o.value != []
  }
}
