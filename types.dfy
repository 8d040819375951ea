/** The records the tree store holds and the identifiers that link them. */
module Types {

  /** A value that may be absent; `None` plays the part of `null`. */
  datatype Option<T> = None | Some(value: T)

  /** An item id is a number or a string. The store compares ids strictly,
      so a number never equals a string: `Num(2) != Str("2")`. */
  datatype Id = Num(n: int) | Str(s: string)

  /** One record of the store: its own id, the id of its parent (`None` for a
      root) and its display label, held in `title` because `label` is a
      keyword of Dafny. */
  datatype Item = Item(id: Id, parent: Option<Id>, title: string)
}
