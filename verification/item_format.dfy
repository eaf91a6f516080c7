/** The shape of the item strings that the writer puts on tags and the
    reader looks for. */
module ItemFormat {

  /** The literal every item string starts with. */
  const ItemPrefix: string := "ITEM:"

  /** Arduino `String::startsWith("ITEM:")`. */
  predicate HasItemPrefix(t: string)
  {
    ItemPrefix <= t
  }
}
