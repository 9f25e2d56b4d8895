/** Persistence tags: every persisted item is named by a short code in
    compact state and by a readable name when readable tags are asked
    for; restoring accepts either form. */
module PersistenceTag {
  datatype Tag = Tag(short: string, readable: string)

  /** The name an inserter writes for a tag. */
  function TagName(t: Tag, readableTags: bool): (r: string)
    ensures r == t.short || r == t.readable
  {
    if readableTags then t.readable else t.short
  }

  /** A name read back from state matches a tag when it is either form. */
  predicate Matches(name: string, t: Tag) {
    name == t.short || name == t.readable
  }
}
