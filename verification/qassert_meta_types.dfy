/** Value types of the QASSERT description registry: the description record
    and the callback shape from the public header, and the table entry
    record from the private header. */
module QAssertMetaTypes {

  /** A C pointer that may be NULL: `None` is NULL. */
  datatype Option<+T> = None | Some(value: T)

  /** The three-field output record of a lookup. Every field is an
      independently optional text (a `const char *` that may be NULL). */
  datatype Description = Description(brief: Option<string>, tips: Option<string>, url: Option<string>)

  /** The record with every field NULL, as the tests initialise it. */
  const Blank: Description := Description(None, None, None)

  /** The shape of an unknown-QASSERT callback: it receives the module, the
      id and the current contents of the caller's output record, and
      returns its verdict together with the contents it leaves in that
      record (it may write to the output even when it answers false). */
  type Resolver = (string, int, Description) -> (bool, Description)

  /** One row of the internal table: the (module, id) key and the
      description handed out for it. A NULL module marks the sentinel. */
  datatype Entry = Entry(moduleName: Option<string>, id: int, description: Description)

  /** The list-terminating row that closes the table. */
  const Sentinel: Entry := Entry(None, -1, Blank)

  /** The scan stops at the first row whose module is NULL. */
  predicate IsSentinel(e: Entry) {
    e.moduleName.None?
  }

  /** A row answers a query when its module text equals the requested
      module exactly and its id equals the requested id. */
  predicate Matches(e: Entry, moduleName: string, id: int) {
    e.moduleName == Some(moduleName) && e.id == id
  }

  predicate SameKey(a: Entry, b: Entry) {
    a.moduleName == b.moduleName && a.id == b.id
  }

  /** A table is terminated when it ends with the sentinel row and no
      earlier row has a NULL module, so a scan reaches every real row and
      then stops. */
  predicate Terminated(t: seq<Entry>) {
    |t| > 0 && t[|t| - 1] == Sentinel &&
    forall i | 0 <= i < |t| - 1 :: !IsSentinel(t[i])
  }

  /** No two real rows share a (module, id) key. */
  predicate DistinctKeys(t: seq<Entry>) {
    forall i, j | 0 <= i < j < |t| && !IsSentinel(t[i]) :: !SameKey(t[i], t[j])
  }
}
