/** Types shared by every component of the engine. */
module Common {

  datatype Option<+T> = None | Some(value: T)

  /** Page identifiers.  Allocation is monotone, so identifiers are naturals;
      the sentinel kInvalidPageId is kept apart from every natural. */
  type PageId = int

  const INVALID: PageId := -1

  /** Record identifier: a page and a slot of that page. */
  datatype RID = RID(pageId: PageId, slotId: nat)

  /** The status codes that the modelled operations return. */
  datatype Status =
    | Ok
    | NotFound
    | AlreadyExists
    | InvalidArg
    | IoError
    | Corruption
    | BufferPoolFull
}
