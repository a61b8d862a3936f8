/** The part of an iota.lib.js transaction object that bundle extraction reads. */
module Transactions {

  /**
   * One transaction of a bundle. `signatureMessageFragment` carries a slice of the
   * message; only the foreign `extractJson` routine reads it.
   */
  datatype Transaction = Transaction(
    bundle: string,
    currentIndex: int,
    lastIndex: int,
    attachmentTimestamp: int,
    signatureMessageFragment: string)

  /** The two numeric fields `extractBundles` sorts by. */
  datatype SortField = AttachmentTimestamp | CurrentIndex

  function Key(tx: Transaction, f: SortField): int
  {
    match f
    case AttachmentTimestamp => tx.attachmentTimestamp
    case CurrentIndex => tx.currentIndex
  }
}
