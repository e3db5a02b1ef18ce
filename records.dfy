/**
 * The rows the store directory keeps. A store row splits into the columns
 * that may be shown to anyone and the two things that never leave the
 * server in a listing: the digest of the edit key and the related reviews.
 */
module Records {
  import opened Wrappers

  /** A review as the listing sees it: its rating and its deletion flag. */
  datatype Review = Review(rating: int, isDeleted: bool)

  /** Every column of a store except `editKeyHash`. */
  datatype Columns = Columns(
    id: string,
    name: string,
    address: string,
    phone: Option<string>,
    businessHours: Option<string>,
    closedDays: Option<string>,
    websiteUrl: Option<string>,
    genre: Option<string>,
    description: Option<string>,
    isDeleted: bool,
    createdAt: int,
    updatedAt: int)

  /** A stored store: its public columns, its key digest and its reviews. */
  datatype StoreRow = StoreRow(columns: Columns, editKeyHash: string, reviews: seq<Review>)
}
