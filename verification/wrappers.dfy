/** Optional value used for the two partial steps of the scraper: parsing a
    price text and validating a record. */
module Wrappers {

  /** `None` marks a value that could not be produced. */
  datatype Option<+T> = None | Some(value: T)
}
