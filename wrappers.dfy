/** Optional values, standing for a nullable column or a query that may find no row. */
module Wrappers {

  datatype Option<+T> = None | Some(value: T)
}
