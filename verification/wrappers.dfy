/** The optional-value wrapper used for values the source holds in a `std::optional`. */
module Wrappers {

  datatype Option<+T> = None | Some(value: T)

}
