/** The optional-value datatype used throughout the model: a DOM lookup that
    found nothing, an attribute that is absent (Python's None), or a parse that
    yielded nothing. */
module Wrappers {

  datatype Option<+T> = None | Some(value: T)
}
