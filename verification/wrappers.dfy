/** The optional value used for a failed load (`null` in the blog code) and for optional frontmatter keys. */
module Wrappers {

  datatype Option<+T> = None | Some(value: T)

}
