/** The stored blog post, with the fields of the Mongoose schema. */
module Blogs {

  datatype Option<T> = None | Some(value: T) {
    function GetOr(default: T): T {
      match this
      case Some(v) => v
      case None => default
    }
  }

  /** One document of the `Blog` collection. The schema marks no field as
      required, so a text field may be absent (`None`); `createdAt` always has
      a value because the schema gives it a default, kept here as a number of
      milliseconds. */
  datatype Blog = Blog(
    id: Option<int>,
    title: Option<string>,
    content: Option<string>,
    category: Option<string>,
    createdAt: int)
}
