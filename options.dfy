/** The usual optional value. A Markdown node's `url` field is either a
    string (`Some`) or any other JavaScript value, `undefined` included (`None`). */
module Options {
  datatype Option<+T> = None | Some(value: T)
}
