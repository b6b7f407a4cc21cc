/** The optional value the model uses wherever the JavaScript code returns `null`,
    `undefined` or a failed regular-expression match. */
module Options {

  datatype Option<+T> = None | Some(value: T)
}
