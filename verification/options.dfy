/** The nullable-value wrapper used throughout the model: a SQL NULL or a
    missing `fetchone()` row is `None`. */
module Options {

  datatype Option<+T> = None | Some(value: T)
}
