/** An optional value: `None` stands for JavaScript's `null` / `undefined`,
    and for "no such entry" in lookups. */
module Options {

  datatype Option<+T> = None | Some(value: T)

}
