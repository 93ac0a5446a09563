/** The usual optional-value datatype: `None` stands for JavaScript's
    `undefined`/`null` (or any falsy field value) wherever the model reads one. */
module Options {

  datatype Option<+T> = None | Some(value: T)

}
