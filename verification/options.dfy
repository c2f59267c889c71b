/** The optional value used for a task's due date and for the day a task is placed on. */
module Options {

  datatype Option<+T> = None | Some(value: T)
}
