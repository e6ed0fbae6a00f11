/** The optional result used where the source aborts on a failed assertion. */
module Options {

  /** `None` stands for a run that stops on a failed `assert`. */
  datatype Option<+T> = None | Some(value: T)
}
