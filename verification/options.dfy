/** The absence value used where the C# service returns a nullable reference. */
module Options {

  /** `None` stands for the `null` a lookup returns when nothing matches. */
  datatype Option<+T> = None | Some(value: T)
}
