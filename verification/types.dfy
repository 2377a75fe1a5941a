/** Shared vocabulary of the button/LED program: the event tag each
    button task sends and a small optional-value wrapper. */
module Types {

  /** The logical event a button task sends. Each running button task
      owns exactly one of these tags; it carries no data beyond the tag. */
  datatype ButtonEvent = Button2Pressed | Button3Pressed | Button4Pressed

  /** A value that may be absent: a poll either sends one event or none. */
  datatype Option<+T> = None | Some(value: T)
}
