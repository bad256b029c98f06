/** The optional value used for the bot's "may be missing" results. */
module Wrappers {

  datatype Option<+T> = None | Some(value: T)
}
