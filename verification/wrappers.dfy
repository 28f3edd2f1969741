/** The small optional-value type shared by the Connect Four and graph models:
    `None` stands for a scan that found nothing, or for a Java `null`. */
module Wrappers {
  datatype Option<+T> = None | Some(value: T)
}
