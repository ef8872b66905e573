// Types shared by all the models.
module Basics {
  datatype Option<+T> = None | Some(value: T)

  // Primary keys are UUIDs, read as the natural numbers they encode.
  type Id = nat

  // Timestamps are naive UTC datetimes; only their order and differences matter.
  type Time = int
}
