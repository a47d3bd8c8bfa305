/** Names shared by all protocols. */
module Types {
  /** Nodes are numbered from 0. */
  type Replica = nat

  /** Values are i64 in the program and unbounded here. */
  type Val = int

  datatype Option<+T> = None | Some(value: T)
}
