/** Types shared by several models. */
module KernelTypes {

  type Tid = nat

  datatype Option<+T> = None | Some(value: T)

  datatype TaskState = Running | Ready | Blocking | Sleeping | Zombie
}
