/** The error codes of src/status.h that the modelled calls return. */
module Status {
  datatype Status =
    | Ok
    | InvalidArg
    | NotEnoughMem
    | InvalidUserMemAccess
    | OutOfVmemBlocks
    | ProcNotZombie
    | Panic      // the kernel stopped in panic()
    | Undefined  // what follows is not modelled: kmalloc left its table, or null was cleared past it
}
