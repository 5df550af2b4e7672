// Status codes and the option type shared by the model.
module Status {
  /** kernel/include/kstatus.h */
  datatype KStatus =
    | Success
    | NotImplemented
    | InvalidParameter
    | InitFailed
    | NotFound
    | AlreadyInitialized
    | AccessDenied
    | WouldBlock

  datatype Option<+T> = None | Some(value: T)
}
