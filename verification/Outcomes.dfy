/** Results shared by every part of the kernel model. */
module Outcomes {

  datatype Option<+T> = None | Some(value: T)

  /** Every reason for which the modelled kernel code panics. */
  datatype Failure =
    | HugePage          // "mapping code does not support huge pages"
    | OutOfMemory       // an allocate_frames(1) that returned None
    | AlreadyMapped     // the P1 entry is in use
    | BadFrame          // the frame number does not fit an entry
    | NotMapped         // unmap of a page without a translation
    | TemporaryInUse    // "temporary page is already mapped"
    | MisalignedHuge    // a huge entry whose frame is not aligned
    | NonCanonical      // "invalid address"
    | Unaligned         // "sections need to be page aligned"
    | PageFault         // an access to an unmapped page, or outside of RAM
    | NoSuchProcess     // a pid that is not in the process table
    | TableFull         // "Could not create new process!"
    | ListFull          // a push onto a full static vector

  /** A value, or the panic that replaced it. */
  datatype Result<+T> = Ok(value: T) | Panic(why: Failure) {
    predicate IsFailure() { Panic? }

    function PropagateFailure<U>(): Result<U>
      requires Panic?
    {
      Panic(why)
    }

    function Extract(): T
      requires Ok?
    {
      value
    }
  }
}
