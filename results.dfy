/** Success and failure values shared by the runtime's components.

    Every fallible operation of the runtime returns a `Result<T, &'static str>`;
    the model keeps one error kind per distinct message. */
module Results {

  /** One error kind per distinct error message of the runtime. */
  datatype Error =
    // Bitmap
    | OutOfBounds        // "requested index to set/clear is not in the bounds of the bitmap"
    | AlreadySet         // "bit was already set!"
    | AlreadyClear       // "bit was already clear!"
    | NotFound           // "could not find enough contiguous bits"
    | BoundTooLarge      // "bound is beyond the number of bits in the bitmap"
    | NoRunWithinBound   // "no empty bits within the bounds"
    // SlabAllocator
    | InsufficientFree   // "not enough free blocks (without checking continuity)"
    | TooManyBlocks      // "requested block count is more than exist in this heap"
    | UnalignedPtr       // "iov ptr is not aligned to a block"
    | UnalignedSize      // "iov size is not aligned to a block"
    | FreeMoreThanUsed   // "attempting to free more blocks than are used"
    | FreeMoreThanHeap   // "attempting to free more blocks than are in this heap"
    // RingBuffer
    | NotYetWritten      // "index is beyond the items pushed so far"
    | IndexOutOfRange    // "index is out of bounds"

  datatype Option<T> = None | Some(value: T)

  datatype Result<T> = Ok(value: T) | Err(error: Error)
}
