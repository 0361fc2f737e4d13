/** The record buffer: a cursor over an externally owned array of records. */
module RecordBuffer {

  class RecordBuf {
    /** size_t head: index of the next record slot. */
    var head: nat

    /** Not an operation of the C code (which never builds a record_buf_t); it exists only so that a RecordBuf can be created. */
    constructor (head: nat)
      ensures this.head == head
    {
      this.head := head;
    }

    /** record_buf_reset: rewind the cursor to the first slot. */
    method Reset()
      modifies this
      ensures head == 0
    {
      head := 0;
    }
  }
}
