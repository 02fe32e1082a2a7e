/**
  The header record that opens every connection (`File_info`), the machine
  types it is built from, and the receive buffer's fixed capacity.
 */
module FileInfo {

  /** An unsigned 64-bit value (`unsigned long long`, and `size_t` on a 64-bit host). */
  type u64 = x: int | 0 <= x < 0x1_0000_0000_0000_0000

  /** One octet of the byte stream (the source's `char`). */
  type byte = x: int | 0 <= x < 256

  /** Capacity of the per-session buffer (`k_buffer_size`, 32 KiB). It caps both
      the filename segment and every body read. */
  const BufferSize: nat := 1024 * 32

  /** The header: declared file size and the length of the filename segment
      that follows it. Both fields default to zero. */
  datatype Header = Header(fileSize: u64, filenameSize: u64)

  const DefaultHeader: Header := Header(0, 0)
}
