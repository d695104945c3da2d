/** One block of a file transfer: the byte buffer a DataFile carries over the chat socket. */
module DataFiles {
  import opened Tags

  /** Java's signed byte. */
  newtype byte = x: int | -128 <= x < 128

  class DataFile {
    /** The public buffer; Java allows it to be null. */
    var data: array?<byte>

    /** The default block is a full MAX_MSG_SIZE buffer, 1024000 bytes and not 1024. */
    constructor Default()
      ensures data != null && data.Length == MaxMsgSize
      ensures fresh(data)
    {
      data := new byte[MaxMsgSize];
    }

    /** A block of exactly `size` bytes. */
    constructor OfSize(size: nat)
      ensures data != null && data.Length == size
      ensures fresh(data)
    {
      data := new byte[size];
    }

    method GetData() returns (d: array?<byte>)
      ensures d == data
    {
      d := data;
    }

    method SetData(d: array?<byte>)
      modifies this
      ensures data == d
    {
      data := d;
    }

    /** The number of bytes the block carries; 0 for a null buffer. */
    method GetSize() returns (n: nat)
      ensures data == null ==> n == 0
      ensures data != null ==> n == data.Length
    {
      n := if data == null then 0 else data.Length;
    }
  }
}
