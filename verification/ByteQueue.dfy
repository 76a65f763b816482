module ByteQueue {

  /** trantor's MsgBuffer, seen as the bytes it holds. */
  class MsgBuffer {
    var data: string

    constructor ()
      ensures data == ""
    {
      data := "";
    }

    method Append(more: string)
      modifies this
      ensures data == old(data) + more
    {
      data := data + more;
    }

    method Retrieve(n: nat)
      requires n <= |data|
      modifies this
      ensures data == old(data)[n..]
    {
      data := data[n..];
    }
  }
}
