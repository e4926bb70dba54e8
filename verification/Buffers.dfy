/** The output buffer of the HPACK encoder: a growing byte string with a limit on what may still be put. */
module Buffers {
  import opened Headers

  class Dst {
    var data: Bytes
    var remaining: nat

    constructor (data: Bytes, remaining: nat)
      ensures this.data == data && this.remaining == remaining
    {
      this.data, this.remaining := data, remaining;
    }

    method Put(b: Byte)
      requires remaining > 0
      modifies this
      ensures data == old(data) + [b] && remaining == old(remaining) - 1
    {
      data, remaining := data + [b], remaining - 1;
    }

    /** Overwrites a byte already put; the limit does not change. */
    method Set(i: nat, b: Byte)
      requires i < |data|
      modifies this`data
      ensures data == old(data)[i := b]
    {
      data := data[i := b];
    }

    /** Forgets everything put since `pos`. What the limit counted stays counted. */
    method Rewind(pos: nat)
      requires pos <= |data|
      modifies this`data
      ensures data == old(data)[..pos]
    {
      data := data[..pos];
    }
  }
}
