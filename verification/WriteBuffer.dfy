/** An output buffer with a byte limit: the sink behind `write` and the tree patch `Writer`. */
module WriteBuffer {
  import opened Wire

  class Writer {
    var buffer: bytes
    const maximum: nat

    ghost predicate Valid()
      reads this
    {
      |buffer| <= maximum
    }

    constructor (maximum: nat)
      ensures Valid() && buffer == [] && this.maximum == maximum
    {
      buffer := [];
      this.maximum := maximum;
    }

    /** Append, or refuse and leave the buffer alone. */
    method Put(chunk: bytes) returns (ok: bool)
      requires Valid()
      modifies this
      ensures Valid()
      ensures ok <==> |old(buffer)| + |chunk| <= maximum
      ensures buffer == if ok then old(buffer) + chunk else old(buffer)
    {
      ok := |buffer| + |chunk| <= maximum;
      if ok {
        buffer := buffer + chunk;
      }
    }
  }

  /** Copy a field into the slot right after what is already there. */
  method CopyNext(slot: array<byte>, at: nat, chunk: bytes)
    requires at + |chunk| <= slot.Length
    modifies slot
    ensures slot[..at + |chunk|] == old(slot[..at]) + chunk
  {
    for i := 0 to |chunk|
      invariant slot[..at + i] == old(slot[..at]) + chunk[..i]
    {
      slot[at + i] := chunk[i];
      assert slot[..at + i + 1] == slot[..at + i] + [chunk[i]];
      assert chunk[..i + 1] == chunk[..i] + [chunk[i]];
    }
    assert chunk[..|chunk|] == chunk;
  }
}
