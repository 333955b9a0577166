/**
 The read position that the metadata decoder's `Cursor` and the two `Reader`s share: an input
 buffer and an offset that only moves forward.  Each method refines the pure parser of the same
 name on the unread suffix.
 */
module ReadCursor {
  import opened Wire

  /** The read cursor shared by the three decoders: a buffer and an advancing position. */
  class Reader {
    const input: bytes
    var position: nat

    ghost predicate Valid()
      reads this
    {
      position <= |input|
    }

    /** The unread suffix. */
    ghost function Rest(): bytes
      requires Valid()
      reads this
    {
      input[position..]
    }

    constructor (input: bytes)
      ensures Valid() && this.input == input && position == 0 && Rest() == input
    {
      this.input := input;
      position := 0;
    }

    method Take(n: nat) returns (r: Option<bytes>)
      requires Valid()
      modifies this
      ensures Valid()
      ensures match Wire.Take(old(Rest()), n)
              case None => r == None && position == old(position)
              case Some(Parsed(v, rest)) => r == Some(v) && Rest() == rest && position == old(position) + n
    {
      if position + n <= |input| {
        r := Some(input[position..position + n]);
        assert input[position..position + n] == input[position..][..n];
        assert input[position + n..] == input[position..][n..];
        position := position + n;
      } else {
        r := None;
      }
    }

    method Word(width: nat) returns (r: Option<nat>)
      requires Valid()
      modifies this
      ensures Valid()
      ensures match Wire.Word(old(Rest()), width)
              case None => r == None && position == old(position)
              case Some(Parsed(v, rest)) => r == Some(v) && Rest() == rest
    {
      var w := Take(width);
      r := if w.Some? then Some(FromLe(w.value)) else None;
    }

    method Blob() returns (r: Option<bytes>)
      requires Valid()
      modifies this
      ensures Valid()
      ensures match Wire.Blob(old(Rest()))
              case None => r == None
              case Some(Parsed(v, rest)) => r == Some(v) && Rest() == rest
    {
      var n := Word(4);
      if n.None? {
        return None;
      }
      r := Take(n.value);
    }
  }
}
