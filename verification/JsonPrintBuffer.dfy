/** The printer's buffer, which grows when needed and whose offset is repaired by looking for the terminator. */
module JsonPrintBuffer {
  import opened Bits
  import opened JsonStrings
  import opened JsonText

  /** The text stands at `start`, followed by a terminator. */
  ghost predicate Shows(b: seq<byte>, start: nat, text: seq<byte>) {
    start + |text| < |b| && b[start..start + |text|] == text && b[start + |text|] == 0
  }

  lemma TerminatorAt(b: seq<byte>, start: nat, text: seq<byte>, k: nat)
    requires Shows(b, start, text) && NulFree(text) && start <= k <= start + |text|
    ensures start + |text| < |b| && (b[k] == 0 <==> k == start + |text|)
  {
    if k < start + |text| {
      assert b[k] == b[start..start + |text|][k - start];
    }
  }

  class PrintBuffer {
    var buffer: array<byte>
    var offset: nat
    var depth: nat
    const noalloc: bool
    const format: bool

    constructor (size: nat, format: bool)
      requires 1 <= size <= INT_MAX
      ensures fresh(buffer) && buffer.Length == size && offset == 0 && depth == 0
      ensures this.format == format && !noalloc
    {
      buffer := new byte[size];
      offset, depth, noalloc := 0, 0, false;
      this.format := format;
    }

    /** Printing into memory of the caller's, which is never replaced. */
    constructor Preallocated(memory: array<byte>, format: bool)
      ensures buffer == memory && offset == 0 && depth == 0 && this.format == format && noalloc
    {
      buffer, offset, depth, noalloc := memory, 0, 0, true;
      this.format := format;
    }

    /** Only memory of the caller's can be empty. */
    ghost predicate Valid()
      reads `buffer, `offset
    {
      (offset < buffer.Length || (offset == 0 && noalloc)) && buffer.Length <= INT_MAX
    }

    /** The largest size the buffer can have. */
    function Limit(): nat
      reads `buffer
    {
      if noalloc then buffer.Length else INT_MAX
    }

    /** Makes room for `needed` bytes and a terminator at the offset, or fails and leaves everything as it is. */
    method Ensure(needed: nat) returns (ok: bool)
      requires Valid()
      modifies this`buffer
      ensures Valid() && (buffer == old(buffer) || (fresh(buffer) && !noalloc))
      ensures Limit() == old(Limit())
      ensures buffer[..offset] == old(buffer[..offset])
      ensures ok <==> offset + needed + 1 <= Limit()
      ensures ok ==> offset + needed + 1 <= buffer.Length
      ensures !ok ==> buffer == old(buffer)
    {
      if buffer.Length > 0 && offset >= buffer.Length {
        return false;
      }
      if needed > INT_MAX {
        return false;
      }
      var total := needed + offset + 1;
      if total <= buffer.Length {
        return true;
      }
      if noalloc {
        return false;
      }
      var newsize := 2 * total;
      if total > INT_MAX / 2 {
        if total <= INT_MAX {
          newsize := INT_MAX;
        } else {
          return false;
        }
      }
      var newbuffer := new byte[newsize];
      for i := 0 to offset + 1
        invariant buffer == old(buffer) && forall k :: 0 <= k < i ==> newbuffer[k] == buffer[k]
      {
        newbuffer[i] := buffer[i];
      }
      buffer := newbuffer;
      ok := true;
    }

    /** Moves the offset to the terminator. */
    method UpdateOffset(ghost start: nat, ghost text: seq<byte>)
      requires Valid() && NulFree(text) && start <= offset <= start + |text| && Shows(buffer[..], start, text)
      modifies this`offset
      ensures Valid() && offset == start + |text|
    {
      hide Shows, NulFree;
      var length := 0;
      TerminatorAt(buffer[..], start, text, offset);
      while buffer[offset + length] != 0
        invariant offset + length <= start + |text| < buffer.Length
        invariant buffer[offset + length] == 0 <==> offset + length == start + |text|
        decreases start + |text| - offset - length
      {
        length := length + 1;
        TerminatorAt(buffer[..], start, text, offset + length);
      }
      offset := offset + length;
    }

    /** Writes bytes at the offset, without moving it. */
    method Put(bytes: seq<byte>)
      requires Valid() && offset + |bytes| <= buffer.Length
      modifies buffer
      ensures buffer[..] == old(buffer[..offset]) + bytes + old(buffer[offset + |bytes|..])
    {
      for i := 0 to |bytes|
        invariant forall k :: 0 <= k < buffer.Length ==>
          buffer[k] == if offset <= k < offset + i then bytes[k - offset] else old(buffer[k])
      {
        buffer[offset + i] := bytes[i];
      }
    }
  }
}
