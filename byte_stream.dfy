/** A binary file opened for reading (mode "rb"): fixed contents and a cursor. */
module ByteStream {
  import opened Bytes

  class Reader {
    const contents: seq<Byte>
    var pos: nat

    ghost predicate Valid()
      reads this
    {
      pos <= |contents|
    }

    /** A freshly opened file: the cursor sits at offset 0. */
    constructor (contents: seq<Byte>)
      ensures Valid()
      ensures this.contents == contents && pos == 0
    {
      this.contents := contents;
      pos := 0;
    }

    /**
     * `fp.read(n)`: the next `n` bytes, or all that remain when fewer do
     * (none at end of file); the cursor moves past what was returned.
     */
    method Read(n: nat) returns (chunk: seq<Byte>)
      requires Valid()
      modifies this
      ensures Valid()
      ensures |chunk| == Min(n, |contents| - old(pos))
      ensures pos == old(pos) + |chunk|
      ensures chunk == contents[old(pos)..pos]
    {
      var end := Min(pos + n, |contents|);
      chunk := contents[pos..end];
      pos := end;
    }
  }
}
