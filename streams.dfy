/**
 * Byte streams: the in-memory and temporary files the adapters read and write
 * block by block, and the remote file objects an SFTP session opens for reading.
 */
module Streams {

  type Byte = bv8

  function Min(a: nat, b: nat): nat { if a <= b then a else b }

  class ByteStream {
    var content: seq<Byte>
    var pos: nat
    var closed: bool

    ghost predicate Valid()
      reads this
    {
      pos <= |content|
    }

    /** A stream over the given bytes, positioned at its start. */
    constructor (bytes: seq<Byte>)
      ensures Valid() && content == bytes && pos == 0 && !closed
    {
      content, pos, closed := bytes, 0, false;
    }

    /** read(n): the next at most n bytes; the empty block signals the end of the stream. */
    method Read(n: nat) returns (block: seq<Byte>)
      requires Valid() && !closed
      modifies this
      ensures Valid() && content == old(content) && !closed
      ensures block == content[old(pos)..Min(old(pos) + n, |content|)]
      ensures pos == old(pos) + |block|
    {
      block := content[pos..Min(pos + n, |content|)];
      pos := pos + |block|;
    }

    /** read(): everything from the current position to the end. */
    method ReadRest() returns (rest: seq<Byte>)
      requires Valid() && !closed
      modifies this
      ensures Valid() && content == old(content) && !closed
      ensures rest == content[old(pos)..] && pos == |content|
    {
      rest := content[pos..];
      pos := |content|;
    }

    /** write(block): overwrite at the current position, extending the stream as needed. */
    method Write(block: seq<Byte>)
      requires Valid() && !closed
      modifies this
      ensures Valid() && !closed && pos == old(pos) + |block|
      ensures content == old(content)[..old(pos)] + block
                         + (if old(pos) + |block| < |old(content)| then old(content)[old(pos) + |block|..] else [])
    {
      var tail := if pos + |block| < |content| then content[pos + |block|..] else [];
      content := content[..pos] + block + tail;
      pos := pos + |block|;
    }

    /** seek(offset) within the written content. */
    method Seek(offset: nat)
      requires Valid() && offset <= |content|
      modifies this
      ensures Valid() && content == old(content) && closed == old(closed) && pos == offset
    {
      pos := offset;
    }

    method Close()
      modifies this
      ensures closed && content == old(content) && pos == old(pos)
    {
      closed := true;
    }
  }

  /** Appending the next slice of s to a prefix of s gives the longer prefix. */
  lemma PrefixJoin(s: seq<Byte>, a: nat, b: nat)
    requires a <= b <= |s|
    ensures s[..a] + s[a..b] == s[..b]
  {
  }
}
