/** A TranscoderInputStream over the chunks that have arrived. */
module ChunkedInputs {
  import opened Framing
  import opened Sequences

  class ChunkedInput {
    var chunks: seq<seq<byte>>
    var finished: bool
    var current: seq<byte>
    var position: nat

    ghost predicate Valid()
      reads this
    {
      position <= |current|
    }

    function Unread(): seq<byte>
      requires Valid()
      reads this
    {
      current[position..] + Concat(chunks)
    }

    constructor ()
      ensures Valid() && Unread() == [] && !finished
    {
      chunks, finished, current, position := [], false, [], 0;
    }

    method AddChunk(chunk: seq<byte>)
      requires Valid() && !finished
      modifies this`chunks
      ensures Valid() && Unread() == old(Unread()) + chunk
    {
      ConcatAppend(chunks, chunk);
      Assoc(current[position..], Concat(chunks), chunk);
      chunks := chunks + [chunk];
    }

    method Finish()
      requires Valid()
      modifies this`finished
      ensures Valid() && finished && Unread() == old(Unread())
    {
      finished := true;
    }

    /** The next bytes; false at the end of the input. Without an end, there may be none for now. */
    method Next() returns (ok: bool, data: seq<byte>)
      requires Valid()
      modifies this`chunks, this`current, this`position
      ensures Valid() && old(Unread()) == data + Unread()
      ensures |data| <= position && current[position - |data|..position] == data
      ensures old(Unread()) != [] ==> ok && (data == [] ==> |chunks| < |old(chunks)|)
      ensures old(Unread()) == [] && finished && old(chunks) == [] ==> !ok
      ensures |chunks| <= |old(chunks)| && (ok && finished ==> data != [] || |chunks| < |old(chunks)|)
      ensures !ok ==> finished && Unread() == []
    {
      if position < |current| {
        data := current[position..];
        position := |current|;
        ok := true;
      } else if chunks != [] {
        current := chunks[0];
        chunks := chunks[1..];
        data := current;
        position := |current|;
        ok := true;
      } else {
        data := [];
        ok := !finished;
      }
    }

    method BackUp(count: nat)
      requires Valid() && count <= position
      modifies this`position
      ensures Valid() && Unread() == old(current[position - count..position] + Unread())
    {
      Assoc(current[position - count..position], current[position..], Concat(chunks));
      assert current[position - count..position] + current[position..] == current[position - count..];
      position := position - count;
    }

    method BytesAvailable() returns (total: nat)
      requires Valid()
      ensures total == |Unread()|
    {
      total := |current| - position;
      for i := 0 to |chunks|
        invariant total + |Concat(chunks[i..])| == |Unread()|
      {
        assert chunks[i..][1..] == chunks[i + 1..];
        total := total + |chunks[i]|;
      }
    }
  }

  /** Some of all bytes have been copied, some were given and not copied, and the stream has the rest. */
  ghost predicate Reading(stream: ChunkedInput, all: seq<byte>, copied: seq<byte>, data: seq<byte>)
    reads stream
  {
    && stream.Valid() && |data| <= stream.position
    && stream.current[stream.position - |data|..stream.position] == data
    && all == copied + (data + stream.Unread())
  }

  /** Copies that many bytes into the buffer, if they come before the end of the input. */
  method ReadStream(stream: ChunkedInput, buffer: array<byte>, size: nat) returns (ok: bool)
    requires stream.Valid() && size <= buffer.Length && (size <= |stream.Unread()| || stream.finished)
    modifies stream`chunks, stream`current, stream`position, buffer
    ensures stream.Valid() && ok == (size <= |old(stream.Unread())|)
    ensures ok ==> buffer[..size] == old(stream.Unread())[..size] && stream.Unread() == old(stream.Unread())[size..]
    ensures !ok ==> stream.Unread() == []
  {
    ghost var all := stream.Unread();
    var left: nat, data := size, [];
    Nothing(all);
    assert buffer[..0] == [];
    while left > 0
      invariant left <= size && Reading(stream, all, buffer[..size - left], data)
      invariant left > 0 ==> data == []
      decreases left, |stream.chunks|
    {
      var copied;
      ok, copied, data := ReadChunk(stream, buffer, size - left, left, all);
      if !ok {
        return;
      }
      left := left - copied;
    }
    Halves(buffer[..size], data + stream.Unread());
    stream.BackUp(|data|);
    return true;
  }

  /** Copies what comes next, but not more than is left to copy. */
  method ReadChunk(stream: ChunkedInput, buffer: array<byte>, at: nat, left: nat, ghost all: seq<byte>)
    returns (ok: bool, copied: nat, data: seq<byte>)
    requires at + left <= buffer.Length && left > 0 && Reading(stream, all, buffer[..at], [])
    requires at + left <= |all| || stream.finished
    modifies stream`chunks, stream`current, stream`position, buffer
    ensures copied <= left && Reading(stream, all, buffer[..at + copied], data)
    ensures copied < left ==> data == []
    ensures ok ==> copied > 0 || |stream.chunks| < |old(stream.chunks)|
    ensures !ok ==> |all| == at && stream.Unread() == []
  {
    Nothing(stream.Unread());
    ghost var done := buffer[..at];
    ok, data := stream.Next();
    copied := if left < |data| then left else |data|;
    Move(done, data, copied, stream.Unread());
    Copy(buffer, at, data[..copied]);
    assert buffer[..at + copied] == done + data[..copied];
    data := data[copied..];
  }

  lemma Halves(a: seq<byte>, b: seq<byte>)
    ensures (a + b)[..|a|] == a && (a + b)[|a|..] == b
  {
  }

  lemma Move(done: seq<byte>, data: seq<byte>, copied: nat, rest: seq<byte>)
    requires copied <= |data|
    ensures done + (data + rest) == (done + data[..copied]) + (data[copied..] + rest)
  {
  }

  method Copy(buffer: array<byte>, at: nat, data: seq<byte>)
    requires at + |data| <= buffer.Length
    modifies buffer
    ensures buffer[..] == old(buffer[..at]) + data + old(buffer[at + |data|..])
  {
    forall i | 0 <= i < |data| {
      buffer[at + i] := data[i];
    }
  }
}
