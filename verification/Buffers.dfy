/** Copying into byte buffers, and vectors of buffers (src/io_vec.c). */
module Buffers {
  import opened Bytes

  /** Copies `s` to offset `at`, byte by byte, and returns the offset after it. */
  method Append(buffer: array<byte>, at: nat, s: seq<byte>) returns (next: nat)
    requires at + |s| <= buffer.Length
    modifies buffer
    ensures next == at + |s|
    ensures buffer[..next] == old(buffer[..at]) + s
    ensures forall j :: next <= j < buffer.Length ==> buffer[j] == old(buffer[j])
  {
    next := at;
    for i := 0 to |s|
      invariant next == at + i
      invariant buffer[..next] == old(buffer[..at]) + s[..i]
      invariant forall j :: next <= j < buffer.Length ==> buffer[j] == old(buffer[j])
    {
      buffer[next] := s[i];
      next := next + 1;
    }
  }

  /** The length of all buffers together. */
  method TotalLength(bufs: seq<seq<byte>>) returns (total: nat)
    ensures total == |Concat(bufs)|
  {
    total := 0;
    for i := 0 to |bufs|
      invariant total == |Concat(bufs[..i])|
    {
      assert bufs[..i + 1][..i] == bufs[..i];
      total := total + |bufs[i]|;
    }
    assert bufs[..|bufs|] == bufs;
  }

  /** Copies all buffers one after the other to offset `at`. */
  method Coalesce(bufs: seq<seq<byte>>, packet: array<byte>, at: nat) returns (end: nat)
    requires at + |Concat(bufs)| <= packet.Length
    modifies packet
    ensures end == at + |Concat(bufs)| && packet[..end] == old(packet[..at]) + Concat(bufs)
  {
    end := at;
    for i := 0 to |bufs|
      invariant end == at + |Concat(bufs[..i])| <= packet.Length
      invariant packet[..end] == old(packet[..at]) + Concat(bufs[..i])
    {
      assert bufs[..i + 1][..i] == bufs[..i];
      ConcatPrefix(bufs, i + 1);
      end := Append(packet, end, bufs[i]);
    }
    assert bufs[..|bufs|] == bufs;
  }

  lemma ConcatPrefix(bufs: seq<seq<byte>>, i: nat)
    requires i <= |bufs|
    ensures |Concat(bufs[..i])| <= |Concat(bufs)|
  {
    assert bufs == bufs[..i] + bufs[i..];
    ConcatAppend(bufs[..i], bufs[i..]);
  }
}
