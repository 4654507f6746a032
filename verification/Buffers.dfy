/**
 Buffers that are written through an index that moves on.
 */
module Buffers {
  import opened Words

  function Splice(bytes: seq<byte>, at: nat, data: seq<byte>): (r: seq<byte>)
    requires at + |data| <= |bytes|
    ensures |r| == |bytes|
  {
    bytes[..at] + data + bytes[at + |data|..]
  }

  lemma SpliceAt(bytes: seq<byte>, at: nat, data: seq<byte>, i: nat)
    requires at + |data| <= |bytes| && i < |bytes|
    ensures Splice(bytes, at, data)[i] == if at <= i < at + |data| then data[i - at] else bytes[i]
  {
  }

  lemma SpliceNone(d: seq<byte>, at: nat)
    requires at <= |d|
    ensures Splice(d, at, []) == d
  {
  }

  lemma SpliceNext(d: seq<byte>, at: nat, data: seq<byte>, more: byte)
    requires at + |data| < |d|
    ensures Splice(d, at, data)[at + |data| := more] == Splice(d, at, data + [more])
  {
  }

  lemma SpliceAgain(d: seq<byte>, at: nat, first: seq<byte>, second: seq<byte>)
    requires at + |first| + |second| <= |d|
    ensures Splice(Splice(d, at, first), at + |first|, second) == Splice(d, at, first + second)
  {
  }

  /** Bytes have been written from index `at` up to index `next`, and nothing else. */
  ghost predicate Written(was: seq<byte>, now: seq<byte>, at: nat, next: nat, data: seq<byte>) {
    && next == at + |data| <= |was|
    && now == Splice(was, at, data)
  }

  lemma WrittenTwice(was: seq<byte>, between: seq<byte>, now: seq<byte>, at: nat, mid: nat, next: nat,
                      first: seq<byte>, second: seq<byte>)
    requires Written(was, between, at, mid, first) && Written(between, now, mid, next, second)
    ensures Written(was, now, at, next, first + second)
  {
    SpliceAgain(was, at, first, second);
  }

  lemma WrittenNothing(was: seq<byte>, at: nat)
    requires at <= |was|
    ensures Written(was, was, at, at, [])
  {
  }

  lemma WrittenByte(was: seq<byte>, now: seq<byte>, at: nat, next: nat, data: seq<byte>, more: byte)
    requires Written(was, now, at, next, data) && next < |was|
    ensures Written(was, now[next := more], at, next + 1, data + [more])
  {
  }

  method Memcpy(dst: array<byte>, at: nat, src: array<byte>, from: nat, n: nat)
    requires dst != src && at + n <= dst.Length && from + n <= src.Length
    modifies dst
    ensures Written(old(dst[..]), dst[..], at, at + n, src[from..from + n])
  {
    hide Written, Splice;
    ghost var was := dst[..];
    WrittenNothing(was, at);
    assert src[from..from] == [];
    var i := 0;
    while i < n
      invariant 0 <= i <= n
      invariant Written(was, dst[..], at, at + i, src[from..from + i])
    {
      WrittenByte(was, dst[..], at, at + i, src[from..from + i], src[from + i]);
      assert src[from..from + i] + [src[from + i]] == src[from..from + i + 1];
      dst[at + i] := src[from + i];
      i := i + 1;
    }
  }
}
