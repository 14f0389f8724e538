/** The stream cipher of CRC4EncryptableBuffer over an abstract key stream. */
module KeyStream {

  type Bytes = seq<bv8>

  /** Byte number n of the key stream that a 16-byte digest starts. */
  type Stream = (Bytes, nat) -> bv8

  /** Encrypting and decrypting are the same: XOR with the key stream from position `at` on. */
  function Crypt(stream: Stream, key: Bytes, at: nat, data: Bytes): (r: Bytes)
    ensures |r| == |data|
  {
    seq(|data|, i requires 0 <= i < |data| => data[i] ^ stream(key, at + i))
  }

  lemma XorTwice(a: bv8, b: bv8)
    ensures (a ^ b) ^ b == a
  {
  }

  lemma CryptTwice(stream: Stream, key: Bytes, at: nat, data: Bytes)
    ensures Crypt(stream, key, at, Crypt(stream, key, at, data)) == data
  {
    forall i | 0 <= i < |data|
      ensures Crypt(stream, key, at, Crypt(stream, key, at, data))[i] == data[i]
    {
      XorTwice(data[i], stream(key, at + i));
    }
  }

  lemma CryptAt(stream: Stream, key: Bytes, at: nat, data: Bytes, i: nat)
    requires i < |data|
    ensures Crypt(stream, key, at, data)[i] == data[i] ^ stream(key, at + i)
  {
  }

  /** Any piece of the cipher text decrypts by itself, at its own position. */
  lemma CryptOfSlice(stream: Stream, key: Bytes, at: nat, data: Bytes, lo: nat, hi: nat)
    requires lo <= hi <= |data|
    ensures Crypt(stream, key, at + lo, data[lo..hi]) == Crypt(stream, key, at, data)[lo..hi]
  {
  }

  lemma CryptConcat(stream: Stream, key: Bytes, at: nat, a: Bytes, b: Bytes)
    ensures Crypt(stream, key, at, a + b) == Crypt(stream, key, at, a) + Crypt(stream, key, at + |a|, b)
  {
    CryptOfSlice(stream, key, at, a + b, 0, |a|);
    CryptOfSlice(stream, key, at, a + b, |a|, |a + b|);
    assert (a + b)[0..|a|] == a && (a + b)[|a|..|a + b|] == b;
    hide Crypt;
    var whole := Crypt(stream, key, at, a + b);
    assert whole == whole[0..|a|] + whole[|a|..|a + b|];
  }

  /** The bytes with `piece` written over them from `at` on. */
  function Spliced(b: Bytes, at: nat, piece: Bytes): (r: Bytes)
    requires at + |piece| <= |b|
    ensures |r| == |b|
  {
    b[..at] + piece + b[at + |piece|..]
  }

  lemma SplicedWhole(b: Bytes, piece: Bytes)
    requires |piece| == |b|
    ensures Spliced(b, 0, piece) == piece
  {
  }

  lemma SplicedAt(b: Bytes, at: nat, piece: Bytes, now: Bytes)
    requires at + |piece| <= |b| == |now|
    requires forall j :: 0 <= j < |b| ==> now[j] == if at <= j < at + |piece| then piece[j - at] else b[j]
    ensures now == Spliced(b, at, piece)
  {
  }

  class CryptBuffer {
    const stream: Stream
    var hasKey: bool
    var key: Bytes
    var used: nat

    constructor (stream: Stream)
      ensures this.stream == stream && !hasKey && key == [] && used == 0
    {
      this.stream := stream;
      hasKey, key, used := false, [], 0;
    }

    method FullReset()
      modifies this
      ensures !hasKey
    {
      hasKey := false;
    }

    /** Starts the key stream of a digest; discarding its first bytes is skipped for datagrams. */
    method SetKey(digest: Bytes)
      requires !hasKey
      modifies this
      ensures hasKey && key == digest && used == 0
    {
      hasKey, key, used := true, digest, 0;
    }

    /** Passing no input: the key stream moves on. */
    method Skip(n: nat)
      requires hasKey
      modifies `used
      ensures used == old(used) + n
    {
      used := used + n;
    }

    /** Encrypts or decrypts n bytes, possibly where they stand. */
    method RC4Crypt(src: array<bv8>, from: nat, dst: array<bv8>, to: nat, n: nat)
      requires hasKey && from + n <= src.Length && to + n <= dst.Length
      requires src == dst ==> from == to
      modifies `used, dst
      ensures used == old(used) + n
      ensures dst[..] == Spliced(old(dst[..]), to, Crypt(stream, key, old(used), old(src[from..from + n])))
    {
      ghost var was, input := dst[..], src[from..from + n];
      ghost var at, output := used, Crypt(stream, key, used, input);
      hide Spliced, Crypt;
      var i := 0;
      while i < n
        invariant 0 <= i <= n && used == at + i
        invariant forall j :: 0 <= j < dst.Length ==> dst[j] == if to <= j < to + i then output[j - to] else was[j]
        invariant forall j :: i <= j < n ==> src[from + j] == input[j]
      {
        CryptAt(stream, key, at, input, i);
        dst[to + i] := src[from + i] ^ stream(key, used);
        used := used + 1;
        i := i + 1;
      }
      SplicedAt(was, to, output, dst[..]);
    }
  }
}
