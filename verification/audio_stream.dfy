/**
 * `AudioStream` of server/AudioStream.ts: a readable stream that loops one
 * audio buffer forever. Only the circular buffer is modelled; downloading
 * an MP3 into the buffer (`setMP3`) is not part of this model.
 */
module AudioStream {
  import opened Common

  /** Length of the silent buffer (`Buffer.alloc(44100, 0)`). */
  const SilenceLength: nat := 44100

  datatype AudioStream = AudioStream(buffer: seq<byte>, offset: nat)

  function Silence(): (s: seq<byte>)
    ensures |s| == SilenceLength
    ensures forall i :: 0 <= i < |s| ==> s[i] == 0
  {
    seq(SilenceLength, _ => 0)
  }

  /** `new AudioStream(buffer?)`: the given buffer (even an empty one) or silence, read from the start. */
  function New(buffer: Option<seq<byte>>): (a: AudioStream)
    ensures a.offset == 0
    ensures buffer.Some? ==> a.buffer == buffer.value
    ensures buffer.None? ==> |a.buffer| == SilenceLength && forall i :: 0 <= i < |a.buffer| ==> a.buffer[i] == 0
  {
    AudioStream(buffer.GetOr(Silence()), 0)
  }

  /** `setSilence()`: the buffer becomes silence; the read position is kept. */
  function SetSilence(a: AudioStream): (a': AudioStream)
    ensures |a'.buffer| == SilenceLength && forall i :: 0 <= i < |a'.buffer| ==> a'.buffer[i] == 0
    ensures a'.offset == a.offset
  {
    a.(buffer := Silence())
  }

  /** `buf.subarray(start, end)` for non-negative bounds: both are clamped to the length. */
  function Subarray(buf: seq<byte>, start: nat, end: nat): (r: seq<byte>)
    ensures start < |buf| && start <= end ==> r == buf[start..Min(end, |buf|)]
    ensures |buf| <= start ==> r == []
  {
    var s := Min(start, |buf|);
    var e := Min(end, |buf|);
    if s <= e then buf[s..e] else []
  }

  lemma ModOfSum(x: nat, k: nat, n: nat)
    requires n > 0 && x < n && x + k < n
    ensures (x + k) % n == x + k
  {
  }

  /** Two numbers congruent modulo `n` stay congruent after adding the same amount. */
  lemma ModCongruentShift(x: nat, y: nat, s: nat, n: nat)
    requires n > 0 && x % n == y % n
    ensures (x + s) % n == (y + s) % n
  {
    var qx, qy := x / n, y / n;
    assert x == qx * n + x % n;
    assert y == qy * n + y % n;
    var r := (x % n + s) % n;
    var q := (x % n + s) / n;
    assert x % n + s == q * n + r;
    assert x + s == (qx + q) * n + r;
    assert y + s == (qy + q) * n + r;
    ModUnique(x + s, qx + q, r, n);
    ModUnique(y + s, qy + q, r, n);
  }

  /** The remainder of a division is unique. */
  lemma ModUnique(a: nat, q: int, r: int, n: nat)
    requires n > 0 && 0 <= r < n && a == q * n + r
    ensures a % n == r
  {
    var q', r' := a / n, a % n;
    assert a == q' * n + r';
    assert (q - q') * n == r' - r by {
      assert (q - q') * n == q * n - q' * n;
    }
    if q > q' {
      AtLeastOnce(q - q', n);
    } else if q < q' {
      AtLeastOnce(q' - q, n);
    }
  }

  lemma {:induction false} AtLeastOnce(d: int, n: nat)
    requires d >= 1
    ensures d * n >= n
    decreases d
  {
    if d > 1 {
      AtLeastOnce(d - 1, n);
      assert d * n == (d - 1) * n + n;
    }
  }

  lemma ModIdempotent(x: nat, n: nat)
    requires n > 0
    ensures (x % n) % n == x % n
  {
    ModSmall(x % n, n);
  }

  lemma ModSmall(x: nat, n: nat)
    requires x < n
    ensures x % n == x
  {
    ModUnique(x, 0, x, n);
  }

  /** Byte `i` of `chunk` is the buffer byte `i` places after `start`, wrapping around. */
  ghost predicate Cyclic(buf: seq<byte>, start: nat, chunk: seq<byte>)
    requires |buf| > 0
  {
    forall i :: 0 <= i < |chunk| ==> chunk[i] == buf[(start + i) % |buf|]
  }

  /** Appending the bytes that follow the current position keeps the chunk cyclic. */
  lemma AppendCyclic(buf: seq<byte>, start: nat, chunk: seq<byte>, off: nat, sub: seq<byte>)
    requires |buf| > 0 && off < |buf|
    requires off == (start + |chunk|) % |buf|
    requires Cyclic(buf, start, chunk)
    requires off + |sub| <= |buf| && sub == buf[off..off + |sub|]
    ensures Cyclic(buf, start, chunk + sub)
  {
    var len := |buf|;
    var base := start + |chunk|;
    ModIdempotent(base, len);
    assert off % len == base % len;
    forall i | 0 <= i < |chunk + sub|
      ensures (chunk + sub)[i] == buf[(start + i) % len]
    {
      if i >= |chunk| {
        var k := i - |chunk|;
        assert (chunk + sub)[i] == sub[k] == buf[off + k];
        ModOfSum(off, k, len);
        ModCongruentShift(off, base, k, len);
        assert start + i == base + k;
      } else {
        assert (chunk + sub)[i] == chunk[i];
      }
    }
  }

  /**
   * `_read(size)`: keep appending `buffer.subarray(offset, offset + size)`
   * and advancing `offset` modulo the buffer length until at least `size`
   * bytes are collected, then push them. With an empty buffer and a positive
   * size the source never leaves its loop, so that case is excluded.
   */
  method Read(a: AudioStream, size: nat) returns (a': AudioStream, chunk: seq<byte>)
    requires |a.buffer| > 0 || size == 0
    ensures a'.buffer == a.buffer
    ensures size == 0 ==> chunk == [] && a' == a
    ensures size > 0 ==> size <= |chunk| < 2 * size
    ensures forall i :: 0 <= i < |chunk| ==> chunk[i] == a.buffer[(a.offset + i) % |a.buffer|]
    ensures size > 0 ==> a'.offset == (a.offset + |chunk|) % |a.buffer| && a'.offset < |a.buffer|
    ensures size > 0 && a.offset + size <= |a.buffer| ==> |chunk| == size
  {
    chunk := [];
    if size == 0 {
      return a, chunk;
    }
    var buf := a.buffer;
    var len := |buf|;
    var off: nat := a.offset;
    while |chunk| < size
      invariant |chunk| < 2 * size
      invariant Cyclic(buf, a.offset, chunk)
      invariant off % len == (a.offset + |chunk|) % len
      invariant off < len || (off == a.offset && |chunk| == 0)
      invariant a.offset + size <= len ==> |chunk| == 0 || |chunk| == size
      decreases size - |chunk|, if off < len then 0 else 1
    {
      var sub := Subarray(buf, off, off + size);
      assert |sub| <= size;
      if off < len {
        if |chunk| == 0 && a.offset + size <= len {
          ModSmall(off, len);
          ModSmall(a.offset, len);
          assert off == a.offset;
          assert |sub| == size;
        }
        assert sub == buf[off..off + |sub|];
        ModSmall(off, len);
        AppendCyclic(buf, a.offset, chunk, off, sub);
        ModCongruentShift(off, a.offset + |chunk|, |sub|, len);
      } else {
        assert sub == [];
        ModIdempotent(off, len);
      }
      var off': nat := (off + |sub|) % len;
      ModIdempotent(off + |sub|, len);
      chunk := chunk + sub;
      off := off';
    }
    ModSmall(off, len);
    a' := a.(offset := off);
  }
}
