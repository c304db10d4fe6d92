/**
 * The flash image as a value: a sequence of bytes, and the three ways the
 * simulator changes it — filling a range with one byte value (erase, memset),
 * laying data over a range (write), and the erased-range test a normal write
 * makes before it writes.
 */
module FlashImage {

  type byte = bv8

  /** Value of an erased flash byte: every bit set. */
  const Erased: byte := 0xff

  /** n copies of the byte b. */
  function Repeat(b: byte, n: nat): (r: seq<byte>)
    ensures |r| == n
    ensures forall i :: 0 <= i < n ==> r[i] == b
  {
    seq(n, _ => b)
  }

  /** s with the n bytes starting at at replaced by b. */
  function Fill(s: seq<byte>, at: nat, n: nat, b: byte): seq<byte>
    requires at + n <= |s|
  {
    seq(|s|, i requires 0 <= i < |s| => if at <= i < at + n then b else s[i])
  }

  /** s with the bytes of d laid over it starting at at. */
  function Overlay(s: seq<byte>, at: nat, d: seq<byte>): seq<byte>
    requires at + |d| <= |s|
  {
    seq(|s|, i requires 0 <= i < |s| => if at <= i < at + |d| then d[i - at] else s[i])
  }

  /** Every byte of s in [at, at + n) is erased. */
  predicate AllErased(s: seq<byte>, at: nat, n: nat)
    requires at + n <= |s|
  {
    forall i :: at <= i < at + n ==> s[i] == Erased
  }

  /** Reading back a filled range gives the fill byte; nothing outside the range changes. */
  lemma FillEffect(s: seq<byte>, at: nat, n: nat, b: byte)
    requires at + n <= |s|
    ensures |Fill(s, at, n, b)| == |s|
    ensures Fill(s, at, n, b)[at..at + n] == Repeat(b, n)
    ensures Fill(s, at, n, b)[..at] == s[..at]
    ensures Fill(s, at, n, b)[at + n..] == s[at + n..]
  {
  }

  /** Reading back an overlaid range gives the data; nothing outside the range changes. */
  lemma OverlayEffect(s: seq<byte>, at: nat, d: seq<byte>)
    requires at + |d| <= |s|
    ensures |Overlay(s, at, d)| == |s|
    ensures Overlay(s, at, d)[at..at + |d|] == d
    ensures Overlay(s, at, d)[..at] == s[..at]
    ensures Overlay(s, at, d)[at + |d|..] == s[at + |d|..]
  {
  }

  /** Filling is overlaying a run of one byte. */
  lemma FillIsOverlay(s: seq<byte>, at: nat, n: nat, b: byte)
    requires at + n <= |s|
    ensures Fill(s, at, n, b) == Overlay(s, at, Repeat(b, n))
  {
  }

  /** Filling the same range twice gives what filling it once gives. */
  lemma FillIdempotent(s: seq<byte>, at: nat, n: nat, b: byte)
    requires at + n <= |s|
    ensures Fill(Fill(s, at, n, b), at, n, b) == Fill(s, at, n, b)
  {
  }

  /** Filling [at, at + n) and then the k bytes after it fills [at, at + n + k). */
  lemma FillExtend(s: seq<byte>, at: nat, n: nat, k: nat, b: byte)
    requires at + n + k <= |s|
    ensures Overlay(Fill(s, at, n, b), at + n, Repeat(b, k)) == Fill(s, at, n + k, b)
  {
  }

  /** Filling the whole image with b gives an image of b only. */
  lemma FillWhole(s: seq<byte>, b: byte)
    ensures Fill(s, 0, |s|, b) == Repeat(b, |s|)
  {
  }

  /** After an erase of a range, every sub-range of it passes the erased-range test. */
  lemma ErasedAfterFill(s: seq<byte>, at: nat, n: nat, off: nat, len: nat)
    requires at + n <= |s| && off + len <= n
    ensures AllErased(Fill(s, at, n, Erased), at + off, len)
  {
  }

  /**
   * Once data holding a programmed (non-erased) byte is written over a range, that range
   * no longer passes the erased-range test, so a second normal write there is refused.
   */
  lemma WrittenNotErased(s: seq<byte>, at: nat, d: seq<byte>, k: nat)
    requires at + |d| <= |s|
    requires k < |d| && d[k] != Erased
    ensures !AllErased(Overlay(s, at, d), at, |d|)
  {
    assert Overlay(s, at, d)[at + k] == d[k];
  }

  /** An erased-range test of a range holds exactly when it holds of its two halves. */
  lemma AllErasedSplit(s: seq<byte>, at: nat, n: nat, k: nat)
    requires at + n + k <= |s|
    ensures AllErased(s, at, n + k) <==> AllErased(s, at, n) && AllErased(s, at + n, k)
  {
  }
}
