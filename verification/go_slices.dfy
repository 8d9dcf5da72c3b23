/** Byte slices and the two Go built-ins the resolver uses on them:
    `make([]byte, n)` and `copy(dst, src)`. Slices are modelled as immutable
    sequences; a built-in that writes through a slice returns the updated
    sequence instead. */
module GoSlices {

  /** One byte, Go's `byte` (an alias of `uint8`). */
  newtype byte = b: int | 0 <= b < 256

  function Min(a: nat, b: nat): nat {
    if a <= b then a else b
  }

  /** Go's `[]byte(s)` for an ASCII string, where each character is one
      byte (UTF-8 encodes ASCII as itself). */
  function FromString(s: string): (r: seq<byte>)
    requires forall i :: 0 <= i < |s| ==> s[i] as int < 128
    ensures |r| == |s|
    ensures forall i :: 0 <= i < |s| ==> r[i] as int == s[i] as int
  {
    seq(|s|, i requires 0 <= i < |s| => s[i] as int as byte)
  }

  /** `make([]byte, n)`: a slice of length `n` holding the zero byte. */
  function Make(n: nat): (r: seq<byte>)
    ensures |r| == n
    ensures forall i :: 0 <= i < n ==> r[i] == 0
  {
    seq(n, _ => 0)
  }

  /** `copy(dst, src)`: overwrites the first min(len(dst), len(src)) bytes of
      `dst` with the leading bytes of `src` and leaves the rest of `dst` as it
      was; the slice never grows. The element count Go also returns is not
      used by the resolver and is not modelled. */
  function Copy(dst: seq<byte>, src: seq<byte>): (r: seq<byte>)
    ensures |r| == |dst|
    ensures r[..Min(|dst|, |src|)] == src[..Min(|dst|, |src|)]
    ensures r[Min(|dst|, |src|)..] == dst[Min(|dst|, |src|)..]
  {
    if |dst| == 0 || |src| == 0 then dst
    else
      var rest := Copy(dst[1..], src[1..]);
      var r := [src[0]] + rest;
      assert r[1..] == rest;
      r
  }

  /** `copy(dst[off:], src)`: the sub-slice shares `dst`'s backing array, so
      the write lands in `dst` at offset `off`. Go panics when `off` exceeds
      `len(dst)`, hence the precondition. */
  function CopyAt(dst: seq<byte>, off: nat, src: seq<byte>): (r: seq<byte>)
    requires off <= |dst|
    ensures |r| == |dst|
    ensures r[..off] == dst[..off]
    ensures r[off..off + Min(|dst| - off, |src|)] == src[..Min(|dst| - off, |src|)]
    ensures r[off + Min(|dst| - off, |src|)..] == dst[off + Min(|dst| - off, |src|)..]
  {
    var written := Copy(dst[off..], src);
    var r := dst[..off] + written;
    assert r[..off] == dst[..off];
    assert r[off..] == written;
    r
  }
}
