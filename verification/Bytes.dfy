/** File contents, positioned writes and the C-string cut, shared by every other module. */
module Bytes {

  datatype Option<+T> = None | Some(value: T)

  type Byte = bv8
  type Bytes = seq<Byte>
  type Path = string

  const NUL: Byte := 0

  // The range of a C++ `int`
  const INT_MIN: int := -0x8000_0000
  const INT_MAX: int := 0x7FFF_FFFF

  /** A run of `n` zero bytes: what POSIX `pwrite` leaves in a hole. */
  function Zeros(n: nat): (z: Bytes)
    ensures |z| == n && forall i | 0 <= i < n :: z[i] == NUL
  {
    seq(n, _ => NUL)
  }

  /** `pwrite(fd, data, |data|, offset)` as a function of the file. Writing nothing changes nothing. */
  function PWrite(file: Bytes, offset: nat, data: Bytes): (r: Bytes)
    ensures data == [] ==> r == file
    ensures data != [] ==> |r| == if offset + |data| < |file| then |file| else offset + |data|
    ensures data != [] ==> r[offset..offset + |data|] == data
    ensures forall i | 0 <= i < |r| && !(offset <= i < offset + |data|) ::
              r[i] == if i < |file| then file[i] else NUL
  {
    if data == [] then file
    else
      var padded := if |file| < offset then file + Zeros(offset - |file|) else file;
      padded[..offset] + data + (if offset + |data| < |padded| then padded[offset + |data|..] else [])
  }

  predicate ZeroFree(b: Bytes) {
    NUL !in b
  }

  /** What `fputs(buf.c_str(), fp)` stores: the bytes before the first zero byte. */
  function CutAtNul(b: Bytes): (r: Bytes)
    ensures r <= b && ZeroFree(r)
    ensures |r| < |b| ==> b[|r|] == NUL
  {
    if b == [] || b[0] == NUL then [] else [b[0]] + CutAtNul(b[1..])
  }

  /** The cut loses nothing exactly when there is no zero byte. */
  lemma CutIsIdentityIffZeroFree(b: Bytes)
    ensures CutAtNul(b) == b <==> ZeroFree(b)
  {
    var r := CutAtNul(b);
    if |r| < |b| {
      assert b[|r|] == NUL;
    } else {
      assert r == b[..|b|] == b;
    }
  }

  /** `top` written over the start of `bottom`. */
  function Overlay(top: Bytes, bottom: Bytes): (r: Bytes)
    ensures top <= r
    ensures |bottom| <= |top| ==> r == top
  {
    if |bottom| <= |top| then top else top + bottom[|top|..]
  }
}
