/** Models of the Go standard-library behaviour the codecs are built on:
    the `byte` type, `int64` in two's complement written little-endian by
    `encoding/binary`, and the two ways of filling a freshly made byte slice
    from a `bytes.Reader` (`Read` and `io.ReadFull`).

    A reader is modelled by the bytes it has not yet consumed. */
module GoStd {

  /** A Go pointer or optional value: `nil`, or a value. */
  datatype Option<+T> = None | Some(value: T)

  /** A Go `byte`. */
  type Byte = b: int | 0 <= b < 256

  const MinInt64: int := -0x8000_0000_0000_0000
  const MaxInt64: int := 0x7FFF_FFFF_FFFF_FFFF
  const TwoTo64: int := 0x1_0000_0000_0000_0000

  predicate IsInt64(n: int) {
    MinInt64 <= n <= MaxInt64
  }

  function Min(a: int, b: int): int {
    if a <= b then a else b
  }

  function Pow256(k: nat): (r: nat)
    ensures r >= 1
  {
    if k == 0 then 1 else 256 * Pow256(k - 1)
  }

  /** The `k` low-order base-256 digits of `u`, least significant first. */
  function UintLE(u: nat, k: nat): (r: seq<Byte>)
    ensures |r| == k
  {
    if k == 0 then [] else [u % 256] + UintLE(u / 256, k - 1)
  }

  /** The unsigned value of a little-endian digit string. */
  function FromLE(s: seq<Byte>): (r: nat)
    ensures r < Pow256(|s|)
  {
    if s == [] then 0 else s[0] + 256 * FromLE(s[1..])
  }

  lemma {:induction false} FromLEUintLE(u: nat, k: nat)
    requires u < Pow256(k)
    ensures FromLE(UintLE(u, k)) == u
  {
    if k > 0 {
      assert UintLE(u, k)[1..] == UintLE(u / 256, k - 1);
      FromLEUintLE(u / 256, k - 1);
    }
  }

  lemma {:induction false} UintLEFromLE(s: seq<Byte>)
    ensures UintLE(FromLE(s), |s|) == s
  {
    if s != [] {
      UintLEFromLE(s[1..]);
      assert FromLE(s) % 256 == s[0];
      assert FromLE(s) / 256 == FromLE(s[1..]);
    }
  }

  /** The largest `k`-digit number is written as `k` bytes of `0xFF`. */
  lemma {:induction false} AllOnesLE(k: nat)
    ensures UintLE(Pow256(k) - 1, k) == seq(k, i => 255)
  {
    if k > 0 {
      var p := Pow256(k - 1);
      var u := Pow256(k) - 1;
      assert u == 256 * (p - 1) + 255;
      assert u % 256 == 255;
      assert u / 256 == p - 1;
      AllOnesLE(k - 1);
      assert UintLE(u, k) == [255] + UintLE(p - 1, k - 1);
    }
  }

  lemma Pow256Of8()
    ensures Pow256(8) == TwoTo64
  {
  }

  /** `binary.Write(w, binary.LittleEndian, int64(n))`: the eight bytes of
      `n` in two's complement, least significant first. */
  function Int64LE(n: int): (r: seq<Byte>)
    requires IsInt64(n)
    ensures |r| == 8
  {
    UintLE(if n < 0 then n + TwoTo64 else n, 8)
  }

  /** The `int64` whose little-endian two's-complement bytes are `s`. */
  function Int64FromLE(s: seq<Byte>): (r: int)
    requires |s| == 8
    ensures IsInt64(r)
  {
    Pow256Of8();
    var u := FromLE(s);
    if u <= MaxInt64 then u else u - TwoTo64
  }

  /** Decoding undoes encoding for every `int64`. */
  lemma Int64RoundTrip(n: int)
    requires IsInt64(n)
    ensures Int64FromLE(Int64LE(n)) == n
  {
    Pow256Of8();
    FromLEUintLE(if n < 0 then n + TwoTo64 else n, 8);
  }

  /** Encoding undoes decoding: every eight bytes are the encoding of exactly
      one `int64`. */
  lemma Int64FromLERoundTrip(s: seq<Byte>)
    requires |s| == 8
    ensures Int64LE(Int64FromLE(s)) == s
  {
    UintLEFromLE(s);
  }

  /** `-1` is written as eight `0xFF` bytes, and those are the only bytes that
      read back as `-1`. */
  lemma MinusOneIsAllOnes(s: seq<Byte>)
    requires |s| == 8
    ensures Int64LE(-1) == [255, 255, 255, 255, 255, 255, 255, 255]
    ensures Int64FromLE(s) == -1 <==> s == [255, 255, 255, 255, 255, 255, 255, 255]
  {
    var ones: seq<Byte> := [255, 255, 255, 255, 255, 255, 255, 255];
    Pow256Of8();
    AllOnesLE(8);
    assert UintLE(TwoTo64 - 1, 8) == ones;
    if Int64FromLE(s) == -1 {
      Int64FromLERoundTrip(s);
    } else if s == ones {
      Int64RoundTrip(-1);
    }
  }

  /** The errors and panics a read can end in. */
  datatype Error =
    | EOF            // io.EOF
    | UnexpectedEOF  // io.ErrUnexpectedEOF
    | MakeSlicePanic // the runtime panic of `make([]byte, n)` with n < 0

  /** A value read, and the bytes left unread after it. */
  datatype Read<T> = Read(value: T, rest: seq<Byte>)

  datatype Result<T> = Ok(value: T) | Fail(error: Error)

  /** `binary.Read(r, binary.LittleEndian, &n)` for an `int64 n`, which reads
      with `io.ReadFull`: EOF when nothing is left, ErrUnexpectedEOF when
      fewer than eight bytes are. */
  function ReadInt64(input: seq<Byte>): (r: Result<Read<int>>)
    ensures r.Ok? <==> |input| >= 8
    ensures r.Ok? ==> IsInt64(r.value.value) && r.value.rest == input[8..]
    ensures r.Fail? ==> (r.error == EOF <==> input == []) && r.error != MakeSlicePanic
  {
    if input == [] then Fail(EOF)
    else if |input| < 8 then Fail(UnexpectedEOF)
    else Ok(Read(Int64FromLE(input[..8]), input[8..]))
  }

  lemma ReadInt64Written(n: int, rest: seq<Byte>)
    requires IsInt64(n)
    ensures ReadInt64(Int64LE(n) + rest) == Ok(Read(n, rest))
  {
    var s := Int64LE(n) + rest;
    assert s[..8] == Int64LE(n);
    assert s[8..] == rest;
    Int64RoundTrip(n);
  }

  function Zeros(n: nat): (r: seq<Byte>)
    ensures |r| == n
    ensures forall i :: 0 <= i < n ==> r[i] == 0
  {
    seq(n, i => 0)
  }

  /** `buf := make([]byte, n)` then `r.Read(buf)` on a `bytes.Reader`: a
      negative `n` panics; a reader at its end returns EOF even when `buf` is
      empty; otherwise `min(n, remaining)` bytes are copied, the rest of
      `buf` stays zero, and no error is reported. */
  function MakeAndRead(input: seq<Byte>, n: int): (r: Result<Read<seq<Byte>>>)
    ensures n < 0 ==> r == Fail(MakeSlicePanic)
    ensures n >= 0 ==> (r.Fail? <==> input == []) && (r.Fail? ==> r.error == EOF)
    ensures r.Ok? ==>
      var k := Min(n, |input|);
      && |r.value.value| == n
      && r.value.value[..k] == input[..k]
      && r.value.value[k..] == Zeros(n - k)
      && r.value.rest == input[k..]
  {
    if n < 0 then Fail(MakeSlicePanic)
    else if input == [] then Fail(EOF)
    else
      var k := Min(n, |input|);
      Ok(Read(input[..k] + Zeros(n - k), input[k..]))
  }

  /** `buf := make([]byte, n)` then `io.ReadFull(r, buf)`: an empty `buf`
      reads nothing and succeeds; a short input is ErrUnexpectedEOF (EOF when
      nothing at all was left). */
  function MakeAndReadFull(input: seq<Byte>, n: int): (r: Result<Read<seq<Byte>>>)
    ensures n < 0 ==> r == Fail(MakeSlicePanic)
    ensures n >= 0 ==> (r.Ok? <==> n <= |input|)
    ensures r.Ok? ==> r.value.value + r.value.rest == input && |r.value.value| == n
  {
    if n < 0 then Fail(MakeSlicePanic)
    else if n == 0 then Ok(Read([], input))
    else if input == [] then Fail(EOF)
    else if |input| < n then Fail(UnexpectedEOF)
    else Ok(Read(input[..n], input[n..]))
  }

  /** How a freshly made slice is filled: by one `bytes.Reader.Read`, or by
      `io.ReadFull`. */
  datatype ReadMode = SingleRead | FullRead

  function MakeAndReadWith(mode: ReadMode, input: seq<Byte>, n: int): Result<Read<seq<Byte>>> {
    match mode
    case SingleRead => MakeAndRead(input, n)
    case FullRead => MakeAndReadFull(input, n)
  }

  function Reverse<T>(s: seq<T>): (r: seq<T>)
    ensures |r| == |s|
    ensures forall i :: 0 <= i < |s| ==> r[i] == s[|s| - 1 - i]
  {
    if s == [] then [] else Reverse(s[1..]) + [s[0]]
  }
}
