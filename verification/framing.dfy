/** Length-prefixed byte strings, the framing shared by the attachment
    request codec and the language codec: an `int64` byte count written
    little-endian, followed by the bytes themselves. */
module LengthPrefixed {
  import opened GoStd

  /** `writeString`: the length of `s` as an `int64`, then `s`. */
  function WriteString(s: seq<Byte>): (r: seq<Byte>)
    requires |s| <= MaxInt64
    ensures |r| == 8 + |s|
    ensures r[8..] == s
    ensures ReadInt64(r).Ok? && ReadInt64(r).value.value == |s|
  {
    ReadInt64Written(|s|, s);
    Int64LE(|s|) + s
  }

  /** `readString`: an `int64` length, then a slice of that length made and
      filled by one `bytes.Reader.Read`. */
  function ReadString(input: seq<Byte>): (r: Result<Read<seq<Byte>>>)
    ensures |input| < 8 ==> r.Fail? && r.error != MakeSlicePanic
    ensures r.Ok? ==> |input| > 8 && |r.value.rest| <= |input| - 8
  {
    match ReadInt64(input)
    case Fail(e) => Fail(e)
    case Ok(Read(n, rest)) => MakeAndRead(rest, n)
  }

  /** A written string reads back with exactly the bytes after it left
      unread, unless both it and those bytes are empty: then the reader sits
      at its end and the zero-length read reports EOF. */
  lemma ReadWriteString(s: seq<Byte>, rest: seq<Byte>)
    requires |s| <= MaxInt64
    ensures ReadString(WriteString(s) + rest)
         == (if s == [] && rest == [] then Fail(EOF) else Ok(Read(s, rest)))
  {
    assert WriteString(s) + rest == Int64LE(|s|) + (s + rest);
    ReadInt64Written(|s|, s + rest);
    assert (s + rest)[..|s|] == s;
    assert (s + rest)[|s|..] == rest;
    assert s + Zeros(0) == s;
  }

  /** A length prefix larger than what is left (but with something left) is
      not an error: the remaining bytes are taken and the rest of the string
      is zero-filled. */
  lemma ReadStringZeroFills(n: int, payload: seq<Byte>)
    requires IsInt64(n)
    requires 0 < |payload| < n
    ensures ReadString(Int64LE(n) + payload) == Ok(Read(payload + Zeros(n - |payload|), []))
  {
    ReadInt64Written(n, payload);
    assert payload[..|payload|] == payload;
  }

  /** A negative length other than a sentinel reaches `make` and panics. */
  lemma ReadStringNegativeLength(n: int, rest: seq<Byte>)
    requires MinInt64 <= n < 0
    ensures ReadString(Int64LE(n) + rest) == Fail(MakeSlicePanic)
  {
    ReadInt64Written(n, rest);
  }

  /** `readString` with `io.ReadFull` in place of `bytes.Reader.Read`. */
  function ReadStringFull(input: seq<Byte>): (r: Result<Read<seq<Byte>>>)
    ensures |input| < 8 ==> r.Fail?
    ensures r.Ok? ==> |input| >= 8 && |r.value.rest| <= |input| - 8
  {
    match ReadInt64(input)
    case Fail(e) => Fail(e)
    case Ok(Read(n, rest)) => MakeAndReadFull(rest, n)
  }

  /** With full reads every written string reads back, empty or not. */
  lemma ReadFullWriteString(s: seq<Byte>, rest: seq<Byte>)
    requires |s| <= MaxInt64
    ensures ReadStringFull(WriteString(s) + rest) == Ok(Read(s, rest))
  {
    assert WriteString(s) + rest == Int64LE(|s|) + (s + rest);
    ReadInt64Written(|s|, s + rest);
    assert (s + rest)[..|s|] == s;
    assert (s + rest)[|s|..] == rest;
  }

  /** With full reads a length prefix larger than what is left is rejected. */
  lemma ReadStringFullRejectsTruncation(n: int, payload: seq<Byte>)
    requires IsInt64(n)
    requires |payload| < n
    ensures ReadStringFull(Int64LE(n) + payload).Fail?
    ensures ReadStringFull(Int64LE(n) + payload).error == (if payload == [] then EOF else UnexpectedEOF)
  {
    ReadInt64Written(n, payload);
  }

  /** `readString` with either way of filling the slice. A successful read
      takes the 8-byte prefix, and the single read needs at least one byte
      after it. */
  function ReadStringWith(mode: ReadMode, input: seq<Byte>): (r: Result<Read<seq<Byte>>>)
    ensures r.Ok? ==> |input| >= 8 + (if mode == SingleRead then 1 else 0) && |r.value.rest| <= |input| - 8
  {
    match mode
    case SingleRead => ReadString(input)
    case FullRead => ReadStringFull(input)
  }

  /** A written string reads back under either reader, except that the
      single read reports EOF for an empty string at the very end. */
  lemma ReadWrittenWith(mode: ReadMode, s: seq<Byte>, rest: seq<Byte>)
    requires |s| <= MaxInt64
    requires mode == SingleRead ==> s != [] || rest != []
    ensures ReadStringWith(mode, WriteString(s) + rest) == Ok(Read(s, rest))
  {
    if mode == SingleRead {
      ReadWriteString(s, rest);
    } else {
      ReadFullWriteString(s, rest);
    }
  }

  /** Where two written strings after `front` sit: each 8-byte prefix reads
      as its string's length, and each string follows its prefix. */
  lemma WriteTwoLayout(front: seq<Byte>, a: seq<Byte>, b: seq<Byte>)
    requires |a| <= MaxInt64 && |b| <= MaxInt64
    ensures var r := front + WriteString(a) + WriteString(b);
      var p := |front|;
      && ReadInt64(r[p..]) == Ok(Read(|a|, a + WriteString(b)))
      && r[p + 8..p + 8 + |a|] == a
      && ReadInt64(r[p + 8 + |a|..]) == Ok(Read(|b|, b))
      && r[p + 16 + |a|..] == b
  {
    var r := front + WriteString(a) + WriteString(b);
    var p := |front|;
    assert r[p..] == Int64LE(|a|) + (a + WriteString(b));
    ReadInt64Written(|a|, a + WriteString(b));
    assert r[p + 8 + |a|..] == Int64LE(|b|) + b;
    ReadInt64Written(|b|, b);
  }
}
