/** The binary encoding of a media-upload request
    (internal/api/model/attachment.go), which carries an
    `AttachmentRequest` across a process boundary:

      int64 fileLen   -1 when there is no file, else the byte length of
                      the file sub-record that follows
      [file sub-record: length-prefixed filename, then the length-prefixed
                        `key: value\n` dump of its MIME header]
      length-prefixed description
      length-prefixed focus

    Decoding assigns the receiver's fields one at a time, so a decode that
    fails part-way leaves the fields assigned before the failure. */
module ApiModel {
  import opened GoStd
  import opened MimeHeader
  import opened LengthPrefixed

  /** The fields of a `multipart.FileHeader` the model needs. `Size` is used
      by the upload validator but is not part of the encoding. */
  datatype FileHeader = FileHeader(filename: seq<Byte>, header: Header, size: int)

  datatype AttachmentRequest = AttachmentRequest(
    file: Option<FileHeader>,
    description: seq<Byte>,
    focus: seq<Byte>)

  /** The API's view of a stored attachment; only the fields the upload
      handler touches. */
  datatype Attachment = Attachment(id: string, url: Option<string>)

  /** The file length that stands for "no file". */
  const NoFile: int := -1

  /** Go slice lengths are `int`s, so every length written fits an `int64`. */
  predicate FileEncodable(fh: FileHeader) {
    16 + |fh.filename| + |HeaderToString(fh.header)| <= MaxInt64
  }

  predicate Encodable(ar: AttachmentRequest) {
    && (ar.file.Some? ==> FileEncodable(ar.file.value))
    && |ar.description| <= MaxInt64
    && |ar.focus| <= MaxInt64
  }

  /** `MarshalBinaryMultipart`: the filename and the header dump, each
      length-prefixed. */
  function MarshalBinaryMultipart(fh: FileHeader): (r: seq<Byte>)
    requires FileEncodable(fh)
    ensures |r| == 16 + |fh.filename| + |HeaderToString(fh.header)|
  {
    WriteString(fh.filename) + WriteString(HeaderToString(fh.header))
  }

  /** `UnmarshalBinaryMultipart` (with either way of filling slices). The
      returned header has `Size` zero: the encoding does not carry it. */
  function UnmarshalMultipartWith(mode: ReadMode, data: seq<Byte>): (r: Result<FileHeader>)
    ensures r.Ok? ==> r.value.size == 0
    ensures r.Ok? ==> |data| >= 16 + (if mode == SingleRead then 1 else 0)
  {
    match ReadStringWith(mode, data)
    case Fail(e) => Fail(e)
    case Ok(Read(filename, rest)) =>
      match ReadStringWith(mode, rest)
      case Fail(e) => Fail(e)
      case Ok(Read(dump, _)) => Ok(FileHeader(filename, StringToHeader(dump), 0))
  }

  function UnmarshalBinaryMultipart(data: seq<Byte>): (r: Result<FileHeader>)
    ensures r.Ok? ==> r.value.size == 0 && |data| >= 17
  {
    UnmarshalMultipartWith(SingleRead, data)
  }

  /** The length of the file sub-record, zero when there is no file. */
  function FileDataLength(ar: AttachmentRequest): nat {
    match ar.file
    case None => 0
    case Some(fh) => 16 + |fh.filename| + |HeaderToString(fh.header)|
  }

  /** The first part of the encoding: the file length, then the file
      sub-record if there is one. */
  function FileSection(ar: AttachmentRequest): (r: seq<Byte>)
    requires Encodable(ar)
    ensures |r| == 8 + FileDataLength(ar)
  {
    match ar.file
    case None => Int64LE(NoFile)
    case Some(fh) =>
      var data := MarshalBinaryMultipart(fh);
      Int64LE(|data|) + data
  }

  /** `AttachmentRequest.MarshalBinary`. Writing to a `bytes.Buffer` cannot
      fail, so neither can encoding. */
  function MarshalBinary(ar: AttachmentRequest): (r: seq<Byte>)
    requires Encodable(ar)
    ensures |r| == 24 + FileDataLength(ar) + |ar.description| + |ar.focus|
    ensures ar.file.None? ==> r[..8] == [255, 255, 255, 255, 255, 255, 255, 255]
  {
    var r := FileSection(ar) + WriteString(ar.description) + WriteString(ar.focus);
    assert r[..8] == FileSection(ar)[..8];
    MinusOneIsAllOnes(r[..8]);
    r
  }

  /** The file sub-record: the filename after a prefix reading as its
      length, then the header dump after a prefix reading as its length. */
  lemma MultipartLayout(fh: FileHeader)
    requires FileEncodable(fh)
    ensures var r := MarshalBinaryMultipart(fh);
      var dump := HeaderToString(fh.header);
      && ReadInt64(r) == Ok(Read(|fh.filename|, fh.filename + WriteString(dump)))
      && r[8..8 + |fh.filename|] == fh.filename
      && ReadInt64(r[8 + |fh.filename|..]) == Ok(Read(|dump|, dump))
      && r[16 + |fh.filename|..] == dump
  {
    WriteTwoLayout([], fh.filename, HeaderToString(fh.header));
    assert [] + WriteString(fh.filename) + WriteString(HeaderToString(fh.header)) == MarshalBinaryMultipart(fh);
  }

  /** The whole encoding: the file section of `8 + FileDataLength(ar)`
      bytes, then the description and the focus, each after a prefix reading
      as its length. */
  lemma MarshalBinaryLayout(ar: AttachmentRequest)
    requires Encodable(ar)
    ensures var r := MarshalBinary(ar);
      var f := 8 + FileDataLength(ar);
      && r[..f] == FileSection(ar)
      && ReadInt64(r[f..]) == Ok(Read(|ar.description|, ar.description + WriteString(ar.focus)))
      && r[f + 8..f + 8 + |ar.description|] == ar.description
      && ReadInt64(r[f + 8 + |ar.description|..]) == Ok(Read(|ar.focus|, ar.focus))
      && r[f + 16 + |ar.description|..] == ar.focus
  {
    var fs := FileSection(ar);
    var r := fs + WriteString(ar.description) + WriteString(ar.focus);
    assert MarshalBinary(ar) == r;
    assert |fs| == 8 + FileDataLength(ar);
    assert r[..|fs|] == fs;
    WriteTwoLayout(fs, ar.description, ar.focus);
  }

  /** The first eight bytes hold `-1` exactly when there is no file, and the
      length of the file sub-record otherwise. */
  lemma FileLengthWritten(ar: AttachmentRequest)
    requires Encodable(ar)
    ensures ReadInt64(MarshalBinary(ar)).Ok?
    ensures ReadInt64(MarshalBinary(ar)).value.value == (if ar.file.None? then NoFile else FileDataLength(ar))
  {
    var tail := MarshalBinary(ar)[8..];
    assert MarshalBinary(ar) == FileSection(ar)[..8] + tail;
    match ar.file {
      case None =>
        assert FileSection(ar)[..8] == Int64LE(NoFile);
        ReadInt64Written(NoFile, tail);
      case Some(fh) =>
        var data := MarshalBinaryMultipart(fh);
        assert FileSection(ar)[..8] == Int64LE(|data|);
        ReadInt64Written(|data|, tail);
    }
  }

  /** The outcome of `UnmarshalBinary`: the receiver as the decode left it,
      and the error it returned (or the panic it raised). */
  datatype Decoded = Decoded(request: AttachmentRequest, err: Option<Error>)

  /** The description then the focus, each assigned to the receiver as soon
      as it is read. */
  function ReadText(mode: ReadMode, receiver: AttachmentRequest, input: seq<Byte>): (d: Decoded)
    ensures d.request.file == receiver.file
    ensures d.err.None? ==> |input| >= 16 + (if mode == SingleRead then 1 else 0)
  {
    match ReadStringWith(mode, input)
    case Fail(e) => Decoded(receiver, Some(e))
    case Ok(Read(description, rest)) =>
      var withDescription := receiver.(description := description);
      match ReadStringWith(mode, rest)
      case Fail(e) => Decoded(withDescription, Some(e))
      case Ok(Read(focus, _)) => Decoded(withDescription.(focus := focus), None)
  }

  /** `AttachmentRequest.UnmarshalBinary` with either way of filling slices. */
  function UnmarshalWith(mode: ReadMode, receiver: AttachmentRequest, data: seq<Byte>): (d: Decoded)
    ensures |data| < 8 ==> d == Decoded(receiver, Some(if data == [] then EOF else UnexpectedEOF))
    ensures d.err.None? ==> |data| >= 24 + (if mode == SingleRead then 1 else 0)
    ensures d.err.None? ==> (d.request.file.None? <==> Int64FromLE(data[..8]) == NoFile)
  {
    match ReadInt64(data)
    case Fail(e) => Decoded(receiver, Some(e))
    case Ok(Read(n, rest)) =>
      if n == NoFile then ReadText(mode, receiver.(file := None), rest)
      else
        match MakeAndReadWith(mode, rest, n)
        case Fail(e) => Decoded(receiver, Some(e))
        case Ok(Read(fileData, afterFile)) =>
          match UnmarshalMultipartWith(mode, fileData)
          case Fail(e) => Decoded(receiver, Some(e))
          case Ok(fh) => ReadText(mode, receiver.(file := Some(fh)), afterFile)
  }

  /** `AttachmentRequest.UnmarshalBinary` as written: every slice is filled
      by a single `bytes.Reader.Read`. */
  function UnmarshalBinary(receiver: AttachmentRequest, data: seq<Byte>): (d: Decoded)
    ensures d.err.None? ==> |data| >= 25
  {
    UnmarshalWith(SingleRead, receiver, data)
  }

  /** `UnmarshalBinary` with every `buf.Read(slice)` replaced by
      `io.ReadFull(buf, slice)`. */
  function UnmarshalBinaryFixed(receiver: AttachmentRequest, data: seq<Byte>): (d: Decoded)
    ensures d.err.None? ==> |data| >= 24
    ensures d.err.None? && Int64FromLE(data[..8]) >= 0 ==> Int64FromLE(data[..8]) <= |data| - 24
  {
    UnmarshalWith(FullRead, receiver, data)
  }

  // ---------------------------------------------------------------------------
  // Reading what was written

  lemma TakeWritten(mode: ReadMode, x: seq<Byte>, y: seq<Byte>)
    requires x != []
    ensures MakeAndReadWith(mode, x + y, |x|) == Ok(Read(x, y))
  {
    assert (x + y)[..|x|] == x;
    assert (x + y)[|x|..] == y;
    assert x + Zeros(0) == x;
  }

  /** What decoding the file sub-record of `fh` yields. */
  function Decodes(fh: FileHeader): FileHeader {
    FileHeader(fh.filename, StringToHeader(HeaderToString(fh.header)), 0)
  }

  lemma MultipartRoundTripWith(mode: ReadMode, fh: FileHeader)
    requires FileEncodable(fh)
    ensures UnmarshalMultipartWith(mode, MarshalBinaryMultipart(fh))
         == (if mode == SingleRead && HeaderToString(fh.header) == [] then Fail(EOF) else Ok(Decodes(fh)))
  {
    var dump := HeaderToString(fh.header);
    ReadWrittenWith(mode, fh.filename, WriteString(dump));
    if mode == SingleRead {
      ReadWriteString(dump, []);
    } else {
      ReadFullWriteString(dump, []);
    }
    assert WriteString(dump) + [] == WriteString(dump);
  }

  /** What a successful decode of `ar` assigns to the receiver. */
  function Expected(ar: AttachmentRequest): AttachmentRequest {
    AttachmentRequest(
      match ar.file case None => None case Some(fh) => Some(Decodes(fh)),
      ar.description,
      ar.focus)
  }

  lemma TextRoundTrip(mode: ReadMode, receiver: AttachmentRequest, ar: AttachmentRequest, rest: seq<Byte>)
    requires Encodable(ar)
    ensures ReadText(mode, receiver, WriteString(ar.description) + WriteString(ar.focus) + rest)
         == if mode == SingleRead && ar.focus == [] && rest == [] then
              Decoded(receiver.(description := ar.description), Some(EOF))
            else
              Decoded(receiver.(description := ar.description, focus := ar.focus), None)
  {
    var focusPart := WriteString(ar.focus) + rest;
    assert WriteString(ar.description) + WriteString(ar.focus) + rest
        == WriteString(ar.description) + focusPart;
    ReadWrittenWith(mode, ar.description, focusPart);
    if mode == SingleRead && ar.focus == [] && rest == [] {
      ReadWriteString(ar.focus, rest);
    } else {
      ReadWrittenWith(mode, ar.focus, rest);
    }
  }

  lemma FileSectionRoundTrip(mode: ReadMode, receiver: AttachmentRequest, ar: AttachmentRequest, textPart: seq<Byte>)
    requires Encodable(ar)
    requires textPart != []
    ensures UnmarshalWith(mode, receiver, FileSection(ar) + textPart)
         == if mode == SingleRead && ar.file.Some? && HeaderToString(ar.file.value.header) == [] then
              Decoded(receiver, Some(EOF))
            else
              ReadText(mode, receiver.(file := Expected(ar).file), textPart)
  {
    match ar.file {
      case None =>
        assert FileSection(ar) == Int64LE(NoFile);
        ReadInt64Written(NoFile, textPart);
      case Some(fh) =>
        var fileData := MarshalBinaryMultipart(fh);
        assert FileSection(ar) + textPart == Int64LE(|fileData|) + (fileData + textPart);
        ReadInt64Written(|fileData|, fileData + textPart);
        TakeWritten(mode, fileData, textPart);
        MultipartRoundTripWith(mode, fh);
    }
  }

  lemma RoundTripWith(mode: ReadMode, receiver: AttachmentRequest, ar: AttachmentRequest, rest: seq<Byte>)
    requires Encodable(ar)
    ensures var d := UnmarshalWith(mode, receiver, MarshalBinary(ar) + rest);
      if mode == SingleRead && ar.file.Some? && HeaderToString(ar.file.value.header) == [] then
        d == Decoded(receiver, Some(EOF))
      else if mode == SingleRead && ar.focus == [] && rest == [] then
        d == Decoded(receiver.(file := Expected(ar).file, description := ar.description), Some(EOF))
      else
        d == Decoded(Expected(ar), None)
  {
    var textPart := WriteString(ar.description) + WriteString(ar.focus) + rest;
    assert MarshalBinary(ar) + rest == FileSection(ar) + textPart;
    FileSectionRoundTrip(mode, receiver, ar, textPart);
    TextRoundTrip(mode, receiver.(file := Expected(ar).file), ar, rest);
  }

  /** Decoding what was encoded, as written: it succeeds exactly when the
      last field each reader reads is non-empty (or bytes follow it), and then
      restores file presence, filename, description and focus; `Size` comes
      back zero and the header as whatever its dump parses to. */
  lemma RoundTrip(receiver: AttachmentRequest, ar: AttachmentRequest, rest: seq<Byte>)
    requires Encodable(ar)
    ensures var d := UnmarshalBinary(receiver, MarshalBinary(ar) + rest);
      && (d.err.None? <==>
            && (ar.focus != [] || rest != [])
            && (ar.file.Some? ==> HeaderToString(ar.file.value.header) != []))
      && (d.err.None? ==>
            && d.request.description == ar.description
            && d.request.focus == ar.focus
            && d.request.file.Some? == ar.file.Some?
            && (ar.file.Some? ==>
                  && d.request.file.value.filename == ar.file.value.filename
                  && d.request.file.value.size == 0))
  {
    RoundTripWith(SingleRead, receiver, ar, rest);
  }

  /** On a successful round trip the header comes back with the same
      (key, value) pairs when it is well formed. */
  lemma RoundTripHeader(receiver: AttachmentRequest, ar: AttachmentRequest)
    requires Encodable(ar)
    requires ar.file.Some? && WellFormed(ar.file.value.header)
    requires ar.focus != [] && HeaderToString(ar.file.value.header) != []
    ensures var d := UnmarshalBinary(receiver, MarshalBinary(ar));
      && d.err.None? && d.request.file.Some?
      && multiset(Pairs(d.request.file.value.header)) == multiset(Pairs(ar.file.value.header))
  {
    RoundTripWith(SingleRead, receiver, ar, []);
    assert MarshalBinary(ar) + [] == MarshalBinary(ar);
    HeaderRoundTrip(ar.file.value.header);
  }

  /** An empty focus at the end of the input cannot be decoded: the reader is
      at its end and the zero-length read reports EOF, after the file and the
      description have already been assigned. */
  lemma EmptyFocusFails(receiver: AttachmentRequest, description: seq<Byte>)
    requires |description| <= MaxInt64
    ensures var ar := AttachmentRequest(None, description, []);
      UnmarshalBinary(receiver, MarshalBinary(ar))
        == Decoded(receiver.(file := None, description := description), Some(EOF))
  {
    var ar := AttachmentRequest(None, description, []);
    RoundTripWith(SingleRead, receiver, ar, []);
    assert MarshalBinary(ar) + [] == MarshalBinary(ar);
  }

  /** With full reads every encodable request decodes back, whatever its
      focus and header, and nothing of the receiver survives. */
  lemma FixedRoundTrip(receiver: AttachmentRequest, ar: AttachmentRequest, rest: seq<Byte>)
    requires Encodable(ar)
    ensures UnmarshalBinaryFixed(receiver, MarshalBinary(ar) + rest) == Decoded(Expected(ar), None)
  {
    RoundTripWith(FullRead, receiver, ar, rest);
  }

  // ---------------------------------------------------------------------------
  // Decoding arbitrary input

  /** Fewer than eight bytes cannot hold the file length: an error, and the
      receiver is untouched. */
  lemma ShortInput(receiver: AttachmentRequest, data: seq<Byte>)
    requires |data| < 8
    ensures UnmarshalBinary(receiver, data).err.Some?
    ensures UnmarshalBinary(receiver, data).request == receiver
  {
  }

  /** The file length decides the file field: `-1` leaves it nil whatever
      follows; a smaller negative length panics in `make`; a non-negative
      length with input left takes `min(n, remaining)` bytes, zero-filled up
      to `n`, as the file sub-record; with nothing left it is EOF. */
  lemma FileLength(receiver: AttachmentRequest, n: int, tail: seq<Byte>)
    requires IsInt64(n)
    ensures var d := UnmarshalBinary(receiver, Int64LE(n) + tail);
      && (n == NoFile ==> d.request.file == None)
      && (n < NoFile ==> d == Decoded(receiver, Some(MakeSlicePanic)))
      && (n >= 0 && tail == [] ==> d == Decoded(receiver, Some(EOF)))
      && (n == NoFile ==> d == ReadText(SingleRead, receiver.(file := None), tail))
      && (n >= 0 && tail != [] ==>
            var k := Min(n, |tail|);
            match UnmarshalBinaryMultipart(tail[..k] + Zeros(n - k))
            case Fail(e) => d == Decoded(receiver, Some(e))
            case Ok(fh) => d == ReadText(SingleRead, receiver.(file := Some(fh)), tail[k..]))
  {
    ReadInt64Written(n, tail);
  }

  /** An over-long focus length is not rejected: the bytes that are there
      are taken and the focus is padded with zero bytes. */
  lemma FocusZeroFilled(receiver: AttachmentRequest, description: seq<Byte>, n: int, payload: seq<Byte>)
    requires |description| <= MaxInt64 && IsInt64(n)
    requires 0 < |payload| < n
    ensures UnmarshalBinary(receiver, Int64LE(NoFile) + WriteString(description) + Int64LE(n) + payload)
         == Decoded(AttachmentRequest(None, description, payload + Zeros(n - |payload|)), None)
  {
    var focusPart := Int64LE(n) + payload;
    assert Int64LE(NoFile) + WriteString(description) + Int64LE(n) + payload
        == Int64LE(NoFile) + (WriteString(description) + focusPart);
    ReadInt64Written(NoFile, WriteString(description) + focusPart);
    ReadWriteString(description, focusPart);
    ReadStringZeroFills(n, payload);
  }

  /** With full reads a file length longer than the remaining input is an
      error, and the receiver is untouched. */
  lemma FixedRejectsTruncatedFile(receiver: AttachmentRequest, n: int, tail: seq<Byte>)
    requires IsInt64(n)
    requires 0 <= |tail| < n
    ensures UnmarshalBinaryFixed(receiver, Int64LE(n) + tail).err.Some?
    ensures UnmarshalBinaryFixed(receiver, Int64LE(n) + tail).request == receiver
  {
    ReadInt64Written(n, tail);
  }

  /** With full reads an over-long focus length is an error. */
  lemma FixedRejectsTruncatedFocus(receiver: AttachmentRequest, description: seq<Byte>, n: int, payload: seq<Byte>)
    requires |description| <= MaxInt64 && IsInt64(n)
    requires |payload| < n
    ensures UnmarshalBinaryFixed(receiver, Int64LE(NoFile) + WriteString(description) + Int64LE(n) + payload).err.Some?
  {
    var focusPart := Int64LE(n) + payload;
    assert Int64LE(NoFile) + WriteString(description) + Int64LE(n) + payload
        == Int64LE(NoFile) + (WriteString(description) + focusPart);
    ReadInt64Written(NoFile, WriteString(description) + focusPart);
    ReadFullWriteString(description, focusPart);
    ReadStringFullRejectsTruncation(n, payload);
  }
}
