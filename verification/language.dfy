/** Languages as BCP 47 tags with a normalised tag string and a display
    name (internal/language/language.go).

    Tag parsing and naming come from golang.org/x/text and are not modelled:
    they are the function-valued fields of a `TextLib`. The package-level
    `namer` variable that `ParseTag` reads and `InitLangs` sets is passed in
    and handed back explicitly. */
module Language {
  import opened GoStd
  import opened LengthPrefixed

  /** `language.Parse`'s pair of results: the tag it produced (Go assigns it
      even on failure) and whether the error was nil. */
  datatype Parsed<T> = Parsed(tag: T, ok: bool)

  /** `namer.Name`: our name for a language. */
  type Namer<!T> = T -> seq<Byte>

  datatype TextLib<!T> = TextLib(
    parse: seq<Byte> -> Parsed<T>,    // language.Parse
    str: T -> seq<Byte>,               // Tag.String
    selfName: T -> seq<Byte>,          // display.Self.Name
    languages: T -> Option<Namer<T>>,  // display.Languages, nil when unsupported
    english: T)                        // language.English

  datatype Language<T> = Language(tag: T, tagStr: seq<Byte>, displayStr: seq<Byte>)

  /** `" ("` and `")"` */
  const Open: seq<Byte> := [32, 40]
  const Close: seq<Byte> := [41]

  /** The name `namer` gives `tag`, empty when there is no namer. */
  function NameOf<T>(namer: Option<Namer<T>>, tag: T): seq<Byte> {
    match namer
    case None => []
    case Some(name) => name(tag)
  }

  /** `ParseTag`: the tag, its string, and a display string that shows the
      language's own name, preceded by ours when we have a different one. */
  function ParseTag<T>(lib: TextLib<T>, namer: Option<Namer<T>>, tag: T): (l: Language<T>)
    ensures l.tag == tag && l.tagStr == lib.str(tag)
    ensures var name := NameOf(namer, tag);
      var selfName := lib.selfName(tag);
      && (l.displayStr == selfName <==> name == [] || name == selfName)
      && |name| <= |l.displayStr| && l.displayStr[..|name|] == name
      && (name != [] && name != selfName ==> l.displayStr == name + Open + selfName + Close)
  {
    var name := NameOf(namer, tag);
    var selfName := lib.selfName(tag);
    var display :=
      if name == [] then selfName
      else if name == selfName then name
      else name + Open + selfName + Close;
    Language(tag, lib.str(tag), display)
  }

  /** `Parse`: `ParseTag` of a parsed string, nil when parsing fails. */
  function Parse<T>(lib: TextLib<T>, namer: Option<Namer<T>>, s: seq<Byte>): (r: Option<Language<T>>)
    ensures r.Some? <==> lib.parse(s).ok
    ensures r.Some? ==> r.value == ParseTag(lib, namer, lib.parse(s).tag)
  {
    var p := lib.parse(s);
    if p.ok then Some(ParseTag(lib, namer, p.tag)) else None
  }

  /** The namer `InitLangs` installs: the one for the first tag's language,
      falling back to English when there is no first tag or no names in its
      language. */
  function ChooseNamer<T>(lib: TextLib<T>, tags: seq<T>): Option<Namer<T>> {
    var first := if |tags| != 0 then lib.languages(tags[0]) else None;
    if first.Some? then first else lib.languages(lib.english)
  }

  /** `InitLangs`: parse every tag string, then name each tag with the newly
      installed namer. Any unparsable string fails the whole call with no
      languages, and leaves the namer reset to nil. */
  method InitLangs<T>(lib: TextLib<T>, tagStrs: seq<seq<Byte>>)
    returns (langs: Option<seq<Language<T>>>, namer: Option<Namer<T>>)
    ensures langs.None? <==> exists i :: 0 <= i < |tagStrs| && !lib.parse(tagStrs[i]).ok
    ensures langs.None? ==> namer.None?
    ensures langs.Some? ==>
      && namer == ChooseNamer(lib, seq(|tagStrs|, i requires 0 <= i < |tagStrs| => lib.parse(tagStrs[i]).tag))
      && |langs.value| == |tagStrs|
      && forall i :: 0 <= i < |tagStrs| ==>
           langs.value[i] == ParseTag(lib, namer, lib.parse(tagStrs[i]).tag)
  {
    namer := None;
    var tags: seq<T> := [];
    for i := 0 to |tagStrs|
      invariant |tags| == i
      invariant forall j :: 0 <= j < i ==> lib.parse(tagStrs[j]).ok && tags[j] == lib.parse(tagStrs[j]).tag
    {
      var p := lib.parse(tagStrs[i]);
      if !p.ok {
        return None, None;
      }
      tags := tags + [p.tag];
    }
    assert tags == seq(|tagStrs|, i requires 0 <= i < |tagStrs| => lib.parse(tagStrs[i]).tag);
    if |tags| != 0 {
      namer := lib.languages(tags[0]);
    }
    if namer.None? {
      namer := lib.languages(lib.english);
    }
    var result: seq<Language<T>> := [];
    for i := 0 to |tags|
      invariant |result| == i
      invariant forall j :: 0 <= j < i ==> result[j] == ParseTag(lib, namer, tags[j])
    {
      result := result + [ParseTag(lib, namer, tags[i])];
    }
    langs := Some(result);
  }

  /** `Languages.Tags` */
  method Tags<T>(l: seq<Language<T>>) returns (tags: seq<T>)
    ensures |tags| == |l|
    ensures forall i :: 0 <= i < |l| ==> tags[i] == l[i].tag
  {
    tags := [];
    for i := 0 to |l|
      invariant |tags| == i
      invariant forall j :: 0 <= j < i ==> tags[j] == l[j].tag
    {
      tags := tags + [l[i].tag];
    }
  }

  /** `Languages.TagStrs` */
  method TagStrs<T>(l: seq<Language<T>>) returns (tagStrs: seq<seq<Byte>>)
    ensures |tagStrs| == |l|
    ensures forall i :: 0 <= i < |l| ==> tagStrs[i] == l[i].tagStr
  {
    tagStrs := [];
    for i := 0 to |l|
      invariant |tagStrs| == i
      invariant forall j :: 0 <= j < i ==> tagStrs[j] == l[j].tagStr
    {
      tagStrs := tagStrs + [l[i].tagStr];
    }
  }

  /** `Languages.DisplayStrs` */
  method DisplayStrs<T>(l: seq<Language<T>>) returns (displayStrs: seq<seq<Byte>>)
    ensures |displayStrs| == |l|
    ensures forall i :: 0 <= i < |l| ==> displayStrs[i] == l[i].displayStr
  {
    displayStrs := [];
    for i := 0 to |l|
      invariant |displayStrs| == i
      invariant forall j :: 0 <= j < i ==> displayStrs[j] == l[j].displayStr
    {
      displayStrs := displayStrs + [l[i].displayStr];
    }
  }

  // ---------------------------------------------------------------------------
  // Text and binary forms

  /** `MarshalText`: the tag string's bytes. */
  function MarshalText<T>(l: Language<T>): seq<Byte> {
    l.tagStr
  }

  /** `UnmarshalText`: the receiver is replaced by the parsed language, or
      left as it was when parsing fails. */
  function UnmarshalText<T>(lib: TextLib<T>, namer: Option<Namer<T>>, receiver: Language<T>, text: seq<Byte>)
    : (r: (Language<T>, bool))
    ensures r.1 <==> lib.parse(text).ok
    ensures !r.1 ==> r.0 == receiver
    ensures r.1 ==> r.0 == ParseTag(lib, namer, lib.parse(text).tag)
    ensures r.1 ==> MarshalText(r.0) == lib.str(lib.parse(text).tag)
  {
    match Parse(lib, namer, text)
    case None => (receiver, false)
    case Some(l) => (l, true)
  }

  /** The text form of a parsed language reads back as the same language,
      when the tag library parses a tag's own string back to that tag. */
  lemma TextRoundTrip<T>(lib: TextLib<T>, namer: Option<Namer<T>>, receiver: Language<T>, tag: T)
    requires lib.parse(lib.str(tag)) == Parsed(tag, true)
    ensures UnmarshalText(lib, namer, receiver, MarshalText(ParseTag(lib, namer, tag)))
         == (ParseTag(lib, namer, tag), true)
  {
  }

  predicate Encodable<T>(lib: TextLib<T>, l: Language<T>) {
    |lib.str(l.tag)| <= MaxInt64 && |l.tagStr| <= MaxInt64 && |l.displayStr| <= MaxInt64
  }

  /** `Language.MarshalBinary`: the tag's string, `TagStr` and `DisplayStr`,
      each length-prefixed. */
  function MarshalBinary<T>(lib: TextLib<T>, l: Language<T>): (r: seq<Byte>)
    requires Encodable(lib, l)
    ensures |r| == 24 + |lib.str(l.tag)| + |l.tagStr| + |l.displayStr|
    ensures var a, b := |lib.str(l.tag)|, |l.tagStr|;
      && ReadInt64(r).Ok? && ReadInt64(r).value.value == a
      && r[8..8 + a] == lib.str(l.tag)
      && ReadInt64(r[8 + a..]).Ok? && ReadInt64(r[8 + a..]).value.value == b
      && r[16 + a..16 + a + b] == l.tagStr
      && ReadInt64(r[16 + a + b..]).Ok? && ReadInt64(r[16 + a + b..]).value.value == |l.displayStr|
      && r[24 + a + b..] == l.displayStr
  {
    WriteThreeLayout(lib.str(l.tag), l.tagStr, l.displayStr);
    WriteString(lib.str(l.tag)) + WriteString(l.tagStr) + WriteString(l.displayStr)
  }

  /** Where each of three written strings and its prefix sit. */
  lemma WriteThreeLayout(a: seq<Byte>, b: seq<Byte>, c: seq<Byte>)
    requires |a| <= MaxInt64 && |b| <= MaxInt64 && |c| <= MaxInt64
    ensures var r := WriteString(a) + WriteString(b) + WriteString(c);
      && ReadInt64(r).Ok? && ReadInt64(r).value.value == |a|
      && r[8..8 + |a|] == a
      && ReadInt64(r[8 + |a|..]).Ok? && ReadInt64(r[8 + |a|..]).value.value == |b|
      && r[16 + |a|..16 + |a| + |b|] == b
      && ReadInt64(r[16 + |a| + |b|..]).Ok? && ReadInt64(r[16 + |a| + |b|..]).value.value == |c|
      && r[24 + |a| + |b|..] == c
  {
    var r := WriteString(a) + WriteString(b) + WriteString(c);
    assert r == Int64LE(|a|) + (a + (WriteString(b) + WriteString(c)));
    ReadInt64Written(|a|, a + (WriteString(b) + WriteString(c)));
    assert r[8..8 + |a|] == a;
    WriteTwoLayout(WriteString(a), b, c);
  }

  datatype LangError = ReadError(error: Error) | TagParseError

  /** The receiver as `UnmarshalBinary` left it, and its error. */
  datatype LangDecoded<T> = LangDecoded(lang: Language<T>, err: Option<LangError>)

  /** `Language.UnmarshalBinary` with either way of filling slices: each
      field is assigned as soon as it is read, the tag even when it does not
      parse. */
  function UnmarshalWith<T>(mode: ReadMode, lib: TextLib<T>, receiver: Language<T>, data: seq<Byte>): (d: LangDecoded<T>)
    ensures |data| < 8 ==> d == LangDecoded(receiver, Some(ReadError(if data == [] then EOF else UnexpectedEOF)))
    ensures d.err == Some(TagParseError) ==> d.lang == receiver.(tag := d.lang.tag)
    ensures d.err.None? ==> |data| >= 24 + (if mode == SingleRead then 1 else 0)
  {
    match ReadStringWith(mode, data)
    case Fail(e) => LangDecoded(receiver, Some(ReadError(e)))
    case Ok(Read(tagText, rest)) =>
      var parsed := lib.parse(tagText);
      var withTag := receiver.(tag := parsed.tag);
      if !parsed.ok then LangDecoded(withTag, Some(TagParseError))
      else
        match ReadStringWith(mode, rest)
        case Fail(e) => LangDecoded(withTag, Some(ReadError(e)))
        case Ok(Read(tagStr, rest')) =>
          var withTagStr := withTag.(tagStr := tagStr);
          match ReadStringWith(mode, rest')
          case Fail(e) => LangDecoded(withTagStr, Some(ReadError(e)))
          case Ok(Read(displayStr, _)) => LangDecoded(withTagStr.(displayStr := displayStr), None)
  }

  /** `Language.UnmarshalBinary` as written. */
  function UnmarshalBinary<T>(lib: TextLib<T>, receiver: Language<T>, data: seq<Byte>): (d: LangDecoded<T>)
    ensures d.err.None? ==> |data| >= 25
  {
    UnmarshalWith(SingleRead, lib, receiver, data)
  }

  /** `Language.UnmarshalBinary` with `io.ReadFull` for every slice. */
  function UnmarshalBinaryFixed<T>(lib: TextLib<T>, receiver: Language<T>, data: seq<Byte>): (d: LangDecoded<T>)
    ensures d.err.None? ==> |data| >= 24
  {
    UnmarshalWith(FullRead, lib, receiver, data)
  }

  lemma RoundTripWith<T>(mode: ReadMode, lib: TextLib<T>, receiver: Language<T>, l: Language<T>, rest: seq<Byte>)
    requires Encodable(lib, l)
    ensures var d := UnmarshalWith(mode, lib, receiver, MarshalBinary(lib, l) + rest);
      var parsed := lib.parse(lib.str(l.tag));
      if !parsed.ok then
        d == LangDecoded(receiver.(tag := parsed.tag), Some(TagParseError))
      else if mode == SingleRead && l.displayStr == [] && rest == [] then
        d == LangDecoded(Language(parsed.tag, l.tagStr, receiver.displayStr), Some(ReadError(EOF)))
      else
        d == LangDecoded(Language(parsed.tag, l.tagStr, l.displayStr), None)
  {
    var displayPart := WriteString(l.displayStr) + rest;
    var tagStrPart := WriteString(l.tagStr) + displayPart;
    assert MarshalBinary(lib, l) + rest == WriteString(lib.str(l.tag)) + tagStrPart;
    ReadWrittenWith(mode, lib.str(l.tag), tagStrPart);
    ReadWrittenWith(mode, l.tagStr, displayPart);
    if mode == SingleRead && l.displayStr == [] && rest == [] {
      ReadWriteString(l.displayStr, rest);
    } else {
      ReadWrittenWith(mode, l.displayStr, rest);
    }
  }

  /** Decoding what was encoded, as written, succeeds exactly when the tag's
      string parses and `DisplayStr` is non-empty (or bytes follow it); it
      then restores `TagStr` and `DisplayStr` and sets the parsed tag. */
  lemma RoundTrip<T>(lib: TextLib<T>, receiver: Language<T>, l: Language<T>, rest: seq<Byte>)
    requires Encodable(lib, l)
    ensures var d := UnmarshalBinary(lib, receiver, MarshalBinary(lib, l) + rest);
      && (d.err.None? <==> lib.parse(lib.str(l.tag)).ok && (l.displayStr != [] || rest != []))
      && (d.err.None? ==>
            d.lang == Language(lib.parse(lib.str(l.tag)).tag, l.tagStr, l.displayStr))
  {
    RoundTripWith(SingleRead, lib, receiver, l, rest);
  }

  /** As written, a language with an empty `DisplayStr` does not decode:
      the last read finds the reader at its end and reports EOF. */
  lemma EmptyDisplayFails<T>(lib: TextLib<T>, receiver: Language<T>, l: Language<T>)
    requires Encodable(lib, l)
    requires lib.parse(lib.str(l.tag)).ok
    requires l.displayStr == []
    ensures UnmarshalBinary(lib, receiver, MarshalBinary(lib, l)).err == Some(ReadError(EOF))
  {
    RoundTripWith(SingleRead, lib, receiver, l, []);
    assert MarshalBinary(lib, l) + [] == MarshalBinary(lib, l);
  }

  /** A first field that does not parse is an error; the receiver gets the
      tag `language.Parse` returned, and nothing else. */
  lemma TagParseFailure<T>(lib: TextLib<T>, receiver: Language<T>, tagText: seq<Byte>, rest: seq<Byte>)
    requires |tagText| <= MaxInt64
    requires tagText != [] || rest != []
    requires !lib.parse(tagText).ok
    ensures UnmarshalBinary(lib, receiver, WriteString(tagText) + rest)
         == LangDecoded(receiver.(tag := lib.parse(tagText).tag), Some(TagParseError))
  {
    ReadWriteString(tagText, rest);
  }

  /** With full reads a language whose tag string parses always decodes
      back, even with an empty `DisplayStr`. */
  lemma FixedRoundTrip<T>(lib: TextLib<T>, receiver: Language<T>, l: Language<T>)
    requires Encodable(lib, l)
    requires lib.parse(lib.str(l.tag)).ok
    ensures UnmarshalBinaryFixed(lib, receiver, MarshalBinary(lib, l))
         == LangDecoded(Language(lib.parse(lib.str(l.tag)).tag, l.tagStr, l.displayStr), None)
  {
    RoundTripWith(FullRead, lib, receiver, l, []);
    assert MarshalBinary(lib, l) + [] == MarshalBinary(lib, l);
  }
}
