/** The MIME header of an uploaded file, flattened to text and parsed back
    (`headerToString` and `stringToHeader` in internal/api/model/attachment.go).

    A `textproto.MIMEHeader` is a Go map from key to values; it is modelled as
    the sequence of its fields in the order the map happens to be visited.
    Since that order is arbitrary, statements about a round trip compare the
    multisets of (key, value) pairs. */
module MimeHeader {
  import opened GoStd

  /** One key of a header with its values, in order. */
  datatype Field = Field(key: seq<Byte>, values: seq<seq<Byte>>)

  type Header = seq<Field>

  datatype Pair = Pair(key: seq<Byte>, value: seq<Byte>)

  const Newline: Byte := 10

  /** `": "` */
  const Separator: seq<Byte> := [58, 32]

  /** `s` contains `": "` somewhere. */
  predicate HasSeparator(s: seq<Byte>) {
    exists i :: 0 <= i < |s| - 1 && s[i] == 58 && s[i + 1] == 32
  }

  predicate NoNewline(s: seq<Byte>) {
    forall i :: 0 <= i < |s| ==> s[i] != Newline
  }

  function CountByte(s: seq<Byte>, b: Byte): (n: nat)
    ensures n <= |s|
  {
    if s == [] then 0 else (if s[0] == b then 1 else 0) + CountByte(s[1..], b)
  }

  lemma {:induction false} CountByteAppend(a: seq<Byte>, b: seq<Byte>, x: Byte)
    ensures CountByte(a + b, x) == CountByte(a, x) + CountByte(b, x)
  {
    if a == [] {
      assert a + b == b;
    } else {
      assert (a + b)[0] == a[0];
      assert (a + b)[1..] == a[1..] + b;
      CountByteAppend(a[1..], b, x);
    }
  }

  lemma {:induction false} NoNewlineCount(s: seq<Byte>)
    requires NoNewline(s)
    ensures CountByte(s, Newline) == 0
  {
    if s != [] {
      NoNewlineCount(s[1..]);
    }
  }

  // ---------------------------------------------------------------------------
  // headerToString

  /** The text of one value's line, without its newline: `key: value`. */
  function Body(p: Pair): seq<Byte> {
    p.key + Separator + p.value
  }

  /** `fmt.Sprintf("%s: %s\n", key, value)` */
  function Line(p: Pair): seq<Byte> {
    Body(p) + [Newline]
  }

  /** The lines written for one key: one per value, in order. */
  function FieldString(key: seq<Byte>, values: seq<seq<Byte>>): seq<Byte>
    decreases |values|
  {
    if values == [] then [] else Line(Pair(key, values[0])) + FieldString(key, values[1..])
  }

  /** `headerToString`: every key's lines, key after key. */
  function HeaderToString(h: Header): (r: seq<Byte>)
    ensures r == Dump(Pairs(h))
  {
    if h == [] then []
    else
      FieldStringIsDump(h[0].key, h[0].values);
      DumpAppend(FieldPairs(h[0].key, h[0].values), Pairs(h[1..]));
      FieldString(h[0].key, h[0].values) + HeaderToString(h[1..])
  }

  /** The (key, value) pairs of one field, in order. */
  function FieldPairs(key: seq<Byte>, values: seq<seq<Byte>>): (ps: seq<Pair>)
    ensures |ps| == |values|
    decreases |values|
  {
    if values == [] then [] else [Pair(key, values[0])] + FieldPairs(key, values[1..])
  }

  /** The (key, value) pairs of a header, field after field. */
  function Pairs(h: Header): seq<Pair> {
    if h == [] then [] else FieldPairs(h[0].key, h[0].values) + Pairs(h[1..])
  }

  /** The number of values over all keys. */
  function TotalValues(h: Header): nat {
    if h == [] then 0 else |h[0].values| + TotalValues(h[1..])
  }

  /** The lines of a sequence of pairs, concatenated. */
  function Dump(ps: seq<Pair>): seq<Byte> {
    if ps == [] then [] else Line(ps[0]) + Dump(ps[1..])
  }

  lemma {:induction false} DumpAppend(a: seq<Pair>, b: seq<Pair>)
    ensures Dump(a + b) == Dump(a) + Dump(b)
  {
    if a == [] {
      assert a + b == b;
    } else {
      assert (a + b)[0] == a[0];
      assert (a + b)[1..] == a[1..] + b;
      DumpAppend(a[1..], b);
    }
  }

  lemma {:induction false} FieldStringIsDump(key: seq<Byte>, values: seq<seq<Byte>>)
    ensures FieldString(key, values) == Dump(FieldPairs(key, values))
    decreases |values|
  {
    if values != [] {
      FieldStringIsDump(key, values[1..]);
    }
  }

  /** A header has one pair per value. */
  lemma {:induction false} PairsCount(h: Header)
    ensures |Pairs(h)| == TotalValues(h)
  {
    if h != [] {
      PairsCount(h[1..]);
    }
  }

  /** A pair that survives the text form: its key holds no `": "` and
      neither its key nor its value holds a newline. */
  predicate PairWellFormed(p: Pair) {
    NoNewline(p.key) && NoNewline(p.value) && !HasSeparator(p.key)
  }

  predicate WellFormed(h: Header) {
    forall p :: p in Pairs(h) ==> PairWellFormed(p)
  }

  lemma {:induction false} DumpNewlines(ps: seq<Pair>)
    requires forall p :: p in ps ==> NoNewline(p.key) && NoNewline(p.value)
    ensures CountByte(Dump(ps), Newline) == |ps|
  {
    if ps != [] {
      var p := ps[0];
      NoNewlineCount(p.key);
      NoNewlineCount(p.value);
      CountByteAppend(p.key, Separator, Newline);
      CountByteAppend(p.key + Separator, p.value, Newline);
      CountByteAppend(Body(p), [Newline], Newline);
      CountByteAppend(Line(p), Dump(ps[1..]), Newline);
      DumpNewlines(ps[1..]);
    }
  }

  /** One line per value: when no key or value holds a newline, the text has
      exactly as many newlines as the header has values. */
  lemma LineCount(h: Header)
    requires forall p :: p in Pairs(h) ==> NoNewline(p.key) && NoNewline(p.value)
    ensures CountByte(HeaderToString(h), Newline) == TotalValues(h)
  {
    PairsCount(h);
    DumpNewlines(Pairs(h));
  }

  /** The text is empty exactly when the header has no values at all. */
  lemma HeaderToStringEmpty(h: Header)
    ensures HeaderToString(h) == [] <==> TotalValues(h) == 0
  {
    PairsCount(h);
    if Pairs(h) != [] {
      assert |Dump(Pairs(h))| > 0;
    }
  }

  // ---------------------------------------------------------------------------
  // stringToHeader

  /** `strings.Split(s, "\n")`: the pieces between newlines, one more piece
      than there are newlines. */
  function Split(s: seq<Byte>): (r: seq<seq<Byte>>)
    ensures |r| == CountByte(s, Newline) + 1
    ensures forall i :: 0 <= i < |r| ==> NoNewline(r[i])
    ensures Join(r) == s
  {
    if s == [] then [[]]
    else
      var t := Split(s[1..]);
      assert [s[0]] + s[1..] == s;
      if s[0] == Newline then
        JoinConsEmpty(t);
        [[]] + t
      else
        JoinConsByte(s[0], t);
        assert NoNewline([s[0]] + t[0]);
        [[s[0]] + t[0]] + t[1..]
  }

  /** `strings.Join(pieces, "\n")`: the pieces with a newline between each
      two. */
  function Join(pieces: seq<seq<Byte>>): seq<Byte> {
    if pieces == [] then [] else pieces[0] + Joined(pieces[1..])
  }

  /** Each piece preceded by a newline. */
  function Joined(pieces: seq<seq<Byte>>): seq<Byte> {
    if pieces == [] then [] else [Newline] + pieces[0] + Joined(pieces[1..])
  }

  /** An empty first piece puts a newline in front of the join. */
  lemma JoinConsEmpty(t: seq<seq<Byte>>)
    requires |t| >= 1
    ensures Join([[]] + t) == [Newline] + Join(t)
  {
    assert ([[]] + t)[1..] == t;
    assert Join([[]] + t) == Joined(t);
  }

  /** Prepending a byte to the first piece prepends it to the join. */
  lemma JoinConsByte(b: Byte, t: seq<seq<Byte>>)
    requires |t| >= 1
    ensures Join([[b] + t[0]] + t[1..]) == [b] + Join(t)
  {
    assert ([[b] + t[0]] + t[1..])[1..] == t[1..];
    var j := Joined(t[1..]);
    assert [b] + t[0] + j == [b] + (t[0] + j);
  }

  lemma {:induction false} SplitLine(line: seq<Byte>, rest: seq<Byte>)
    requires NoNewline(line)
    ensures Split(line + [Newline] + rest) == [line] + Split(rest)
  {
    if line != [] {
      assert (line + [Newline] + rest)[1..] == line[1..] + [Newline] + rest;
      SplitLine(line[1..], rest);
      assert [line[0]] + line[1..] == line;
    } else {
      assert line + [Newline] + rest == [Newline] + rest;
    }
  }

  /** `strings.SplitN(line, ": ", 2)` when it yields two parts: the text
      before the first `": "` and the text after it. */
  function Cut(line: seq<Byte>): (r: Option<Pair>)
    ensures r.None? <==> !HasSeparator(line)
    ensures r.Some? ==> Body(r.value) == line && !HasSeparator(r.value.key)
  {
    if |line| < 2 then None
    else if line[0] == 58 && line[1] == 32 then Some(Pair([], line[2..]))
    else
      match Cut(line[1..])
      case None =>
        forall i | 0 <= i < |line| - 1
          ensures !(line[i] == 58 && line[i + 1] == 32)
        {
          if i > 0 {
            assert line[1..][i - 1] == line[i] && line[1..][i] == line[i + 1];
          }
        }
        None
      case Some(p) =>
        var key := [line[0]] + p.key;
        assert line[1..] == p.key + Separator + p.value;
        forall i | 0 <= i < |key| - 1
          ensures !(key[i] == 58 && key[i + 1] == 32)
        {
          if i == 0 {
            assert key[1] == line[1..][0];
          } else {
            assert key[i] == p.key[i - 1] && key[i + 1] == p.key[i];
          }
        }
        assert line[1..][|p.key|] == 58 && line[1..][|p.key| + 1] == 32;
        assert line[|p.key| + 1] == 58 && line[|p.key| + 2] == 32;
        Some(Pair(key, p.value))
  }

  /** `header.Add(key, value)`: the value is appended to the key's values,
      and a key not yet present is added after the others. */
  function Add(h: Header, key: seq<Byte>, value: seq<Byte>): (r: Header)
    ensures multiset(Pairs(r)) == multiset(Pairs(h)) + multiset{Pair(key, value)}
  {
    if h == [] then [Field(key, [value])]
    else if h[0].key == key then
      FieldPairsAppend(key, h[0].values, value);
      [Field(key, h[0].values + [value])] + h[1..]
    else
      var r := [h[0]] + Add(h[1..], key, value);
      assert r[1..] == Add(h[1..], key, value);
      r
  }

  lemma {:induction false} FieldPairsAppend(key: seq<Byte>, values: seq<seq<Byte>>, v: seq<Byte>)
    ensures FieldPairs(key, values + [v]) == FieldPairs(key, values) + [Pair(key, v)]
    decreases |values|
  {
    if values != [] {
      assert (values + [v])[1..] == values[1..] + [v];
      FieldPairsAppend(key, values[1..], v);
    }
  }

  /** A `key: value` line splits back into its key and value when the key
      holds no `": "`. */
  lemma {:induction false} CutBody(key: seq<Byte>, value: seq<Byte>)
    requires !HasSeparator(key)
    ensures Cut(key + Separator + value) == Some(Pair(key, value))
  {
    var line := key + Separator + value;
    if key != [] {
      if |key| > 1 {
        assert !(key[0] == 58 && key[1] == 32);
      } else {
        assert line[1] == 58;
      }
      assert line[1..] == key[1..] + Separator + value;
      forall i | 0 <= i < |key[1..]| - 1
        ensures !(key[1..][i] == 58 && key[1..][i + 1] == 32)
      {
        assert key[1..][i] == key[i + 1] && key[1..][i + 1] == key[i + 2];
      }
      CutBody(key[1..], value);
      assert [key[0]] + key[1..] == key;
    }
  }

  /** The body of `stringToHeader`'s loop for one line. */
  function AddLine(h: Header, line: seq<Byte>): Header {
    if line == [] then h
    else
      match Cut(line)
      case Some(p) => Add(h, p.key, p.value)
      case None => h
  }

  function AddLines(h: Header, lines: seq<seq<Byte>>): Header
    decreases |lines|
  {
    if lines == [] then h else AddLines(AddLine(h, lines[0]), lines[1..])
  }

  /** `stringToHeader`: keeps exactly the pairs its input's lines denote. */
  function StringToHeader(s: seq<Byte>): (h: Header)
    ensures multiset(Pairs(h)) == multiset(LinePairs(Split(s)))
  {
    AddLinesPairs([], Split(s));
    AddLines([], Split(s))
  }

  /** The pairs a sequence of lines denotes: empty lines and lines without
      `": "` stand for nothing, every other line for the pair around its first
      `": "`. */
  function LinePairs(lines: seq<seq<Byte>>): seq<Pair> {
    if lines == [] then []
    else
      var p := Cut(lines[0]);
      (if lines[0] != [] && p.Some? then [p.value] else []) + LinePairs(lines[1..])
  }

  lemma {:induction false} AddLinesPairs(h: Header, lines: seq<seq<Byte>>)
    ensures multiset(Pairs(AddLines(h, lines))) == multiset(Pairs(h)) + multiset(LinePairs(lines))
    decreases |lines|
  {
    if lines != [] {
      AddLinesPairs(AddLine(h, lines[0]), lines[1..]);
    }
  }

  lemma {:induction false} SplitDump(ps: seq<Pair>)
    requires forall p :: p in ps ==> PairWellFormed(p)
    ensures LinePairs(Split(Dump(ps))) == ps
  {
    if ps != [] {
      var p := ps[0];
      assert p in ps;
      assert NoNewline(Body(p)) by {
        assert Body(p) == p.key + Separator + p.value;
        forall i | 0 <= i < |Body(p)| ensures Body(p)[i] != Newline {
          if i < |p.key| {
            assert Body(p)[i] == p.key[i];
          } else if i < |p.key| + 2 {
            assert Body(p)[i] == Separator[i - |p.key|];
          } else {
            assert Body(p)[i] == p.value[i - |p.key| - 2];
          }
        }
      }
      assert Dump(ps) == Body(p) + [Newline] + Dump(ps[1..]);
      SplitLine(Body(p), Dump(ps[1..]));
      SplitDump(ps[1..]);
      CutBody(p.key, p.value);
    }
  }

  /** `stringToHeader` inverts `headerToString`, up to the order of the
      pairs, when no key holds `": "` and no key or value holds a newline. */
  lemma HeaderRoundTrip(h: Header)
    requires WellFormed(h)
    ensures multiset(Pairs(StringToHeader(HeaderToString(h)))) == multiset(Pairs(h))
  {
    SplitDump(Pairs(h));
  }
}
