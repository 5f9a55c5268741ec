/** The versioned persisted format of src/cookiejar.cpp (the QDataStream
    operators `<<` and `>>` on a list of cookies). A stream is a sequence of
    tokens: the byte-level QDataStream layout is abstracted away. */
module Persist {
  import opened Cookies

  /** COOKIE_JAR_VERSION. */
  const Version: nat := 1

  /** quint32 values wrap at 2^32. */
  const U32Range: nat := 0x1_0000_0000

  /** One value written to a QDataStream: a quint32 or a QByteArray. */
  datatype Token = Num(n: nat) | Raw(bytes: string)

  type Stream = seq<Token>

  /** `stream >> quint32`: a read past the end, or of a value of another kind, gives 0. */
  function ReadNum(s: Stream): (r: (nat, Stream))
    ensures |s| > 0 ==> r.1 == s[1..]
    ensures |s| == 0 ==> r == (0, [])
  {
    if |s| == 0 then (0, [])
    else match s[0]
      case Num(n) => (n, s[1..])
      case Raw(_) => (0, s[1..])
  }

  /** `stream >> QByteArray`: a read past the end, or of a value of another kind, gives "". */
  function ReadRaw(s: Stream): (r: (string, Stream))
    ensures |s| > 0 ==> r.1 == s[1..]
    ensures |s| == 0 ==> r == ("", [])
  {
    if |s| == 0 then ("", [])
    else match s[0]
      case Raw(b) => (b, s[1..])
      case Num(_) => ("", s[1..])
  }

  /** The entries written by `operator<<`, one raw form per cookie, in list order. */
  function RawEntries(toRaw: Cookie -> string, cs: seq<Cookie>): (r: Stream)
    ensures |r| == |cs|
  {
    if |cs| == 0 then [] else [Raw(toRaw(cs[0]))] + RawEntries(toRaw, cs[1..])
  }

  lemma {:induction false} RawEntriesSnoc(toRaw: Cookie -> string, cs: seq<Cookie>, c: Cookie)
    ensures RawEntries(toRaw, cs + [c]) == RawEntries(toRaw, cs) + [Raw(toRaw(c))]
    decreases |cs|
  {
    if |cs| > 0 {
      assert (cs + [c])[1..] == cs[1..] + [c];
      RawEntriesSnoc(toRaw, cs[1..], c);
    } else {
      assert cs + [c] == [c];
    }
  }

  /** What `operator<<` writes for a list of cookies. */
  function Encode(toRaw: Cookie -> string, cs: seq<Cookie>): (r: Stream)
    ensures |r| == |cs| + 2
    ensures r[0] == Num(Version) && r[1] == Num(|cs| % U32Range)
  {
    [Num(Version), Num(|cs| % U32Range)] + RawEntries(toRaw, cs)
  }

  /** The loop of `operator>>` over at most `count` entries: each entry adds
      what it parses to, and the loop stops early once the stream is exhausted. */
  function Entries(parse: string -> seq<Cookie>, s: Stream, count: nat): (r: seq<Cookie>)
    ensures count == 0 ==> r == []
    ensures |s| == 0 && parse("") == [] ==> r == []
    decreases count
  {
    if count == 0 then []
    else
      var (value, rest) := ReadRaw(s);
      parse(value) + (if |rest| == 0 then [] else Entries(parse, rest, count - 1))
  }

  /** What `operator>>` reads: nothing unless the version is COOKIE_JAR_VERSION. */
  function Decode(parse: string -> seq<Cookie>, s: Stream): (r: seq<Cookie>)
    ensures (|s| == 0 || s[0] != Num(Version)) ==> r == []
    ensures |s| >= 2 && s[0] == Num(Version) && s[1] == Num(0) ==> r == []
  {
    var (version, afterVersion) := ReadNum(s);
    if version != Version then []
    else
      var (count, afterCount) := ReadNum(afterVersion);
      Entries(parse, afterCount, count)
  }

  /** Everything the raw values parse to, in order. */
  function ParsedAll(parse: string -> seq<Cookie>, values: seq<string>): seq<Cookie>
  {
    if |values| == 0 then [] else parse(values[0]) + ParsedAll(parse, values[1..])
  }

  function RawTokens(values: seq<string>): (r: Stream)
    ensures |r| == |values|
    ensures forall i :: 0 <= i < |values| ==> r[i] == Raw(values[i])
  {
    if |values| == 0 then [] else [Raw(values[0])] + RawTokens(values[1..])
  }

  function Min(a: nat, b: nat): nat { if a <= b then a else b }

  /** `operator<<`: the version, the entry count as a quint32, then each raw form. */
  method WriteCookies(toRaw: Cookie -> string, list: seq<Cookie>) returns (stream: Stream)
    ensures stream == Encode(toRaw, list)
  {
    stream := [Num(Version)];
    stream := stream + [Num(|list| % U32Range)];
    ghost var header := stream;
    for i := 0 to |list|
      invariant stream == header + RawEntries(toRaw, list[..i])
    {
      var entry := Raw(toRaw(list[i]));
      RawEntriesSnoc(toRaw, list[..i], list[i]);
      assert list[..i + 1] == list[..i] + [list[i]];
      assert stream + [entry] == header + (RawEntries(toRaw, list[..i]) + [entry]);
      stream := stream + [entry];
    }
    assert list[..|list|] == list;
  }

  /** The inner loop of `operator>>`: appends the cookies one entry parsed to. */
  method AppendAll(list: seq<Cookie>, newCookies: seq<Cookie>) returns (r: seq<Cookie>)
    ensures r == list + newCookies
  {
    r := list;
    for j := 0 to |newCookies|
      invariant r == list + newCookies[..j]
    {
      r := r + [newCookies[j]];
    }
    assert newCookies[..|newCookies|] == newCookies;
  }

  /** `operator>>`: clears the list, checks the version, then appends what
      each of at most `count` entries parses to, stopping at the end of the stream. */
  method ReadCookies(parse: string -> seq<Cookie>, stream: Stream) returns (list: seq<Cookie>)
    ensures list == Decode(parse, stream)
  {
    list := [];
    DecodeHeader(parse, stream);
    var version, s := ReadNum(stream).0, ReadNum(stream).1;
    if version != Version {
      return;
    }
    var count;
    count, s := ReadNum(s).0, ReadNum(s).1;
    ghost var start := s;
    var i: nat := 0;
    while i < count
      invariant i <= count
      invariant Entries(parse, start, count) == list + Entries(parse, s, count - i)
    {
      ghost var here := s;
      var value;
      value, s := ReadRaw(s).0, ReadRaw(s).1;
      var newCookies := parse(value);
      ghost var later := if |s| == 0 then [] else Entries(parse, s, count - i - 1);
      EntriesStep(parse, here, count - i);
      assert list + (newCookies + later) == (list + newCookies) + later;
      // An entry that parses to nothing is skipped (Qt logs a warning here).
      list := AppendAll(list, newCookies);
      if |s| == 0 {
        assert list + [] == list;
        return;
      }
      i := i + 1;
    }
    assert list + [] == list;
  }

  /** The header of the format: the version, then the entry count. */
  lemma DecodeHeader(parse: string -> seq<Cookie>, s: Stream)
    ensures ReadNum(s).0 != Version ==> Decode(parse, s) == []
    ensures ReadNum(s).0 == Version ==>
      Decode(parse, s) == Entries(parse, ReadNum(ReadNum(s).1).1, ReadNum(ReadNum(s).1).0)
  {
  }

  /** One turn of the entry loop. */
  lemma EntriesStep(parse: string -> seq<Cookie>, s: Stream, n: nat)
    requires n > 0
    ensures Entries(parse, s, n) ==
      parse(ReadRaw(s).0) + (if |ReadRaw(s).1| == 0 then [] else Entries(parse, ReadRaw(s).1, n - 1))
  {
  }

  /** A stream that is empty or whose version is not 1 decodes to nothing. */
  lemma DecodeOtherVersion(parse: string -> seq<Cookie>, s: Stream)
    requires |s| == 0 || s[0] != Num(Version)
    ensures Decode(parse, s) == []
  {
  }

  /** The entry loop consumes at most `count` entries of a stream of raw
      values: it yields what the first min(count, |values|) of them parse to,
      in entry order; entries that parse to nothing contribute nothing. An
      empty stream with a positive count reads one empty array, which yields
      nothing when the parser gives nothing for it, as Qt's does. */
  lemma {:induction false} EntriesTakeCount(parse: string -> seq<Cookie>, values: seq<string>, count: nat)
    requires |values| > 0 || parse("") == []
    ensures Entries(parse, RawTokens(values), count) == ParsedAll(parse, values[..Min(count, |values|)])
    decreases count
  {
    if count > 0 && |values| == 0 {
      assert RawTokens(values) == [];
    } else if count > 0 {
      var s := RawTokens(values);
      assert s[1..] == RawTokens(values[1..]);
      var taken := values[..Min(count, |values|)];
      assert taken[0] == values[0];
      if |values| > 1 {
        EntriesTakeCount(parse, values[1..], count - 1);
        assert taken[1..] == values[1..][..Min(count - 1, |values| - 1)];
      } else {
        assert taken[1..] == [];
      }
    }
  }

  lemma {:induction false} EntriesRoundTrip(parse: string -> seq<Cookie>, toRaw: Cookie -> string, cs: seq<Cookie>)
    requires forall i :: 0 <= i < |cs| ==> parse(toRaw(cs[i])) == [cs[i]]
    ensures Entries(parse, RawEntries(toRaw, cs), |cs|) == cs
    decreases |cs|
  {
    if |cs| > 0 {
      var s := RawEntries(toRaw, cs);
      var rest := RawEntries(toRaw, cs[1..]);
      assert ReadRaw(s) == (toRaw(cs[0]), rest);
      assert forall i :: 0 <= i < |cs[1..]| ==> cs[1..][i] == cs[i + 1];
      EntriesRoundTrip(parse, toRaw, cs[1..]);
      var tail := if |rest| == 0 then [] else Entries(parse, rest, |cs| - 1);
      assert tail == cs[1..];
      assert Entries(parse, s, |cs|) == [cs[0]] + tail;
      assert cs == [cs[0]] + cs[1..];
    }
  }

  /** Reading back what `operator<<` wrote gives the
      original list in order, when every cookie survives its own raw form and
      the count fits in a quint32. */
  lemma DecodeEncode(env: QtEnv, cs: seq<Cookie>)
    requires RawRoundTrips(env, cs)
    requires |cs| < U32Range
    ensures Decode(env.parse, Encode(env.toRaw, cs)) == cs
  {
    var s := Encode(env.toRaw, cs);
    assert ReadNum(s) == (Version, s[1..]);
    assert ReadNum(s[1..]) == (|cs|, s[2..]);
    assert s[2..] == RawEntries(env.toRaw, cs);
    assert forall i :: 0 <= i < |cs| ==> cs[i] in cs;
    EntriesRoundTrip(env.parse, env.toRaw, cs);
  }
}
