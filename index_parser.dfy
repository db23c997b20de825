/**
 * GitIndexParser.parse as the source runs it: a read cursor over the mapped
 * index file that every read advances, the entry loop, and the byte-by-byte
 * scan for the NUL after a long name. Each method is proved to compute what
 * the suffix-threading decoder of module GitIndex specifies.
 */
module IndexParser {
  import opened Wrappers
  import opened Bytes
  import opened GitIndex
  import opened IndexProperties

  /** A result together with the bytes left unread after it, in the decoder's form. */
  function Located<T>(r: Result<T, ParseError>, rest: seq<byte>): Result<Decoded<T>, ParseError> {
    if r.Success? then Success(Decoded(r.value, rest)) else Failure(r.error)
  }

  /** The memory-mapped index file and its read position. */
  class MappedFile {
    const data: seq<byte>
    var pos: nat

    predicate Valid()
      reads this
    {
      pos <= |data|
    }

    /** The bytes not read yet. */
    function Rest(): (rest: seq<byte>)
      requires Valid()
      reads this
      ensures |rest| == |data| - pos
    {
      data[pos..]
    }

    constructor(data: seq<byte>)
      ensures Valid() && this.data == data && pos == 0
    {
      this.data := data;
      pos := 0;
    }

    /** mmap.read(n): the next n bytes, fewer at the end of the data. */
    method Read(n: nat) returns (bs: seq<byte>)
      requires Valid()
      modifies this
      ensures Valid()
      ensures Decoded(bs, Rest()) == ReadBytes(old(Rest()), n)
    {
      var m := if n <= |data| - pos then n else |data| - pos;
      bs := data[pos..pos + m];
      pos := pos + m;
      assert data[old(pos)..][..m] == bs;
    }

    /** _read(file, "I"). */
    method ReadU32() returns (r: Result<nat, ParseError>)
      requires Valid()
      modifies this
      ensures Valid()
      ensures Located(r, Rest()) == GitIndex.ReadU32(old(Rest()))
    {
      var bs := Read(4);
      if |bs| < 4 {
        return Failure(Truncated);
      }
      r := Success(FromBigEndian(bs));
    }

    /** _read(file, "H"). */
    method ReadU16() returns (r: Result<nat, ParseError>)
      requires Valid()
      modifies this
      ensures Valid()
      ensures Located(r, Rest()) == GitIndex.ReadU16(old(Rest()))
    {
      var bs := Read(2);
      if |bs| < 2 {
        return Failure(Truncated);
      }
      r := Success(FromBigEndian(bs));
    }
  }

  /** The signature, the version check and the entry count. */
  method ReadHeader(f: MappedFile) returns (r: Result<Header, ParseError>)
    requires f.Valid()
    modifies f
    ensures f.Valid()
    ensures Located(r, f.Rest()) == DecodeHeader(old(f.Rest()))
  {
    var signature := f.Read(4);
    if signature != SIGNATURE {
      return Failure(NotAGitIndex);
    }
    var version :- f.ReadU32();
    if version !in {2, 3} {
      return Failure(UnsupportedVersion(version));
    }
    var count :- f.ReadU32();
    r := Success(Header("DIRC", version, count));
  }

  /** One more u32 read after i of them: its value joins the list, or its failure ends the run. */
  lemma {:induction false} ReadU32sSnoc(s: seq<byte>, i: nat, ws: seq<nat>, rest: seq<byte>)
    requires ReadU32s(s, i) == Success(Decoded(ws, rest))
    ensures ReadU32(rest).Success? ==>
      ReadU32s(s, i + 1) == Success(Decoded(ws + [ReadU32(rest).value.value], ReadU32(rest).value.rest))
    ensures ReadU32(rest).Failure? ==> ReadU32s(s, i + 1).Failure?
    decreases i
  {
    var next := ReadU32(rest);
    if i == 0 {
      if next.Success? {
        assert ReadU32s(next.value.rest, 0) == Success(Decoded([], next.value.rest));
        assert ws + [next.value.value] == [next.value.value] + [];
      }
    } else {
      var first := ReadU32(s).value;
      var others := ReadU32s(first.rest, i - 1).value;
      ReadU32sSnoc(first.rest, i - 1, others.value, rest);
      if next.Success? {
        assert [first.value] + (others.value + [next.value.value]) == ws + [next.value.value];
      }
    }
  }

  /**
   * The fixed 62 bytes of an entry: ten u32 reads, the 20-byte SHA-1 read and
   * its hex form, then the u16 flags read.
   */
  method ReadStat(f: MappedFile) returns (r: Result<Stat, ParseError>)
    requires f.Valid()
    modifies f
    ensures f.Valid()
    ensures Located(r, f.Rest()) == DecodeStat(old(f.Rest()))
  {
    ghost var start := f.Rest();
    var ws: seq<nat> := [];
    for i := 0 to 10
      invariant f.Valid()
      invariant ReadU32s(start, i) == Success(Decoded(ws, f.Rest()))
    {
      ghost var before := f.Rest();
      var w := f.ReadU32();
      ReadU32sSnoc(start, i, ws, before);
      if w.Failure? {
        assert ReadU32s(start, 10).Failure? by {
          assert |start| < 4 * 10;
        }
        return Failure(Truncated);
      }
      ws := ws + [w.value];
    }
    var sha := f.Read(SHA1_SIZE);
    var flags :- f.ReadU16();
    r := Success(Stat(ws[0], ws[1], ws[2], ws[3], ws[4], ws[5], ws[6], ws[7], ws[8], ws[9], Hexlify(sha), flags));
  }

  /** The extra-flags word when present. */
  method ReadExtraFlags(f: MappedFile, present: bool) returns (r: Result<Option<nat>, ParseError>)
    requires f.Valid()
    modifies f
    ensures f.Valid()
    ensures Located(r, f.Rest()) == DecodeExtraFlags(old(f.Rest()), present)
  {
    if present {
      var extra :- f.ReadU16();
      r := Success(Some(extra));
    } else {
      r := Success(None);
    }
  }

  /**
   * The name: one read of nameLength bytes, or the byte-by-byte scan up to
   * and including the first NUL. At the end of the data the scan stops with
   * UnterminatedName, where the source's loop never breaks and keeps
   * appending empty reads to its list until memory runs out.
   */
  method ReadName(f: MappedFile, nameLength: nat) returns (r: Result<seq<byte>, ParseError>)
    requires f.Valid()
    modifies f
    ensures f.Valid()
    ensures Located(r, f.Rest()) == DecodeName(old(f.Rest()), nameLength)
  {
    if nameLength < LONG_NAME {
      var name := f.Read(nameLength);
      return Success(name);
    }
    var start := f.Rest();
    var name := [];
    var terminated := false;
    while !terminated
      invariant f.Valid() && |start| == |f.data| - old(f.pos)
      invariant |name| + (if terminated then 1 else 0) == f.pos - old(f.pos)
      invariant f.Rest() == start[f.pos - old(f.pos)..]
      invariant name == start[..|name|] && NoNul(name)
      invariant terminated ==> start[|name|] == 0
      decreases |f.Rest()|, !terminated
    {
      var b := f.Read(1);
      if b == [] {
        assert NoNul(start);
        return Failure(UnterminatedName);
      }
      if b == [0] {
        terminated := true;
      } else {
        name := name + b;
      }
    }
    FirstNulAfter(start, |name|);
    r := Success(name);
  }

  /** The 1 to 8 padding bytes and the check that they are all NUL. */
  method ReadPadding(f: MappedFile, entryLength: nat) returns (r: Result<seq<byte>, ParseError>)
    requires f.Valid()
    modifies f
    ensures f.Valid()
    ensures r.Success? ==> DecodePadding(old(f.Rest()), entryLength) == Success(f.Rest())
    ensures r.Failure? ==> DecodePadding(old(f.Rest()), entryLength) == Failure(r.error)
  {
    var nuls := f.Read(PadLength(entryLength));
    if !PadOk(nuls) {
      return Failure(PaddingNotNul);
    }
    r := Success(nuls);
  }

  /** One turn of the entry loop: the entry numbered `number`. */
  method ReadEntry(f: MappedFile, version: nat, number: nat) returns (r: Result<Entry, ParseError>)
    requires f.Valid()
    modifies f
    ensures f.Valid()
    ensures Located(r, f.Rest()) == DecodeEntry(old(f.Rest()), version, number)
  {
    var stat :- ReadStat(f);
    var flags := stat.flags;
    var extra :- ReadExtraFlags(f, Extended(flags) && version == 3);
    var nameLength := NameLength(flags);
    var name :- ReadName(f, nameLength);
    var _ :- ReadPadding(f, EntryLength(extra.Some?, nameLength));
    r := Success(Entry(number, stat, AssumeValid(flags), Extended(flags), Stage(flags), extra, name));
  }

  /** After n entries read into `entries`, the rest of the stream comes from `rest`. */
  ghost predicate ResumesAt(body: seq<byte>, version: nat, count: nat, entries: seq<Entry>, rest: seq<byte>, n: nat)
    requires n <= count
  {
    var tail := DecodeEntries(rest, version, n, count);
    DecodeEntries(body, version, 0, count) == Stream(entries + tail.entries, tail.failure)
  }

  /** An entry read successfully joins the list, and the stream resumes after it. */
  lemma LoopStep(body: seq<byte>, version: nat, count: nat, entries: seq<Entry>, before: seq<byte>, n: nat, e: Entry, after: seq<byte>)
    requires n < count && ResumesAt(body, version, count, entries, before, n)
    requires DecodeEntry(before, version, n + 1) == Success(Decoded(e, after))
    ensures ResumesAt(body, version, count, entries + [e], after, n + 1)
  {
    EntriesStepOn(before, version, n, count, e, after);
    var tail := DecodeEntries(after, version, n + 1, count);
    assert entries + ([e] + tail.entries) == (entries + [e]) + tail.entries;
  }

  /** An entry that fails to decode ends the stream with its error. */
  lemma LoopStop(body: seq<byte>, version: nat, count: nat, entries: seq<Entry>, before: seq<byte>, n: nat, error: ParseError)
    requires n < count && ResumesAt(body, version, count, entries, before, n)
    requires DecodeEntry(before, version, n + 1) == Failure(error)
    ensures DecodeEntries(body, version, 0, count) == Stream(entries, Some(error))
  {
    EntriesStopOn(before, version, n, count, error);
    assert entries + [] == entries;
  }

  /** After all count entries, the stream is exactly the entries read. */
  lemma LoopDone(body: seq<byte>, version: nat, count: nat, entries: seq<Entry>, rest: seq<byte>)
    requires ResumesAt(body, version, count, entries, rest, count)
    ensures DecodeEntries(body, version, 0, count) == Stream(entries, None)
  {
    assert entries + [] == entries;
  }

  /** Once the header is decoded, the parse is the entry stream after it. */
  lemma ParseAfterHeader(data: seq<byte>, header: Header, body: seq<byte>)
    requires DecodeHeader(data) == Success(Decoded(header, body))
    ensures var stream := DecodeEntries(body, header.version, 0, header.entries);
      ParseIndex(data) == Parsed(Some(header), stream.entries, stream.failure)
  {
  }

  /** The entry loop: `count` entries numbered from 1, stopping at the first error. */
  method ReadEntries(f: MappedFile, version: nat, count: nat) returns (entries: seq<Entry>, failure: Option<ParseError>)
    requires f.Valid()
    modifies f
    ensures f.Valid()
    ensures DecodeEntries(old(f.Rest()), version, 0, count) == Stream(entries, failure)
  {
    ghost var body := f.Rest();
    entries := [];
    assert entries + DecodeEntries(body, version, 0, count).entries == DecodeEntries(body, version, 0, count).entries;
    for n := 0 to count
      invariant f.Valid()
      invariant ResumesAt(body, version, count, entries, f.Rest(), n)
    {
      ghost var before := f.Rest();
      var e := ReadEntry(f, version, n + 1);
      if e.Failure? {
        LoopStop(body, version, count, entries, before, n, e.error);
        return entries, Some(e.error);
      }
      LoopStep(body, version, count, entries, before, n, e.value, f.Rest());
      entries := entries + [e.value];
    }
    LoopDone(body, version, count, entries, f.Rest());
    failure := None;
  }

  /** GitIndexParser.parse run to its end: the header, the entries, and the error that stopped it. */
  method Parse(data: seq<byte>) returns (p: Parsed)
    ensures p == ParseIndex(data)
  {
    var f := new MappedFile(data);
    var h := ReadHeader(f);
    if h.Failure? {
      return Parsed(None, [], Some(h.error));
    }
    ParseAfterHeader(data, h.value, f.Rest());
    var entries, failure := ReadEntries(f, h.value.version, h.value.entries);
    p := Parsed(Some(h.value), entries, failure);
  }
}
