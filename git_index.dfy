/**
 * The Git index ("DIRC") decoder of git_dump.py, GitIndexParser.parse, as
 * functions that thread the unread suffix of the file: each decoder returns the
 * value it read and the bytes that remain. The layout is that of Git's index
 * format (gitformat-index, "The Git index file has the following format" and
 * "Index entry"), versions 2 and 3, as the source reads it.
 */
module GitIndex {
  import opened Wrappers
  import opened Bytes

  /** The magic "DIRC" that opens every index file. */
  const SIGNATURE: seq<byte> := [0x44, 0x49, 0x52, 0x43]
  /** Ten u32 fields, the 20-byte SHA-1 and the u16 flags. */
  const FIXED_SIZE: nat := 62
  const SHA1_SIZE: nat := 20
  /** The name-length value meaning "the name is at least this long and NUL-terminated". */
  const LONG_NAME: nat := 0xFFF

  /** Why a parse stops; every one of them ends the run. */
  datatype ParseError =
    | NotAGitIndex               // the first four bytes are not "DIRC"
    | UnsupportedVersion(version: nat)
    | Truncated                  // an integer field ran past the end of the data
    | PaddingNotNul              // the padding read was empty or held a non-NUL byte
    | UnterminatedName           // a long name ran to the end of the data without a NUL

  datatype Header = Header(signature: string, version: nat, entries: nat)

  /** The fixed-width part of an entry: ten u32 fields, the hex SHA-1 and the u16 flags. */
  datatype Stat = Stat(
    ctimeSeconds: nat, ctimeNanoseconds: nat,
    mtimeSeconds: nat, mtimeNanoseconds: nat,
    dev: nat, ino: nat, mode: nat, uid: nat, gid: nat, size: nat,
    sha1: string,
    flags: nat)

  /** One decoded entry; number counts entries from 1 in stream order. */
  datatype Entry = Entry(
    number: nat,
    stat: Stat,
    assumeValid: bool,
    extended: bool,
    stage: (bool, bool),
    extraFlags: Option<nat>,
    name: seq<byte>)

  /**
   * What parse yields before it ends: the header (absent when the header
   * itself failed), the entries decoded in stream order, and the error that
   * stopped it, if any.
   */
  datatype Parsed = Parsed(header: Option<Header>, entries: seq<Entry>, failure: Option<ParseError>)

  /** One value yielded by the parse generator. */
  datatype Item = HeaderItem(header: Header) | EntryItem(entry: Entry)

  /** The entries decoded by the entry loop, and the error that cut it short, if any. */
  datatype Stream = Stream(entries: seq<Entry>, failure: Option<ParseError>)

  // ---------------------------------------------------------------------------
  // Fixed-width fields

  /** _read(file, "I"): a big-endian u32; struct.unpack fails on a short read. */
  function ReadU32(s: seq<byte>): (r: Result<Decoded<nat>, ParseError>)
    ensures r.Success? <==> 4 <= |s|
    ensures r.Success? ==> r.value.value < 0x1_0000_0000 && r.value.rest == s[4..]
    ensures r.Success? ==> r.value.value == FromBigEndian(s[..4])
  {
    if |s| < 4 then Failure(Truncated)
    else
      assert Pow256(4) == 0x1_0000_0000;
      Success(Decoded(FromBigEndian(s[..4]), s[4..]))
  }

  /** _read(file, "H"): a big-endian u16; struct.unpack fails on a short read. */
  function ReadU16(s: seq<byte>): (r: Result<Decoded<nat>, ParseError>)
    ensures r.Success? <==> 2 <= |s|
    ensures r.Success? ==> r.value.value < 0x1_0000 && r.value.rest == s[2..]
    ensures r.Success? ==> r.value.value == FromBigEndian(s[..2])
  {
    if |s| < 2 then Failure(Truncated)
    else
      assert Pow256(2) == 0x1_0000;
      Success(Decoded(FromBigEndian(s[..2]), s[2..]))
  }

  /** The ranges the fixed-width fields of a decoded entry fall in. */
  predicate StatInRange(st: Stat) {
    && st.ctimeSeconds < 0x1_0000_0000 && st.ctimeNanoseconds < 0x1_0000_0000
    && st.mtimeSeconds < 0x1_0000_0000 && st.mtimeNanoseconds < 0x1_0000_0000
    && st.dev < 0x1_0000_0000 && st.ino < 0x1_0000_0000 && st.mode < 0x1_0000_0000
    && st.uid < 0x1_0000_0000 && st.gid < 0x1_0000_0000 && st.size < 0x1_0000_0000
    && |st.sha1| == 2 * SHA1_SIZE && IsLowerHex(st.sha1)
    && st.flags < 0x1_0000
  }

  /** k consecutive _read(file, "I") calls. */
  function ReadU32s(s: seq<byte>, k: nat): (r: Result<Decoded<seq<nat>>, ParseError>)
    ensures r.Success? <==> 4 * k <= |s|
    ensures r.Success? ==> |r.value.value| == k && r.value.rest == s[4 * k..]
    ensures r.Success? ==> forall i :: 0 <= i < k ==> r.value.value[i] < 0x1_0000_0000
    ensures r.Failure? ==> r.error == Truncated
  {
    if k == 0 then Success(Decoded([], s))
    else
      var first :- ReadU32(s);
      var others :- ReadU32s(first.rest, k - 1);
      Success(Decoded([first.value] + others.value, others.rest))
  }

  /**
   * The 62 fixed bytes of an entry: ctime and mtime (seconds, nanoseconds),
   * dev, ino, mode, uid, gid and size, then the SHA-1 and the flags. The SHA-1
   * read may come back short at the end of the data; the flags read after it
   * then fails, so a decoded SHA-1 is always 40 hex digits.
   */
  function DecodeStat(s: seq<byte>): (r: Result<Decoded<Stat>, ParseError>)
    ensures r.Success? <==> FIXED_SIZE <= |s|
    ensures r.Success? ==> r.value.rest == s[FIXED_SIZE..] && StatInRange(r.value.value)
    ensures r.Failure? ==> r.error == Truncated
  {
    var words :- ReadU32s(s, 10);
    var w := words.value;
    var sha := ReadBytes(words.rest, SHA1_SIZE);
    var flags :- ReadU16(sha.rest);
    Success(Decoded(
      Stat(w[0], w[1], w[2], w[3], w[4], w[5], w[6], w[7], w[8], w[9], Hexlify(sha.value), flags.value),
      flags.rest))
  }

  // ---------------------------------------------------------------------------
  // The flags word

  /**
   * flags & bit != 0 for a single-bit mask: the bit is set when the quotient
   * of flags by the bit's value is odd.
   */
  predicate FlagSet(flags: nat, bit: nat)
    requires bit > 0
  {
    (flags / bit) % 2 == 1
  }

  /** Bit 0x8000. */
  predicate AssumeValid(flags: nat) { FlagSet(flags, 0x8000) }

  /** Bit 0x4000. */
  predicate Extended(flags: nat) { FlagSet(flags, 0x4000) }

  /** The two merge-stage bits, 0x2000 and 0x1000. */
  function Stage(flags: nat): (bool, bool) {
    (FlagSet(flags, 0x2000), FlagSet(flags, 0x1000))
  }

  /** flags & 0xFFF: the name length, or LONG_NAME for a NUL-terminated name. */
  function NameLength(flags: nat): (n: nat)
    ensures n <= LONG_NAME
  {
    flags % 0x1000
  }

  /** The flags word with the given bits and name length; the inverse of the four readers above. */
  function PackFlags(assumeValid: bool, extended: bool, stage: (bool, bool), nameLength: nat): (flags: nat)
    requires nameLength <= LONG_NAME
    ensures flags < 0x1_0000
  {
    (if assumeValid then 0x8000 else 0) + (if extended then 0x4000 else 0)
    + (if stage.0 then 0x2000 else 0) + (if stage.1 then 0x1000 else 0) + nameLength
  }

  /** Reading the bits of a packed flags word gives back what was packed. */
  lemma UnpackPackFlags(assumeValid: bool, extended: bool, stage: (bool, bool), nameLength: nat)
    requires nameLength <= LONG_NAME
    ensures var flags := PackFlags(assumeValid, extended, stage, nameLength);
      && AssumeValid(flags) == assumeValid && Extended(flags) == extended
      && Stage(flags) == stage && NameLength(flags) == nameLength
  {
  }

  /** Every u16 flags word is determined by its four fields. */
  lemma PackUnpackFlags(flags: nat)
    requires flags < 0x1_0000
    ensures PackFlags(AssumeValid(flags), Extended(flags), Stage(flags), NameLength(flags)) == flags
  {
  }

  // ---------------------------------------------------------------------------
  // Variable-length parts

  /** The extra-flags word, present only for an extended entry of a version 3 index. */
  function DecodeExtraFlags(s: seq<byte>, present: bool): (r: Result<Decoded<Option<nat>>, ParseError>)
    ensures r.Success? <==> !present || 2 <= |s|
    ensures r.Success? ==> (r.value.value.Some? <==> present)
    ensures r.Success? && present ==> 2 <= |s| && r.value.value.value < 0x1_0000 && r.value.rest == s[2..]
    ensures r.Success? && !present ==> r.value.rest == s
  {
    if present then
      var extra :- ReadU16(s);
      Success(Decoded(Some(extra.value), extra.rest))
    else Success(Decoded(None, s))
  }

  predicate NoNul(s: seq<byte>) {
    forall i :: 0 <= i < |s| ==> s[i] != 0
  }

  /** The index of the first NUL byte of s, if there is one. */
  function FirstNul(s: seq<byte>): (r: Option<nat>)
    ensures r.Some? ==> r.value < |s| && s[r.value] == 0 && NoNul(s[..r.value])
    ensures r.None? <==> NoNul(s)
  {
    if s == [] then None
    else if s[0] == 0 then Some(0)
    else match FirstNul(s[1..])
      case None => None
      case Some(i) =>
        assert s[..i + 1] == [s[0]] + s[1..][..i];
        Some(i + 1)
  }

  /** A NUL at position i after i NUL-free bytes is the first NUL. */
  lemma {:induction false} FirstNulAfter(s: seq<byte>, i: nat)
    requires i < |s| && s[i] == 0 && NoNul(s[..i])
    ensures FirstNul(s) == Some(i)
  {
    if i > 0 {
      assert s[0] == s[..i][0];
      var t := s[1..][..i - 1];
      assert NoNul(t) by {
        forall k | 0 <= k < |t| ensures t[k] != 0 {
          assert t[k] == s[..i][k + 1];
        }
      }
      FirstNulAfter(s[1..], i - 1);
    }
  }

  /**
   * The name: exactly nameLength bytes (fewer at the end of the data) when the
   * length is below LONG_NAME, otherwise the bytes up to the first NUL, which is
   * consumed and dropped. The source's byte-by-byte scan never breaks when no
   * NUL follows, and its list of reads grows until memory runs out (see module
   * LongNameScan); here that case is an error.
   */
  function DecodeName(s: seq<byte>, nameLength: nat): (r: Result<Decoded<seq<byte>>, ParseError>)
    ensures r.Success? <==> nameLength < LONG_NAME || FirstNul(s).Some?
    ensures r.Failure? ==> r.error == UnterminatedName
    ensures r.Success? ==> |r.value.rest| <= |s| && r.value.rest == s[|s| - |r.value.rest|..]
    ensures r.Success? && nameLength < LONG_NAME ==>
      && r.value.value == s[..|s| - |r.value.rest|]
      && |r.value.value| <= nameLength && (|r.value.value| < nameLength ==> r.value.rest == [])
    ensures r.Success? && nameLength >= LONG_NAME ==>
      && |s| - |r.value.rest| == |r.value.value| + 1
      && r.value.value == s[..|r.value.value|] && s[|r.value.value|] == 0
      && NoNul(r.value.value)
  {
    if nameLength < LONG_NAME then Success(ReadBytes(s, nameLength))
    else match FirstNul(s)
      case None => Failure(UnterminatedName)
      case Some(i) => Success(Decoded(s[..i], s[i + 1..]))
  }

  /**
   * The source's entrylen: the 62 fixed bytes, 2 more for extra flags, plus the
   * name length for a short name or 1 for a NUL-terminated one.
   */
  function EntryLength(hasExtraFlags: bool, nameLength: nat): nat {
    FIXED_SIZE + (if hasExtraFlags then 2 else 0) + (if nameLength < LONG_NAME then nameLength else 1)
  }

  /** (8 - entrylen % 8) or 8: between 1 and 8 NULs, ending on a multiple of 8. */
  function PadLength(entryLength: nat): (n: int)
    ensures 1 <= n <= 8
    ensures (entryLength + n) % 8 == 0
  {
    var n := 8 - entryLength % 8;
    if n == 0 then 8 else n
  }

  /** set(nuls) == {0}: at least one byte read, and every byte NUL. */
  predicate PadOk(nuls: seq<byte>) {
    |nuls| > 0 && forall i :: 0 <= i < |nuls| ==> nuls[i] == 0
  }

  /** The padding after an entry of the given entrylen; what remains after it. */
  function DecodePadding(s: seq<byte>, entryLength: nat): (r: Result<seq<byte>, ParseError>)
    ensures r.Success? ==> |r.value| < |s| && r.value == s[|s| - |r.value|..]
    ensures r.Success? ==> PadOk(s[..|s| - |r.value|]) && |s| - |r.value| <= PadLength(entryLength)
    ensures r.Success? && |s| - |r.value| < PadLength(entryLength) ==> r.value == []
    ensures r.Success? <==>
      var n := if PadLength(entryLength) <= |s| then PadLength(entryLength) else |s|;
      0 < n && forall i :: 0 <= i < n ==> s[i] == 0
  {
    var nuls := ReadBytes(s, PadLength(entryLength));
    if PadOk(nuls.value) then Success(nuls.rest) else Failure(PaddingNotNul)
  }

  /** What holds of every entry the decoder returns for an index of the given version. */
  predicate WellFormed(e: Entry, version: nat) {
    && StatInRange(e.stat)
    && e.assumeValid == AssumeValid(e.stat.flags)
    && e.extended == Extended(e.stat.flags)
    && e.stage == Stage(e.stat.flags)
    && (e.extraFlags.Some? <==> e.extended && version == 3)
    && (e.extraFlags.Some? ==> e.extraFlags.value < 0x1_0000)
    && (NameLength(e.stat.flags) < LONG_NAME ==> |e.name| == NameLength(e.stat.flags))
    && (NameLength(e.stat.flags) == LONG_NAME ==> NoNul(e.name))
  }

  /** One entry of a version-`version` index, numbered `number`. */
  function DecodeEntry(s: seq<byte>, version: nat, number: nat): (r: Result<Decoded<Entry>, ParseError>)
    ensures r.Success? ==> r.value.value.number == number && |r.value.rest| < |s|
  {
    var fixed :- DecodeStat(s);
    DecodeEntryTail(fixed.value, fixed.rest, version, number)
  }

  /** The part of an entry after its fixed 62 bytes: extra flags, name and padding. */
  function DecodeEntryTail(stat: Stat, s: seq<byte>, version: nat, number: nat): (r: Result<Decoded<Entry>, ParseError>)
    requires StatInRange(stat)
    ensures r.Success? ==> r.value.value.number == number && |r.value.rest| < |s|
  {
    var flags := stat.flags;
    var extra :- DecodeExtraFlags(s, Extended(flags) && version == 3);
    var nameLength := NameLength(flags);
    var name :- DecodeName(extra.rest, nameLength);
    var rest :- DecodePadding(name.rest, EntryLength(extra.value.Some?, nameLength));
    Success(Decoded(
      Entry(number, stat, AssumeValid(flags), Extended(flags), Stage(flags), extra.value, name.value),
      rest))
  }

  /** The loop `for n in range(entries)`: entries done+1 .. count, stopping at the first error. */
  function DecodeEntries(s: seq<byte>, version: nat, done: nat, count: nat): (r: Stream)
    requires done <= count
    ensures |r.entries| <= count - done
    ensures r.failure.None? ==> |r.entries| == count - done
    decreases count - done
  {
    if done == count then Stream([], None)
    else match DecodeEntry(s, version, done + 1)
      case Failure(e) => Stream([], Some(e))
      case Success(d) =>
        var tail := DecodeEntries(d.rest, version, done + 1, count);
        Stream([d.value] + tail.entries, tail.failure)
  }

  /** The 12-byte header: signature, then the version check, then the entry count. */
  function DecodeHeader(data: seq<byte>): (r: Result<Decoded<Header>, ParseError>)
    ensures r.Success? <==> 12 <= |data| && data[..4] == SIGNATURE && FromBigEndian(data[4..8]) in {2, 3}
    ensures r.Success? ==>
      r.value == Decoded(Header("DIRC", FromBigEndian(data[4..8]), FromBigEndian(data[8..12])), data[12..])
  {
    var signature := ReadBytes(data, 4);
    if signature.value != SIGNATURE then Failure(NotAGitIndex)
    else
      assert data[..4] == SIGNATURE && signature.rest == data[4..];
      var version :- ReadU32(signature.rest);
      assert signature.rest[..4] == data[4..8];
      if version.value !in {2, 3} then Failure(UnsupportedVersion(version.value))
      else
        var count :- ReadU32(version.rest);
        assert version.rest[..4] == data[8..12] && count.rest == data[12..];
        Success(Decoded(Header("DIRC", version.value, count.value), count.rest))
  }

  /** GitIndexParser.parse: the header, then the entries, with the error that ended it. */
  function ParseIndex(data: seq<byte>): (p: Parsed)
    ensures p.header.None? ==> p.entries == [] && p.failure.Some?
    ensures p.header.Some? ==> p.header.value.version in {2, 3}
  {
    match DecodeHeader(data)
    case Failure(e) => Parsed(None, [], Some(e))
    case Success(h) =>
      var stream := DecodeEntries(h.rest, h.value.version, 0, h.value.entries);
      Parsed(Some(h.value), stream.entries, stream.failure)
  }

  function EntryItems(entries: seq<Entry>): (items: seq<Item>)
    ensures |items| == |entries|
    ensures forall i :: 0 <= i < |entries| ==> items[i] == EntryItem(entries[i])
  {
    if entries == [] then [] else [EntryItem(entries[0])] + EntryItems(entries[1..])
  }

  /** The values the parse generator yields, in order: the header first, then the entries. */
  function Items(p: Parsed): seq<Item> {
    (if p.header.Some? then [HeaderItem(p.header.value)] else []) + EntryItems(p.entries)
  }
}
