/**
 * The bytes the decoder of module GitIndex reads back as a given header and
 * entries: an encoder that is its inverse, and the round trips that show the
 * decoder recovers every well-formed entry exactly, field by field.
 */
module IndexEncoding {
  import opened Wrappers
  import opened Bytes
  import opened GitIndex
  import opened IndexProperties

  const U32_LIMIT: nat := 0x1_0000_0000

  /** struct.pack("!I", v). */
  function U32(v: nat): (bs: seq<byte>)
    requires v < U32_LIMIT
    ensures |bs| == 4
  {
    assert Pow256(4) == U32_LIMIT;
    ToBigEndian(v, 4)
  }

  /** struct.pack("!H", v). */
  function U16(v: nat): (bs: seq<byte>)
    requires v < 0x1_0000
    ensures |bs| == 2
  {
    assert Pow256(2) == 0x1_0000;
    ToBigEndian(v, 2)
  }

  predicate AllU32(ws: seq<nat>) {
    forall i :: 0 <= i < |ws| ==> ws[i] < U32_LIMIT
  }

  /** The u32 words one after another. */
  function U32s(ws: seq<nat>): (bs: seq<byte>)
    requires AllU32(ws)
    ensures |bs| == 4 * |ws|
  {
    if ws == [] then [] else U32(ws[0]) + U32s(ws[1..])
  }

  lemma ReadU32OfU32(v: nat, rest: seq<byte>)
    requires v < U32_LIMIT
    ensures ReadU32(U32(v) + rest) == Success(Decoded(v, rest))
  {
    var bs := U32(v) + rest;
    assert bs[..4] == U32(v) && bs[4..] == rest;
    FromToBigEndian(v, 4);
  }

  lemma ReadU16OfU16(v: nat, rest: seq<byte>)
    requires v < 0x1_0000
    ensures ReadU16(U16(v) + rest) == Success(Decoded(v, rest))
  {
    var bs := U16(v) + rest;
    assert bs[..2] == U16(v) && bs[2..] == rest;
    FromToBigEndian(v, 2);
  }

  lemma {:induction false} ReadU32sOfU32s(ws: seq<nat>, rest: seq<byte>)
    requires AllU32(ws)
    ensures ReadU32s(U32s(ws) + rest, |ws|) == Success(Decoded(ws, rest))
  {
    if ws != [] {
      var tail := ws[1..];
      assert U32s(ws) + rest == U32(ws[0]) + (U32s(tail) + rest);
      ReadU32OfU32(ws[0], U32s(tail) + rest);
      ReadU32sOfU32s(tail, rest);
      assert [ws[0]] + tail == ws;
    }
  }

  /** The ten u32 fields of an entry in file order. */
  function StatWords(st: Stat): (ws: seq<nat>)
    ensures |ws| == 10
  {
    [st.ctimeSeconds, st.ctimeNanoseconds, st.mtimeSeconds, st.mtimeNanoseconds,
     st.dev, st.ino, st.mode, st.uid, st.gid, st.size]
  }

  /** The 62 fixed bytes of an entry. */
  function EncodeStat(st: Stat): (bs: seq<byte>)
    requires StatInRange(st)
    ensures |bs| == FIXED_SIZE
  {
    U32s(StatWords(st)) + Unhexlify(st.sha1) + U16(st.flags)
  }

  /** The fixed part decodes back to the Stat it encodes, whatever follows it. */
  lemma DecodeEncodedStat(st: Stat, rest: seq<byte>)
    requires StatInRange(st)
    ensures DecodeStat(EncodeStat(st) + rest) == Success(Decoded(st, rest))
  {
    var ws := StatWords(st);
    var sha := Unhexlify(st.sha1);
    var after := sha + (U16(st.flags) + rest);
    assert EncodeStat(st) + rest == U32s(ws) + after;
    ReadU32sOfU32s(ws, after);
    assert |sha| == SHA1_SIZE;
    assert after[..SHA1_SIZE] == sha && after[SHA1_SIZE..] == U16(st.flags) + rest;
    HexlifyUnhexlify(st.sha1);
    ReadU16OfU16(st.flags, rest);
  }

  /** n NUL bytes. */
  function Zeros(n: nat): (bs: seq<byte>)
    ensures |bs| == n && forall i :: 0 <= i < n ==> bs[i] == 0
  {
    if n == 0 then [] else [0] + Zeros(n - 1)
  }

  /** The NUL that ends a NUL-terminated name; a length-prefixed name has none. */
  function Terminator(nameLength: nat): seq<byte> {
    if nameLength < LONG_NAME then [] else [0]
  }

  /** A name the flags word can announce: exactly that long, or NUL-free when NUL-terminated. */
  predicate NameFits(name: seq<byte>, nameLength: nat) {
    && (nameLength < LONG_NAME ==> |name| == nameLength)
    && (nameLength >= LONG_NAME ==> NoNul(name))
  }

  lemma DecodeEncodedName(name: seq<byte>, nameLength: nat, rest: seq<byte>)
    requires NameFits(name, nameLength)
    ensures DecodeName(name + Terminator(nameLength) + rest, nameLength) == Success(Decoded(name, rest))
  {
    var s := name + Terminator(nameLength) + rest;
    if nameLength < LONG_NAME {
      assert s[..nameLength] == name && s[nameLength..] == rest;
    } else {
      assert s[..|name|] == name && s[|name|] == 0 && s[|name| + 1..] == rest;
      FirstNulAfter(s, |name|);
    }
  }

  lemma DecodeEncodedPadding(entryLength: nat, rest: seq<byte>)
    ensures DecodePadding(Zeros(PadLength(entryLength)) + rest, entryLength) == Success(rest)
  {
    var pad := Zeros(PadLength(entryLength));
    var s := pad + rest;
    assert s[..|pad|] == pad && s[|pad|..] == rest;
  }

  /** The optional extra-flags word. */
  function EncodeExtraFlags(extra: Option<nat>): seq<byte>
    requires extra.Some? ==> extra.value < 0x1_0000
  {
    if extra.Some? then U16(extra.value) else []
  }

  lemma DecodeEncodedExtraFlags(extra: Option<nat>, present: bool, rest: seq<byte>)
    requires extra.Some? <==> present
    requires extra.Some? ==> extra.value < 0x1_0000
    ensures DecodeExtraFlags(EncodeExtraFlags(extra) + rest, present) == Success(Decoded(extra, rest))
  {
    if present {
      ReadU16OfU16(extra.value, rest);
    } else {
      assert EncodeExtraFlags(extra) + rest == rest;
    }
  }

  /**
   * One entry as the decoder reads it: the fixed part, the extra flags, the
   * name, its NUL when NUL-terminated, and PadLength(entrylen) NUL bytes.
   */
  function EncodeEntry(e: Entry, version: nat): (bs: seq<byte>)
    requires WellFormed(e, version)
  {
    EncodeStat(e.stat) + EncodeEntryTail(e, version)
  }

  /** The bytes of an entry after its fixed part. */
  function EncodeEntryTail(e: Entry, version: nat): (bs: seq<byte>)
    requires WellFormed(e, version)
  {
    var nameLength := NameLength(e.stat.flags);
    EncodeExtraFlags(e.extraFlags) + (e.name + Terminator(nameLength)
      + Zeros(PadLength(EntryLength(e.extraFlags.Some?, nameLength))))
  }

  lemma DecodeEncodedEntryTail(e: Entry, version: nat, rest: seq<byte>)
    requires WellFormed(e, version)
    ensures DecodeEntryTail(e.stat, EncodeEntryTail(e, version) + rest, version, e.number)
      == Success(Decoded(e, rest))
  {
    var flags := e.stat.flags;
    var nameLength := NameLength(flags);
    var entryLength := EntryLength(e.extraFlags.Some?, nameLength);
    var pad := Zeros(PadLength(entryLength));
    var afterExtra := e.name + Terminator(nameLength) + (pad + rest);
    assert EncodeEntryTail(e, version) + rest == EncodeExtraFlags(e.extraFlags) + afterExtra;
    DecodeEncodedExtraFlags(e.extraFlags, Extended(flags) && version == 3, afterExtra);
    DecodeEncodedName(e.name, nameLength, pad + rest);
    DecodeEncodedPadding(entryLength, rest);
  }

  /** Every well-formed entry decodes back to itself from its encoding, whatever follows it. */
  lemma DecodeEncodedEntry(e: Entry, version: nat, rest: seq<byte>)
    requires WellFormed(e, version)
    ensures DecodeEntry(EncodeEntry(e, version) + rest, version, e.number) == Success(Decoded(e, rest))
  {
    var tail := EncodeEntryTail(e, version) + rest;
    assert EncodeEntry(e, version) + rest == EncodeStat(e.stat) + tail;
    DecodeEncodedStat(e.stat, tail);
    DecodeEncodedEntryTail(e, version, rest);
  }

  /**
   * A NUL-terminated name is framed from entrylen 62 + 1 whatever its length:
   * without extra flags the entry spans the name plus 64 bytes, a multiple of
   * 8 only when the name's length is.
   */
  lemma LongNameEntryLength(e: Entry, version: nat)
    requires WellFormed(e, version) && NameLength(e.stat.flags) == LONG_NAME && e.extraFlags.None?
    ensures |EncodeEntry(e, version)| == |e.name| + 64
    ensures |EncodeEntry(e, version)| % 8 == 0 <==> |e.name| % 8 == 0
  {
    assert EntryLength(false, LONG_NAME) == 63;
  }

  predicate AllWellFormed(es: seq<Entry>, version: nat) {
    forall i :: 0 <= i < |es| ==> WellFormed(es[i], version)
  }

  /** The entries one after another. */
  function EncodeEntries(es: seq<Entry>, version: nat): seq<byte>
    requires AllWellFormed(es, version)
  {
    if es == [] then [] else EncodeEntry(es[0], version) + EncodeEntries(es[1..], version)
  }

  /**
   * The entry loop reads back exactly the encoded entries, numbered on from
   * done, and stops without error whatever follows them.
   */
  lemma {:induction false} DecodeEncodedEntries(es: seq<Entry>, version: nat, done: nat, count: nat, trailer: seq<byte>)
    requires AllWellFormed(es, version) && Numbered(es, done) && count == done + |es|
    ensures DecodeEntries(EncodeEntries(es, version) + trailer, version, done, count) == Stream(es, None)
  {
    if es != [] {
      var e, tail := es[0], es[1..];
      var after := EncodeEntries(tail, version) + trailer;
      var s := EncodeEntry(e, version) + after;
      assert EncodeEntries(es, version) + trailer == s;
      DecodeEncodedEntry(e, version, after);
      EntriesStepOn(s, version, done, count, e, after);
      NumberedTail(es, done);
      DecodeEncodedEntries(tail, version, done + 1, count, trailer);
      assert [e] + tail == es;
    } else {
      assert EncodeEntries(es, version) + trailer == trailer;
    }
  }

  lemma NumberedTail(es: seq<Entry>, from: nat)
    requires es != [] && Numbered(es, from)
    ensures es[0].number == from + 1 && Numbered(es[1..], from + 1)
  {
    var tail := es[1..];
    forall i | 0 <= i < |tail| ensures tail[i].number == from + 1 + i + 1 {
      assert tail[i] == es[i + 1];
    }
  }

  /** A whole index file: the header, then the entries. */
  function EncodeIndex(version: nat, es: seq<Entry>): (bs: seq<byte>)
    requires version in {2, 3} && |es| < U32_LIMIT && AllWellFormed(es, version)
  {
    SIGNATURE + U32(version) + U32(|es|) + EncodeEntries(es, version)
  }

  /**
   * Parsing an encoded index, followed by anything (extensions, the checksum),
   * yields its header and exactly its entries, without error.
   */
  lemma ParseEncodedIndex(version: nat, es: seq<Entry>, trailer: seq<byte>)
    requires version in {2, 3} && |es| < U32_LIMIT && AllWellFormed(es, version) && Numbered(es, 0)
    ensures ParseIndex(EncodeIndex(version, es) + trailer) == Parsed(Some(Header("DIRC", version, |es|)), es, None)
  {
    var body := EncodeEntries(es, version) + trailer;
    assert EncodeIndex(version, es) + trailer == SIGNATURE + U32(version) + U32(|es|) + body;
    DecodeEncodedHeader(version, |es|, body);
    DecodeEncodedEntries(es, version, 0, |es|, trailer);
  }

  /** The 12-byte header of a supported version decodes back to itself. */
  lemma DecodeEncodedHeader(version: nat, count: nat, body: seq<byte>)
    requires version in {2, 3} && count < U32_LIMIT
    ensures DecodeHeader(SIGNATURE + U32(version) + U32(count) + body)
      == Success(Decoded(Header("DIRC", version, count), body))
  {
    var data := SIGNATURE + U32(version) + U32(count) + body;
    assert data[..4] == SIGNATURE && data[4..] == U32(version) + (U32(count) + body);
    ReadU32OfU32(version, U32(count) + body);
    ReadU32OfU32(count, body);
  }
}
