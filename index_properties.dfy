/** What GitIndexParser.parse promises about the header, the entries and their framing. */
module IndexProperties {
  import opened Wrappers
  import opened Bytes
  import opened GitIndex

  /** The parse fails with NotAGitIndex, yielding nothing, exactly when the data does not open with "DIRC". */
  lemma SignatureChecked(data: seq<byte>)
    ensures ParseIndex(data).failure == Some(NotAGitIndex) <==> !(4 <= |data| && data[..4] == SIGNATURE)
    ensures !(4 <= |data| && data[..4] == SIGNATURE) ==> ParseIndex(data) == Parsed(None, [], Some(NotAGitIndex))
    ensures ParseIndex(data).header.Some? ==> ParseIndex(data).header.value.signature == "DIRC"
  {
    var h := DecodeHeader(data);
    if h.Success? {
      var stream := DecodeEntries(h.value.rest, h.value.value.version, 0, h.value.value.entries);
      assert stream.failure != Some(NotAGitIndex) by { NoEntryFailsAsNotAGitIndex(h.value.rest, h.value.value.version, 0, h.value.value.entries); }
    }
  }

  lemma {:induction false} NoEntryFailsAsNotAGitIndex(s: seq<byte>, version: nat, done: nat, count: nat)
    requires done <= count
    ensures DecodeEntries(s, version, done, count).failure != Some(NotAGitIndex)
    decreases count - done
  {
    if done < count {
      var d := DecodeEntry(s, version, done + 1);
      if d.Success? {
        NoEntryFailsAsNotAGitIndex(d.value.rest, version, done + 1, count);
      }
    }
  }

  /**
   * A header is produced only for version 2 or 3; any other big-endian version
   * after a good signature stops the parse before any entry.
   */
  lemma VersionChecked(data: seq<byte>)
    ensures ParseIndex(data).header.Some? ==> ParseIndex(data).header.value.version in {2, 3}
    ensures ParseIndex(data).header.Some? ==> ParseIndex(data).header.value.version == FromBigEndian(data[4..8])
    ensures 8 <= |data| && data[..4] == SIGNATURE && FromBigEndian(data[4..8]) !in {2, 3} ==>
      ParseIndex(data) == Parsed(None, [], Some(UnsupportedVersion(FromBigEndian(data[4..8]))))
  {
    if 8 <= |data| {
      assert data[4..][..4] == data[4..8];
    }
  }

  /** The header of a version 2 index announcing one entry, byte by byte. */
  lemma HeaderBytesExample()
    ensures DecodeHeader([0x44, 0x49, 0x52, 0x43, 0, 0, 0, 2, 0, 0, 0, 1]) == Success(Decoded(Header("DIRC", 2, 1), []))
  {
    var data: seq<byte> := [0x44, 0x49, 0x52, 0x43, 0, 0, 0, 2, 0, 0, 0, 1];
    assert data[..4] == SIGNATURE && data[4..8] == [0, 0, 0, 2] && data[8..12] == [0, 0, 0, 1] && data[12..] == [];
    OrderExamples();
  }

  /**
   * The generator yields the header first and then the entries numbered
   * 1, 2, ... in stream order; with no error it yields exactly as many
   * entries as the header announces, never more.
   */
  lemma HeaderThenEntries(data: seq<byte>)
    ensures var p := ParseIndex(data);
      && (p.entries != [] ==> p.header.Some?)
      && (p.header.Some? ==> |p.entries| <= p.header.value.entries)
      && (p.failure.None? ==> p.header.Some? && |p.entries| == p.header.value.entries)
    ensures var items := Items(ParseIndex(data));
      && (items != [] ==> items[0].HeaderItem?)
      && (forall i :: 1 <= i < |items| ==> items[i].EntryItem? && items[i].entry.number == i)
  {
    var p := ParseIndex(data);
    if p.header.Some? {
      var h := DecodeHeader(data).value;
      EntriesNumbered(h.rest, h.value.version, 0, h.value.entries);
    }
    ItemsInOrder(p);
  }

  /** The generator yields the header, when there is one, and then one item per entry, in order. */
  lemma ItemsLayout(p: Parsed)
    ensures var items := Items(p);
      var k := if p.header.Some? then 1 else 0;
      && |items| == k + |p.entries|
      && (p.header.Some? ==> items[0] == HeaderItem(p.header.value))
      && (forall i :: 0 <= i < |p.entries| ==> items[k + i] == EntryItem(p.entries[i]))
  {
  }

  /** The items of a parse whose entries are numbered 1, 2, ...: the header, then entry i at position i. */
  lemma ItemsInOrder(p: Parsed)
    requires p.entries != [] ==> p.header.Some?
    requires Numbered(p.entries, 0)
    ensures var items := Items(p);
      && (items != [] ==> items[0].HeaderItem?)
      && (forall i :: 1 <= i < |items| ==> items[i].EntryItem? && items[i].entry.number == i)
  {
    if p.header.Some? {
      var items := Items(p);
      assert items == [HeaderItem(p.header.value)] + EntryItems(p.entries);
      forall i | 1 <= i < |items| ensures items[i].EntryItem? && items[i].entry.number == i {
        assert items[i] == EntryItems(p.entries)[i - 1];
      }
    }
  }

  /** The entries are numbered from + 1, from + 2, ... */
  predicate Numbered(es: seq<Entry>, from: nat) {
    forall i :: 0 <= i < |es| ==> es[i].number == from + i + 1
  }

  lemma NumberedCons(e: Entry, tail: seq<Entry>, from: nat)
    requires e.number == from + 1 && Numbered(tail, from + 1)
    ensures Numbered([e] + tail, from)
  {
    var es := [e] + tail;
    forall i | 0 <= i < |es| ensures es[i].number == from + i + 1 {
      if i > 0 { assert es[i] == tail[i - 1]; }
    }
  }

  /** One turn of the entry loop: a decoded entry is followed by what the rest of the loop decodes. */
  lemma DecodeEntriesStep(s: seq<byte>, version: nat, done: nat, count: nat)
    requires done < count
    requires DecodeEntry(s, version, done + 1).Success?
    ensures var d := DecodeEntry(s, version, done + 1).value;
      DecodeEntries(s, version, done, count) ==
        var tail := DecodeEntries(d.rest, version, done + 1, count); Stream([d.value] + tail.entries, tail.failure)
  {
  }

  /** The same turn, for an entry already known. */
  lemma EntriesStepOn(s: seq<byte>, version: nat, done: nat, count: nat, e: Entry, rest: seq<byte>)
    requires done < count
    requires DecodeEntry(s, version, done + 1) == Success(Decoded(e, rest))
    ensures var tail := DecodeEntries(rest, version, done + 1, count);
      DecodeEntries(s, version, done, count) == Stream([e] + tail.entries, tail.failure)
  {
    DecodeEntriesStep(s, version, done, count);
  }

  /** The same turn, for an entry that fails to decode: the stream stops with its error. */
  lemma EntriesStopOn(s: seq<byte>, version: nat, done: nat, count: nat, error: ParseError)
    requires done < count
    requires DecodeEntry(s, version, done + 1) == Failure(error)
    ensures DecodeEntries(s, version, done, count) == Stream([], Some(error))
  {
  }

  /** The entry loop numbers its entries done+1, done+2, ... in stream order. */
  lemma {:induction false} EntriesNumbered(s: seq<byte>, version: nat, done: nat, count: nat)
    requires done <= count
    ensures Numbered(DecodeEntries(s, version, done, count).entries, done)
    decreases count - done
  {
    if done < count {
      var d := DecodeEntry(s, version, done + 1);
      if d.Success? {
        DecodeEntriesStep(s, version, done, count);
        EntriesNumbered(d.value.rest, version, done + 1, count);
        NumberedCons(d.value.value, DecodeEntries(d.value.rest, version, done + 1, count).entries, done);
      }
    }
  }

  /** Every entry DecodeEntry returns is well formed. */
  lemma DecodedEntryWellFormed(s: seq<byte>, version: nat, number: nat)
    requires DecodeEntry(s, version, number).Success?
    ensures WellFormed(DecodeEntry(s, version, number).value.value, version)
  {
    var fixed := DecodeStat(s).value;
    var flags := fixed.value.flags;
    var extra := DecodeExtraFlags(fixed.rest, Extended(flags) && version == 3).value;
    var nameLength := NameLength(flags);
    var name := DecodeName(extra.rest, nameLength).value;
    assert DecodePadding(name.rest, EntryLength(extra.value.Some?, nameLength)).Success?;
  }

  lemma {:induction false} DecodedEntriesWellFormed(s: seq<byte>, version: nat, done: nat, count: nat)
    requires done <= count
    ensures forall e :: e in DecodeEntries(s, version, done, count).entries ==> WellFormed(e, version)
    decreases count - done
  {
    if done < count {
      var d := DecodeEntry(s, version, done + 1);
      if d.Success? {
        DecodeEntriesStep(s, version, done, count);
        DecodedEntryWellFormed(s, version, done + 1);
        DecodedEntriesWellFormed(d.value.rest, version, done + 1, count);
      }
    }
  }

  /**
   * Every entry the parse yields is well formed: its SHA-1 is 40 lower-case
   * hex digits, its flag fields agree with its flags word, it carries extra
   * flags exactly when it is extended in a version 3 index, and its name is
   * exactly the announced length or, when NUL-terminated, free of NULs.
   */
  lemma ParsedEntriesWellFormed(data: seq<byte>)
    ensures var p := ParseIndex(data);
      forall e :: e in p.entries ==> WellFormed(e, p.header.value.version)
    ensures forall e :: e in ParseIndex(data).entries ==>
      |e.stat.sha1| == 40 && IsLowerHex(e.stat.sha1)
  {
    var h := DecodeHeader(data);
    if h.Success? {
      DecodedEntriesWellFormed(h.value.rest, h.value.value.version, 0, h.value.value.entries);
    }
  }

  /**
   * The name read from offset k of s: its bytes are s[k..k + |name|], and a
   * NUL-terminated name is followed by its NUL, which is consumed with it.
   */
  lemma NameFraming(s: seq<byte>, k: nat, nameLength: nat)
    requires k <= |s| && DecodeName(s[k..], nameLength).Success?
    ensures var name := DecodeName(s[k..], nameLength).value;
      var nameEnd := k + |name.value|;
      && nameEnd <= |s|
      && s[k..nameEnd] == name.value
      && (nameLength >= LONG_NAME ==> nameEnd < |s| && s[nameEnd] == 0 && name.rest == s[nameEnd + 1..])
      && (nameLength < LONG_NAME ==> name.rest == s[nameEnd..])
  {
    var name := DecodeName(s[k..], nameLength).value;
    assert s[k..][..|name.value|] == s[k..k + |name.value|];
  }

  /**
   * The pad read from offset p of s: between 1 and PadLength bytes, all NUL,
   * fewer only at the end of the data.
   */
  lemma PadFraming(s: seq<byte>, p: nat, entryLength: nat)
    requires p <= |s| && DecodePadding(s[p..], entryLength).Success?
    ensures var rest := DecodePadding(s[p..], entryLength).value;
      var consumed := |s| - |rest|;
      && p < consumed <= p + PadLength(entryLength)
      && rest == s[consumed..]
      && PadOk(s[p..consumed])
      && (consumed < p + PadLength(entryLength) ==> rest == [])
  {
    var rest := DecodePadding(s[p..], entryLength).value;
    assert s[p..][..|s| - |rest| - p] == s[p..|s| - |rest|];
  }

  /**
   * The pad check accepts a pad read cut short by the end of the data when
   * what it read is NUL: after a 62-byte entry two NULs are due, one is enough.
   * An empty read, or a read holding a non-NUL byte, is refused.
   */
  lemma ShortPadAccepted()
    ensures PadLength(62) == 2
    ensures DecodePadding([0], 62) == Success([])
    ensures DecodePadding([], 62) == Failure(PaddingNotNul)
    ensures DecodePadding([0, 1], 62) == Failure(PaddingNotNul)
  {
    assert ReadBytes([0, 1], 2).value == [0, 1];
    assert !PadOk([0, 1]) by {
      assert [0, 1][1] as int == 1;
    }
  }

  /**
   * After a short name, a full pad ends the record entrylen + padlen bytes from
   * its start, a multiple of 8 (PadLength); a pad cut short ends the data.
   */
  lemma EntryPadding(s: seq<byte>, version: nat, number: nat)
    requires DecodeEntry(s, version, number).Success?
    requires NameLength(DecodeEntry(s, version, number).value.value.stat.flags) < LONG_NAME
    ensures var d := DecodeEntry(s, version, number).value;
      var e := d.value;
      var padStart := FIXED_SIZE + (if e.extraFlags.Some? then 2 else 0) + |e.name|;
      var entryLength := EntryLength(e.extraFlags.Some?, NameLength(e.stat.flags));
      var consumed := |s| - |d.rest|;
      && (consumed < padStart + PadLength(entryLength) ==> d.rest == [])
      && (d.rest != [] ==> consumed == entryLength + PadLength(entryLength))
  {
    var d := DecodeEntry(s, version, number).value;
    var nameLength := NameLength(d.value.stat.flags);
    var k := FIXED_SIZE + (if d.value.extraFlags.Some? then 2 else 0);
    EntryParts(s, version, number);
    ShortNamePadding(s[k..], nameLength, EntryLength(d.value.extraFlags.Some?, nameLength));
  }

  /** After a short name, a pad read in full means the name was read in full too. */
  lemma ShortNamePadding(t: seq<byte>, nameLength: nat, entryLength: nat)
    requires nameLength < LONG_NAME
    requires DecodeName(t, nameLength).Success?
    requires DecodePadding(DecodeName(t, nameLength).value.rest, entryLength).Success?
    ensures var name := DecodeName(t, nameLength).value;
      var rest := DecodePadding(name.rest, entryLength).value;
      && (|t| - |rest| < |name.value| + PadLength(entryLength) ==> rest == [])
      && (rest != [] ==> |name.value| == nameLength && |t| - |rest| == nameLength + PadLength(entryLength))
  {
  }

  /**
   * A decoded entry is put together from the bytes that follow its fixed part
   * and extra flags: its name and padding are those that DecodeName and
   * DecodePadding read from there.
   */
  lemma EntryParts(s: seq<byte>, version: nat, number: nat)
    requires DecodeEntry(s, version, number).Success?
    ensures var d := DecodeEntry(s, version, number).value;
      var nameLength := NameLength(d.value.stat.flags);
      var k := FIXED_SIZE + (if d.value.extraFlags.Some? then 2 else 0);
      && k <= |s|
      && DecodeName(s[k..], nameLength).Success?
      && DecodeName(s[k..], nameLength).value.value == d.value.name
      && DecodePadding(DecodeName(s[k..], nameLength).value.rest,
           EntryLength(d.value.extraFlags.Some?, nameLength)) == Success(d.rest)
  {
    var fixed := DecodeStat(s).value;
    var flags := fixed.value.flags;
    var extra := DecodeExtraFlags(fixed.rest, Extended(flags) && version == 3).value;
    assert extra.rest == s[FIXED_SIZE + (if extra.value.Some? then 2 else 0)..];
  }
}
