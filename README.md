# git_dump: the index decoder, the name guard, the work queue and the object fetch loop

git_dump.py downloads the `.git` directory of a web site that serves it by
mistake. The script:

1. fetches `<base>/.git/index`, the Git index file;
2. decodes the index with `GitIndexParser.parse`;
3. keeps every entry whose stripped name passes `Scanner.is_valid_name`;
4. queues the (SHA-1, name) pairs it keeps;
5. fetches each queued object from `/objects/<sha1[:2]>/<sha1[2:]>` and inflates it, making up to three attempts.

This project models those steps in Dafny and proves what they promise.

- **GitIndex** (`git_index.dfy`) is the index decoder as functions over bytes. Each function returns the value it read and the bytes left unread after it. The functions cover:
  - the 12-byte header (the "DIRC" signature, the version, which must be 2 or 3, and the entry count);
  - the 62 fixed bytes of an entry (ten big-endian u32 fields, the SHA-1 as 40 hex digits, the u16 flags);
  - the flag bits;
  - the extra-flags word of extended version 3 entries;
  - short and NUL-terminated names;
  - the 1 to 8 NUL padding bytes;
  - the entry loop.

  The layout is the Git index format of gitformat-index ("The Git index file has the following format", "Index entry"), as this source reads it. For NUL-terminated names the source's framing departs from that format (see below).
- **IndexProperties** (`index_properties.dfy`) holds the lemmas about the decoder:
  - the signature and version checks, and the order in which they happen;
  - header first, then exactly the announced number of entries, numbered from 1;
  - the well-formedness of every entry;
  - the byte framing of names and padding.
- **IndexEncoding** (`index_encoding.dfy`) is an encoder for well-formed entries and indexes. The decoder is proved to invert it, from single fields up to whole index files.
- **IndexParser** (`index_parser.dfy`) is `parse` as the source runs it:
  - a `MappedFile` class whose read position every read advances;
  - the `for n in range(entries)` loop;
  - the byte-by-byte scan for the NUL that ends a long name.

  Each method is proved to compute exactly what the GitIndex functions specify.
- **LongNameScan** (`long_name_scan.dfy`) is the long-name scan exactly as written, including what it does at the end of the data (see Findings).
- **PosixPath** (`posix_path.dfy`) models POSIX `os.path.join` and `os.path.normpath`. For an absolute path, `os.path.abspath` is `normpath`.
- **PathGuard** (`path_guard.dfy`) models `str.strip()` and `Scanner.is_valid_name`. It proves that under a destination directory that `abspath` returned, the guard accepts exactly the names that contain no ".." and do not start with "/" or "\". The third check, `dest_path.startswith(dest_dir)`, therefore never refuses a name the first two let through.
- **WorkQueue** (`work_queue.dfy`) is the `Scanner` constructor's queue:
  - the queue holds the entries' tasks in index order, skipping the header;
  - a task is kept exactly when its stripped name passes the guard;
  - the `rstrip("/")` of the base URL.

  The loop that fills the queue is a method of class `Scanner`, proved against the function `Tasks`.
- **ObjectFetch** (`object_fetch.dfy`) covers `process_file`:
  - the object path, with its round trip back to the object id;
  - the retry loop as a method, proved against a retry function over the outcome of each attempt;
  - lemmas on the number of attempts, where the loop stops, and when it gives up.

Where the code and its documentation disagree, the model follows the code:

- **Truncated padding.** The padding check `set(nuls) == {0}` (git_dump.py:117-118) only fails when the pad read comes back empty or holds a non-NUL byte. A pad cut short by the end of the file, with at least one NUL, is accepted. `DecodePadding` states when the pad is accepted in both directions, and `IndexProperties.ShortPadAccepted` shows one NUL accepted where two are due.
- **Padding after a long name.** For a NUL-terminated name, `entrylen` grows by exactly 1 whatever the name's length (git_dump.py:114). The padding length is computed from that value, not from the real name length. This is not the framing of gitformat-index, which pads every entry, long names included, to a multiple of 8 bytes from its real length. For a 4095-byte name Git writes 4160 bytes, while the source consumes 4159 and reads the next entry one byte early. `IndexEncoding.LongNameEntryLength` states the source's framing: a long-name entry without extra flags spans the name plus 64 bytes, a multiple of 8 only when the name's length is.
- **Bytes after the last entry.** Extensions and the trailing checksum are never read. Anything after the last entry is ignored, and `IndexEncoding.ParseEncodedIndex` holds for any trailer.
- **Error results.** `_check`'s `sys.exit(1)` and `struct.error` on a short integer read are both error results (`ParseError`). Entries yielded before the error are kept in `Parsed.entries`, as a generator would have yielded them.
- **Non-ASCII signature bytes.** The source decodes the signature as ASCII, so a non-ASCII signature raises rather than failing the check. Both are errors, and the model reports both as `NotAGitIndex`. The same holds for an empty index file: `mmap.mmap(o.fileno(), 0, ...)` (git_dump.py:48) raises `ValueError` on it before the signature is read.
- **The SHA-1 read.** When it comes back short at the end of the data, the flags read after it fails. The 62 fixed bytes therefore decode all or nothing (`DecodeStat`, `IndexParser.ReadStat`).

## Model

| member | source | states |
|---|---|---|
| Bytes.ReadBytes | git_dump.py:43 | mmap.read(n) returns the next n bytes, or all that remain when fewer are left; what it returns followed by what remains is the input |
| Bytes.FromBigEndian | git_dump.py:41-44 | an n-byte big-endian ("!" format) value is below 256^n |
| Bytes.FromToBigEndian | git_dump.py:41-44 | reading back the big-endian bytes of a value gives the value |
| Bytes.ToFromBigEndian | git_dump.py:41-44 | every byte string is the big-endian encoding of the value it reads as |
| Bytes.Hexlify | git_dump.py:87 | hexlify gives two lower-case hex digits per byte |
| Bytes.OrderExamples | git_dump.py:41-44 | on concrete bytes, 00 00 00 02 reads as 2 and 01 02 as 0x0102 (most significant byte first), and AB 01 hexlifies to "ab01" (high nibble first) |
| Bytes.UnhexlifyHexlify | git_dump.py:87 | hexlify is injective: unhexlify undoes it |
| Bytes.HexlifyUnhexlify | git_dump.py:87 | every even-length lower-case hex string is the hexlify of some bytes |
| GitIndex.ReadU32 | git_dump.py:41-44 | a u32 read succeeds exactly when 4 bytes remain, gives the big-endian value of those 4 bytes (below 2^32) and consumes exactly them |
| GitIndex.ReadU16 | git_dump.py:41-44 | a u16 read succeeds exactly when 2 bytes remain, gives the big-endian value of those 2 bytes (below 2^16) and consumes exactly them |
| GitIndex.ReadU32s | git_dump.py:66-85 | k u32 reads succeed exactly when 4k bytes remain, give k values below 2^32 and fail only as Truncated |
| GitIndex.DecodeStat | git_dump.py:66-88 | the fixed part succeeds exactly when 62 bytes remain, consumes exactly 62 and gives in-range fields and a 40-digit lower-case hex SHA-1 |
| GitIndex.AssumeValid | git_dump.py:90 | flags & 0x8000 as a bit test on the unbounded integer; UnpackPackFlags states what it reads |
| GitIndex.Extended | git_dump.py:91 | flags & 0x4000; UnpackPackFlags states what it reads |
| GitIndex.Stage | git_dump.py:92-94 | the pair (flags & 0x2000, flags & 0x1000); UnpackPackFlags states what it reads |
| GitIndex.NameLength | git_dump.py:95 | flags & 0xFFF is at most 0xFFF |
| GitIndex.UnpackPackFlags | git_dump.py:90-95 | assume-valid is bit 0x8000, extended 0x4000, stage bits 0x2000/0x1000, name length the low 12 bits: each reads back what was packed |
| GitIndex.PackUnpackFlags | git_dump.py:88-95 | every u16 flags word is exactly the four fields the parser reads from it |
| GitIndex.DecodeExtraFlags | git_dump.py:99-101 | the read fails exactly when the word is asked for and fewer than 2 bytes remain; extra flags are present exactly when asked for, then consume 2 bytes and are below 2^16; otherwise nothing is consumed |
| GitIndex.FirstNul | git_dump.py:107-112 | the result is the position of the first NUL, and is absent exactly when there is no NUL |
| GitIndex.FirstNulAfter | git_dump.py:107-112 | a NUL after i NUL-free bytes is the first NUL, at position i |
| GitIndex.DecodeName | git_dump.py:103-114 | a short name is never refused: it is the next namelen bytes (fewer only at the end of the data); a long name fails, with UnterminatedName, exactly when no NUL follows, and otherwise is the bytes before the first NUL, NUL-free, with the NUL consumed too |
| GitIndex.PadLength | git_dump.py:116 | (8 - entrylen % 8) or 8 lies in 1..8 and brings entrylen to a multiple of 8 |
| GitIndex.DecodePadding | git_dump.py:116-118 | the pad is accepted exactly when the read of min(padlen, remaining) bytes is non-empty and all NUL; then those bytes are consumed, fewer than padlen only at the end of the data |
| IndexProperties.ShortPadAccepted | git_dump.py:116-118 | after a 62-byte entry two NULs are due; a single NUL at the end of the data is accepted, an empty read or a non-NUL byte refused |
| GitIndex.EntryLength | git_dump.py:97-114 | entrylen: 62, plus 2 with extra flags, plus namelen for a short name or 1 for a NUL-terminated one; LongNameEntryLength states its consequence |
| GitIndex.DecodeEntryTail | git_dump.py:97-118 | the part after the fixed 62 bytes keeps the entry's number and consumes at least one byte (the padding) |
| GitIndex.DecodeEntry | git_dump.py:62-120 | a decoded entry carries the number it was asked for and consumes at least one byte |
| GitIndex.DecodeEntries | git_dump.py:62-120 | the loop yields at most count entries, and exactly count when no error stops it |
| GitIndex.DecodeHeader | git_dump.py:51-58 | the header decodes exactly when the data has 12 bytes, opens with "DIRC" and carries version 2 or 3; it is then the big-endian version and count of bytes 4..8 and 8..12, and the entries start at byte 12 |
| GitIndex.ParseIndex | git_dump.py:46-122 | a failed header yields nothing and reports its error; a yielded header has version 2 or 3 |
| GitIndex.Items | git_dump.py:60-120 | the values the generator yields; ItemsLayout states their layout |
| GitIndex.EntryItems | git_dump.py:120 | the entries are yielded in order, one item each |
| IndexProperties.SignatureChecked | git_dump.py:51-52 | the parse fails with NotAGitIndex exactly when the data does not open with "DIRC", and then yields nothing |
| IndexProperties.NoEntryFailsAsNotAGitIndex | git_dump.py:62-120 | no entry failure is reported as a bad signature |
| IndexProperties.VersionChecked | git_dump.py:54-56 | a yielded header has version 2 or 3, read big-endian from bytes 4..8; any other version fails before a header or entry is yielded |
| IndexProperties.HeaderBytesExample | git_dump.py:51-58 | the twelve bytes 44 49 52 43 00 00 00 02 00 00 00 01 decode as a version 2 header announcing one entry, with nothing left over |
| IndexProperties.HeaderThenEntries | git_dump.py:58-65 | the header comes first, then entries numbered 1, 2, ...; never more than announced, exactly as many when no error occurs |
| IndexProperties.ItemsLayout | git_dump.py:60-120 | the generator yields the header when there is one, then one item per entry in order |
| IndexProperties.ItemsInOrder | git_dump.py:60-65 | with the entries numbered from 1, item i is entry i |
| IndexProperties.EntriesNumbered | git_dump.py:62-65 | the loop numbers its entries done+1, done+2, ... |
| IndexProperties.DecodedEntryWellFormed | git_dump.py:87-114 | a decoded entry's flag fields agree with its flags word; extra flags exactly when extended in version 3; the name has the announced length or is NUL-free |
| IndexProperties.DecodedEntriesWellFormed | git_dump.py:62-120 | every entry the loop yields is well formed |
| IndexProperties.ParsedEntriesWellFormed | git_dump.py:87 | every entry the parse yields is well formed; its SHA-1 is 40 lower-case hex digits |
| IndexProperties.NameFraming | git_dump.py:103-114 | the name read at offset k is the bytes at k; a long name is followed by its NUL, which is consumed with it |
| IndexProperties.PadFraming | git_dump.py:116-118 | the padding read at offset p is 1..padlen NUL bytes at p, fewer only at the end of the data |
| IndexProperties.EntryPadding | git_dump.py:97-118 | after a short name, an entry that does not end the data spans entrylen + padlen bytes, a multiple of 8 |
| IndexProperties.ShortNamePadding | git_dump.py:103-118 | after a short name, a full pad means a full name: namelen + padlen bytes were consumed |
| IndexProperties.EntryParts | git_dump.py:62-120 | a decoded entry's name and padding are exactly what the name and padding reads give after its fixed part and extra flags |
| IndexEncoding.ReadU32OfU32 | git_dump.py:41-44 | a u32 read gives back the value struct.pack("!I") wrote, and leaves what follows |
| IndexEncoding.ReadU16OfU16 | git_dump.py:41-44 | a u16 read gives back the value struct.pack("!H") wrote, and leaves what follows |
| IndexEncoding.ReadU32sOfU32s | git_dump.py:66-85 | k u32 reads give back the k values written |
| IndexEncoding.DecodeEncodedStat | git_dump.py:66-88 | the fixed part decodes back to the record it encodes, whatever follows it |
| IndexEncoding.DecodeEncodedName | git_dump.py:103-114 | a short name, or a NUL-free long name with its NUL, decodes back to itself |
| IndexEncoding.DecodeEncodedPadding | git_dump.py:116-118 | padlen NUL bytes are accepted and consumed |
| IndexEncoding.DecodeEncodedExtraFlags | git_dump.py:99-101 | the extra-flags word decodes back to itself when present |
| IndexEncoding.DecodeEncodedEntryTail | git_dump.py:97-118 | extra flags, name and padding decode back to the entry |
| IndexEncoding.DecodeEncodedEntry | git_dump.py:62-120 | every well-formed entry decodes back to itself from its encoding, whatever follows it |
| IndexEncoding.DecodeEncodedEntries | git_dump.py:62-120 | a run of well-formed entries, numbered in order, decodes back to itself with no error |
| IndexEncoding.DecodeEncodedHeader | git_dump.py:51-58 | a header of version 2 or 3 decodes back to itself |
| IndexEncoding.LongNameEntryLength | git_dump.py:97-118 | a NUL-terminated name's entry without extra flags spans the name plus 64 bytes, a multiple of 8 only when the name's length is |
| IndexEncoding.ParseEncodedIndex | git_dump.py:46-122 | an encoded index parses back to its header and entries, whatever bytes follow the last entry |
| LongNameScan.Step | git_dump.py:108-112 | a finished scan stays finished; a NUL breaks the loop without appending; any other read, one byte or, at the end of the data, none, is appended to the list `name` as one more item |
| LongNameScan.Steps | git_dump.py:107-112 | k turns of the `while True` loop; NoNulKeepsScanning and ScanReachesNul state where they lead |
| LongNameScan.NoNulKeepsScanning | git_dump.py:107-112 | with no NUL ahead, no number of turns ends the loop, and each turn appends one item to `name` |
| LongNameScan.AsWrittenScanNeverEnds | git_dump.py:107-112 | on data with no NUL the loop as written never breaks: after k turns `name` holds k items, so it grows until memory runs out; the decoder reports UnterminatedName instead |
| LongNameScan.AtEndGrows | git_dump.py:108-112 | at the end of the data every turn appends an empty read b"" to `name` and changes nothing else |
| LongNameScan.AsWrittenScanSpinsOnA | git_dump.py:107-112 | on the single byte "a" the first turn appends "a", and each of the k turns after it appends b"" without breaking |
| LongNameScan.ScanReachesNul | git_dump.py:107-112 | i + 1 turns consume the bytes up to and including a NUL i bytes ahead |
| LongNameScan.ScanAgreesWithDecodeName | git_dump.py:107-113 | when a NUL follows, the scan as written and DecodeName read the same name and leave the same bytes |
| IndexParser.MappedFile.constructor | git_dump.py:47-48 | the mapped file starts at position 0 |
| IndexParser.MappedFile.Read | git_dump.py:43 | a read gives exactly what ReadBytes specifies and advances the position past it |
| IndexParser.MappedFile.ReadU32 | git_dump.py:41-44 | the cursor's u32 read gives what GitIndex.ReadU32 specifies, and leaves the specified rest |
| IndexParser.MappedFile.ReadU16 | git_dump.py:41-44 | the cursor's u16 read gives what GitIndex.ReadU16 specifies |
| IndexParser.ReadHeader | git_dump.py:51-58 | the header reads compute DecodeHeader, including its errors |
| IndexParser.ReadStat | git_dump.py:66-88 | the ten u32 reads, the 20-byte SHA-1 read with its hex form and the u16 flags read compute DecodeStat, including its Truncated failure |
| IndexParser.ReadExtraFlags | git_dump.py:99-101 | the optional extra-flags read computes DecodeExtraFlags |
| IndexParser.ReadName | git_dump.py:103-114 | the single read or the byte-by-byte NUL scan computes DecodeName, including the end of the data |
| IndexParser.ReadPadding | git_dump.py:116-118 | the pad read and its check compute DecodePadding |
| IndexParser.ReadEntry | git_dump.py:63-120 | one turn of the entry loop computes DecodeEntry |
| IndexParser.ReadEntries | git_dump.py:62-120 | the entry loop computes DecodeEntries: the entries numbered from 1 and the error that stopped it |
| IndexParser.Parse | git_dump.py:46-122 | the whole run computes ParseIndex |
| PosixPath.FindSep | git_dump.py:159 | the position of the first "/" |
| PosixPath.Split | git_dump.py:159 | a path splits into at least one "/"-free piece |
| PosixPath.JoinSplit | git_dump.py:159 | joining the pieces with "/" gives the path back |
| PosixPath.SplitJoin | git_dump.py:159 | splitting a "/"-joined sequence of "/"-free pieces gives the pieces back |
| PosixPath.Join | git_dump.py:159 | os.path.join: a name starting with "/" replaces the directory; any other result starts with the directory |
| PosixPath.JoinAppendsName | git_dump.py:159 | a name not starting with "/" ends the joined path, after the directory and exactly one "/" when the directory does not already end in one, none otherwise |
| PosixPath.InitialSlashes | git_dump.py:159 | normpath keeps at most two leading slashes, and none for a relative path |
| PosixPath.Normpath | git_dump.py:159 | normpath never returns an empty path |
| PosixPath.DestPath | git_dump.py:159 | os.path.abspath(os.path.join(dest_dir, name)); DestPathInside states where it lands |
| PosixPath.FoldWithoutDotDot | git_dump.py:159 | without ".." pieces, normpath only drops empty and "." pieces |
| PosixPath.NormpathSingleRoot | git_dump.py:159 | normpath of "/" followed by a relative path is "/" and the normalised pieces |
| PosixPath.DestPathInsideRoot | git_dump.py:159 | under the directory "/", abspath(join) of a relative name stays under "/" |
| PosixPath.DestPathInsideDirectory | git_dump.py:159 | under any other normalised absolute directory, a relative name without ".." stays under it |
| PosixPath.DestPathInside | git_dump.py:159 | abspath(join(dest_dir, name)) starts with dest_dir for every name with no ".." piece and no leading "/" |
| PathGuard.Strip | git_dump.py:149 | str.strip() as lstrip then rstrip; StripIsSlice, StripEnds and StripIdempotent state what it keeps |
| PathGuard.StripLeadingSpec | git_dump.py:149 | lstrip keeps a suffix, drops only whitespace and stops at a non-whitespace element |
| PathGuard.StripTrailingSpec | git_dump.py:149 | rstrip keeps a prefix, drops only whitespace and stops at a non-whitespace element |
| PathGuard.StripIsSlice | git_dump.py:149 | strip keeps the slice between the leading and the trailing whitespace |
| PathGuard.StripEnds | git_dump.py:149 | a stripped name neither starts nor ends with whitespace |
| PathGuard.StripUnchanged | git_dump.py:149 | a name with no whitespace at either end is left as it is |
| PathGuard.StripIdempotent | git_dump.py:149 | stripping twice is stripping once |
| PathGuard.StripHex | git_dump.py:151 | a SHA-1 in lower-case hex is unchanged by strip |
| PathGuard.ContainsIff | git_dump.py:161 | `t in s` holds exactly when t occurs at some position of s |
| PathGuard.NoDotDotPiece | git_dump.py:161 | a name without ".." has no ".." path piece |
| PathGuard.NoDotDot | git_dump.py:161 | a name with no two dots in a row does not contain ".." |
| PathGuard.IsValidName | git_dump.py:158-164 | the three checks of is_valid_name, over byte names; GuardIff states which names pass |
| PathGuard.GuardIff | git_dump.py:158-164 | under an abspath-normalised directory, the guard accepts exactly the names without ".." and without a leading "/" or "\" |
| PathGuard.GuardRefusesDotDot | git_dump.py:161 | a name with ".." anywhere is refused under every directory |
| PathGuard.GuardExamples | git_dump.py:158-164 | under "/h": "a/b" and "./b" pass; "a/../b", "a..", "/e" and "\e" are refused |
| WorkQueue.TaskFor | git_dump.py:148-151 | the task an item contributes: none for the header, the stripped id and name of an entry whose stripped name passes the guard; QueuedTasksAreSafe and EntryQueuedIff state what it lets through |
| WorkQueue.Tasks | git_dump.py:147-152 | the queue the loop builds from the items; QueuedFromEntry, EntryQueuedIff and FilterMapInOrder state its contents and order |
| WorkQueue.FilterMapInOrder | git_dump.py:147-152 | a kept element's task sits after those of the elements before it and before those after it |
| WorkQueue.FilterMapMembership | git_dump.py:147-152 | a task is queued exactly when some element gives it |
| WorkQueue.TasksOfParse | git_dump.py:147-148 | the header item (no "sha1" key) adds nothing to the queue |
| WorkQueue.QueuedNameValid | git_dump.py:149-151 | every queued name passes the guard |
| WorkQueue.QueuedFromEntry | git_dump.py:147-152 | every queued task is the task of some parsed entry |
| WorkQueue.QueuedTasksAreSafe | git_dump.py:147-152 | every queued task comes from a parsed entry, has a 40-digit lower-case hex id and a stripped name the guard accepts |
| WorkQueue.EntryQueuedIff | git_dump.py:147-152 | under an abspath-normalised directory, an entry is queued exactly when its stripped name has no ".." and no leading "/" or "\" |
| WorkQueue.BaseUrl | git_dump.py:126 | base_url.rstrip("/"); BaseUrlSpec states what it keeps |
| WorkQueue.BaseUrlSpec | git_dump.py:126 | rstrip("/") keeps a prefix of the URL, removes only slashes, and leaves no trailing slash |
| WorkQueue.Scanner.constructor | git_dump.py:125-152 | the scanner keeps the stripped base URL and the directory; its queue is the tasks of the parsed index, in order |
| WorkQueue.Scanner.Enqueue | git_dump.py:147-152 | the loop appends the tasks of the items, in order, to the queue |
| ObjectFetch.ObjectPath | git_dump.py:187-188 | the object path is "/objects/" followed by the id split after two characters: ten characters longer than the id |
| ObjectFetch.ObjectPathRoundTrip | git_dump.py:187-188 | the object path names back the id it was built from, for every id of two or more characters |
| ObjectFetch.ObjectPathInjective | git_dump.py:187-188 | distinct ids, of any length, are fetched from distinct paths |
| ObjectFetch.QueuedObjectPath | git_dump.py:187-188 | a queued task's object path is 50 characters long and names its id |
| ObjectFetch.RetryFrom | git_dump.py:185-205 | the loop from attempt i on: a written or undecompressable attempt ends it, a retried failure moves on, three attempts end it |
| ObjectFetch.Retry | git_dump.py:185-205 | the whole loop; RetryBounds, StopsAtFirstFinal and GaveUpIff state how it ends |
| ObjectFetch.ProcessFile | git_dump.py:182-205 | the loop makes the attempts and ends as the retry specification says; every request is for base URL + object path |
| ObjectFetch.RetryFromBounds | git_dump.py:185-205 | from attempt i, at least one more attempt is made and never more than 3 in all |
| ObjectFetch.RetryBounds | git_dump.py:185 | process_file makes 1 to 3 attempts, and gives up only after 3 |
| ObjectFetch.StopsAtFirstFinal | git_dump.py:190-203 | the loop stops at the first attempt that is written or fails to inflate |
| ObjectFetch.RetryFromExplained | git_dump.py:185-205 | every attempt before the last failed in a retried way, and the last one decides the result |
| ObjectFetch.GaveUpIff | git_dump.py:185-205 | the loop gives up exactly when all three attempts fail in a retried way |
| ObjectFetch.NotFoundThreeTimes | git_dump.py:185-205 | three failed requests: three attempts, nothing saved |
| ObjectFetch.NotZlibNotRetried | git_dump.py:191-194 | data that does not inflate is not requested again |
| ObjectFetch.WriteFailureRetried | git_dump.py:196-205 | a failed write is retried |

## Left out

- Network I/O. `_request_data` (git_dump.py:166-180) and user-agent selection are not modelled. Its salted `hash(url)` cannot be modelled. What an attempt runs into is a parameter of `ProcessFile`.
- `zlib.decompress` (git_dump.py:191) is foreign code. An attempt's `NotZlib` outcome stands for its failure.
- Filesystem effects are not modelled:
  - `makedirs`;
  - the temporary index file and its write;
  - the object writes;
  - `cleanup`.

  A failed write is the `WriteFailed` outcome.
- The destination directory is a parameter. The URL parsing that computes it, `urlparse(...).netloc` and `abspath`, is not modelled.
- `ThreadPoolExecutor` and `scan` (git_dump.py:207-211) are concurrency, so they are not modelled. So are the queue's thread safety and the order in which tasks are processed.
- `mmap`, `open`, `print`, `sys.exit`, logging and `argparse` are not modelled. A `_check` failure is an error result.
- The `pretty` float timestamps `ctime`/`mtime` (git_dump.py:68-78) are floating point. The integer seconds and nanoseconds are kept instead.
- The `"%06o"` text form of `mode` (git_dump.py:82) is not modelled. The integer mode is kept.
- UTF-8 decoding of names with "replace" (git_dump.py:104, 113) is not modelled. Names are raw bytes.
- PathGuard.IsSpaceByte: strip removes only the ASCII whitespace bytes. Non-ASCII whitespace, which the source strips after UTF-8 decoding, is not modelled.
- Windows path rules (`ntpath`) are not modelled. Paths follow POSIX `posixpath`, with "/" as the only separator.
- The index's extensions and trailing checksum are never read by the source, and are not modelled.
- Memory is unbounded in the model. The MemoryError or out-of-memory kill that ends the long-name loop once its list of empty reads fills memory is not modelled. The model shows the list growing by one item per turn.

## Findings

| source | as written | input that shows it | evidently intended | confidence | as-written member | corrected member |
|---|---|---|---|---|---|---|
| git_dump.py:107-112 | the scan for the NUL after a long name (namelen 0xFFF) loops `while True` on `file.read(1)`; at the end of the data read(1) returns b"", which is never b"\x00", so the loop never breaks: each turn appends b"" to `name` until memory runs out | an index whose last entry has flags 0x0FFF and name bytes "a" with no NUL before the end of the file | stop with an error when the data ends before the NUL | not executed | LongNameScan.AsWrittenScanNeverEnds | GitIndex.DecodeName |
