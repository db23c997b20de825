/**
 * The source's byte-by-byte scan for the NUL that ends a long name
 * (namelen == 0xFFF), exactly as written: read one byte, stop on a NUL,
 * otherwise append what was read to the list `name` and go on. At the end of
 * the data read(1) returns no bytes, which is not a NUL, so the loop never
 * breaks: each turn appends one more empty read to `name`, and the list grows
 * until memory runs out.
 * GitIndex.DecodeName is the corrected reading: it stops with
 * UnterminatedName there, and agrees with the scan whenever a NUL exists.
 */
module LongNameScan {
  import opened Wrappers
  import opened Bytes
  import opened GitIndex

  /**
   * The unread bytes, the list of reads appended so far (one byte each, or
   * none once the data has ended), and whether the loop has broken out.
   */
  datatype ScanState = ScanState(rest: seq<byte>, name: seq<seq<byte>>, done: bool)

  function Start(s: seq<byte>): ScanState {
    ScanState(s, [], false)
  }

  /** The bytes of a list of reads joined together: b"".join(name). */
  function Join(name: seq<seq<byte>>): seq<byte> {
    if name == [] then [] else Join(name[..|name| - 1]) + name[|name| - 1]
  }

  lemma JoinSnoc(name: seq<seq<byte>>, piece: seq<byte>)
    ensures Join(name + [piece]) == Join(name) + piece
  {
    assert (name + [piece])[..|name|] == name;
  }

  /**
   * One turn of the `while True` loop. A finished scan stays as it is; an
   * unfinished one either breaks on a NUL without appending, or appends one
   * read of at most one byte, the next unread one.
   */
  function Step(st: ScanState): (next: ScanState)
    ensures st.done ==> next == st
    ensures !st.done && st.rest == [] ==> next == ScanState([], st.name + [[]], false)
    ensures !st.done && st.rest != [] ==> next.rest == st.rest[1..] && (next.done <==> st.rest[0] == 0)
    ensures !st.done && next.done ==> next.name == st.name
    ensures !st.done && !next.done ==>
      && |next.name| == |st.name| + 1 && next.name[..|st.name|] == st.name
      && |next.name[|st.name|]| <= 1 && next.name[|st.name|] == st.rest[..|next.name[|st.name|]|]
  {
    if st.done then st
    else
      var b := ReadBytes(st.rest, 1);
      if b.value == [0] then ScanState(b.rest, st.name, true)
      else ScanState(b.rest, st.name + [b.value], false)
  }

  /** The state after k turns of the loop. */
  function Steps(st: ScanState, k: nat): ScanState
    decreases k
  {
    if k == 0 then st else Steps(Step(st), k - 1)
  }

  /** Without a NUL ahead, no number of turns ends the loop, and every turn appends one read. */
  lemma {:induction false} NoNulKeepsScanning(st: ScanState, k: nat)
    requires !st.done && NoNul(st.rest)
    ensures !Steps(st, k).done
    ensures |Steps(st, k).name| == |st.name| + k
    decreases k
  {
    if k > 0 {
      var next := Step(st);
      if st.rest != [] {
        assert NoNul(next.rest) by {
          forall i | 0 <= i < |next.rest| ensures next.rest[i] != 0 {
            assert next.rest[i] == st.rest[i + 1];
          }
        }
      }
      NoNulKeepsScanning(next, k - 1);
    }
  }

  /**
   * As written, the scan never breaks on a long name that runs to the end of
   * the data without a NUL: after k turns the list `name` holds k reads, so
   * it grows without bound. The corrected decoder fails there instead.
   */
  lemma AsWrittenScanNeverEnds(s: seq<byte>, k: nat)
    requires FirstNul(s).None?
    ensures !Steps(Start(s), k).done
    ensures |Steps(Start(s), k).name| == k
    ensures DecodeName(s, LONG_NAME) == Failure(UnterminatedName)
  {
    NoNulKeepsScanning(Start(s), k);
  }

  /** At the end of the data, k turns append k empty reads and change nothing else. */
  lemma {:induction false} AtEndGrows(name: seq<seq<byte>>, k: nat)
    ensures Steps(ScanState([], name, false), k) == ScanState([], name + seq(k, _ => []), false)
    decreases k
  {
    if k > 0 {
      AtEndGrows(name + [[]], k - 1);
      assert (name + [[]]) + seq(k - 1, _ => []) == name + seq(k, _ => []);
    }
  }

  /**
   * The smallest case: one name byte "a" and then the end of the data. The
   * first turn appends "a"; every later turn appends an empty read.
   */
  lemma AsWrittenScanSpinsOnA(k: nat)
    ensures Step(Start([0x61])) == ScanState([], [[0x61]], false)
    ensures Steps(Start([0x61]), k + 1) == ScanState([], [[0x61]] + seq(k, _ => []), false)
    ensures DecodeName([0x61], LONG_NAME) == Failure(UnterminatedName)
  {
    var s: seq<byte> := [0x61];
    assert s[..1] == s && s[1..] == [];
    assert [] + [s] == [s];
    assert FirstNul(s[1..]) == None;
    AtEndGrows([s], k);
  }

  /** One turn on non-empty input: a NUL ends the loop, any other byte is appended. */
  lemma StepOnByte(st: ScanState)
    requires !st.done && st.rest != []
    ensures Step(st) == if st.rest[0] == 0 then ScanState(st.rest[1..], st.name, true)
      else ScanState(st.rest[1..], st.name + [[st.rest[0]]], false)
  {
    assert st.rest[..1] == [st.rest[0]];
  }

  /**
   * From a state i bytes before a NUL, i + 1 turns consume the bytes up to
   * and including it and append the i bytes before it, one read each.
   */
  lemma {:induction false} ScanReachesNul(st: ScanState, i: nat)
    requires !st.done && FirstNul(st.rest) == Some(i)
    ensures var end := Steps(st, i + 1);
      && end.rest == st.rest[i + 1..] && end.done
      && |end.name| == |st.name| + i && Join(end.name) == Join(st.name) + st.rest[..i]
    decreases i
  {
    var next := Step(st);
    assert Steps(st, i + 1) == Steps(next, i);
    StepOnByte(st);
    if i == 0 {
      assert st.rest[..0] == [];
    } else {
      assert FirstNul(next.rest) == Some(i - 1);
      ScanReachesNul(next, i - 1);
      JoinSnoc(st.name, [st.rest[0]]);
      ShiftByOne(st.rest, Join(st.name), i);
    }
  }

  lemma ShiftByOne(rest: seq<byte>, joined: seq<byte>, i: nat)
    requires 0 < i < |rest|
    ensures rest[1..][i..] == rest[i + 1..]
    ensures (joined + [rest[0]]) + rest[1..][..i - 1] == joined + rest[..i]
  {
    assert rest[..i] == [rest[0]] + rest[1..][..i - 1];
  }

  /** When the data holds a NUL, the scan as written and the corrected decoder read the same name. */
  lemma ScanAgreesWithDecodeName(s: seq<byte>)
    requires FirstNul(s).Some?
    ensures var i := FirstNul(s).value; var end := Steps(Start(s), i + 1);
      && end.rest == s[i + 1..] && end.done && Join(end.name) == s[..i]
      && DecodeName(s, LONG_NAME) == Success(Decoded(s[..i], s[i + 1..]))
  {
    var i := FirstNul(s).value;
    ScanReachesNul(Start(s), i);
    assert [] + s[..i] == s[..i];
  }
}
