/**
 * Scanner.is_valid_name and the str.strip() applied to entry names before
 * it: the guard that keeps downloaded files inside the destination directory.
 */
module PathGuard {
  import opened Bytes
  import opened PosixPath

  const BACKSLASH: byte := 0x5C

  /** The leading run of whitespace removed, as str.lstrip() does. */
  function StripLeading<T>(s: seq<T>, isSpace: T -> bool): seq<T> {
    if s != [] && isSpace(s[0]) then StripLeading(s[1..], isSpace) else s
  }

  /** The trailing run of whitespace removed, as str.rstrip() does. */
  function StripTrailing<T>(s: seq<T>, isSpace: T -> bool): seq<T> {
    if s != [] && isSpace(s[|s| - 1]) then StripTrailing(s[..|s| - 1], isSpace) else s
  }

  /** str.strip(). */
  function Strip<T>(s: seq<T>, isSpace: T -> bool): seq<T> {
    StripTrailing(StripLeading(s, isSpace), isSpace)
  }

  /** lstrip keeps a suffix, drops only whitespace, and stops at a non-whitespace element. */
  lemma {:induction false} StripLeadingSpec<T>(s: seq<T>, isSpace: T -> bool)
    ensures var r := StripLeading(s, isSpace);
      && |r| <= |s| && r == s[|s| - |r|..]
      && (forall k :: 0 <= k < |s| - |r| ==> isSpace(s[k]))
      && (r != [] ==> !isSpace(r[0]))
    decreases |s|
  {
    if s != [] && isSpace(s[0]) {
      StripLeadingSpec(s[1..], isSpace);
      var r := StripLeading(s, isSpace);
      assert s[1..][|s| - 1 - |r|..] == s[|s| - |r|..];
      forall k | 0 <= k < |s| - |r| ensures isSpace(s[k]) {
        if k > 0 {
          assert s[k] == s[1..][k - 1];
        }
      }
    }
  }

  /** rstrip keeps a prefix, drops only whitespace, and stops at a non-whitespace element. */
  lemma {:induction false} StripTrailingSpec<T>(s: seq<T>, isSpace: T -> bool)
    ensures var r := StripTrailing(s, isSpace);
      && |r| <= |s| && r == s[..|r|]
      && (forall k :: |r| <= k < |s| ==> isSpace(s[k]))
      && (r != [] ==> !isSpace(r[|r| - 1]))
    decreases |s|
  {
    if s != [] && isSpace(s[|s| - 1]) {
      var init := s[..|s| - 1];
      StripTrailingSpec(init, isSpace);
      var r := StripTrailing(s, isSpace);
      assert init[..|r|] == s[..|r|];
      forall k | |r| <= k < |s| ensures isSpace(s[k]) {
        if k < |s| - 1 {
          assert s[k] == init[k];
        }
      }
    }
  }

  /** What Strip keeps is the slice of s between its leading and its trailing whitespace. */
  lemma StripIsSlice<T>(s: seq<T>, isSpace: T -> bool)
    ensures var r := Strip(s, isSpace);
      var i := |s| - |StripLeading(s, isSpace)|;
      && 0 <= i && i + |r| <= |s| && r == s[i..i + |r|]
      && (forall k :: 0 <= k < i ==> isSpace(s[k]))
      && (forall k :: i + |r| <= k < |s| ==> isSpace(s[k]))
  {
    var l := StripLeading(s, isSpace);
    var r := Strip(s, isSpace);
    var i := |s| - |l|;
    StripLeadingSpec(s, isSpace);
    StripTrailingSpec(l, isSpace);
    assert r == s[i..i + |r|] by {
      assert r == l[..|r|] && l == s[i..];
    }
    forall k | i + |r| <= k < |s| ensures isSpace(s[k]) {
      assert s[k] == l[k - i];
    }
  }

  /** What Strip keeps neither starts nor ends with whitespace. */
  lemma StripEnds<T>(s: seq<T>, isSpace: T -> bool)
    ensures var r := Strip(s, isSpace); r != [] ==> !isSpace(r[0]) && !isSpace(r[|r| - 1])
  {
    var l := StripLeading(s, isSpace);
    var r := Strip(s, isSpace);
    StripLeadingSpec(s, isSpace);
    StripTrailingSpec(l, isSpace);
    if r != [] {
      assert r[0] == l[0];
    }
  }

  /** A sequence that neither starts nor ends with whitespace is left as it is. */
  lemma StripUnchanged<T>(s: seq<T>, isSpace: T -> bool)
    requires s != [] ==> !isSpace(s[0]) && !isSpace(s[|s| - 1])
    ensures Strip(s, isSpace) == s
  {
  }

  /** Stripping twice is stripping once. */
  lemma StripIdempotent<T>(s: seq<T>, isSpace: T -> bool)
    ensures Strip(Strip(s, isSpace), isSpace) == Strip(s, isSpace)
  {
    var r := Strip(s, isSpace);
    StripEnds(s, isSpace);
    StripUnchanged(r, isSpace);
  }

  /** The bytes str.strip() removes: ASCII whitespace, including the separators 0x1C to 0x1F. */
  predicate IsSpaceByte(b: byte) {
    b == 0x20 || 0x09 <= b <= 0x0D || 0x1C <= b <= 0x1F
  }

  /** The characters str.strip() removes: those Python's str.isspace() accepts. */
  predicate IsSpaceChar(c: char) {
    var n := c as int;
    || n == 0x20 || 0x09 <= n <= 0x0D || 0x1C <= n <= 0x1F
    || n == 0x85 || n == 0xA0 || n == 0x1680 || 0x2000 <= n <= 0x200A
    || n == 0x2028 || n == 0x2029 || n == 0x202F || n == 0x205F || n == 0x3000
  }

  /** A SHA-1 in lowercase hex has no whitespace to strip. */
  lemma StripHex(sha1: string)
    requires IsLowerHex(sha1)
    ensures Strip(sha1, IsSpaceChar) == sha1
  {
    if sha1 != [] {
      assert IsHexDigit(sha1[0]) && IsHexDigit(sha1[|sha1| - 1]);
    }
    StripUnchanged(sha1, IsSpaceChar);
  }

  /** `t in s`, for byte strings. */
  predicate Contains(s: seq<byte>, t: seq<byte>)
    decreases |s|
  {
    |t| <= |s| && (s[..|t|] == t || Contains(s[1..], t))
  }

  /** Contains holds exactly when t occurs at some position of s. */
  lemma {:induction false} ContainsIff(s: seq<byte>, t: seq<byte>)
    ensures Contains(s, t) <==> exists i: nat :: OccursAt(s, t, i)
    decreases |s|
  {
    if |t| <= |s| {
      if s[..|t|] == t {
        assert OccursAt(s, t, 0);
      } else {
        ContainsIff(s[1..], t);
        if Contains(s[1..], t) {
          var i: nat :| OccursAt(s[1..], t, i);
          assert s[i + 1..i + 1 + |t|] == s[1..][i..i + |t|];
          assert OccursAt(s, t, i + 1);
        }
        if i: nat :| OccursAt(s, t, i) {
          assert i != 0;
          assert s[1..][i - 1..i - 1 + |t|] == s[i..i + |t|];
          assert OccursAt(s[1..], t, i - 1);
        }
      }
    }
  }

  /** A name that does not contain ".." has no ".." piece. */
  lemma NoDotDotPiece(name: seq<byte>)
    requires !Contains(name, DOTDOT)
    ensures DOTDOT !in Split(name)
  {
    ContainsIff(name, DOTDOT);
    if DOTDOT in Split(name) {
      PiecesOccur(name, DOTDOT);
    }
  }

  /** A name with no two dots in a row does not contain "..". */
  lemma NoDotDot(name: seq<byte>)
    requires forall k :: 0 <= k < |name| - 1 ==> name[k] != DOT || name[k + 1] != DOT
    ensures !Contains(name, DOTDOT)
  {
    ContainsIff(name, DOTDOT);
    forall i: nat ensures !OccursAt(name, DOTDOT, i) {
      if i + 2 <= |name| {
        assert name[i..i + 2][0] == name[i] && name[i..i + 2][1] == name[i + 1];
      }
    }
  }

  /** name.startswith(("/", "\\")). */
  predicate LeadingSeparator(name: seq<byte>) {
    |name| > 0 && (name[0] == SEP || name[0] == BACKSLASH)
  }

  /** Scanner.is_valid_name for the destination directory destDir. */
  predicate IsValidName(destDir: seq<byte>, name: seq<byte>) {
    && !Contains(name, DOTDOT)
    && !LeadingSeparator(name)
    && StartsWith(DestPath(destDir, name), destDir)
  }

  /**
   * Under a destination directory as os.path.abspath returns it, the guard
   * accepts exactly the names without ".." and without a leading "/" or "\":
   * those always resolve inside the directory.
   */
  lemma GuardIff(destDir: seq<byte>, name: seq<byte>)
    requires AbsNormal(destDir)
    ensures IsValidName(destDir, name) <==> !Contains(name, DOTDOT) && !LeadingSeparator(name)
  {
    if !Contains(name, DOTDOT) && !LeadingSeparator(name) {
      NoDotDotPiece(name);
      DestPathInside(destDir, name);
    }
  }

  /** A name with ".." anywhere in it is refused, whatever the directory. */
  lemma GuardRefusesDotDot(destDir: seq<byte>, name: seq<byte>, i: nat)
    requires OccursAt(name, DOTDOT, i)
    ensures !IsValidName(destDir, name)
  {
    ContainsIff(name, DOTDOT);
  }

  /** Sample names under the directory "/h". */
  lemma GuardExamples()
    ensures IsValidName([SEP, 0x68], [0x61, SEP, 0x62])                   // "a/b"
    ensures IsValidName([SEP, 0x68], [DOT, SEP, 0x62])                    // "./b"
    ensures !IsValidName([SEP, 0x68], [0x61, SEP, DOT, DOT, SEP, 0x62])   // "a/../b"
    ensures !IsValidName([SEP, 0x68], [0x61, DOT, DOT])                   // "a.." is refused too
    ensures !IsValidName([SEP, 0x68], [SEP, 0x65])                        // "/e"
    ensures !IsValidName([SEP, 0x68], [BACKSLASH, 0x65])                  // "\e"
  {
    var d: seq<byte> := [SEP, 0x68];
    assert Split(d[1..]) == [[0x68]] by {
      assert FindSep([0x68]).None?;
    }
    assert AbsNormal(d);
    NoDotDot([0x61, SEP, 0x62]);
    GuardIff(d, [0x61, SEP, 0x62]);
    NoDotDot([DOT, SEP, 0x62]);
    GuardIff(d, [DOT, SEP, 0x62]);
    var up: seq<byte> := [0x61, SEP, DOT, DOT, SEP, 0x62];
    assert up[2..4] == DOTDOT;
    GuardRefusesDotDot(d, up, 2);
    var trailing: seq<byte> := [0x61, DOT, DOT];
    assert trailing[1..3] == DOTDOT;
    GuardRefusesDotDot(d, trailing, 1);
  }
}
