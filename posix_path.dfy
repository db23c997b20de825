/**
 * The POSIX path functions the destination guard relies on: os.path.join of
 * the destination directory and an entry name, and os.path.abspath of the
 * result, which for an absolute path is os.path.normpath. Paths are byte
 * strings; '/' is the only separator.
 */
module PosixPath {
  import opened Wrappers
  import opened Bytes

  const SEP: byte := 0x2F
  const DOT: byte := 0x2E
  const DOTDOT: seq<byte> := [DOT, DOT]

  predicate NoSep(p: seq<byte>) {
    forall k :: 0 <= k < |p| ==> p[k] != SEP
  }

  predicate StartsWith(s: seq<byte>, prefix: seq<byte>) {
    |prefix| <= |s| && s[..|prefix|] == prefix
  }

  /** The index of the first separator, if any. */
  function FindSep(p: seq<byte>): (r: Option<nat>)
    ensures r.Some? ==> r.value < |p| && p[r.value] == SEP && NoSep(p[..r.value])
    ensures r.None? ==> NoSep(p)
  {
    if p == [] then None
    else if p[0] == SEP then Some(0)
    else match FindSep(p[1..])
      case None => None
      case Some(i) =>
        assert p[..i + 1] == [p[0]] + p[1..][..i];
        Some(i + 1)
  }

  /** p.split("/"): the pieces between separators, empty ones included. */
  function Split(p: seq<byte>): (cs: seq<seq<byte>>)
    ensures |cs| >= 1
    ensures forall c <- cs :: NoSep(c)
    decreases |p|
  {
    match FindSep(p)
    case None => [p]
    case Some(i) => [p[..i]] + Split(p[i + 1..])
  }

  /** "/".join(cs). */
  function JoinComponents(cs: seq<seq<byte>>): seq<byte> {
    if cs == [] then []
    else if |cs| == 1 then cs[0]
    else cs[0] + [SEP] + JoinComponents(cs[1..])
  }

  /** Joining the pieces of a split gives the path back. */
  lemma {:induction false} JoinSplit(p: seq<byte>)
    ensures JoinComponents(Split(p)) == p
    decreases |p|
  {
    match FindSep(p)
    case None =>
    case Some(i) =>
      var rest := p[i + 1..];
      JoinSplit(rest);
      assert Split(p) == [p[..i]] + Split(rest);
      assert p == p[..i] + [SEP] + rest;
  }

  /** A separator-free piece followed by a separator: the split stops at that separator. */
  lemma FindSepAfterPiece(c: seq<byte>, rest: seq<byte>)
    requires NoSep(c)
    ensures FindSep(c + [SEP] + rest) == Some(|c|)
    decreases |c|
  {
    if c != [] {
      assert (c + [SEP] + rest)[1..] == c[1..] + [SEP] + rest;
      FindSepAfterPiece(c[1..], rest);
    }
  }

  /** Splitting a join of separator-free pieces gives the pieces back. */
  lemma {:induction false} SplitJoin(cs: seq<seq<byte>>)
    requires cs != [] && forall c <- cs :: NoSep(c)
    ensures Split(JoinComponents(cs)) == cs
    decreases |cs|
  {
    assert cs[0] in cs;
    if |cs| > 1 {
      var rest := JoinComponents(cs[1..]);
      FindSepAfterPiece(cs[0], rest);
      var p := cs[0] + [SEP] + rest;
      assert p[..|cs[0]|] == cs[0] && p[|cs[0]| + 1..] == rest;
      SplitJoin(cs[1..]);
    }
  }

  /** Joining two non-empty lists of pieces puts one separator between them. */
  lemma {:induction false} JoinAppend(a: seq<seq<byte>>, b: seq<seq<byte>>)
    requires a != [] && b != []
    ensures JoinComponents(a + b) == JoinComponents(a) + [SEP] + JoinComponents(b)
    decreases |a|
  {
    if |a| > 1 {
      assert (a + b)[1..] == a[1..] + b;
      JoinAppend(a[1..], b);
    } else {
      assert (a + b)[1..] == b;
    }
  }

  /** The split of x + "/" + y is the split of x followed by the split of y. */
  lemma SplitAppend(x: seq<byte>, y: seq<byte>)
    ensures Split(x + [SEP] + y) == Split(x) + Split(y)
  {
    JoinSplit(x);
    JoinSplit(y);
    JoinAppend(Split(x), Split(y));
    SplitJoin(Split(x) + Split(y));
  }

  /** os.path.join(a, b): b alone when it is absolute, otherwise a, a separator if a lacks one, and b. */
  function Join(a: seq<byte>, b: seq<byte>): (r: seq<byte>)
    ensures |b| > 0 && b[0] == SEP ==> r == b
    ensures !(|b| > 0 && b[0] == SEP) ==> StartsWith(r, a)
  {
    if |b| > 0 && b[0] == SEP then b
    else if a == [] || a[|a| - 1] == SEP then a + b
    else a + [SEP] + b
  }

  /** A name that is not absolute ends the joined path, after a separator only when the directory lacks one. */
  lemma JoinAppendsName(a: seq<byte>, b: seq<byte>)
    requires !(|b| > 0 && b[0] == SEP)
    ensures var r := Join(a, b);
      && |a| + |b| <= |r| && r[..|a|] == a && r[|r| - |b|..] == b
      && r[|a|..|r| - |b|] == (if a == [] || a[|a| - 1] == SEP then [] else [SEP])
  {
  }

  /** The leading separators normpath keeps: none, one, or exactly two when the path starts with exactly two. */
  function InitialSlashes(p: seq<byte>): (n: nat)
    ensures n <= 2 && n <= |p|
    ensures forall k :: 0 <= k < n ==> p[k] == SEP
    ensures (n == 0) == (p == [] || p[0] != SEP)
  {
    if p == [] || p[0] != SEP then 0
    else if |p| >= 2 && p[1] == SEP && !(|p| >= 3 && p[2] == SEP) then 2
    else 1
  }

  /**
   * One turn of normpath's loop: an empty piece or "." is dropped, ".."
   * removes the last kept piece, unless there is none (kept for a relative
   * path, dropped at the root) or the last kept piece is itself "..".
   */
  function Keep(rooted: bool, kept: seq<seq<byte>>, c: seq<byte>): seq<seq<byte>> {
    if c == [] || c == [DOT] then kept
    else if c != DOTDOT || (!rooted && kept == []) || (kept != [] && kept[|kept| - 1] == DOTDOT) then kept + [c]
    else if kept != [] then kept[..|kept| - 1]
    else kept
  }

  /** normpath's loop over the pieces. */
  function Fold(rooted: bool, kept: seq<seq<byte>>, cs: seq<seq<byte>>): seq<seq<byte>>
    decreases |cs|
  {
    if cs == [] then kept else Fold(rooted, Keep(rooted, kept, cs[0]), cs[1..])
  }

  /** os.path.normpath. */
  function Normpath(p: seq<byte>): (r: seq<byte>)
    ensures r != []
  {
    if p == [] then [DOT]
    else
      var slashes := InitialSlashes(p);
      var path := p[..slashes] + JoinComponents(Fold(slashes > 0, [], Split(p)));
      if path == [] then [DOT] else path
  }

  /**
   * os.path.abspath(os.path.join(destDir, name)). For an absolute destDir the
   * join is absolute, and abspath of an absolute path is its normpath.
   */
  function DestPath(destDir: seq<byte>, name: seq<byte>): seq<byte> {
    Normpath(Join(destDir, name))
  }

  /** A piece normpath keeps as it is. */
  predicate Proper(c: seq<byte>) {
    c != [] && c != [DOT] && c != DOTDOT
  }

  /** What os.path.abspath returns: "/" or "/" followed by proper pieces. */
  predicate AbsNormal(d: seq<byte>) {
    |d| >= 1 && d[0] == SEP && (d == [SEP] || forall c <- Split(d[1..]) :: Proper(c))
  }

  /** The pieces that are neither empty nor ".". */
  function Named(cs: seq<seq<byte>>): (r: seq<seq<byte>>)
    ensures forall c <- r :: c in cs && c != [] && c != [DOT]
  {
    if cs == [] then []
    else if cs[0] == [] || cs[0] == [DOT] then Named(cs[1..])
    else [cs[0]] + Named(cs[1..])
  }

  /** Folding a + b is folding b after a. */
  lemma {:induction false} FoldAppend(rooted: bool, kept: seq<seq<byte>>, a: seq<seq<byte>>, b: seq<seq<byte>>)
    ensures Fold(rooted, kept, a + b) == Fold(rooted, Fold(rooted, kept, a), b)
    decreases |a|
  {
    if a != [] {
      assert (a + b)[0] == a[0] && (a + b)[1..] == a[1..] + b;
      FoldAppend(rooted, Keep(rooted, kept, a[0]), a[1..], b);
    } else {
      assert a + b == b;
    }
  }

  /** Without "..", the fold keeps exactly the named pieces, in order. */
  lemma {:induction false} FoldWithoutDotDot(rooted: bool, kept: seq<seq<byte>>, cs: seq<seq<byte>>)
    requires DOTDOT !in cs
    ensures Fold(rooted, kept, cs) == kept + Named(cs)
    decreases |cs|
  {
    if cs != [] {
      assert DOTDOT !in cs[1..] by {
        assert forall c <- cs[1..] :: c in cs;
      }
      if cs[0] == [] || cs[0] == [DOT] {
        FoldWithoutDotDot(rooted, kept, cs[1..]);
      } else {
        FoldWithoutDotDot(rooted, kept + [cs[0]], cs[1..]);
      }
    }
  }

  /** Proper pieces are all named. */
  lemma {:induction false} NamedProper(cs: seq<seq<byte>>)
    requires forall c <- cs :: Proper(c)
    ensures Named(cs) == cs
    decreases |cs|
  {
    if cs != [] {
      assert cs[0] in cs;
      NamedProper(cs[1..]);
    }
  }

  /** Where a piece of the split sits in the path. */
  predicate OccursAt(s: seq<byte>, t: seq<byte>, i: nat) {
    i + |t| <= |s| && s[i..i + |t|] == t
  }

  /** Every piece of a split occurs in the path. */
  lemma {:induction false} PiecesOccur(p: seq<byte>, c: seq<byte>)
    requires c in Split(p)
    ensures exists i :: OccursAt(p, c, i)
    decreases |p|
  {
    match FindSep(p)
    case None =>
      assert OccursAt(p, c, 0);
    case Some(j) =>
      if c == p[..j] {
        assert OccursAt(p, c, 0);
      } else {
        var rest := p[j + 1..];
        PiecesOccur(rest, c);
        var i: nat :| OccursAt(rest, c, i);
        assert p[j + 1 + i..j + 1 + i + |c|] == rest[i..i + |c|];
        assert OccursAt(p, c, j + 1 + i);
      }
  }

  /** Joined pieces end with the last byte of the last piece. */
  lemma {:induction false} JoinEndsWithLastPiece(cs: seq<seq<byte>>)
    requires cs != [] && cs[|cs| - 1] != []
    ensures var p := JoinComponents(cs); p != [] && p[|p| - 1] == cs[|cs| - 1][|cs[|cs| - 1]| - 1]
    decreases |cs|
  {
    if |cs| > 1 {
      JoinEndsWithLastPiece(cs[1..]);
    }
  }

  /** A path that is empty or starts with a separator has an empty first piece. */
  lemma FirstPieceEmpty(x: seq<byte>)
    ensures x == [] || x[0] == SEP ==> Split(x)[0] == []
  {
  }

  /** The part after the leading "/" of a normalized directory other than "/": it neither starts nor ends with a separator. */
  lemma NormalTail(d: seq<byte>)
    requires AbsNormal(d) && d != [SEP]
    ensures var x := d[1..]; x != [] && x[0] != SEP && x[|x| - 1] != SEP
    ensures DOTDOT !in Split(d[1..]) && Named(Split(d[1..])) == Split(d[1..])
  {
    var x := d[1..];
    var cs := Split(x);
    assert cs[0] in cs && cs[|cs| - 1] in cs;
    FirstPieceEmpty(x);
    JoinSplit(x);
    JoinEndsWithLastPiece(cs);
    assert NoSep(cs[|cs| - 1]);
    NamedProper(cs);
  }

  /** A leading separator splits off one empty piece. */
  lemma SplitRooted(q: seq<byte>)
    ensures Split([SEP] + q) == [[]] + Split(q)
  {
    var p := [SEP] + q;
    assert FindSep(p) == Some(0);
    assert p[..0] == [] && p[1..] == q;
  }

  /** An empty first piece changes nothing. */
  lemma FoldSkipsEmpty(rooted: bool, cs: seq<seq<byte>>)
    ensures Fold(rooted, [], [[]] + cs) == Fold(rooted, [], cs)
  {
    assert ([[]] + cs)[1..] == cs;
  }

  /** normpath of "/" followed by a path that does not start with "/". */
  lemma NormpathSingleRoot(q: seq<byte>)
    requires !(|q| > 0 && q[0] == SEP)
    ensures Normpath([SEP] + q) == [SEP] + JoinComponents(Fold(true, [], Split(q)))
  {
    var p := [SEP] + q;
    SplitRooted(q);
    FoldSkipsEmpty(true, Split(q));
    assert InitialSlashes(p) == 1 && p[..1] == [SEP];
  }

  /** The case destDir == "/". */
  lemma DestPathInsideRoot(name: seq<byte>)
    requires !(|name| > 0 && name[0] == SEP)
    ensures StartsWith(DestPath([SEP], name), [SEP])
  {
    assert Join([SEP], name) == [SEP] + name;
    NormpathSingleRoot(name);
  }

  /** The case of a directory below the root. */
  lemma DestPathInsideDirectory(destDir: seq<byte>, name: seq<byte>)
    requires AbsNormal(destDir) && destDir != [SEP]
    requires DOTDOT !in Split(name) && !(|name| > 0 && name[0] == SEP)
    ensures StartsWith(DestPath(destDir, name), destDir)
  {
    var x := destDir[1..];
    var q := x + [SEP] + name;
    var joined := JoinComponents(Split(x) + Named(Split(name)));
    assert DestPath(destDir, name) == [SEP] + joined by {
      JoinUnderDirectory(destDir, name);
      NormalTail(destDir);
      assert q[0] == x[0];
      NormpathSingleRoot(q);
      FoldUnderDirectory(x, name);
    }
    JoinPrefix(x, Named(Split(name)));
    PrefixUnderRoot(joined, destDir);
  }

  lemma PrefixUnderRoot(joined: seq<byte>, d: seq<byte>)
    requires |d| >= 1 && d[0] == SEP && StartsWith(joined, d[1..])
    ensures StartsWith([SEP] + joined, d)
  {
    assert ([SEP] + joined)[..|d|] == [SEP] + joined[..|d| - 1];
  }

  /** os.path.join below a directory that does not end with "/". */
  lemma JoinUnderDirectory(destDir: seq<byte>, name: seq<byte>)
    requires AbsNormal(destDir) && destDir != [SEP]
    requires !(|name| > 0 && name[0] == SEP)
    ensures Join(destDir, name) == [SEP] + (destDir[1..] + [SEP] + name)
  {
    NormalTail(destDir);
    assert destDir[|destDir| - 1] == destDir[1..][|destDir| - 2];
    assert destDir == [SEP] + destDir[1..];
  }

  /** The fold over the pieces of x + "/" + name: those of x, then the named pieces of name. */
  lemma FoldUnderDirectory(x: seq<byte>, name: seq<byte>)
    requires DOTDOT !in Split(x) && Named(Split(x)) == Split(x)
    requires DOTDOT !in Split(name)
    ensures Fold(true, [], Split(x + [SEP] + name)) == Split(x) + Named(Split(name))
  {
    var xs, ns := Split(x), Split(name);
    SplitAppend(x, name);
    FoldAppend(true, [], xs, ns);
    FoldWithoutDotDot(true, [], xs);
    assert [] + Named(xs) == xs;
    assert Fold(true, [], xs) == xs;
    FoldWithoutDotDot(true, xs, ns);
  }

  /** Joining more pieces after the pieces of x extends x. */
  lemma JoinPrefix(x: seq<byte>, named: seq<seq<byte>>)
    ensures StartsWith(JoinComponents(Split(x) + named), x)
  {
    JoinSplit(x);
    if named == [] {
      assert Split(x) + named == Split(x);
    } else {
      JoinAppend(Split(x), named);
    }
  }

  /**
   * Under a normalized destination directory, a name without a ".." piece
   * that does not start with "/" resolves to a path that starts with the
   * directory.
   */
  lemma DestPathInside(destDir: seq<byte>, name: seq<byte>)
    requires AbsNormal(destDir)
    requires DOTDOT !in Split(name) && !(|name| > 0 && name[0] == SEP)
    ensures StartsWith(DestPath(destDir, name), destDir)
  {
    if destDir == [SEP] {
      DestPathInsideRoot(name);
    } else {
      DestPathInsideDirectory(destDir, name);
    }
  }
}
