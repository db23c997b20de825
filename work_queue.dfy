/**
 * The download queue Scanner.__init__ builds from the parsed index: one task
 * (SHA-1, stripped name) per entry whose stripped name passes the guard, in
 * index order. The header item has no "sha1" key and is skipped.
 */
module WorkQueue {
  import opened Wrappers
  import opened Bytes
  import opened GitIndex
  import opened IndexProperties
  import opened PosixPath
  import opened PathGuard
  import IndexParser

  /** A download task: the object id and the file name it is saved under. */
  datatype Task = Task(sha1: string, name: seq<byte>)

  /** The task one parsed item contributes, if any. */
  function TaskFor(destDir: seq<byte>, item: Item): Option<Task> {
    match item
    case HeaderItem(_) => None
    case EntryItem(e) =>
      var name := Strip(e.name, IsSpaceByte);
      if IsValidName(destDir, name) then Some(Task(Strip(e.stat.sha1, IsSpaceChar), name)) else None
  }

  function OptionToSeq<T>(o: Option<T>): seq<T> {
    if o.Some? then [o.value] else []
  }

  /** The values f yields over xs, in the order of xs. */
  function FilterMap<A, B>(f: A -> Option<B>, xs: seq<A>): seq<B> {
    if xs == [] then [] else OptionToSeq(f(xs[0])) + FilterMap(f, xs[1..])
  }

  /** TaskFor for one destination directory, as a function value. */
  function TaskMapper(destDir: seq<byte>): Item -> Option<Task> {
    item => TaskFor(destDir, item)
  }

  /** The queue after the constructor's loop has seen `items`. */
  function Tasks(destDir: seq<byte>, items: seq<Item>): seq<Task> {
    FilterMap(TaskMapper(destDir), items)
  }

  /** Mapping a + b is mapping a, then b. */
  lemma {:induction false} FilterMapConcat<A, B>(f: A -> Option<B>, a: seq<A>, b: seq<A>)
    ensures FilterMap(f, a + b) == FilterMap(f, a) + FilterMap(f, b)
    decreases |a|
  {
    if a == [] {
      assert a + b == b;
    } else {
      assert (a + b)[0] == a[0] && (a + b)[1..] == a[1..] + b;
      FilterMapConcat(f, a[1..], b);
    }
  }

  /** One more element: its value, if any, goes to the back. */
  lemma FilterMapSnoc<A, B>(f: A -> Option<B>, xs: seq<A>, x: A)
    ensures FilterMap(f, xs + [x]) == FilterMap(f, xs) + OptionToSeq(f(x))
  {
    FilterMapConcat(f, xs, [x]);
    assert [x][1..] == [];
  }

  /** Order is kept: the value of element i sits between the values of the elements before and after it. */
  lemma FilterMapInOrder<A, B>(f: A -> Option<B>, xs: seq<A>, i: nat)
    requires i < |xs| && f(xs[i]).Some?
    ensures FilterMap(f, xs) == FilterMap(f, xs[..i]) + [f(xs[i]).value] + FilterMap(f, xs[i + 1..])
  {
    var rest := xs[i..];
    assert xs == xs[..i] + rest;
    FilterMapConcat(f, xs[..i], rest);
    assert rest[0] == xs[i] && rest[1..] == xs[i + 1..];
  }

  /** A value is in the result exactly when some element yields it. */
  lemma {:induction false} FilterMapMembership<A, B>(f: A -> Option<B>, xs: seq<A>, y: B)
    ensures y in FilterMap(f, xs) <==> exists i :: 0 <= i < |xs| && f(xs[i]) == Some(y)
    decreases |xs|
  {
    if xs != [] {
      var rest := xs[1..];
      FilterMapMembership(f, rest, y);
      if y in FilterMap(f, rest) {
        var i :| 0 <= i < |rest| && f(rest[i]) == Some(y);
        assert f(xs[i + 1]) == Some(y);
      }
      if i :| 0 <= i < |xs| && f(xs[i]) == Some(y) {
        if i > 0 {
          assert f(rest[i - 1]) == Some(y);
        }
      }
    }
  }

  /** The queue built from a parse: the header contributes nothing. */
  lemma TasksOfParse(destDir: seq<byte>, p: Parsed)
    ensures Tasks(destDir, Items(p)) == Tasks(destDir, EntryItems(p.entries))
  {
    var f := TaskMapper(destDir);
    var entries := EntryItems(p.entries);
    if p.header.Some? {
      var h := [HeaderItem(p.header.value)];
      assert Items(p) == h + entries;
      FilterMapConcat(f, h, entries);
      assert FilterMap(f, h) == [] by {
        assert h[1..] == [] && f(h[0]) == None;
      }
      assert FilterMap(f, Items(p)) == FilterMap(f, entries);
    } else {
      assert Items(p) == entries;
    }
  }

  /** Every queued name passes the guard. */
  lemma QueuedNameValid(destDir: seq<byte>, items: seq<Item>, t: Task)
    requires t in Tasks(destDir, items)
    ensures IsValidName(destDir, t.name)
  {
    FilterMapMembership(TaskMapper(destDir), items, t);
    var i :| 0 <= i < |items| && TaskFor(destDir, items[i]) == Some(t);
  }

  /** A task some entry gives: the entry's stripped id and name, the name accepted by the guard. */
  lemma TaskOfEntry(destDir: seq<byte>, e: Entry, t: Task)
    requires TaskFor(destDir, EntryItem(e)) == Some(t)
    ensures t == Task(Strip(e.stat.sha1, IsSpaceChar), Strip(e.name, IsSpaceByte))
    ensures IsValidName(destDir, t.name)
  {
  }

  /** A queued task comes from one of the entries. */
  lemma QueuedFromEntry(destDir: seq<byte>, p: Parsed, t: Task)
    requires t in Tasks(destDir, Items(p))
    ensures exists i :: 0 <= i < |p.entries| && TaskFor(destDir, EntryItem(p.entries[i])) == Some(t)
  {
    var items := EntryItems(p.entries);
    TasksOfParse(destDir, p);
    FilterMapMembership(TaskMapper(destDir), items, t);
    var i :| 0 <= i < |items| && TaskMapper(destDir)(items[i]) == Some(t);
    assert items[i] == EntryItem(p.entries[i]);
  }

  /** Every task in the queue comes from a parsed entry, has a 40-digit hex id and a stripped name the guard accepts. */
  lemma QueuedTasksAreSafe(destDir: seq<byte>, data: seq<byte>, t: Task)
    requires t in Tasks(destDir, Items(ParseIndex(data)))
    ensures exists e :: e in ParseIndex(data).entries && t == Task(e.stat.sha1, Strip(e.name, IsSpaceByte))
    ensures |t.sha1| == 40 && IsLowerHex(t.sha1)
    ensures IsValidName(destDir, t.name) && Strip(t.name, IsSpaceByte) == t.name
  {
    var p := ParseIndex(data);
    QueuedFromEntry(destDir, p, t);
    var i :| 0 <= i < |p.entries| && TaskFor(destDir, EntryItem(p.entries[i])) == Some(t);
    var e := p.entries[i];
    TaskOfEntry(destDir, e, t);
    ParsedEntriesWellFormed(data);
    assert |e.stat.sha1| == 40 && IsLowerHex(e.stat.sha1);
    StripHex(e.stat.sha1);
    StripIdempotent(e.name, IsSpaceByte);
  }

  /**
   * Under a destination directory as os.path.abspath returns it, an entry is
   * queued exactly when its stripped name has no ".." and no leading "/" or "\".
   */
  lemma EntryQueuedIff(destDir: seq<byte>, p: Parsed, e: Entry)
    requires AbsNormal(destDir) && e in p.entries
    ensures var name := Strip(e.name, IsSpaceByte);
      (Task(Strip(e.stat.sha1, IsSpaceChar), name) in Tasks(destDir, Items(p)))
        == (!Contains(name, DOTDOT) && !LeadingSeparator(name))
  {
    var name := Strip(e.name, IsSpaceByte);
    var t := Task(Strip(e.stat.sha1, IsSpaceChar), name);
    GuardIff(destDir, name);
    if t in Tasks(destDir, Items(p)) {
      QueuedNameValid(destDir, Items(p), t);
    } else if IsValidName(destDir, name) {
      var items := EntryItems(p.entries);
      var i :| 0 <= i < |p.entries| && p.entries[i] == e;
      assert TaskMapper(destDir)(items[i]) == Some(t);
      FilterMapMembership(TaskMapper(destDir), items, t);
      TasksOfParse(destDir, p);
    }
  }

  predicate IsSlash(c: char) {
    c == '/'
  }

  /** base_url.rstrip("/"). */
  function BaseUrl(url: string): string {
    StripTrailing(url, IsSlash)
  }

  /** The stored base URL is the given one without its trailing slashes, and ends in none. */
  lemma BaseUrlSpec(url: string)
    ensures var b := BaseUrl(url);
      && |b| <= |url| && url[..|b|] == b
      && (forall k :: |b| <= k < |url| ==> url[k] == '/')
      && (b != [] ==> b[|b| - 1] != '/')
  {
    StripTrailingSpec(url, IsSlash);
  }

  /** Scanner, as far as its constructor goes: the base URL, the destination directory and the task queue. */
  class Scanner {
    const baseUrl: string
    const destDir: seq<byte>
    var queue: seq<Task>
    /** The error the parse raised, if it did; the source's process ends there. */
    var failure: Option<ParseError>

    /** Parses the downloaded index and queues a task per accepted entry. */
    constructor(baseUrl: string, destDir: seq<byte>, indexData: seq<byte>)
      ensures this.baseUrl == BaseUrl(baseUrl) && this.destDir == destDir
      ensures queue == Tasks(destDir, Items(ParseIndex(indexData)))
      ensures failure == ParseIndex(indexData).failure
    {
      this.baseUrl := BaseUrl(baseUrl);
      this.destDir := destDir;
      queue := [];
      failure := None;
      new;
      var p := IndexParser.Parse(indexData);
      Enqueue(Items(p));
      failure := p.failure;
    }

    /** The constructor's `for entry in parser.parse()` loop. */
    method Enqueue(items: seq<Item>)
      modifies this
      ensures queue == old(queue) + Tasks(destDir, items)
      ensures failure == old(failure)
    {
      ghost var f := TaskMapper(destDir);
      for i := 0 to |items|
        invariant queue == old(queue) + FilterMap(f, items[..i])
        invariant failure == old(failure)
      {
        assert items[..i + 1] == items[..i] + [items[i]];
        FilterMapSnoc(f, items[..i], items[i]);
        var t := TaskFor(destDir, items[i]);
        assert f(items[i]) == t;
        if t.Some? {
          queue := queue + [t.value];
        }
      }
      assert items[..|items|] == items;
    }
  }
}
