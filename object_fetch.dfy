/**
 * Scanner.process_file: the URL of a loose object, and the loop that makes
 * up to three attempts to download, inflate and write it. The network, zlib
 * and the filesystem are not modelled; what each attempt runs into is given
 * as a function from the attempt number to its outcome.
 */
module ObjectFetch {
  import opened Wrappers
  import opened Bytes
  import opened GitIndex
  import opened WorkQueue

  /** f"/objects/{sha1[:2]}/{sha1[2:]}", with Python's slices that stop at the end of the string. */
  function ObjectPath(sha1: string): (path: string)
    ensures |path| == |sha1| + 10 && path[..9] == "/objects/"
  {
    var k := if |sha1| < 2 then |sha1| else 2;
    "/objects/" + sha1[..k] + "/" + sha1[k..]
  }

  /** The object id an object path names, if the path has that shape. */
  function ObjectId(path: string): Option<string> {
    if |path| >= 12 && path[..9] == "/objects/" && path[11] == '/' then Some(path[9..11] + path[12..])
    else None
  }

  /** The path names back the id it was built from, for every id of at least two characters. */
  lemma ObjectPathRoundTrip(sha1: string)
    ensures ObjectId(ObjectPath(sha1)) == if |sha1| >= 2 then Some(sha1) else None
  {
    var path := ObjectPath(sha1);
    if |sha1| >= 2 {
      assert path == "/objects/" + sha1[..2] + "/" + sha1[2..];
      assert path[..9] == "/objects/" && path[9..11] == sha1[..2] && path[12..] == sha1[2..];
      assert sha1[..2] + sha1[2..] == sha1;
    } else {
      assert |path| == 10 + |sha1|;
    }
  }

  /** Distinct ids are fetched from distinct paths. */
  lemma ObjectPathInjective(a: string, b: string)
    requires ObjectPath(a) == ObjectPath(b)
    ensures a == b
  {
    var path := ObjectPath(a);
    assert |a| == |b|;
    if |a| >= 2 {
      ObjectPathRoundTrip(a);
      ObjectPathRoundTrip(b);
    } else {
      assert path == "/objects/" + a + "/" && path == "/objects/" + b + "/";
      assert a == path[9..|path| - 1] && b == path[9..|path| - 1];
    }
  }

  /** A queued task's object lives at a 50-character path that names its id. */
  lemma QueuedObjectPath(destDir: seq<byte>, data: seq<byte>, t: Task)
    requires t in Tasks(destDir, Items(ParseIndex(data)))
    ensures |ObjectPath(t.sha1)| == 50 && ObjectId(ObjectPath(t.sha1)) == Some(t.sha1)
  {
    QueuedTasksAreSafe(destDir, data, t);
    ObjectPathRoundTrip(t.sha1);
  }

  /** What one attempt of the loop runs into. */
  datatype Attempt =
    | RequestFailed   // _request_data raised: no connection, or a status other than 200
    | NotZlib         // zlib.decompress raised zlib.error
    | WriteFailed     // makedirs, open or write raised
    | Written         // the inflated object was written

  /** How process_file ended for one task. */
  datatype FileResult = Saved | Undecompressable | GaveUp

  /** The number of attempts made, and how they ended. */
  datatype Outcome = Outcome(attempts: nat, result: FileResult)

  const MAX_ATTEMPTS: nat := 3

  /** The outcomes the outer `except Exception` catches, after which the loop goes on. */
  predicate Retried(a: Attempt) {
    a == RequestFailed || a == WriteFailed
  }

  /** The loop from attempt i on. */
  function RetryFrom(attempt: nat -> Attempt, i: nat): Outcome
    requires i <= MAX_ATTEMPTS
    decreases MAX_ATTEMPTS - i
  {
    if i == MAX_ATTEMPTS then Outcome(i, GaveUp)
    else match attempt(i)
      case NotZlib => Outcome(i + 1, Undecompressable)
      case Written => Outcome(i + 1, Saved)
      case _ => RetryFrom(attempt, i + 1)
  }

  /** The whole loop of process_file. */
  function Retry(attempt: nat -> Attempt): Outcome {
    RetryFrom(attempt, 0)
  }

  /** process_file for one task, given the outcome of each attempt: the URLs it requests and how it ends. */
  method ProcessFile(baseUrl: string, task: Task, attempt: nat -> Attempt) returns (requests: seq<string>, result: FileResult)
    ensures Outcome(|requests|, result) == Retry(attempt)
    ensures forall u <- requests :: u == baseUrl + ObjectPath(task.sha1)
  {
    requests := [];
    result := GaveUp;
    for n := 0 to MAX_ATTEMPTS
      invariant |requests| == n && result == GaveUp
      invariant RetryFrom(attempt, n) == Retry(attempt)
      invariant forall u <- requests :: u == baseUrl + ObjectPath(task.sha1)
    {
      var k := if |task.sha1| < 2 then |task.sha1| else 2;
      var folder := "/objects/" + task.sha1[..k] + "/";
      requests := requests + [baseUrl + folder + task.sha1[k..]];
      match attempt(n)
      case NotZlib =>
        result := Undecompressable;
        break;
      case Written =>
        result := Saved;
        break;
      case _ =>
    }
  }

  /** The loop makes one to three attempts, and gives up only after three. */
  lemma {:induction false} RetryFromBounds(attempt: nat -> Attempt, i: nat)
    requires i <= MAX_ATTEMPTS
    ensures var r := RetryFrom(attempt, i);
      && r.attempts <= MAX_ATTEMPTS
      && (i < MAX_ATTEMPTS ==> i < r.attempts)
      && (r.result == GaveUp ==> r.attempts == MAX_ATTEMPTS)
    decreases MAX_ATTEMPTS - i
  {
    if i < MAX_ATTEMPTS && Retried(attempt(i)) {
      RetryFromBounds(attempt, i + 1);
    }
  }

  lemma RetryBounds(attempt: nat -> Attempt)
    ensures 1 <= Retry(attempt).attempts <= MAX_ATTEMPTS
    ensures Retry(attempt).result == GaveUp ==> Retry(attempt).attempts == MAX_ATTEMPTS
  {
    RetryFromBounds(attempt, 0);
  }

  /**
   * The loop stops at the first attempt that inflates or fails to inflate:
   * every earlier attempt failed in a way that is retried.
   */
  lemma {:induction false} StopsAtFirstFinal(attempt: nat -> Attempt, i: nat, k: nat)
    requires i <= k < MAX_ATTEMPTS && !Retried(attempt(k))
    requires forall j :: i <= j < k ==> Retried(attempt(j))
    ensures RetryFrom(attempt, i) == Outcome(k + 1, if attempt(k) == Written then Saved else Undecompressable)
    decreases k - i
  {
    if i < k {
      StopsAtFirstFinal(attempt, i + 1, k);
    }
  }

  /** Every attempt before the last one was retried, and the last one explains the result. */
  lemma {:induction false} RetryFromExplained(attempt: nat -> Attempt, i: nat)
    requires i < MAX_ATTEMPTS
    ensures var r := RetryFrom(attempt, i);
      && i < r.attempts
      && (forall j :: i <= j < r.attempts - 1 ==> Retried(attempt(j)))
      && (r.result == Saved <==> attempt(r.attempts - 1) == Written)
      && (r.result == Undecompressable <==> attempt(r.attempts - 1) == NotZlib)
      && (r.result == GaveUp <==> Retried(attempt(r.attempts - 1)))
    decreases MAX_ATTEMPTS - i
  {
    if Retried(attempt(i)) && i + 1 < MAX_ATTEMPTS {
      RetryFromExplained(attempt, i + 1);
    }
  }

  /** The loop gives up exactly when all three attempts fail in a way that is retried. */
  lemma GaveUpIff(attempt: nat -> Attempt)
    ensures Retry(attempt).result == GaveUp <==> forall j :: 0 <= j < MAX_ATTEMPTS ==> Retried(attempt(j))
  {
    var r := Retry(attempt);
    RetryFromExplained(attempt, 0);
    RetryBounds(attempt);
  }

  /** Three failed requests (a 404 each time, say): three requests, then nothing is saved. */
  lemma NotFoundThreeTimes()
    ensures Retry(_ => RequestFailed) == Outcome(3, GaveUp)
  {
    var attempt: nat -> Attempt := _ => RequestFailed;
    assert RetryFrom(attempt, 2) == Outcome(3, GaveUp);
    assert RetryFrom(attempt, 1) == Outcome(3, GaveUp);
  }

  /** Data that does not inflate is not requested again. */
  lemma NotZlibNotRetried(attempt: nat -> Attempt)
    requires attempt(0) == NotZlib
    ensures Retry(attempt) == Outcome(1, Undecompressable)
  {
  }

  /** A failed write is retried: the object is requested again and then saved. */
  lemma WriteFailureRetried(attempt: nat -> Attempt)
    requires attempt(0) == WriteFailed && attempt(1) == Written
    ensures Retry(attempt) == Outcome(2, Saved)
  {
    StopsAtFirstFinal(attempt, 0, 1);
  }
}
