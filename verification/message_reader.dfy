/** The clock window's header message (`MessageReader.read_message`): the
    first line of a text file that another process rewrites, cached by the
    file's modification time so that the file is only opened again once its
    mtime has strictly increased. The file system is the input `Probe`. */
module MessageReader {
  import opened Text
  import opened Results
  import opened Files

  /** The reader's cache: `_last_modified` and `_cached_message`. */
  datatype Reader = Reader(lastModified: real, cached: string)

  /** A reader as `__init__` leaves it. */
  const Fresh: Reader := Reader(0.0, "")

  const NotFoundText: string := "Message file not found"
  const EmptyText: string := "No message available"
  const ErrorPrefix: string := "Error reading message: "

  /** What the file system answers for the message file on one call. */
  datatype Probe =
    | Absent                               // Path.exists() is False
    | StatFailed(reason: string)           // stat() raised an OSError
    | Present(mtime: real, read: FileRead) // st_mtime, and what open() + readline() give if reached

  /** The reader after a call, and the string the call returned. */
  datatype Reading = Reading(reader: Reader, message: string)

  /** `self._cached_message or "No message available"`. */
  function Shown(cached: string): (text: string)
    ensures text != ""
    ensures cached != "" ==> text == cached
    ensures cached == "" ==> text == EmptyText
  {
    if cached == "" then EmptyText else cached
  }

  /** The strictly-newer test that guards a re-read. */
  predicate Newer(r: Reader, p: Probe)
  {
    p.Present? && p.mtime > r.lastModified
  }

  /** One call of `read_message()`. A missing file and any OSError come back
      as text and leave the cache alone; the file is opened only when its
      mtime is strictly newer than the last one read, and only a successful
      read moves the cache forward. A UnicodeDecodeError is not among the
      exceptions the method catches, so it escapes as a Failure. */
  function ReadMessage(r: Reader, p: Probe): (out: Result<Reading, string>)
    ensures p.Absent? ==> out == Success(Reading(r, NotFoundText))
    ensures p.StatFailed? ==> out == Success(Reading(r, ErrorPrefix + p.reason))
    ensures p.Present? && !Newer(r, p) ==> out == Success(Reading(r, Shown(r.cached)))
    ensures Newer(r, p) && p.read.Contents? ==>
              out == Success(Reading(Reader(p.mtime, FirstLine(p.read.text)), Shown(FirstLine(p.read.text))))
    ensures Newer(r, p) && (p.read.NotFound? || p.read.OsError?) ==>
              out == Success(Reading(r, ErrorPrefix + p.read.reason))
    ensures out.Failure? <==> Newer(r, p) && p.read.DecodeError?
    ensures out.Success? ==> out.value.message != ""
    ensures out.Success? ==> out.value.reader.lastModified >= r.lastModified
    ensures out.Success? && out.value.reader != r ==> Newer(r, p) && p.read.Contents?
  {
    match p
    case Absent => Success(Reading(r, NotFoundText))
    case StatFailed(e) => Success(Reading(r, ErrorPrefix + e))
    case Present(mtime, read) =>
      if mtime > r.lastModified then
        match read
        case Contents(text) =>
          var next := Reader(mtime, FirstLine(text));
          Success(Reading(next, Shown(next.cached)))
        case NotFound(e) => Success(Reading(r, ErrorPrefix + e))
        case OsError(e) => Success(Reading(r, ErrorPrefix + e))
        case DecodeError(e) => Failure(e)
      else
        Success(Reading(r, Shown(r.cached)))
  }

  /** Calling again straight away, with the file as it was, returns the same
      text and changes nothing: the cache is already up to date. */
  lemma ReadAgainChangesNothing(r: Reader, p: Probe)
    requires ReadMessage(r, p).Success?
    ensures ReadMessage(ReadMessage(r, p).value.reader, p) == ReadMessage(r, p)
  {
  }

  /** A sequence of calls, as the window's message timer makes them; the run
      stops at the first escaping exception. */
  datatype Session = Session(reader: Reader, messages: seq<string>)

  function Replay(r: Reader, probes: seq<Probe>): (out: Result<Session, string>)
    ensures out.Success? ==> |out.value.messages| == |probes|
    ensures out.Success? ==> out.value.reader.lastModified >= r.lastModified
    decreases |probes|
  {
    if |probes| == 0 then Success(Session(r, []))
    else
      match ReadMessage(r, probes[0])
      case Failure(e) => Failure(e)
      case Success(first) =>
        match Replay(first.reader, probes[1..])
        case Failure(e) => Failure(e)
        case Success(rest) => Success(Session(rest.reader, [first.message] + rest.messages))
  }

  /** A single call is `read_message()` itself, its text the run's one
      message. */
  lemma ReplayOne(r: Reader, p: Probe)
    ensures ReadMessage(r, p).Failure? ==> Replay(r, [p]) == Failure(ReadMessage(r, p).error)
    ensures ReadMessage(r, p).Success? ==>
              Replay(r, [p]) == Success(Session(ReadMessage(r, p).value.reader, [ReadMessage(r, p).value.message]))
  {
    assert [p][0] == p && [p][1..] == [];
    var first := ReadMessage(r, p);
    if first.Success? {
      assert Replay(first.value.reader, [p][1..]) == Success(Session(first.value.reader, []));
      assert [first.value.message] + [] == [first.value.message];
    }
  }

  /** A finished part of a run followed by further calls from the reader it
      left: its messages, then theirs. A failed part, or a failure in the
      further calls, ends it there. */
  function Then(done: Result<Session, string>, probes: seq<Probe>): Result<Session, string>
  {
    match done
    case Failure(e) => Failure(e)
    case Success(s) =>
      match Replay(s.reader, probes)
      case Failure(e) => Failure(e)
      case Success(t) => Success(Session(t.reader, s.messages + t.messages))
  }

  /** A run of calls is the first part followed by the rest from the reader
      the first part leaves: the messages come in call order, and the first
      escaping exception ends the run. */
  lemma {:induction false} ReplayAppend(r: Reader, a: seq<Probe>, b: seq<Probe>)
    ensures Replay(r, a + b) == Then(Replay(r, a), b)
    decreases |a|
  {
    if |a| == 0 {
      assert a + b == b;
      assert Replay(r, a) == Success(Session(r, []));
      var tail := Replay(r, b);
      if tail.Success? {
        assert [] + tail.value.messages == tail.value.messages;
      }
    } else {
      assert (a + b)[0] == a[0];
      assert (a + b)[1..] == a[1..] + b;
      var first := ReadMessage(r, a[0]);
      if first.Success? {
        var f := first.value;
        ReplayAppend(f.reader, a[1..], b);
        var head := Replay(f.reader, a[1..]);
        if head.Success? {
          var tail := Replay(head.value.reader, b);
          if tail.Success? {
            assert [f.message] + (head.value.messages + tail.value.messages)
                == ([f.message] + head.value.messages) + tail.value.messages;
          }
        }
      }
    }
  }

  /** In a run that does not fail, message `k` is what call `k` returns to
      the reader the first `k` calls leave. */
  lemma MessageAt(r: Reader, probes: seq<Probe>, k: nat)
    requires Replay(r, probes).Success? && k < |probes|
    ensures Replay(r, probes[..k]).Success?
    ensures ReadMessage(Replay(r, probes[..k]).value.reader, probes[k]).Success?
    ensures Replay(r, probes).value.messages[k]
            == ReadMessage(Replay(r, probes[..k]).value.reader, probes[k]).value.message
  {
    assert probes == probes[..k] + probes[k..];
    ReplayAppend(r, probes[..k], probes[k..]);
    var done := Replay(r, probes[..k]);
    assert done.Success?;
    var rest := probes[k..];
    assert rest[0] == probes[k];
    var tail := Replay(done.value.reader, rest);
    assert tail.Success?;
    assert |done.value.messages| == k;
    assert Replay(r, probes).value.messages[k] == tail.value.messages[0];
  }

  /** As long as the file's mtime never passes the last one read, the file is
      never opened: every call on an existing file shows the cached message,
      and the cache ends as it began. */
  lemma {:induction false} StaleUntilNewer(r: Reader, probes: seq<Probe>)
    requires forall k :: 0 <= k < |probes| ==> !Newer(r, probes[k])
    ensures Replay(r, probes).Success?
    ensures Replay(r, probes).value.reader == r
    ensures forall k :: 0 <= k < |probes| && probes[k].Present? ==>
              Replay(r, probes).value.messages[k] == Shown(r.cached)
    decreases |probes|
  {
    if |probes| > 0 {
      StaleUntilNewer(r, probes[1..]);
      var rest := Replay(r, probes[1..]).value.messages;
      assert forall k :: 1 <= k < |probes| ==> probes[k] == probes[1..][k - 1];
      assert forall k :: 1 <= k < |probes| ==> Replay(r, probes).value.messages[k] == rest[k - 1];
    }
  }

  /** The file's first line, stripped, is what a fresh reader shows for it
      (for example "hello" for "hello\nworld\n" with a positive mtime). */
  lemma FreshReaderShowsFirstLine(mtime: real, text: string)
    requires mtime > 0.0
    requires FirstLine(text) != ""
    ensures ReadMessage(Fresh, Present(mtime, Contents(text))) == Success(Reading(Reader(mtime, FirstLine(text)), FirstLine(text)))
  {
  }
}
