/** The log sink the store node writes its diagnostics to
    (`tgLogger` in plans/standalone/olric.go): every line becomes exactly one
    event of the run environment, a failure, a crash or a plain message. */
module Logger {
  import opened Base
  import opened Runtime

  const ErrorMarker: GoString := "[ERROR]"
  const FatalMarker: GoString := "[FATAL]"

  predicate EndsWithNewline(b: GoString)
  {
    |b| > 0 && b[|b| - 1] == '\n'
  }

  /** `bytes.TrimSuffix(b, "\n")`: drops one trailing newline, if any. */
  function TrimNewline(b: GoString): (r: GoString)
    ensures b == r + (if EndsWithNewline(b) then ['\n'] else [])
  {
    if EndsWithNewline(b) then b[..|b| - 1] else b
  }

  /** Only one newline goes, however many the line ends with. */
  lemma TrimOnlyOne(b: GoString)
    ensures TrimNewline(b + ['\n', '\n']) == b + ['\n']
  {
    assert (b + ['\n', '\n'])[..|b| + 1] == b + ['\n'];
  }

  /** `needle` starts at position `i` of `hay`. */
  predicate OccursAt(hay: GoString, needle: GoString, i: int)
  {
    0 <= i <= |hay| - |needle| && hay[i..i + |needle|] == needle
  }

  /** `needle` occurs somewhere in `hay` (the empty needle occurs everywhere). */
  ghost predicate Occurs(hay: GoString, needle: GoString)
  {
    exists i :: OccursAt(hay, needle, i)
  }

  /** `bytes.Contains`, as a left-to-right scan. */
  function Contains(hay: GoString, needle: GoString): (r: bool)
    ensures r <==> Occurs(hay, needle)
    decreases |hay|
  {
    if |needle| > |hay| then
      assert forall i :: !OccursAt(hay, needle, i);
      false
    else if hay[..|needle|] == needle then
      assert OccursAt(hay, needle, 0);
      true
    else
      var r := Contains(hay[1..], needle);
      assert r ==> Occurs(hay, needle) by {
        if r {
          var i :| OccursAt(hay[1..], needle, i);
          assert OccursAt(hay, needle, i + 1);
        }
      }
      assert Occurs(hay, needle) ==> r by {
        if Occurs(hay, needle) {
          var i :| OccursAt(hay, needle, i);
          assert i != 0;
          assert OccursAt(hay[1..], needle, i - 1);
        }
      }
      r
  }

  datatype Severity = Error | Fatal | Info

  /** The ordered `switch`: the error marker is looked for first. */
  function Classify(line: GoString): (s: Severity)
    ensures s == Error <==> Occurs(line, ErrorMarker)
    ensures s == Fatal <==> !Occurs(line, ErrorMarker) && Occurs(line, FatalMarker)
    ensures s == Info <==> !Occurs(line, ErrorMarker) && !Occurs(line, FatalMarker)
  {
    if Contains(line, ErrorMarker) then Error
    else if Contains(line, FatalMarker) then Fatal
    else Info
  }

  /** The event one written line produces. */
  function LineEvent(b: GoString): (e: Event)
    ensures e.text == TrimNewline(b)
    ensures e.Failure? <==> Classify(TrimNewline(b)) == Error
    ensures e.Crash? <==> Classify(TrimNewline(b)) == Fatal
    ensures e.Message? <==> Classify(TrimNewline(b)) == Info
  {
    var line := TrimNewline(b);
    match Classify(line)
    case Error => Failure(line)
    case Fatal => Crash(line)
    case Info => Message(line)
  }

  /** A line that carries both markers is a failure, not a crash. */
  lemma ErrorBeforeFatal(b: GoString)
    requires Occurs(TrimNewline(b), ErrorMarker) && Occurs(TrimNewline(b), FatalMarker)
    ensures LineEvent(b) == Failure(TrimNewline(b))
  {
  }

  class TgLogger {
    const runenv: RunEnv

    constructor (runenv: RunEnv)
      ensures this.runenv == runenv
    {
      this.runenv := runenv;
    }

    /** `Write`: records one event and reports the trimmed length; the error
        result is always nil. */
    method Write(b: GoString) returns (n: int, err: Option<GoString>)
      modifies runenv
      ensures runenv.events == old(runenv.events) + [LineEvent(b)]
      ensures n == if EndsWithNewline(b) then |b| - 1 else |b|
      ensures err == None
    {
      var line := TrimNewline(b);
      if Contains(line, ErrorMarker) {
        runenv.RecordFailure(line);
      } else if Contains(line, FatalMarker) {
        runenv.RecordCrash(line);
      } else {
        runenv.RecordMessage(line);
      }
      n, err := |line|, None;
    }
  }
}
