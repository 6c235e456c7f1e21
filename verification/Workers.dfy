/** The worker lifecycle of parallel_klee_copies.py: copy, run, stream, finalize, under any order of events. */
module Workers {
  import opened Wrappers

  datatype Stream = Stdout | Stderr

  /** A child process; its return code is known once it has been polled or waited for after its exit. */
  datatype Process = Process(returnCode: Option<int>)

  /** poll(): a known return code stays, an unknown one is asked for. */
  function Polled(p: Process, status: Option<int>): Process {
    if p.returnCode.Some? then p else Process(status)
  }

  // ---- lines --------------------------------------------------------------------------------------------

  /** text.split("\n") */
  function SplitLines(text: string): (lines: seq<string>)
    ensures lines != []
  {
    if text == "" then [""]
    else
      var before, c := SplitLines(text[..|text| - 1]), text[|text| - 1];
      if c == '\n' then before + [""] else before[..|before| - 1] + [before[|before| - 1] + [c]]
  }

  function Complete(text: string): seq<string> {
    var lines := SplitLines(text);
    lines[..|lines| - 1]
  }

  function Remainder(text: string): string {
    var lines := SplitLines(text);
    lines[|lines| - 1]
  }

  /** What a stream has emitted after its end: every complete line, and a last incomplete one if there is one. */
  function AllLines(text: string): seq<string> {
    Complete(text) + (if Remainder(text) == "" then [] else [Remainder(text)])
  }

  /** Splitting what is left over together with the next chunk continues the split of the whole text. */
  lemma {:induction false} SplitContinues(text: string, chunk: string)
    ensures SplitLines(text + chunk) == Complete(text) + SplitLines(Remainder(text) + chunk)
    decreases |chunk|
  {
    if chunk == "" {
      assert text + chunk == text && Remainder(text) + chunk == Remainder(text);
      NoNewline(text);
    } else {
      hide SplitLines;
      var n := |chunk| - 1;
      var c, r := chunk[n], Remainder(text);
      SplitContinues(text, chunk[..n]);
      assert text + chunk == (text + chunk[..n]) + [c] && r + chunk == (r + chunk[..n]) + [c];
      SplitNext(text + chunk[..n], c);
      SplitNext(r + chunk[..n], c);
      Extend(Complete(text), SplitLines(r + chunk[..n]), c);
    }
  }

  /** The lines with one more character. */
  function Extended(lines: seq<string>, c: char): seq<string>
    requires lines != []
  {
    if c == '\n' then lines + [""] else lines[..|lines| - 1] + [lines[|lines| - 1] + [c]]
  }

  lemma SplitNext(text: string, c: char)
    ensures SplitLines(text + [c]) == Extended(SplitLines(text), c)
  {
    assert (text + [c])[..|text|] == text;
  }

  lemma Extend(a: seq<string>, b: seq<string>, c: char)
    requires b != []
    ensures Extended(a + b, c) == a + Extended(b, c)
  {
  }

  /** A line on its own is split into itself. */
  lemma {:induction false} NoNewline(text: string)
    ensures SplitLines(Remainder(text)) == [Remainder(text)]
  {
    if text != "" {
      var n := |text| - 1;
      NoNewline(text[..n]);
      var r := Remainder(text[..n]);
      if text[n] != '\n' {
        assert Remainder(text) == r + [text[n]];
        assert (r + [text[n]])[..|r|] == r;
      }
    }
  }

  /** Lines joined with a newline between each two. */
  function JoinLines(lines: seq<string>): string
    requires lines != []
  {
    if |lines| == 1 then lines[0] else JoinLines(lines[..|lines| - 1]) + "\n" + lines[|lines| - 1]
  }

  ghost predicate AreLines(lines: seq<string>) {
    lines != [] && forall i :: 0 <= i < |lines| ==> '\n' !in lines[i]
  }

  /** Splitting gives lines that make up the text again. */
  lemma {:induction false} SplitJoins(text: string)
    ensures AreLines(SplitLines(text)) && JoinLines(SplitLines(text)) == text
  {
    if text != "" {
      var n := |text| - 1;
      SplitJoins(text[..n]);
      var before, c := SplitLines(text[..n]), text[n];
      assert text == text[..n] + [c];
      if c == '\n' {
        assert (before + [""])[..|before|] == before;
      } else {
        LastLonger(before, c);
      }
    }
  }

  lemma LastLonger(lines: seq<string>, c: char)
    requires lines != []
    ensures var m := lines[..|lines| - 1] + [lines[|lines| - 1] + [c]]; JoinLines(m) == JoinLines(lines) + [c]
  {
    var n := |lines| - 1;
    var m := lines[..n] + [lines[n] + [c]];
    if n > 0 {
      assert m[..n] == lines[..n];
      assert (JoinLines(lines[..n]) + "\n" + lines[n]) + [c] == JoinLines(lines[..n]) + "\n" + (lines[n] + [c]);
    }
  }

  /** And there is no other way: the lines of a text are those that join to it. */
  lemma {:induction false} SplitUnique(lines: seq<string>)
    requires AreLines(lines)
    ensures SplitLines(JoinLines(lines)) == lines
  {
    hide SplitLines;
    var n := |lines| - 1;
    SplitLine(lines[n]);
    if n > 0 {
      SplitUnique(lines[..n]);
      SplitLast(JoinLines(lines[..n]), lines[n]);
      assert lines == lines[..n] + [lines[n]];
    }
  }

  lemma SplitLast(text: string, last: string)
    ensures SplitLines(text + "\n" + last) == SplitLines(text) + SplitLines(last)
  {
    hide SplitLines;
    SplitNext(text, '\n');
    SplitContinues(text + "\n", last);
    assert "" + last == last;
  }

  lemma {:induction false} SplitLine(line: string)
    requires '\n' !in line
    ensures SplitLines(line) == [line]
  {
    if line != "" {
      var n := |line| - 1;
      SplitLine(line[..n]);
      assert line == line[..n] + [line[n]] && [line[..n]][..0] == [];
    }
  }

  /** The lines emitted for a chunk extend those of the text so far to those of the longer text. */
  lemma ChunkLines(text: string, chunk: string)
    ensures Complete(text + chunk) == Complete(text) + Complete(Remainder(text) + chunk)
    ensures Remainder(text + chunk) == Remainder(Remainder(text) + chunk)
  {
    hide SplitLines;
    SplitContinues(text, chunk);
  }

  /** Chunk boundaries leave no trace in the lines. */
  lemma LinesIgnoreChunks(a: seq<string>, b: seq<string>)
    requires Joined(a) == Joined(b)
    ensures Emitted(a) == Emitted(b)
  {
    EmittedIsSplit(a);
    EmittedIsSplit(b);
  }

  function Joined(chunks: seq<string>): string {
    if chunks == [] then "" else Joined(chunks[..|chunks| - 1]) + chunks[|chunks| - 1]
  }

  /** The lines the program emits chunk by chunk, and the buffer it is left with. */
  function Emitted(chunks: seq<string>): (seq<string>, string) {
    if chunks == [] then ([], "")
    else
      var before := Emitted(chunks[..|chunks| - 1]);
      var buffer := before.1 + chunks[|chunks| - 1];
      (before.0 + Complete(buffer), Remainder(buffer))
  }

  lemma {:induction false} EmittedIsSplit(chunks: seq<string>)
    ensures Emitted(chunks) == (Complete(Joined(chunks)), Remainder(Joined(chunks)))
  {
    if chunks != [] {
      hide SplitLines, Complete, Remainder;
      var n := |chunks| - 1;
      EmittedIsSplit(chunks[..n]);
      ChunkLines(Joined(chunks[..n]), chunks[n]);
    }
  }

  // ---- one worker ------------------------------------------------------------------------------------------

  /** The return code finalization records when none has been recorded yet. */
  function FinalCode(process: Option<Process>, copy: Option<Process>, otherwise: int): int {
    if process.Some? && process.value.returnCode.Some? then process.value.returnCode.value
    else if copy.Some? && copy.value.returnCode.Some? then copy.value.returnCode.value
    else otherwise
  }

  datatype Event =
    | CopyPolled(status: Option<int>, launched: bool)
    | Ready(stream: Stream, chunk: string)
    | ExitPolled(status: Option<int>)
    | Reaped(copy: bool, code: int)
    | Forced(otherwise: int)

  /** What the events make of a worker: its processes, its code once finalized, and what its streams have said. */
  datatype Life = Life(copy: Option<Process>, copied: bool, process: Option<Process>, code: Option<int>,
      open: set<Stream>, text: map<Stream, string>)

  function Said(l: Life, s: Stream): string {
    if s in l.text then l.text[s] else ""
  }

  /** After start_copy. */
  function Begun(launched: bool): Life {
    var silent := map[Stdout := "", Stderr := ""];
    if launched then Life(Some(Process(None)), false, None, None, {}, silent)
    else Life(None, false, None, Some(1), {}, silent)
  }

  function Next(l: Life, e: Event): Life {
    match e
    case CopyPolled(status, launched) =>
      if l.code.Some? || l.copy.None? || l.copied then l
      else
        var m := l.(copy := Some(Polled(l.copy.value, status)));
        var code := m.copy.value.returnCode;
        if code.None? then m
        else if code.value != 0 then m.(code := code)
        else if launched then m.(copied := true, process := Some(Process(None)), open := {Stdout, Stderr})
        else m.(copied := true, code := Some(1))
    case Ready(s, chunk) =>
      if s !in l.open then l
      else if chunk == "" then l.(open := l.open - {s})
      else l.(text := l.text[s := Said(l, s) + chunk])
    case ExitPolled(status) =>
      if l.code.Some? || l.process.None? then l
      else
        var m := l.(process := Some(Polled(l.process.value, status)));
        if m.open != {} then m else m.(code := m.process.value.returnCode)
    case Reaped(copy, code) =>
      if copy then (if l.copy.None? then l else l.(copy := Some(Polled(l.copy.value, Some(code)))))
      else (if l.process.None? then l else l.(process := Some(Polled(l.process.value, Some(code)))))
    case Forced(otherwise) =>
      var m := l.(open := {});
      if m.code.Some? then m else m.(code := Some(FinalCode(m.process, m.copy, otherwise)))
  }

  function Lived(l: Life, events: seq<Event>): Life {
    if events == [] then l else Next(Lived(l, events[..|events| - 1]), events[|events| - 1])
  }

  /** The chunks of a stream that were read while it was open. */
  function Heard(l: Life, events: seq<Event>, s: Stream): seq<string> {
    if events == [] then []
    else
      var before, e := Lived(l, events[..|events| - 1]), events[|events| - 1];
      Heard(l, events[..|events| - 1], s)
      + (if e.Ready? && e.stream == s && s in before.open && e.chunk != "" then [e.chunk] else [])
  }

  /** What a stream has said is what was heard of it, in order. */
  lemma {:induction false} SaidIsHeard(l: Life, events: seq<Event>, s: Stream)
    ensures Said(Lived(l, events), s) == Said(l, s) + Joined(Heard(l, events, s))
  {
    hide Next, Said;
    if events != [] {
      var n := |events| - 1;
      SaidIsHeard(l, events[..n], s);
      SaidNext(Lived(l, events[..n]), events[n], s);
      var heard := Heard(l, events[..n], s);
      JoinedNext(heard, if events[n].Ready? then events[n].chunk else "", Said(l, s));
    }
  }

  lemma JoinedNext(heard: seq<string>, c: string, before: string)
    ensures before + Joined(heard + [c]) == (before + Joined(heard)) + c
    ensures heard + [] == heard && before + Joined(heard) == (before + Joined(heard)) + ""
  {
    assert (heard + [c])[..|heard|] == heard;
  }

  lemma SaidNext(l: Life, e: Event, s: Stream)
    ensures Said(Next(l, e), s) ==
      Said(l, s) + (if e.Ready? && e.stream == s && s in l.open && e.chunk != "" then e.chunk else "")
  {
  }

  /** Once recorded, a code stays, whatever happens. */
  lemma {:induction false} CodeStays(l: Life, events: seq<Event>)
    requires l.code.Some?
    ensures Lived(l, events).code == l.code
  {
    if events != [] {
      CodeStays(l, events[..|events| - 1]);
    }
  }

  /** A command that exits once its streams have ended is recorded with its exit code; until then nothing changes. */
  lemma ExitIsRecorded(l: Life, c: int)
    requires l.code.None? && l.process == Some(Process(None))
    ensures Next(l, ExitPolled(None)) == l
    ensures Next(l, ExitPolled(Some(c))).process == Some(Process(Some(c)))
    ensures Next(l, ExitPolled(Some(c))).code == if l.open == {} then Some(c) else None
  {
  }

  /** A copy that fails is recorded with its exit code; until it ends nothing changes. */
  lemma CopyFailureIsRecorded(l: Life, c: int, launched: bool)
    requires l.code.None? && l.copy == Some(Process(None)) && !l.copied && c != 0
    ensures Next(l, CopyPolled(None, launched)) == l
    ensures Next(l, CopyPolled(Some(c), launched)).code == Some(c)
  {
  }

  /** No return code of a process is known. */
  predicate Unknown(p: Option<Process>) {
    p.None? || p.value.returnCode.None?
  }

  /** The forced end records whatever code it is given exactly when none is known, recorded or of either process. */
  lemma ForcedCodeExactlyWhen(l: Life)
    ensures (forall c :: Next(l, Forced(c)).code == Some(c))
       <==> l.code.None? && Unknown(l.process) && Unknown(l.copy)
  {
    if !(l.code.None? && Unknown(l.process) && Unknown(l.copy)) {
      var code := Next(l, Forced(0)).code.value;
      assert Next(l, Forced(code + 1)).code == Some(code);
    }
  }

  /** A started command has a finished copy behind it, with code 0. */
  lemma {:induction false} StartedAfterCopy(launched: bool, events: seq<Event>)
    ensures var l := Lived(Begun(launched), events);
            (l.process.Some? ==> l.copied) && (l.copied ==> l.copy == Some(Process(Some(0))))
  {
    if events != [] {
      StartedAfterCopy(launched, events[..|events| - 1]);
    }
  }

  /** So no running command is ever force-finalized with the given code: whatever has happened, it is recorded as 0. */
  lemma RunningForcedToZero(launched: bool, events: seq<Event>, otherwise: int)
    ensures var l := Lived(Begun(launched), events);
            l.code.None? && l.process == Some(Process(None)) ==> Next(l, Forced(otherwise)).code == Some(0)
  {
    StartedAfterCopy(launched, events);
  }

  /** The shortest such life: the copy is done, the command is started, an interrupt ends it. */
  lemma InterruptedWithZero()
    ensures Lived(Begun(true), [CopyPolled(Some(0), true), Forced(130)]).code == Some(0)
  {
    var events := [CopyPolled(Some(0), true), Forced(130)];
    assert events[..1] == [CopyPolled(Some(0), true)] && events[..1][..0] == [];
    RunningForcedToZero(true, events[..1], 130);
  }

  lemma {:induction false} LivedOn(l: Life, a: seq<Event>, b: seq<Event>)
    ensures Lived(l, a + b) == Lived(Lived(l, a), b)
    decreases |b|
  {
    if b == [] {
      assert a + b == a;
    } else {
      var n := |b| - 1;
      LivedOn(l, a, b[..n]);
      assert (a + b)[..|a + b| - 1] == a + b[..n];
    }
  }

  /** Reading a chunk in two pieces, anywhere in a life, makes no difference. */
  lemma PiecesMakeNoDifference(l: Life, before: seq<Event>, s: Stream, a: string, b: string, after: seq<Event>)
    requires a != "" && b != ""
    ensures Lived(l, before + [Ready(s, a), Ready(s, b)] + after) == Lived(l, before + [Ready(s, a + b)] + after)
  {
    var m := Lived(l, before);
    LivedOn(l, before, [Ready(s, a), Ready(s, b)]);
    LivedOn(l, before, [Ready(s, a + b)]);
    LivedOn(l, before + [Ready(s, a), Ready(s, b)], after);
    LivedOn(l, before + [Ready(s, a + b)], after);
    assert [Ready(s, a), Ready(s, b)][..1] == [Ready(s, a)] && [Ready(s, a)][..0] == [];
    assert [Ready(s, a + b)][..0] == [];
    assert (Said(m, s) + a) + b == Said(m, s) + (a + b);
    assert m.text[s := Said(m, s) + a][s := Said(m, s) + a + b] == m.text[s := Said(m, s) + (a + b)];
  }

  class Worker {
    var copyProcess: Option<Process>
    var process: Option<Process>
    var handles: set<Stream>
    var copySucceeded: bool
    var returnCode: Option<int>
    var finalized: bool
    var buffers: map<Stream, string>
    var openStreams: set<Stream>
    var logs: map<Stream, string>
    var emitted: map<Stream, seq<string>>
    var statusLog: seq<int>
    ghost var text: map<Stream, string>

    constructor ()
      ensures Valid() && !finalized && copyProcess.None? && process.None? && !copySucceeded
      ensures openStreams == {} && text == map[Stdout := "", Stderr := ""]
    {
      copyProcess, process, handles, copySucceeded := None, None, {}, false;
      returnCode, finalized, openStreams, statusLog := None, false, {}, [];
      buffers := map[Stdout := "", Stderr := ""];
      logs := map[Stdout := "", Stderr := ""];
      emitted := map[Stdout := [], Stderr := []];
      text := map[Stdout := "", Stderr := ""];
      new;
      NothingEmitted();
    }

    /** Lines and logs of one stream follow its text. */
    ghost predicate StreamValid(s: Stream)
      reads `buffers, `logs, `emitted, `text, `openStreams, `process
    {
      && s in buffers && s in logs && s in emitted && s in text
      && (process.Some? ==> logs[s] == text[s])
      && (s in openStreams ==> buffers[s] == Remainder(text[s]) && emitted[s] == Complete(text[s]))
      && (s !in openStreams ==> buffers[s] == "" && emitted[s] == AllLines(text[s]))
      && (process.None? ==> text[s] == "")
    }

    /** Valid while a worker is being finalized, too. */
    ghost predicate Consistent()
      reads this
    {
      && StreamValid(Stdout) && StreamValid(Stderr)
      && (openStreams != {} ==> !finalized && process.Some? && openStreams <= handles)
      && (process.Some? ==> copySucceeded && copyProcess == Some(Process(Some(0))))
      && (process.Some? && !finalized ==> handles == {Stdout, Stderr})
      && (finalized ==> handles == {} && returnCode.Some? && statusLog == [returnCode.value])
      && (!finalized ==> returnCode.None? && statusLog == [])
    }

    /** Between events a copied worker has been started or finalized. */
    ghost predicate Valid()
      reads this
    {
      Consistent() && (copySucceeded ==> process.Some? || finalized)
    }

    ghost function Now(): Life
      reads this
    {
      Life(copyProcess, copySucceeded, process, returnCode, openStreams, text)
    }

    /** finalize_worker, with the code recorded just before if any. */
    method FinalizeWorker(code: Option<int>)
      requires Consistent() && openStreams == {}
      modifies `handles, `returnCode, `statusLog, `finalized
      ensures Valid() && finalized
      ensures old(finalized) ==> returnCode == old(returnCode) && statusLog == old(statusLog)
      ensures !old(finalized) && code.Some? ==> returnCode == code
      ensures !old(finalized) && code.None? ==>
        && (process.Some? && process.value.returnCode.Some? ==> returnCode == process.value.returnCode)
        && (Unknown(process) && copyProcess.Some? && copyProcess.value.returnCode.Some? ==>
              returnCode == copyProcess.value.returnCode)
        && (Unknown(process) && Unknown(copyProcess) ==> returnCode == Some(1))
    {
      hide StreamValid;
      if finalized {
        return;
      }
      returnCode := code;
      handles := {};
      if returnCode.None? {
        if process.Some? && process.value.returnCode.Some? {
          returnCode := process.value.returnCode;
        } else if copyProcess.Some? && copyProcess.value.returnCode.Some? {
          returnCode := copyProcess.value.returnCode;
        } else {
          returnCode := Some(1);
        }
      }
      statusLog := statusLog + [returnCode.value];
      finalized := true;
    }

    /** start_copy */
    method StartCopy(launched: bool)
      requires Valid() && !finalized && copyProcess.None? && process.None?
      modifies this
      ensures Valid() && process.None? && text == old(text)
      ensures copySucceeded == old(copySucceeded) && openStreams == old(openStreams)
      ensures finalized <==> !launched
      ensures !launched ==> copyProcess.None? && returnCode == Some(1)
      ensures launched ==> copyProcess == Some(Process(None))
    {
      if launched {
        copyProcess := Some(Process(None));
      } else {
        FinalizeWorker(Some(1));
      }
    }

    /** start_worker_process, once the copy has succeeded. */
    method StartWorkerProcess(launched: bool)
      requires Consistent() && !finalized && process.None? && copySucceeded && copyProcess == Some(Process(Some(0)))
      modifies this
      ensures Valid() && copyProcess == old(copyProcess) && copySucceeded && text == old(text)
      ensures finalized <==> !launched
      ensures launched ==> process == Some(Process(None)) && openStreams == {Stdout, Stderr}
      ensures !launched ==> returnCode == Some(1) && process.None? && openStreams == old(openStreams)
    {
      hide SplitLines, Complete, Remainder, AllLines;
      NothingEmitted();
      handles := {Stdout, Stderr};
      logs := map[Stdout := "", Stderr := ""];
      if launched {
        process := Some(Process(None));
        openStreams := {Stdout, Stderr};
        assert StreamValid(Stdout);
        assert StreamValid(Stderr);
      } else {
        logs := logs[Stderr := "failed to start worker command"];
        assert StreamValid(Stdout);
        assert StreamValid(Stderr);
        FinalizeWorker(Some(1));
      }
    }

    /** poll_copy_processes, for this worker. */
    method PollCopy(status: Option<int>, launched: bool)
      requires Valid()
      modifies this
      ensures Valid() && Now() == Next(old(Now()), CopyPolled(status, launched))
      ensures old(finalized) ==> finalized && returnCode == old(returnCode) && statusLog == old(statusLog)
      ensures old(finalized || copyProcess.None? || copySucceeded)
          ==> finalized == old(finalized) && process == old(process)
      ensures !old(finalized || copyProcess.None? || copySucceeded) ==>
        var known := old(copyProcess).value.returnCode;
        var copy := Process(if known.Some? then known else status);
        && copyProcess == Some(copy)
        && (copy.returnCode.None? ==> !finalized && !copySucceeded && process == old(process))
        && (copy.returnCode.Some? && copy.returnCode.value != 0 ==> finalized && returnCode == copy.returnCode)
        && (copy.returnCode == Some(0) && launched
            ==> !finalized && process == Some(Process(None)) && openStreams == {Stdout, Stderr})
        && (copy.returnCode == Some(0) && !launched ==> finalized && returnCode == Some(1))
    {
      if finalized || copyProcess.None? || copySucceeded {
        return;
      }
      copyProcess := Some(Polled(copyProcess.value, status));
      if copyProcess.value.returnCode.None? {
        return;
      }
      if copyProcess.value.returnCode.value != 0 {
        FinalizeWorker(copyProcess.value.returnCode);
      } else {
        copySucceeded := true;
        StartWorkerProcess(launched);
      }
    }

    /** write_worker_output: the log handle is there, the chunk's lines come out, the rest waits. */
    method WriteOutput(s: Stream, decoded: string)
      requires Valid() && s in openStreams
      modifies `buffers, `logs, `emitted, `text
      ensures Valid() && text == old(text)[s := old(text)[s] + decoded]
    {
      hide SplitLines, AllLines, Complete, Remainder;
      assert s in handles;
      logs := logs[s := logs[s] + decoded];
      var buffer := buffers[s] + decoded;
      ChunkLines(text[s], decoded);
      LastAndRest(buffer);
      var lines := SplitLines(buffer);
      buffers := buffers[s := lines[|lines| - 1]];
      emitted := emitted[s := emitted[s] + lines[..|lines| - 1]];
      text := text[s := text[s] + decoded];
      assert StreamValid(s);
      assert StreamValid(if s == Stdout then Stderr else Stdout);
    }

    /** close_worker_stream: a last incomplete line comes out. */
    method CloseStream(s: Stream)
      requires Valid() && s in openStreams
      modifies `buffers, `emitted, `openStreams
      ensures Valid() && openStreams == old(openStreams) - {s}
    {
      hide SplitLines, Complete, Remainder;
      var remainder := buffers[s];
      if remainder != "" {
        emitted := emitted[s := emitted[s] + [remainder]];
        buffers := buffers[s := ""];
      }
      openStreams := openStreams - {s};
    }

    /** drain_worker_streams, for one ready stream of this worker: an empty read is the end. */
    method Drain(s: Stream, chunk: string)
      requires Valid()
      modifies this
      ensures Valid() && Now() == Next(old(Now()), Ready(s, chunk))
      ensures finalized == old(finalized) && returnCode == old(returnCode) && statusLog == old(statusLog)
      ensures process == old(process) && copyProcess == old(copyProcess)
      ensures text == if s in old(openStreams) then old(text)[s := old(text)[s] + chunk] else old(text)
      ensures openStreams == old(openStreams) - (if chunk == "" then {s} else {})
    {
      if s in openStreams {
        if chunk != "" {
          WriteOutput(s, chunk);
        } else {
          CloseStream(s);
          assert text[s] + chunk == text[s];
        }
      }
    }

    /** finalize_exited_workers, for this worker. */
    method FinalizeExited(status: Option<int>)
      requires Valid()
      modifies this
      ensures Valid() && Now() == Next(old(Now()), ExitPolled(status))
      ensures old(finalized) ==> finalized && returnCode == old(returnCode) && statusLog == old(statusLog)
      ensures finalized && !old(finalized)
          ==> openStreams == {} && process.Some? && returnCode == process.value.returnCode
      ensures !old(finalized) && old(process).Some? ==>
        var known := old(process).value.returnCode;
        && process == Some(Process(if known.Some? then known else status))
        && (finalized <==> process.value.returnCode.Some? && openStreams == {})
        && (known.None? && finalized ==> returnCode == status)
      ensures text == old(text) && openStreams == old(openStreams)
    {
      if finalized || process.None? {
        return;
      }
      process := Some(Polled(process.value, status));
      if process.value.returnCode.None? || openStreams != {} {
        return;
      }
      FinalizeWorker(None);
    }

    /** A process reaped by terminate_workers. */
    method Reap(copy: bool, code: int)
      requires Valid()
      modifies `copyProcess, `process
      ensures Valid() && Now() == Next(old(Now()), Reaped(copy, code))
    {
      if copy {
        if copyProcess.Some? {
          copyProcess := Some(Polled(copyProcess.value, Some(code)));
        }
      } else if process.Some? {
        process := Some(Polled(process.value, Some(code)));
      }
    }

    /** force_finalize_workers, for this worker: streams first, then the worker, once. */
    method ForceFinalize(code: int)
      requires Valid()
      modifies this
      ensures Valid() && Now() == Next(old(Now()), Forced(code))
      ensures finalized && process == old(process) && copyProcess == old(copyProcess)
      ensures old(finalized) ==> returnCode == old(returnCode) && statusLog == old(statusLog)
      ensures !old(finalized) && process.Some? && process.value.returnCode.Some? ==>
        returnCode == process.value.returnCode
      ensures !old(finalized) && Unknown(process) && copyProcess.Some? && copyProcess.value.returnCode.Some? ==>
        returnCode == copyProcess.value.returnCode
      ensures !old(finalized) && Unknown(process) && Unknown(copyProcess) ==> returnCode == Some(code)
      ensures !old(finalized) && process == Some(Process(None)) ==> returnCode == Some(0)
      ensures !old(finalized) && process.None? && copyProcess == Some(Process(None)) ==> returnCode == Some(code)
    {
      hide SplitLines, AllLines, Complete, Remainder;
      if Stdout in openStreams {
        CloseStream(Stdout);
      }
      if Stderr in openStreams {
        CloseStream(Stderr);
      }
      assert openStreams == {};
      if finalized {
        return;
      }
      FinalizeWorker(Some(FinalCode(process, copyProcess, code)));
    }

    /** One event of the main loop, of the interrupt handling or of the forced end. */
    method Handle(e: Event)
      requires Valid()
      modifies this
      ensures Valid() && Now() == Next(old(Now()), e)
      ensures old(finalized) ==> finalized && returnCode == old(returnCode) && statusLog == old(statusLog)
    {
      match e
      case CopyPolled(status, launched) => PollCopy(status, launched);
      case Ready(stream, chunk) => Drain(stream, chunk);
      case ExitPolled(status) => FinalizeExited(status);
      case Reaped(copy, code) => Reap(copy, code);
      case Forced(code) => ForceFinalize(code);
    }
  }

  lemma NothingEmitted()
    ensures Complete("") == [] && Remainder("") == "" && AllLines("") == []
  {
  }

  lemma LastAndRest(text: string)
    ensures var lines := SplitLines(text);
        lines[..|lines| - 1] == Complete(text) && lines[|lines| - 1] == Remainder(text)
  {
  }

  // ---- the batch -------------------------------------------------------------------------------------------

  /** An event for one of the workers. */
  datatype Step = Step(worker: nat, event: Event)

  ghost predicate AllValid(workers: seq<Worker>)
    reads workers
  {
    forall i :: 0 <= i < |workers| ==> workers[i].Valid()
  }

  predicate Distinct(workers: seq<Worker>) {
    forall i, j :: 0 <= i < j < |workers| ==> workers[i] != workers[j]
  }

  /** The workers of a batch, one copy started for each as far as that works. */
  method StartAll(launched: seq<bool>) returns (workers: seq<Worker>)
    ensures fresh(workers) && |workers| == |launched| && Distinct(workers) && AllValid(workers)
    ensures forall i :: 0 <= i < |launched| ==> workers[i].Now() == Begun(launched[i])
  {
    hide Worker.Valid, Worker.Now, Begun;
    workers := [];
    for i := 0 to |launched|
      invariant |workers| == i && fresh(workers) && Distinct(workers) && AllValid(workers)
      invariant forall j :: 0 <= j < i ==> workers[j].Now() == Begun(launched[j])
    {
      var w := Launch(launched[i]);
      workers := workers + [w];
    }
  }

  method Launch(launched: bool) returns (w: Worker)
    ensures fresh(w) && w.Valid() && w.Now() == Begun(launched)
  {
    hide SplitLines;
    w := new Worker();
    w.StartCopy(launched);
  }

  /** The events of one worker. */
  function Own(steps: seq<Step>, i: nat): seq<Event> {
    if steps == [] then []
    else
      var last := steps[|steps| - 1];
      Own(steps[..|steps| - 1], i) + (if last.worker == i then [last.event] else [])
  }

  /** An event, the forced end among them: its worker goes one step on; a finalized one keeps code and status. */
  method Deliver(workers: seq<Worker>, step: Step)
    requires Distinct(workers) && AllValid(workers)
    modifies workers
    ensures AllValid(workers)
    ensures forall i :: 0 <= i < |workers| ==>
        workers[i].Now() == if i == step.worker then Next(old(workers[i].Now()), step.event) else old(workers[i].Now())
    ensures forall w ::
        w in workers && old(w.finalized) ==>
          w.finalized && w.returnCode == old(w.returnCode) && w.statusLog == old(w.statusLog)
  {
    hide Worker.Valid, Next;
    if step.worker < |workers| {
      workers[step.worker].Handle(step.event);
    }
  }

  method DeliverAll(workers: seq<Worker>, steps: seq<Step>)
    requires Distinct(workers) && AllValid(workers)
    modifies workers
    ensures AllValid(workers)
    ensures forall i :: 0 <= i < |workers| ==> workers[i].Now() == Lived(old(workers[i].Now()), Own(steps, i))
  {
    hide Worker.Valid, Next, Worker.Now;
    for n := 0 to |steps|
      invariant AllValid(workers)
      invariant forall i :: 0 <= i < |workers| ==> workers[i].Now() == Lived(old(workers[i].Now()), Own(steps[..n], i))
    {
      ghost var was := seq(|workers|, i requires 0 <= i < |workers| reads workers => workers[i].Now());
      Deliver(workers, steps[n]);
      forall i | 0 <= i < |workers|
        ensures workers[i].Now() == Lived(old(workers[i].Now()), Own(steps[..n + 1], i)) {
        assert was[i] == Lived(old(workers[i].Now()), Own(steps[..n], i));
        OwnNext(old(workers[i].Now()), steps, n, i);
      }
    }
    assert steps[..|steps|] == steps;
  }

  lemma OwnNext(l: Life, steps: seq<Step>, n: nat, i: nat)
    requires n < |steps|
    ensures Lived(l, Own(steps[..n + 1], i)) ==
      if i == steps[n].worker then Next(Lived(l, Own(steps[..n], i)), steps[n].event)
      else Lived(l, Own(steps[..n], i))
  {
    hide Next;
    assert steps[..n + 1][..n] == steps[..n];
    var own := Own(steps[..n], i);
    assert (own + [steps[n].event])[..|own|] == own;
    assert own + [] == own;
  }

  /** force_finalize_workers */
  method ForceAll(workers: seq<Worker>, code: int)
    requires Distinct(workers) && AllValid(workers)
    modifies workers
    ensures AllValid(workers) && forall i :: 0 <= i < |workers| ==> workers[i].finalized
    ensures forall i :: 0 <= i < |workers| ==> workers[i].Now() == Next(old(workers[i].Now()), Forced(code))
  {
    hide Worker.Valid, Next, Worker.Now;
    for i := 0 to |workers|
      invariant AllValid(workers) && forall j :: 0 <= j < i ==> workers[j].finalized
      invariant forall j :: 0 <= j < i ==> workers[j].Now() == Next(old(workers[j].Now()), Forced(code))
      invariant forall j :: i <= j < |workers| ==> workers[j].Now() == old(workers[j].Now())
    {
      workers[i].ForceFinalize(code);
    }
  }

  /** A worker's whole life, from its start to the forced end of the batch. */
  function WholeLife(launched: bool, steps: seq<Step>, i: nat, interrupted: bool): Life {
    Next(Lived(Begun(launched), Own(steps, i)), Forced(if interrupted then 130 else 1))
  }

  /** A whole life ends with a code, with closed streams, and with the text that was heard. */
  lemma LifeEnds(launched: bool, steps: seq<Step>, i: nat, interrupted: bool, s: Stream)
    ensures var l := WholeLife(launched, steps, i, interrupted);
            l.code.Some? && l.open == {} && Said(l, s) == Joined(Heard(Begun(launched), Own(steps, i), s))
  {
    var l := Lived(Begun(launched), Own(steps, i));
    SaidIsHeard(Begun(launched), Own(steps, i), s);
    SaidNext(l, Forced(if interrupted then 130 else 1), s);
    assert Said(Begun(launched), s) == "";
  }

  /** A code recorded by an event of a worker is the one its whole life ends with. */
  lemma RecordedForGood(launched: bool, steps: seq<Step>, i: nat, interrupted: bool, before: seq<Event>, e: Event,
      after: seq<Event>)
    requires Own(steps, i) == before + [e] + after
    requires Next(Lived(Begun(launched), before), e).code.Some?
    ensures WholeLife(launched, steps, i, interrupted).code == Next(Lived(Begun(launched), before), e).code
  {
    hide Next;
    var l := Begun(launched);
    LivedOn(l, before + [e], after);
    LivedOn(l, before, [e]);
    assert [e][..0] == [];
    CodeStays(Lived(l, before + [e]), after);
    var forced := Forced(if interrupted then 130 else 1);
    CodeStays(Lived(l, Own(steps, i)), [forced]);
    assert [forced][..0] == [];
  }

  /** In a whole batch, a command that exits with c once its streams have ended is recorded with c. */
  lemma BatchRecordsExit(launched: bool, steps: seq<Step>, i: nat, interrupted: bool, before: seq<Event>, c: int,
      after: seq<Event>)
    requires Own(steps, i) == before + [ExitPolled(Some(c))] + after
    requires var l := Lived(Begun(launched), before); l.code.None? && l.process == Some(Process(None)) && l.open == {}
    ensures WholeLife(launched, steps, i, interrupted).code == Some(c)
  {
    hide Next, WholeLife;
    ExitIsRecorded(Lived(Begun(launched), before), c);
    RecordedForGood(launched, steps, i, interrupted, before, ExitPolled(Some(c)), after);
  }

  /** And a copy that fails with c. */
  lemma BatchRecordsCopyFailure(launched: bool, steps: seq<Step>, i: nat, interrupted: bool, before: seq<Event>, c: int,
      started: bool, after: seq<Event>)
    requires Own(steps, i) == before + [CopyPolled(Some(c), started)] + after && c != 0
    requires var l := Lived(Begun(launched), before); l.code.None? && l.copy == Some(Process(None)) && !l.copied
    ensures WholeLife(launched, steps, i, interrupted).code == Some(c)
  {
    hide Next, WholeLife;
    CopyFailureIsRecorded(Lived(Begun(launched), before), c, started);
    RecordedForGood(launched, steps, i, interrupted, before, CopyPolled(Some(c), started), after);
  }

  /**
   * A whole batch, whatever the events: at the end every worker is what its own events make of it. It has been
   * finalized exactly once, its streams are closed, and the lines of a stream are those of the chunks read while it was
   * open.
   */
  method RunBatch(launched: seq<bool>, steps: seq<Step>, interrupted: bool) returns (workers: seq<Worker>, overall: int)
    ensures |workers| == |launched|
    ensures forall i :: 0 <= i < |workers| ==>
        && workers[i].Now() == WholeLife(launched[i], steps, i, interrupted)
        && Closed(workers[i])
        && forall s: Stream :: EmittedAll(workers[i], s, Heard(Begun(launched[i]), Own(steps, i), s))
    ensures overall == 0 <==> forall w :: w in workers ==> w.returnCode == Some(0)
  {
    hide Worker.Valid, Closed, Next, Worker.Now, EmittedAll;
    workers := StartAll(launched);
    DeliverAll(workers, steps);
    ForceAll(workers, if interrupted then 130 else 1);
    overall := Collect(workers);
    AllClosed(workers);
    forall i, s: Stream | 0 <= i < |workers|
      ensures EmittedAll(workers[i], s, Heard(Begun(launched[i]), Own(steps, i), s)) {
      LifeEnds(launched[i], steps, i, interrupted, s);
      ClosedEmits(workers[i], s);
    }
  }

  /** The lines of a stream are those of its chunks joined, and so is its log if the command was started. */
  ghost predicate EmittedAll(w: Worker, s: Stream, chunks: seq<string>)
    reads w
  {
    && s in w.emitted && w.emitted[s] == AllLines(Joined(chunks))
    && s in w.logs && (w.process.Some? ==> w.logs[s] == Joined(chunks))
  }

  lemma ClosedEmits(w: Worker, s: Stream)
    requires Closed(w)
    ensures forall chunks :: Joined(chunks) == Said(w.Now(), s) ==> EmittedAll(w, s, chunks)
  {
  }

  lemma AllClosed(workers: seq<Worker>)
    requires AllValid(workers) && forall i :: 0 <= i < |workers| ==> workers[i].finalized
    ensures forall w :: w in workers ==> Closed(w)
  {
    hide Worker.Valid, Closed;
    forall w | w in workers ensures Closed(w) {
      ClosedAtLast(w);
    }
  }

  /** Finalized once, streams closed, and every line of each stream's whole text emitted. */
  ghost predicate Closed(w: Worker)
    reads w
  {
    && w.finalized && w.returnCode.Some? && w.statusLog == [w.returnCode.value] && w.openStreams == {}
    && (forall s: Stream ::
          && s in w.text && s in w.emitted && w.emitted[s] == AllLines(w.text[s])
          && s in w.logs && (w.process.Some? ==> w.logs[s] == w.text[s]))
  }

  lemma ClosedAtLast(w: Worker)
    requires w.Valid() && w.finalized
    ensures Closed(w)
  {
    hide AllLines, Complete, Remainder;
    forall s: Stream
      ensures s in w.text && s in w.emitted && w.emitted[s] == AllLines(w.text[s])
      ensures s in w.logs && (w.process.Some? ==> w.logs[s] == w.text[s]) {
      assert s == Stdout || s == Stderr;
      assert w.StreamValid(s);
    }
  }

  /** collect_results: the overall code is zero only if every worker's is. */
  method Collect(workers: seq<Worker>) returns (overall: int)
    ensures overall == 0 <==> forall w :: w in workers ==> w.returnCode == Some(0)
  {
    overall := 0;
    for i := 0 to |workers|
      invariant overall == 0 <==> forall j :: 0 <= j < i ==> workers[j].returnCode == Some(0)
    {
      var code := if workers[i].returnCode.Some? then workers[i].returnCode.value else 1;
      if code != 0 {
        overall := 1;
      }
    }
  }
}
