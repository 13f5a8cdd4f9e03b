/** The lifecycle side of `PingService`: the `isPinging` flag that
    `startPing` raises and `stopPing` lowers, and the worker's reader loop
    over the probe's output. The subprocess is replaced by the sequence of
    things the worker observes, in order: a line of output, the flag being
    lowered by the UI thread, or a failed read. */
module ProbeSession {
  import opened Text
  import opened ProbeOutput

  /** The `isPinging` flag of `PingService`, together with the model's log of
      the launches `startPing` makes: the host of every probe, in order. The
      service itself keeps only the latest process and thread. */
  datatype Service = Service(pinging: bool, probes: seq<string>)

  /** A freshly constructed service: the flag is Java's default `false`. */
  const NewService := Service(false, [])

  /** `startPing`: raise the flag, then launch a probe of `host`. */
  function StartPing(s: Service, host: string): (r: Service)
    ensures r.pinging
    ensures r.probes == s.probes + [host]
  {
    Service(true, s.probes + [host])
  }

  /** `stopPing`: lower the flag. Destroying the subprocess and interrupting
      the worker act on things outside this model. */
  function StopPing(s: Service): (r: Service)
    ensures !r.pinging
    ensures r.probes == s.probes
  {
    s.(pinging := false)
  }

  /** Stopping twice is stopping once, and stopping an idle service changes nothing. */
  lemma StopPingIdempotent(s: Service)
    ensures StopPing(StopPing(s)) == StopPing(s)
    ensures !s.pinging ==> StopPing(s) == s
  {
  }

  // ---------------------------------------------------------------------
  // The reader loop
  // ---------------------------------------------------------------------

  /** What the worker observes next. */
  datatype Step =
    | Line(text: string)   // `readLine` returned a line
    | StopRequested        // the UI thread lowered the flag before the next check
    | ReadFailure          // `readLine` threw

  /** `while (isPinging && (line = reader.readLine()) != null)` with its
      body: the strings handed to the output consumer. The loop stops when
      the flag is down, when the output ends, and on any exception, which
      the catch block reports with the fatal text. */
  function ReaderLoop(pinging: bool, steps: seq<Step>): (shown: seq<string>)
    ensures !pinging ==> shown == []
    ensures |shown| <= |steps|
    ensures forall i :: 0 <= i < |shown| ==> IsDisplayText(shown[i])
    ensures forall i :: 0 <= i < |shown| - 1 ==> shown[i] != FatalText
    decreases |steps|
  {
    if !pinging || |steps| == 0 then []
    else match steps[0]
      case StopRequested => ReaderLoop(false, steps[1..])
      case ReadFailure => [FatalText]
      case Line(text) =>
        var v := Classify(text);
        if v == Unparsable then [FatalText]
        else
          var rest := ReaderLoop(true, steps[1..]);
          assert Display(v) != [FatalText];
          Display(v) + rest
  }

  /** The worker thread's body. When the subprocess cannot be started the
      catch block reports the fatal text; otherwise the reader loop runs with
      the flag `startPing` raised. Either way the finally block calls
      `stopPing`. */
  function Worker(s: Service, spawned: bool, steps: seq<Step>): (r: (seq<string>, Service))
    ensures !r.1.pinging && r.1.probes == s.probes
    ensures !spawned ==> r.0 == [FatalText]
    ensures spawned ==> r.0 == ReaderLoop(s.pinging, steps)
  {
    var shown := if spawned then ReaderLoop(s.pinging, steps) else [FatalText];
    (shown, StopPing(s))
  }

  // ---------------------------------------------------------------------
  // Properties of the loop
  // ---------------------------------------------------------------------

  /** A step that ends the loop without regard to what follows. */
  predicate Ends(step: Step) {
    step.StopRequested? || step.ReadFailure? || (step.Line? && Classify(step.text) == Unparsable)
  }

  /** Once the flag is lowered nothing more is shown, however much output
      was still buffered. */
  lemma {:induction false} StopCutsOff(pre: seq<Step>, post: seq<Step>)
    ensures ReaderLoop(true, pre + [StopRequested] + post) == ReaderLoop(true, pre)
    decreases |pre|
  {
    var steps := pre + [StopRequested] + post;
    if |pre| == 0 {
      assert steps[0] == StopRequested;
    } else {
      assert steps[0] == pre[0];
      assert steps[1..] == pre[1..] + [StopRequested] + post;
      StopCutsOff(pre[1..], post);
    }
  }

  /** Output already shown is never taken back: running on more output only
      extends what was shown. */
  lemma {:induction false} ShownIsPrefix(pinging: bool, pre: seq<Step>, post: seq<Step>)
    ensures ReaderLoop(pinging, pre) <= ReaderLoop(pinging, pre + post)
    decreases |pre|
  {
    if pinging && |pre| > 0 {
      var steps := pre + post;
      assert steps[0] == pre[0];
      assert steps[1..] == pre[1..] + post;
      ShownIsPrefix(pre[0] != StopRequested, pre[1..], post);
    }
  }

  /** Over lines that do not end the loop, the loop is a homomorphism: each
      line contributes its own display, independently of the others. */
  lemma {:induction false} LoopDistributes(pre: seq<Step>, post: seq<Step>)
    requires forall i :: 0 <= i < |pre| ==> pre[i].Line? && !Ends(pre[i])
    ensures ReaderLoop(true, pre + post) == ReaderLoop(true, pre) + ReaderLoop(true, post)
    decreases |pre|
  {
    if |pre| > 0 {
      var steps := pre + post;
      assert steps[0] == pre[0];
      assert steps[1..] == pre[1..] + post;
      LoopDistributes(pre[1..], post);
    } else {
      assert pre + post == post;
    }
  }

  /** A single ordinary line is shown exactly as `Display` says. */
  lemma OneLine(text: string)
    requires Classify(text) != Unparsable
    ensures ReaderLoop(true, [Line(text)]) == Display(Classify(text))
  {
    assert [Line(text)][1..] == [];
  }

  /** A fatal step ends the loop with the fatal text as the last thing shown. */
  lemma {:induction false} FatalIsLast(pre: seq<Step>, post: seq<Step>)
    requires forall i :: 0 <= i < |pre| ==> pre[i].Line? && !Ends(pre[i])
    ensures ReaderLoop(true, pre + [ReadFailure] + post) == ReaderLoop(true, pre) + [FatalText]
  {
    LoopDistributes(pre, [ReadFailure] + post);
    assert pre + [ReadFailure] + post == pre + ([ReadFailure] + post);
  }

  /** A latency too large for an `int` makes `parseInt` throw: the loop ends
      with the fatal text as the last thing shown. */
  lemma {:induction false} UnparsableIsLast(pre: seq<Step>, text: string, post: seq<Step>)
    requires forall i :: 0 <= i < |pre| ==> pre[i].Line? && !Ends(pre[i])
    requires Classify(text) == Unparsable
    ensures ReaderLoop(true, pre + [Line(text)] + post) == ReaderLoop(true, pre) + [FatalText]
  {
    LoopDistributes(pre, [Line(text)] + post);
    assert pre + [Line(text)] + post == pre + ([Line(text)] + post);
  }
}
