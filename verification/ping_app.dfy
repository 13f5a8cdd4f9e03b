/** `PingApp`'s control logic with the Swing widgets abstracted away: the
    host text field, the enabled state of the Start and Stop buttons, the
    service, and the messages shown in dialogs. */
module PingApp {
  import opened Text
  import opened HostPattern
  import opened ProbeSession

  /** Which of the two buttons accept clicks. */
  datatype Controls = Controls(startEnabled: bool, stopEnabled: bool)

  /** Idle: Start enabled, Stop disabled. Running is the other way round. */
  const Idle := Controls(true, false)
  const Running := Controls(false, true)

  datatype App = App(hostText: string, controls: Controls, service: Service, dialogs: seq<string>)

  const DefaultHostText := " 8.8.8.8"
  const InvalidHostMessage := "Please enter a valid host or IP address."

  /** The window as constructed: the default host text, Start enabled (the
      Swing default), Stop disabled, a fresh service and no dialog. */
  const Initial := App(DefaultHostText, Idle, NewService, [])

  /** `isValidHost`. */
  predicate IsValidHost(host: string) {
    IsValidIP(host) || IsValidDomain(host)
  }

  /** `toggleButtons(startEnabled)`: the two buttons always end up opposite. */
  function ToggleButtons(startEnabled: bool): (c: Controls)
    ensures c.startEnabled == startEnabled
    ensures c.startEnabled != c.stopEnabled
    ensures c == if startEnabled then Idle else Running
  {
    Controls(startEnabled, !startEnabled)
  }

  /** The Start button's listener: trim the text; a valid host starts a
      probe of the trimmed text and goes to Running; anything else shows the
      error dialog and goes (back) to Idle. */
  function OnStart(a: App): (r: App)
    ensures r.hostText == a.hostText
    ensures IsValidHost(Trim(a.hostText)) ==>
              && r.service == StartPing(a.service, Trim(a.hostText))
              && r.controls == Running
              && r.dialogs == a.dialogs
    ensures !IsValidHost(Trim(a.hostText)) ==>
              && r.service == a.service
              && r.controls == Idle
              && r.dialogs == a.dialogs + [InvalidHostMessage]
  {
    var host := Trim(a.hostText);
    if IsValidHost(host) then
      a.(service := StartPing(a.service, host), controls := ToggleButtons(false))
    else
      ShowErrorMessage(a, InvalidHostMessage)
  }

  /** `showErrorMessage`: the dialog, then the controls back to Idle. */
  function ShowErrorMessage(a: App, message: string): (r: App)
    ensures r.controls == Idle && r.dialogs == a.dialogs + [message]
    ensures r.service == a.service && r.hostText == a.hostText
  {
    a.(dialogs := a.dialogs + [message], controls := ToggleButtons(true))
  }

  /** The Stop button's listener: stop the service, controls to Idle. */
  function OnStop(a: App): (r: App)
    ensures r.controls == Idle
    ensures !r.service.pinging && r.service.probes == a.service.probes
    ensures r.hostText == a.hostText && r.dialogs == a.dialogs
  {
    a.(service := StopPing(a.service), controls := ToggleButtons(true))
  }

  /** The worker finishing on its own (output ended, or an error): its
      finally block calls `stopPing`, but nothing touches the buttons. */
  function OnWorkerDone(a: App): (r: App)
    ensures !r.service.pinging && r.service.probes == a.service.probes
    ensures r.controls == a.controls && r.hostText == a.hostText && r.dialogs == a.dialogs
  {
    a.(service := StopPing(a.service))
  }

  // ---------------------------------------------------------------------
  // Events
  // ---------------------------------------------------------------------

  datatype Event =
    | Edit(text: string)   // the user types into the host field
    | ClickStart           // Start clicked, or Enter pressed (Start is the default button)
    | ClickStop
    | WorkerDone

  /** Swing delivers an action only to an enabled button. */
  function Dispatch(a: App, e: Event): (r: App)
    ensures e.ClickStart? && !a.controls.startEnabled ==> r == a
    ensures e.ClickStop? && !a.controls.stopEnabled ==> r == a
  {
    match e
    case Edit(text) => a.(hostText := text)
    case ClickStart => if a.controls.startEnabled then OnStart(a) else a
    case ClickStop => if a.controls.stopEnabled then OnStop(a) else a
    case WorkerDone => OnWorkerDone(a)
  }

  function Run(a: App, events: seq<Event>): App
    decreases |events|
  {
    if |events| == 0 then a else Run(Dispatch(a, events[0]), events[1..])
  }

  /** Exactly one button is enabled, and while Start is enabled no probe is
      flagged as running, so a second probe is never started over a first. */
  predicate Consistent(a: App) {
    && a.controls.startEnabled != a.controls.stopEnabled
    && (a.controls.startEnabled ==> !a.service.pinging)
  }

  lemma InitialIsIdle()
    ensures Initial.controls == Idle && !Initial.service.pinging && Consistent(Initial)
  {
  }

  lemma DispatchPreservesConsistency(a: App, e: Event)
    requires Consistent(a)
    ensures Consistent(Dispatch(a, e))
  {
  }

  /** Every state reachable from the initial window is consistent. */
  lemma {:induction false} RunPreservesConsistency(a: App, events: seq<Event>)
    requires Consistent(a)
    ensures Consistent(Run(a, events))
    decreases |events|
  {
    if |events| > 0 {
      DispatchPreservesConsistency(a, events[0]);
      RunPreservesConsistency(Dispatch(a, events[0]), events[1..]);
    }
  }

  /** A probe is only ever started from Idle with nothing running. */
  lemma StartOnlyWhenIdle(a: App, e: Event)
    requires Consistent(a)
    requires |Dispatch(a, e).service.probes| > |a.service.probes|
    ensures e.ClickStart? && a.controls == Idle && !a.service.pinging
  {
  }

  /** The host handed to a new probe is one the validation accepted, and it
      carries no surrounding white space. */
  lemma ProbedHostIsTrimmed(a: App)
    requires IsValidHost(Trim(a.hostText))
    ensures var host := OnStart(a).service.probes[|a.service.probes|];
            IsValidHost(host) && Trim(host) == host && Trim(a.hostText) == host
  {
    AcceptedHostIsTrimmed(Trim(a.hostText));
  }

  /** `isValidHost` in character terms: four dot-separated groups of 1 to 3
      digits, or 2 to 6 letters after the last dot with non-empty
      `[a-zA-Z0-9.-]` text before it. */
  lemma ValidHostCharacterised(h: string)
    ensures IsValidHost(h) <==>
              || (|Fields(h)| == 4 && forall i :: 0 <= i < 4 ==> IsOctetGroup(Fields(h)[i]))
              || DomainSplitAt(h, LastDot(h))
  {
    ValidIPIsFourGroups(h);
    ValidDomainByLastDot(h);
  }

  /** Clicking Start on the window as constructed probes 8.8.8.8: the leading
      blank of the default text is trimmed away. */
  lemma DefaultHostStartsProbe()
    ensures OnStart(Initial).service == Service(true, ["8.8.8.8"])
    ensures OnStart(Initial).controls == Running
  {
    DefaultHostTrimmed();
    DefaultHostAccepted();
  }

  /** The default text trims to `8.8.8.8`. */
  lemma DefaultHostTrimmed()
    ensures Trim(DefaultHostText) == "8.8.8.8"
  {
    DefaultTextPadded();
    TrimPadded(" ", "8.8.8.8", "");
  }

  lemma DefaultTextPadded()
    ensures DefaultHostText == " " + "8.8.8.8" + ""
  {
  }

  /** `8.8.8.8` is a valid host. */
  lemma DefaultHostAccepted()
    ensures IsValidHost("8.8.8.8")
  {
    DottedQuadAccepted("8", "8", "8", "8");
    assert "8" + "." + "8" + "." + "8" + "." + "8" == "8.8.8.8";
  }

  /** Stop returns to Idle whatever the state before, and twice is once. */
  lemma StopIsIdempotent(a: App)
    ensures OnStop(OnStop(a)) == OnStop(a)
    ensures OnStop(a).controls == Idle
  {
  }
}
