// WindowsServiceMonitor::getStatusString: the classification of a service's
// current state, as the service control manager reports it, into the
// monitor's status values.

module ServiceMonitor {

  /** A Win32 DWORD. */
  type DWord = x: int | 0 <= x < 0x1_0000_0000

  // The SERVICE_* current-state values of winsvc.h.
  const ServiceStopped: DWord := 1
  const ServiceStartPending: DWord := 2
  const ServiceStopPending: DWord := 3
  const ServiceRunning: DWord := 4
  const ServiceContinuePending: DWord := 5
  const ServicePausePending: DWord := 6
  const ServicePaused: DWord := 7

  datatype ServiceStatus =
    | Running | Stopped | Paused
    | StartPending | StopPending | ContinuePending | PausePending
    | Unknown

  /** `getStatusString`: each of the seven known states to its own status,
      anything else to Unknown. */
  function StatusOf(state: DWord): (s: ServiceStatus)
    ensures s == Unknown <==> !(1 <= state <= 7)
  {
    if state == ServiceRunning then Running
    else if state == ServiceStopped then Stopped
    else if state == ServicePaused then Paused
    else if state == ServiceStartPending then StartPending
    else if state == ServiceStopPending then StopPending
    else if state == ServiceContinuePending then ContinuePending
    else if state == ServicePausePending then PausePending
    else Unknown
  }

  /** The state a known status stands for; none for Unknown. */
  function StateOf(s: ServiceStatus): (state: DWord)
    ensures state == 0 <==> s == Unknown
  {
    match s
    case Running => ServiceRunning
    case Stopped => ServiceStopped
    case Paused => ServicePaused
    case StartPending => ServiceStartPending
    case StopPending => ServiceStopPending
    case ContinuePending => ServiceContinuePending
    case PausePending => ServicePausePending
    case Unknown => 0
  }

  /** Every known status is reached from exactly its own state, so the seven
      known states get seven distinct statuses. */
  lemma StatusRoundTrip(state: DWord, s: ServiceStatus)
    ensures s != Unknown ==> StatusOf(StateOf(s)) == s
    ensures 1 <= state <= 7 ==> StateOf(StatusOf(state)) == state
  {
  }

  /** Two known states classify alike only when they are equal. */
  lemma KnownStatesDistinct(a: DWord, b: DWord)
    requires 1 <= a <= 7 && 1 <= b <= 7
    ensures StatusOf(a) == StatusOf(b) <==> a == b
  {
    StatusRoundTrip(a, Unknown);
    StatusRoundTrip(b, Unknown);
  }
}
