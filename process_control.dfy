// The parts of WindowsProcessControl that work on the monitor's own data:
// counting a process's children in a record list, picking a process's record
// for the details view, the FILETIME to Unix-milliseconds conversion of the
// start time, and the priority-class label.

module ProcessControl {
  import opened Records
  import opened WindowsProcessTreeBuilder

  // ---------------------------------------------------------------------
  // getChildProcessCount

  /** The parent pids of a record list, in order. */
  function ParentPidsOf(ps: seq<ProcessInfo>): (s: seq<Pid>)
    ensures |s| == |ps| && forall i :: 0 <= i < |ps| ==> s[i] == ps[i].parentPID
  {
    seq(|ps|, i requires 0 <= i < |ps| => ps[i].parentPID)
  }

  /** `getChildProcessCount`: how many records name `pid` as their parent,
      that is how often `pid` occurs among the parent pids. */
  method ChildProcessCount(pid: Pid, ps: seq<ProcessInfo>) returns (count: nat)
    ensures count == multiset(ParentPidsOf(ps))[pid]
  {
    count := 0;
    for k := 0 to |ps|
      invariant count == multiset(ParentPidsOf(ps[..k]))[pid]
    {
      assert ParentPidsOf(ps[..k + 1]) == ParentPidsOf(ps[..k]) + [ps[k].parentPID];
      if ps[k].parentPID == pid {
        count := count + 1;
      }
    }
    assert ps[..|ps|] == ps;
  }

  /** The count is at most the number of records, and is 0 exactly when no
      record names `pid` as its parent. */
  lemma ChildCountBounds(pid: Pid, ps: seq<ProcessInfo>)
    ensures multiset(ParentPidsOf(ps))[pid] <= |ps|
    ensures multiset(ParentPidsOf(ps))[pid] == 0 <==> forall i :: 0 <= i < |ps| ==> ps[i].parentPID != pid
  {
    var s := ParentPidsOf(ps);
    MultiplicityBound(s, pid);
    if multiset(s)[pid] == 0 {
      forall i | 0 <= i < |ps|
        ensures ps[i].parentPID != pid
      {
        assert s[i] in multiset(s);
      }
    }
  }

  /** No element occurs more often than a sequence is long. */
  lemma {:induction false} MultiplicityBound(s: seq<Pid>, x: Pid)
    ensures multiset(s)[x] <= |s|
    decreases |s|
  {
    if s != [] {
      assert s == s[..|s| - 1] + [s[|s| - 1]];
      MultiplicityBound(s[..|s| - 1], x);
    }
  }

  // ---------------------------------------------------------------------
  // getProcessDetails

  /** The record the details view takes its metrics from: the last record
      with the pid, or the value-initialised record when there is none. */
  function LastRecord(ps: seq<ProcessInfo>, pid: Pid): (r: ProcessInfo)
    decreases |ps|
  {
    if ps == [] then DefaultInfo
    else if ps[|ps| - 1].pid == pid then ps[|ps| - 1]
    else LastRecord(ps[..|ps| - 1], pid)
  }

  /** The lookup loop of `getProcessDetails`: every record with the pid
      overwrites the previous choice. */
  method FindRecord(pid: Pid, ps: seq<ProcessInfo>) returns (info: ProcessInfo)
    ensures info == LastRecord(ps, pid)
  {
    info := DefaultInfo;
    for k := 0 to |ps|
      invariant info == LastRecord(ps[..k], pid)
    {
      assert ps[..k + 1][..k] == ps[..k];
      if ps[k].pid == pid {
        info := ps[k];
      }
    }
    assert ps[..|ps|] == ps;
  }

  /** The chosen record is the last one with the pid, or the default record
      when no record has it. */
  lemma {:induction false} LastRecordIsLast(ps: seq<ProcessInfo>, pid: Pid)
    ensures (forall i :: 0 <= i < |ps| ==> ps[i].pid != pid) ==> LastRecord(ps, pid) == DefaultInfo
    ensures (exists i :: 0 <= i < |ps| && ps[i].pid == pid) ==>
              exists i :: 0 <= i < |ps| && ps[i] == LastRecord(ps, pid) && ps[i].pid == pid &&
                          forall j :: i < j < |ps| ==> ps[j].pid != pid
    decreases |ps|
  {
    if ps != [] {
      var init := ps[..|ps| - 1];
      LastRecordIsLast(init, pid);
      if ps[|ps| - 1].pid != pid {
        if exists i :: 0 <= i < |ps| && ps[i].pid == pid {
          var i :| 0 <= i < |ps| && ps[i].pid == pid;
          assert init[i].pid == pid;
          var k :| 0 <= k < |init| && init[k] == LastRecord(init, pid) && init[k].pid == pid &&
                   forall j :: k < j < |init| ==> init[j].pid != pid;
          assert ps[k] == init[k];
        }
        if forall i :: 0 <= i < |ps| ==> ps[i].pid != pid {
          forall i | 0 <= i < |init|
            ensures init[i].pid != pid
          {
            assert init[i] == ps[i];
          }
        }
      }
    }
  }

  /** For a non-zero pid the details view shows the same record as the tree
      builder's node for that pid. */
  lemma {:induction false} LastRecordIsNodeRecord(ps: seq<ProcessInfo>, pid: Pid)
    requires pid in NodeRecords(ps)
    ensures LastRecord(ps, pid) == NodeRecords(ps)[pid]
    decreases |ps|
  {
    var init, last := ps[..|ps| - 1], ps[|ps| - 1];
    if last.pid != pid {
      LastRecordIsNodeRecord(init, pid);
    }
  }

  /** The part of ProcessDetails filled from the record list. */
  datatype ProcessDetails = ProcessDetails(
    pid: Pid,
    name: string,
    cpuUsage: real,
    memoryUsage: U64,
    workingSetSize: U64,
    childProcessesCount: nat)

  /** `getProcessDetails`, on the fields taken from the list: the requested
      pid, the metrics of its last record, and the number of records naming
      it as their parent. */
  method GetProcessDetails(pid: Pid, ps: seq<ProcessInfo>) returns (d: ProcessDetails)
    ensures d.pid == pid
    ensures var r := LastRecord(ps, pid);
            d.name == r.name && d.cpuUsage == r.cpuUsage && d.memoryUsage == r.memoryUsage &&
            d.workingSetSize == r.workingSetSize
    ensures d.childProcessesCount == multiset(ParentPidsOf(ps))[pid]
  {
    var info := FindRecord(pid, ps);
    var children := ChildProcessCount(pid, ps);
    d := ProcessDetails(pid, info.name, info.cpuUsage, info.memoryUsage, info.workingSetSize, children);
  }

  // ---------------------------------------------------------------------
  // getStartTime

  const TwoTo63: int := 0x8000_0000_0000_0000
  const TwoTo64: int := 0x1_0000_0000_0000_0000

  /** 100-ns intervals between 1601-01-01 and 1970-01-01. */
  const EpochOffset: int := 11644473600 * 10000000

  /** C++ integer division, truncating toward zero. */
  function TruncDiv(a: int, b: int): (q: int)
    requires b > 0
    ensures a >= 0 ==> q * b <= a < q * b + b
    ensures a < 0 ==> q * b - b < a <= q * b
  {
    if a >= 0 then a / b else -((-a) / b)
  }

  /** The start-time arithmetic: `QuadPart - epoch_offset` is computed on 64
      unsigned bits and stored in a signed 64-bit integer, then divided by
      10000, truncating. For every FILETIME below 2^63 (every time Windows
      can represent) the wrap-around is invisible: the result is the distance
      from the Unix epoch in whole milliseconds, rounded toward the epoch. */
  function StartTimeMs(ticks: U64): (ms: int)
    ensures ticks < TwoTo63 ==>
              var d := ticks - EpochOffset;
              (d >= 0 ==> ms * 10000 <= d < ms * 10000 + 10000) &&
              (d < 0 ==> ms * 10000 - 10000 < d <= ms * 10000)
  {
    var diff := (ticks - EpochOffset) % TwoTo64;
    var signed := if diff >= TwoTo63 then diff - TwoTo64 else diff;
    SignedDifference(ticks);
    TruncDiv(signed, 10000)
  }

  /** Below 2^63 ticks the 64-bit difference, read back as signed, is the
      true difference. */
  lemma SignedDifference(ticks: U64)
    ensures var diff := (ticks - EpochOffset) % TwoTo64;
            ticks < TwoTo63 ==> (if diff >= TwoTo63 then diff - TwoTo64 else diff) == ticks - EpochOffset
  {
    var d := ticks - EpochOffset;
    if d >= 0 {
      assert d % TwoTo64 == d;
    } else {
      assert d % TwoTo64 == d + TwoTo64;
    }
  }

  /** Whole milliseconds since 1970 convert back exactly. */
  lemma StartTimeRoundTrip(ms: int)
    requires 0 <= EpochOffset + ms * 10000 < TwoTo63
    ensures StartTimeMs(EpochOffset + ms * 10000) == ms
  {
  }

  // ---------------------------------------------------------------------
  // getProcessPriorityClass

  datatype Option<T> = None | Some(value: T)

  // The *_PRIORITY_CLASS values of winbase.h.
  const NormalPriorityClass: int := 0x20
  const IdlePriorityClass: int := 0x40
  const HighPriorityClass: int := 0x80
  const RealtimePriorityClass: int := 0x100

  const LabelUnknown: string := "Не определен"
  const LabelNormal: string := "Обычный"
  const LabelHigh: string := "Высокий"
  const LabelIdle: string := "Низкий"
  const LabelRealtime: string := "Реального времени"

  /** `getProcessPriorityClass`, with the outcome of OpenProcess and
      GetPriorityClass as a parameter: None when the process could not be
      opened. */
  function PriorityLabel(cls: Option<int>): (text: string)
    ensures text == LabelUnknown <==>
              cls.None? || cls.value !in {NormalPriorityClass, HighPriorityClass, IdlePriorityClass, RealtimePriorityClass}
  {
    assert LabelNormal[0] != LabelUnknown[0] && LabelIdle[1] != LabelUnknown[1];
    assert LabelHigh[0] != LabelUnknown[0] && LabelRealtime[0] != LabelUnknown[0];
    if cls.None? then LabelUnknown
    else if cls.value == NormalPriorityClass then LabelNormal
    else if cls.value == HighPriorityClass then LabelHigh
    else if cls.value == IdlePriorityClass then LabelIdle
    else if cls.value == RealtimePriorityClass then LabelRealtime
    else LabelUnknown
  }

  /** The four known classes get four distinct labels. */
  lemma PriorityLabels(a: Option<int>, b: Option<int>)
    ensures PriorityLabel(a) != LabelUnknown && PriorityLabel(a) == PriorityLabel(b) ==> a == b
  {
    assert LabelNormal[0] != LabelHigh[0] && LabelNormal[0] != LabelIdle[0] && LabelNormal[0] != LabelRealtime[0];
    assert LabelHigh[0] != LabelIdle[0] && LabelHigh[0] != LabelRealtime[0] && LabelIdle[0] != LabelRealtime[0];
  }
}
