// Process records shared by every part of the monitor: the snapshot record
// ProcessInfo, the breadth-first exchange unit FlatProcessNode, and the two
// pure text helpers the display layers use for the memory column.

module Records {

  /** quint32 process identifiers; 0 is the reserved "no process" value. */
  type Pid = x: int | 0 <= x < 0x1_0000_0000

  /** quint64 byte counters. */
  type U64 = x: int | 0 <= x < 0x1_0000_0000_0000_0000

  /** One process observation. cpuUsage is carried through unchanged and never
      computed on, so it is kept as an uninterpreted real. */
  datatype ProcessInfo = ProcessInfo(
    pid: Pid,
    parentPID: Pid,
    name: string,
    cpuUsage: real,
    memoryUsage: U64,
    workingSetSize: U64)

  /** The value-initialised record `ProcessInfo{}`: every field zero or empty. */
  const DefaultInfo: ProcessInfo := ProcessInfo(0, 0, "", 0.0, 0, 0)

  /** A record together with the pid of the tree node above it. */
  datatype FlatProcessNode = FlatProcessNode(info: ProcessInfo, parentPID: Pid)

  /** The pids of a flat list, as a set. */
  function PidsOf(flat: seq<FlatProcessNode>): (s: set<Pid>)
    ensures forall i :: 0 <= i < |flat| ==> flat[i].info.pid in s
    ensures forall p :: p in s ==> exists i :: 0 <= i < |flat| && flat[i].info.pid == p
  {
    set i | 0 <= i < |flat| :: flat[i].info.pid
  }

  /** No pid occurs twice in a flat list. */
  predicate DistinctPids(flat: seq<FlatProcessNode>)
  {
    forall i, j :: 0 <= i < j < |flat| ==> flat[i].info.pid != flat[j].info.pid
  }

  /** The integer division `bytes / 1024 / 1024` the memory columns show. */
  function MegaBytes(bytes: nat): (mb: nat)
  {
    bytes / 1024 / 1024
  }

  /** The memory column truncates to whole mebibytes. */
  lemma MegaBytesBounds(bytes: nat)
    ensures MegaBytes(bytes) * 1048576 <= bytes < (MegaBytes(bytes) + 1) * 1048576
  {
    var k := bytes / 1024;
    assert k * 1024 <= bytes < (k + 1) * 1024;
    assert MegaBytes(bytes) * 1024 <= k < (MegaBytes(bytes) + 1) * 1024;
  }

  /** A decimal digit as a character. */
  function DigitChar(d: nat): (c: char)
    requires d < 10
    ensures '0' <= c <= '9'
  {
    ['0', '1', '2', '3', '4', '5', '6', '7', '8', '9'][d]
  }

  /** `QString::number(n)` for an unsigned integer: its decimal digits, no sign,
      no leading zeros. */
  function DecimalText(n: nat): (s: string)
    decreases n
  {
    if n < 10 then [DigitChar(n)] else DecimalText(n / 10) + [DigitChar(n % 10)]
  }

  /** The value of a string of decimal digits. */
  function DecimalValue(s: string): (n: nat)
    requires forall i :: 0 <= i < |s| ==> '0' <= s[i] <= '9'
  {
    if s == [] then 0
    else DecimalValue(s[..|s| - 1]) * 10 + ((s[|s| - 1] as int) - ('0' as int))
  }

  /** The text is non-empty, made of digits only, and has no leading zero
      unless it is "0" itself. */
  lemma {:induction false} DecimalTextShape(n: nat)
    ensures |DecimalText(n)| >= 1
    ensures forall i :: 0 <= i < |DecimalText(n)| ==> '0' <= DecimalText(n)[i] <= '9'
    ensures DecimalText(n)[0] == '0' <==> n == 0
    decreases n
  {
    if n >= 10 {
      DecimalTextShape(n / 10);
    }
  }

  /** Reading the digits back gives the number: the rendering loses nothing. */
  lemma {:induction false} DecimalRoundTrip(n: nat)
    ensures forall i :: 0 <= i < |DecimalText(n)| ==> '0' <= DecimalText(n)[i] <= '9'
    ensures DecimalValue(DecimalText(n)) == n
    decreases n
  {
    DecimalTextShape(n);
    if n >= 10 {
      DecimalRoundTrip(n / 10);
      var s := DecimalText(n);
      assert s[..|s| - 1] == DecimalText(n / 10);
    }
  }

  /** Two numbers render differently exactly when they differ. */
  lemma DecimalTextInjective(a: nat, b: nat)
    ensures DecimalText(a) == DecimalText(b) <==> a == b
  {
    DecimalRoundTrip(a);
    DecimalRoundTrip(b);
  }

  /** The text of the memory cell: `QString::number(bytes / 1024 / 1024) + " MB"`.
      Before the " MB" suffix stand decimal digits, without a leading zero
      unless the count is 0, that read back as the whole mebibyte count. */
  function MemoryText(bytes: nat): (s: string)
    ensures |s| >= 4 && s[|s| - 3..] == " MB"
    ensures forall i :: 0 <= i < |s| - 3 ==> '0' <= s[i] <= '9'
    ensures DecimalValue(s[..|s| - 3]) == MegaBytes(bytes)
    ensures s[0] == '0' <==> MegaBytes(bytes) == 0
  {
    var t := DecimalText(MegaBytes(bytes));
    DecimalTextShape(MegaBytes(bytes));
    DecimalRoundTrip(MegaBytes(bytes));
    assert (t + " MB")[..|t|] == t;
    t + " MB"
  }

  /** The memory text determines the mebibyte count it shows. */
  lemma MemoryTextFaithful(a: nat, b: nat)
    ensures MemoryText(a) == MemoryText(b) <==> MegaBytes(a) == MegaBytes(b)
  {
    var sa, sb := MemoryText(a), MemoryText(b);
    if sa == sb {
      assert sa[..|sa| - 3] == sb[..|sb| - 3];
    }
  }
}
