// ProcessTableModel: the flat process table. It holds the last record list
// it was given, answers the view's cell queries from it, and hands out a
// record per row, with the value-initialised record (pid 0) for a row that
// does not exist.

module TableModel {
  import opened Records

  /** Qt::DisplayRole and Qt::UserRole. */
  const DisplayRole: int := 0
  const UserRole: int := 0x0100

  /** A model index: invalid, or a row and a column of the table. */
  datatype ModelIndex = Invalid | At(row: nat, column: nat)

  /** The values `data` hands back. `Percent(x)` stands for the cpu text,
      `x` formatted with two decimals and followed by "%". */
  datatype Variant =
    | Empty
    | Number(n: int)
    | Text(s: string)
    | Fraction(x: real)
    | Percent(x: real)

  /** The value of one column of a record for a role: a value for each of
      the four columns under the display and sort roles, and nothing else. */
  function Cell(proc: ProcessInfo, column: nat, role: int): (v: Variant)
    ensures v == Empty <==> column >= 4 || (role != DisplayRole && role != UserRole)
  {
    if role == DisplayRole then
      if column == 0 then Number(proc.pid)
      else if column == 1 then Text(proc.name)
      else if column == 2 then Percent(proc.cpuUsage)
      else if column == 3 then Text(MemoryText(proc.memoryUsage))
      else Empty
    else if role == UserRole then
      if column == 0 then Number(proc.pid)
      else if column == 1 then Text(proc.name)
      else if column == 2 then Fraction(proc.cpuUsage)
      else if column == 3 then Number(proc.memoryUsage)
      else Empty
    else Empty
  }

  class ProcessTableModel {
    /** `_processes`: the rows, in order. */
    var processes: seq<ProcessInfo>

    /** An empty table. */
    constructor ()
      ensures processes == []
    {
      processes := [];
    }

    /** `rowCount`. */
    function RowCount(): (n: nat)
      reads this
      ensures n == |processes|
    {
      |processes|
    }

    /** `columnCount`: PID, name, CPU, RAM. */
    function ColumnCount(): (n: nat)
      ensures n == 4
    {
      4
    }

    /** `getProcessByRow`: the stored record, or the default record (pid 0)
        for a row outside the table. */
    function GetProcessByRow(row: int): (p: ProcessInfo)
      reads this
      ensures 0 <= row < |processes| ==> p == processes[row]
      ensures !(0 <= row < |processes|) ==> p == DefaultInfo
    {
      if row < 0 || row >= |processes| then DefaultInfo else processes[row]
    }

    /** `data`: empty for an invalid index or a row past the end, otherwise
        the cell of that row's record. */
    function Data(index: ModelIndex, role: int): (v: Variant)
      reads this
    {
      if index.Invalid? || index.row >= |processes| then Empty
      else Cell(processes[index.row], index.column, role)
    }

    /** `updateData`: the list is replaced wholesale. */
    method UpdateData(data: seq<ProcessInfo>)
      modifies this
      ensures processes == data
    {
      processes := data;
    }
  }

  /** A record with a non-zero pid only comes from a row of the table: the
      caller can tell the sentinel from a real row by its pid. */
  lemma SentinelOnlyOutside(t: ProcessTableModel, row: int)
    ensures t.GetProcessByRow(row).pid != 0 ==>
              0 <= row < t.RowCount() && t.GetProcessByRow(row) == t.processes[row]
    ensures !(0 <= row < t.RowCount()) ==> t.GetProcessByRow(row).pid == 0
  {
  }

  /** Every cell the view asks for is a cell of the record `getProcessByRow`
      gives for its row, and columns past `columnCount` are empty. */
  lemma DataMatchesRow(t: ProcessTableModel, index: ModelIndex, role: int)
    ensures index.At? && index.row < t.RowCount() ==>
              t.Data(index, role) == Cell(t.GetProcessByRow(index.row), index.column, role)
    ensures index.At? && index.column >= t.ColumnCount() ==> t.Data(index, role) == Empty
    ensures index.Invalid? || index.row >= t.RowCount() ==> t.Data(index, role) == Empty
  {
  }

  /** Sorting the memory column by its sort value orders the rows as their
      shown mebibytes: a smaller byte count never shows more. */
  lemma MemorySortAgrees(a: ProcessInfo, b: ProcessInfo)
    requires a.memoryUsage <= b.memoryUsage
    ensures Cell(a, 3, UserRole) == Number(a.memoryUsage)
    ensures Cell(a, 3, DisplayRole) == Text(MemoryText(a.memoryUsage))
    ensures MegaBytes(a.memoryUsage) <= MegaBytes(b.memoryUsage)
  {
    MegaBytesBounds(a.memoryUsage);
    MegaBytesBounds(b.memoryUsage);
  }

  /** Each column sorts by the raw field of the record it shows: the pid,
      the name, the cpu load as the number the percentage text is made of,
      and the byte count behind the mebibyte text. */
  lemma SortValues(proc: ProcessInfo)
    ensures Cell(proc, 0, UserRole) == Number(proc.pid) && Cell(proc, 0, DisplayRole) == Number(proc.pid)
    ensures Cell(proc, 1, UserRole) == Text(proc.name) && Cell(proc, 1, DisplayRole) == Text(proc.name)
    ensures Cell(proc, 2, UserRole) == Fraction(proc.cpuUsage) && Cell(proc, 2, DisplayRole) == Percent(proc.cpuUsage)
    ensures Cell(proc, 3, UserRole) == Number(proc.memoryUsage)
    ensures Cell(proc, 3, DisplayRole) == Text(MemoryText(proc.memoryUsage))
  {
  }

  /** The display and sort values of the pid and name columns agree. */
  lemma SortMatchesDisplay(proc: ProcessInfo, column: nat)
    requires column < 2
    ensures Cell(proc, column, UserRole) == Cell(proc, column, DisplayRole)
  {
  }
}
