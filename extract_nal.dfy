/**
 * The stand-alone NAL lister: it cuts a stream at every four-byte start code
 * `00 00 00 01` only, keeps each unit without its start code, and reports each
 * unit's type, flagging sequence and picture parameter sets.
 */
module ExtractNal {
  import opened Bytes
  import opened Wrappers

  /** The units put back together, each behind its own four-byte start code. */
  function Reframe(units: seq<seq<byte>>): seq<byte>
  {
    if units == [] then [] else Reframe(units[..|units| - 1]) + StartCode4 + units[|units| - 1]
  }

  lemma ReframeAppend(units: seq<seq<byte>>, last: seq<byte>)
    ensures Reframe(units + [last]) == Reframe(units) + StartCode4 + last
  {
    assert (units + [last])[..|units|] == units;
  }

  /** Cutting one more unit after the start code at `sc` extends the reframed prefix up to `end`. */
  lemma ReframeStep(data: seq<byte>, units: seq<seq<byte>>, first: nat, sc: nat, end: nat)
    requires first <= sc && sc + 4 <= end <= |data| && OccursAt(data, StartCode4, sc)
    requires Reframe(units) == data[first..sc]
    ensures Reframe(units + [data[sc + 4..end]]) == data[first..end]
  {
    ReframeAppend(units, data[sc + 4..end]);
    assert data[first..sc] + data[sc..sc + 4] + data[sc + 4..end] == data[first..end];
  }

  /** `data[from..to]` holds no four-byte start code when `from..to` holds no occurrence. */
  lemma NoMatch4Slice(data: seq<byte>, from: nat, to: nat)
    requires from <= to <= |data|
    requires forall k :: from <= k < to ==> !OccursAt(data, StartCode4, k)
    ensures NoMatch4(data[from..to])
  {
    forall j | 0 <= j < |data[from..to]| ensures !Match4(data[from..to], j) {
      OccursStartCodes(data, from + j);
      assert Match4(data[from..to], j) ==> Match4(data, from + j);
    }
  }

  lemma NoMatch4Append(units: seq<seq<byte>>, u: seq<byte>)
    requires forall n :: 0 <= n < |units| ==> NoMatch4(units[n])
    requires NoMatch4(u)
    ensures forall n :: 0 <= n < |units| + 1 ==> NoMatch4((units + [u])[n])
  {
    forall n | 0 <= n < |units| + 1 ensures NoMatch4((units + [u])[n]) {
      if n < |units| {
        assert (units + [u])[n] == units[n];
      }
    }
  }

  /**
   * One round of the search: the start code found from `start` is where the
   * units so far end, and the unit cut after it reaches the next start code or
   * the end of the data.
   */
  lemma CutStep(data: seq<byte>, units: seq<seq<byte>>, first: int, start: nat, sc: int, end: nat)
    requires start <= |data| && first == Find(data, StartCode4, 0)
    requires units == [] ==> start == 0
    requires units != [] ==> 0 <= first <= start && OccursAt(data, StartCode4, start)
    requires units != [] ==> Reframe(units) == data[first..start]
    requires sc == Find(data, StartCode4, start) && sc != -1
    requires var next := Find(data, StartCode4, sc + 4); end == if next == -1 then |data| else next
    ensures 0 <= first <= sc && sc + 4 <= end <= |data|
    ensures Reframe(units + [data[sc + 4..end]]) == data[first..end]
    ensures NoMatch4(data[sc + 4..end])
  {
    if units == [] {
      assert sc == first;
    } else {
      assert sc == start;
    }
    NoMatch4Slice(data, sc + 4, end);
    ReframeStep(data, units, first, sc, end);
  }

  /** `Find` reports a four-byte start code exactly when there is one. */
  lemma FindStartCode4(data: seq<byte>)
    ensures Find(data, StartCode4, 0) == -1 <==> NoMatch4(data)
  {
    var r := Find(data, StartCode4, 0);
    if r == -1 {
      NoMatch4Slice(data, 0, |data|);
      assert data[0..|data|] == data;
    } else {
      OccursStartCodes(data, r);
    }
  }

  /**
   * `find_nal_units`: the units found between consecutive four-byte start codes,
   * the last one running to the end of the data. Bytes before the first start
   * code are dropped; three-byte start codes do not cut.
   */
  method FindNalUnits(data: seq<byte>) returns (units: seq<seq<byte>>)
    ensures units == [] <==> NoMatch4(data)
    ensures units != [] ==>
      var first := Find(data, StartCode4, 0);
      0 <= first && Reframe(units) == data[first..]
    ensures forall n :: 0 <= n < |units| ==> NoMatch4(units[n])
  {
    units := [];
    var start := 0;
    ghost var first := Find(data, StartCode4, 0);
    FindStartCode4(data);
    while true
      invariant start <= |data|
      invariant units == [] ==> start == 0
      invariant units != [] ==> 0 <= first <= start && OccursAt(data, StartCode4, start)
      invariant units != [] ==> Reframe(units) == data[first..start]
      invariant forall n :: 0 <= n < |units| ==> NoMatch4(units[n])
      decreases |data| - start
    {
      var startCodeIndex := Find(data, StartCode4, start);
      if startCodeIndex == -1 {
        break;
      }
      var nextStartCode := Find(data, StartCode4, startCodeIndex + 4);
      var end := if nextStartCode == -1 then |data| else nextStartCode;
      var unit := data[startCodeIndex + 4..end];
      CutStep(data, units, first, start, startCodeIndex, end);
      NoMatch4Append(units, unit);
      units := units + [unit];
      if nextStartCode == -1 {
        break;
      }
      start := nextStartCode;
    }
  }

  /** What the lister prints after a unit's summary line. */
  datatype Note = NoNote | FoundSps(sps: seq<byte>) | FoundPps(pps: seq<byte>)

  /** One summary line: the unit's position, type and length, and its note. */
  datatype Report = Report(index: nat, nalType: int, length: nat, note: Note)

  /** The type of a unit: the low five bits of its first byte (`nal_unit_type`). */
  function UnitType(u: seq<byte>): (t: int)
    requires |u| > 0
    ensures 0 <= t < 32
    ensures t == (u[0] as int) % 32
  {
    (u[0] & 0x1F) as int
  }

  /** The report for unit number `i`. */
  function ReportOf(i: nat, u: seq<byte>): (r: Report)
    requires |u| > 0
  {
    var t := UnitType(u);
    Report(i, t, |u|, if t == 7 then FoundSps(u) else if t == 8 then FoundPps(u) else NoNote)
  }

  /** The units' reports in order, or the `IndexError` the first empty unit raises. */
  function ReportsFrom(units: seq<seq<byte>>, i: nat): Result<seq<Report>>
    requires i <= |units|
    decreases |units| - i
  {
    if i == |units| then Success([])
    else if units[i] == [] then Failure("IndexError: index out of range")
    else
      match ReportsFrom(units, i + 1)
      case Success(rest) => Success([ReportOf(i, units[i])] + rest)
      case Failure(e) => Failure(e)
  }

  /**
   * The reports fail exactly when some unit is empty; otherwise there is one per
   * unit, in order, and a note appears exactly on the SPS and PPS units.
   */
  lemma {:induction false} ReportsFromFacts(units: seq<seq<byte>>, i: nat)
    requires i <= |units|
    ensures ReportsFrom(units, i).Failure? <==> exists n :: i <= n < |units| && units[n] == []
    ensures ReportsFrom(units, i).Success? ==>
      var reports := ReportsFrom(units, i).value;
      |reports| == |units| - i
      && forall n :: 0 <= n < |reports| ==>
        reports[n].index == i + n && reports[n].length == |units[i + n]| > 0
        && reports[n].nalType == (units[i + n][0] as int) % 32
        && (reports[n].note == FoundSps(units[i + n]) <==> reports[n].nalType == 7)
        && (reports[n].note == FoundPps(units[i + n]) <==> reports[n].nalType == 8)
        && (reports[n].note == NoNote <==> reports[n].nalType != 7 && reports[n].nalType != 8)
    decreases |units| - i
  {
    if i < |units| && units[i] != [] {
      ReportsFromFacts(units, i + 1);
    }
  }

  /**
   * The lister's main loop over the units: one report per unit, stopping with
   * `IndexError` at the first empty unit (the reports made before it have
   * already been printed, and are kept in `printed`).
   */
  method ReportUnits(units: seq<seq<byte>>) returns (printed: seq<Report>, outcome: Result<seq<Report>>)
    ensures outcome == ReportsFrom(units, 0)
    ensures outcome.Success? ==> printed == outcome.value
    ensures outcome.Failure? ==>
      (|printed| < |units| && units[|printed|] == []
       && forall n :: 0 <= n < |printed| ==> units[n] != [] && printed[n] == ReportOf(n, units[n]))
  {
    printed := [];
    var i := 0;
    while i < |units|
      invariant 0 <= i <= |units| && |printed| == i
      invariant forall n :: 0 <= n < i ==> units[n] != [] && printed[n] == ReportOf(n, units[n])
    {
      if units[i] == [] {
        ReportsFailAt(units, i);
        outcome := Failure("IndexError: index out of range");
        return;
      }
      printed := printed + [ReportOf(i, units[i])];
      i := i + 1;
    }
    ReportsSucceed(units, 0);
    assert printed == ReportsFrom(units, 0).value;
    outcome := Success(printed);
  }

  lemma {:induction false} ReportsFailAt(units: seq<seq<byte>>, i: nat)
    requires i < |units| && units[i] == []
    requires forall n :: 0 <= n < i ==> units[n] != []
    ensures ReportsFrom(units, 0) == Failure("IndexError: index out of range")
  {
    ReportsFailFrom(units, i, 0);
  }

  lemma {:induction false} ReportsFailFrom(units: seq<seq<byte>>, i: nat, j: nat)
    requires j <= i < |units| && units[i] == []
    requires forall n :: j <= n < i ==> units[n] != []
    ensures ReportsFrom(units, j) == Failure("IndexError: index out of range")
    decreases i - j
  {
    if j < i {
      ReportsFailFrom(units, i, j + 1);
    }
  }

  lemma {:induction false} ReportsSucceed(units: seq<seq<byte>>, j: nat)
    requires j <= |units|
    requires forall n :: j <= n < |units| ==> units[n] != []
    ensures ReportsFrom(units, j).Success?
    ensures |ReportsFrom(units, j).value| == |units| - j
    ensures forall n :: 0 <= n < |units| - j ==> ReportsFrom(units, j).value[n] == ReportOf(j + n, units[j + n])
    decreases |units| - j
  {
    if j < |units| {
      ReportsSucceed(units, j + 1);
    }
  }
}
