/**
 * The fold of `ffmpeg -bsf:v trace_headers` output into the slice QP list: each
 * trace line is stripped, its `[...]` tag removed, and the `nal_unit_type`,
 * `pic_init_qp_minus26` and `slice_qp_delta` fields update the running state.
 */
module Trace {
  import opened Wrappers
  import opened Text

  /** The fold's variables: the QPs and slice types so far, the initial QP and the current NAL type. */
  datatype TraceState = TraceState(qps: seq<int>, qpInit: int, nalTypes: seq<int>, currentNal: Option<int>)

  /** Before the first line: no QPs, an initial QP of 0 and no NAL type yet. */
  const Initial: TraceState := TraceState([], 0, [], None)

  /**
   * The first `]` at or after `i`, as the lazy `.*?` of the tag pattern finds
   * it; `.` does not match a line break, so a `\n` first means no match.
   */
  function CloseBracket(s: string, i: nat): (r: Option<nat>)
    requires i <= |s|
    ensures r.Some? ==> i <= r.value < |s| && s[r.value] == ']'
    ensures r.Some? ==> forall j :: i <= j < r.value ==> s[j] != ']' && s[j] != '\n'
    ensures r.None? ==> forall j :: i <= j < |s| && s[j] == ']' ==> exists m :: i <= m < j && s[m] == '\n'
    decreases |s| - i
  {
    if i == |s| || s[i] == '\n' then None
    else if s[i] == ']' then Some(i)
    else CloseBracket(s, i + 1)
  }

  /**
   * `re.sub(r"^\[.*?\]\s*", "", line)`: a leading `[...]` tag and the white
   * space after it are removed; a line not starting with a tag is kept.
   */
  function DropTag(line: string): (entry: string)
    ensures |entry| <= |line|
    ensures entry == line || (|line| > 0 && line[0] == '[' && entry == line[|line| - |entry|..])
  {
    if |line| > 0 && line[0] == '[' then
      match CloseBracket(line, 1)
      case None => line
      case Some(j) => line[SkipSpace(line, j + 1)..]
    else line
  }

  /** The first `c` at or after `i` in `s`, or `|s|` when there is none. */
  function IndexOfFrom(s: string, c: char, i: nat): (k: nat)
    requires i <= |s|
    ensures i <= k <= |s|
    ensures forall j :: i <= j < k ==> s[j] != c
    ensures k < |s| ==> s[k] == c
    decreases |s| - i
  {
    if i == |s| || s[i] == c then i else IndexOfFrom(s, c, i + 1)
  }

  /**
   * `entry.split("=")[1]`: the text between the first `=` and the next `=` or
   * the end; `None` (Python's `IndexError`) when there is no `=`.
   */
  function SecondField(entry: string): (r: Option<string>)
    ensures r.None? <==> forall j :: 0 <= j < |entry| ==> entry[j] != '='
  {
    var a := IndexOfFrom(entry, '=', 0);
    if a == |entry| then None
    else
      var b := IndexOfFrom(entry, '=', a + 1);
      Some(entry[a + 1..b])
  }

  /** `entry[a]` is the first `=` of `entry`. */
  predicate FirstEquals(entry: string, a: int)
  {
    0 <= a < |entry| && entry[a] == '=' && forall j :: 0 <= j < a ==> entry[j] != '='
  }

  /** `field` follows `entry[a]` and runs, free of `=`, up to the next `=` or the end. */
  predicate FieldAfter(entry: string, a: int, field: string)
  {
    0 <= a && a + 1 + |field| <= |entry| && entry[a + 1..a + 1 + |field|] == field
    && (a + 1 + |field| == |entry| || entry[a + 1 + |field|] == '=')
    && forall j :: 0 <= j < |field| ==> field[j] != '='
  }

  /**
   * The field found is what follows the first `=`, up to but not including the
   * next `=`, or the end.
   */
  lemma SecondFieldAfterFirstEquals(entry: string)
    requires SecondField(entry).Some?
    ensures exists a :: FirstEquals(entry, a) && FieldAfter(entry, a, SecondField(entry).value)
  {
    var a := IndexOfFrom(entry, '=', 0);
    var b := IndexOfFrom(entry, '=', a + 1);
    assert SecondField(entry).value == entry[a + 1..b];
    assert FirstEquals(entry, a) && FieldAfter(entry, a, SecondField(entry).value);
  }

  /** `int(entry.split("=")[1])`, with Python's exceptions as failures. */
  function FieldValue(entry: string): Result<int>
  {
    match SecondField(entry)
    case None => Failure("IndexError: list index out of range")
    case Some(field) =>
      match ParseInt(field)
      case None => Failure("ValueError: invalid literal for int() with base 10")
      case Some(v) => Success(v)
  }

  /** A current NAL type that marks a slice: 1 (non-IDR) or 5 (IDR). */
  predicate SliceNal(current: Option<int>)
  {
    current == Some(1) || current == Some(5)
  }

  /** The three trace fields the fold reads. */
  const NalTypeField: string := "nal_unit_type"
  const PicInitQpField: string := "pic_init_qp_minus26"
  const SliceQpDeltaField: string := "slice_qp_delta"

  /** `current_nal = v`. */
  function SetNal(st: TraceState, v: Result<int>): Result<TraceState>
  {
    match v
    case Failure(e) => Failure(e)
    case Success(n) => Success(st.(currentNal := Some(n)))
  }

  /** `qp_init = v + 26`. */
  function SetQpInit(st: TraceState, v: Result<int>): Result<TraceState>
  {
    match v
    case Failure(e) => Failure(e)
    case Success(n) => Success(st.(qpInit := n + 26))
  }

  /** `qps.append(v + qp_init)` and `nal_types.append(current_nal)`. */
  function AddSliceQp(st: TraceState, v: Result<int>): Result<TraceState>
    requires st.currentNal.Some?
  {
    match v
    case Failure(e) => Failure(e)
    case Success(n) => Success(st.(qps := st.qps + [n + st.qpInit], nalTypes := st.nalTypes + [st.currentNal.value]))
  }

  lemma AddSliceQpValue(st: TraceState, v: Result<int>, qp: int)
    requires st.currentNal.Some? && v.Success? && qp == v.value + st.qpInit
    ensures AddSliceQp(st, v)
      == Success(TraceState(st.qps + [qp], st.qpInit, st.nalTypes + [st.currentNal.value], st.currentNal))
  {
  }

  /** The `if`/`elif` chain on one untagged entry. */
  function Apply(st: TraceState, entry: string): Result<TraceState>
  {
    if Contains(entry, NalTypeField) then SetNal(st, FieldValue(entry))
    else if Contains(entry, PicInitQpField) then SetQpInit(st, FieldValue(entry))
    else if Contains(entry, SliceQpDeltaField) && SliceNal(st.currentNal) then AddSliceQp(st, FieldValue(entry))
    else Success(st)
  }

  /** One line of the fold: blank lines are skipped, others have their tag dropped and are applied. */
  function Step(st: TraceState, rawLine: string): Result<TraceState>
  {
    var line := Strip(rawLine);
    if line == [] then Success(st) else Apply(st, DropTag(line))
  }

  /** The fold from state `st` over the lines from `i` on, stopping at the first line that raises. */
  function FoldFrom(st: TraceState, lines: seq<string>, i: nat): Result<TraceState>
    requires i <= |lines|
    decreases |lines| - i
  {
    if i == |lines| then Success(st)
    else
      match Step(st, lines[i])
      case Failure(e) => Failure(e)
      case Success(next) => FoldFrom(next, lines, i + 1)
  }

  /** One step of the fold: a failing line ends it, a succeeding one hands on its state. */
  lemma FoldStep(st: TraceState, lines: seq<string>, i: nat)
    requires i < |lines|
    ensures Step(st, lines[i]).Failure? ==> FoldFrom(st, lines, i) == Failure(Step(st, lines[i]).error)
    ensures Step(st, lines[i]).Success? ==> FoldFrom(st, lines, i) == FoldFrom(Step(st, lines[i]).value, lines, i + 1)
  {
  }

  /** The fold over all the lines the trace filter wrote. */
  function TraceLines(lines: seq<string>): Result<TraceState>
  {
    FoldFrom(Initial, lines, 0)
  }

  /** The body of the line loop for one untagged entry: the `if`/`elif` chain on the four variables. */
  method ApplyEntry(qps: seq<int>, qpInit: int, nalTypes: seq<int>, currentNal: Option<int>, entry: string)
    returns (r: Result<TraceState>)
    ensures r == Apply(TraceState(qps, qpInit, nalTypes, currentNal), entry)
  {
    ghost var st := TraceState(qps, qpInit, nalTypes, currentNal);
    if Contains(entry, NalTypeField) {
      ApplyNal(st, entry);
      var v := FieldValue(entry);
      if v.Failure? {
        return Failure(v.error);
      }
      r := Success(TraceState(qps, qpInit, nalTypes, Some(v.value)));
    } else if Contains(entry, PicInitQpField) {
      ApplyPic(st, entry);
      var v := FieldValue(entry);
      if v.Failure? {
        return Failure(v.error);
      }
      r := Success(TraceState(qps, v.value + 26, nalTypes, currentNal));
    } else if Contains(entry, SliceQpDeltaField) && (currentNal == Some(1) || currentNal == Some(5)) {
      ApplySlice(st, entry);
      var v := FieldValue(entry);
      if v.Failure? {
        return Failure(v.error);
      }
      var qp := v.value + qpInit;
      AddSliceQpValue(st, v, qp);
      r := Success(TraceState(qps + [qp], qpInit, nalTypes + [currentNal.value], currentNal));
    } else {
      ApplyOther(st, entry);
      r := Success(TraceState(qps, qpInit, nalTypes, currentNal));
    }
  }

  lemma ApplyNal(st: TraceState, entry: string)
    requires Contains(entry, NalTypeField)
    ensures Apply(st, entry) == SetNal(st, FieldValue(entry))
  {
  }

  lemma ApplyPic(st: TraceState, entry: string)
    requires !Contains(entry, NalTypeField) && Contains(entry, PicInitQpField)
    ensures Apply(st, entry) == SetQpInit(st, FieldValue(entry))
  {
  }

  lemma ApplySlice(st: TraceState, entry: string)
    requires !Contains(entry, NalTypeField) && !Contains(entry, PicInitQpField)
    requires Contains(entry, SliceQpDeltaField) && SliceNal(st.currentNal)
    ensures Apply(st, entry) == AddSliceQp(st, FieldValue(entry))
  {
  }

  /** An entry that names none of the three fields, or a slice QP outside a slice, leaves the state as it is. */
  lemma ApplyOther(st: TraceState, entry: string)
    requires !Contains(entry, NalTypeField) && !Contains(entry, PicInitQpField)
    requires !(Contains(entry, SliceQpDeltaField) && SliceNal(st.currentNal))
    ensures Apply(st, entry) == Success(st)
  {
  }

  /**
   * The line loop of `trace_h264_headers_line_by_line`, over the lines the
   * trace filter wrote: it returns the QPs, the initial QP and the slice types.
   */
  method TraceHeaders(lines: seq<string>) returns (r: Result<(seq<int>, int, seq<int>)>)
    ensures r.Failure? <==> TraceLines(lines).Failure?
    ensures r.Success? ==> var st := TraceLines(lines).value;
      r.value == (st.qps, st.qpInit, st.nalTypes)
    ensures r.Success? ==> |r.value.0| == |r.value.2| && forall t :: t in r.value.2 ==> t == 1 || t == 5
  {
    var qps: seq<int> := [];
    var nalTypes: seq<int> := [];
    var qpInit := 0;
    var currentNal: Option<int> := None;
    for i := 0 to |lines|
      invariant FoldFrom(TraceState(qps, qpInit, nalTypes, currentNal), lines, i) == TraceLines(lines)
    {
      ghost var st := TraceState(qps, qpInit, nalTypes, currentNal);
      FoldStep(st, lines, i);
      var line := Strip(lines[i]);
      if line == [] {
        continue;
      }
      var entry := DropTag(line);
      var next := ApplyEntry(qps, qpInit, nalTypes, currentNal, entry);
      if next.Failure? {
        return Failure(next.error);
      }
      qps, qpInit, nalTypes, currentNal := next.value.qps, next.value.qpInit, next.value.nalTypes, next.value.currentNal;
    }
    TraceConsistent(lines);
    r := Success((qps, qpInit, nalTypes));
  }

  /** The fold's invariant: one slice type per QP, and every slice type 1 or 5. */
  predicate Consistent(st: TraceState)
  {
    |st.qps| == |st.nalTypes| && forall t :: t in st.nalTypes ==> t == 1 || t == 5
  }

  /** A step keeps the invariant, and either keeps the QP list or appends one QP to it. */
  lemma StepConsistent(st: TraceState, line: string)
    requires Consistent(st) && Step(st, line).Success?
    ensures Consistent(Step(st, line).value)
    ensures var next := Step(st, line).value;
      st.qps <= next.qps && |next.qps| <= |st.qps| + 1
  {
    var line' := Strip(line);
    if line' != [] {
      ApplyConsistent(st, DropTag(line'));
    }
  }

  /** What `StepConsistent` states, for one untagged entry. */
  lemma ApplyConsistent(st: TraceState, entry: string)
    requires Consistent(st) && Apply(st, entry).Success?
    ensures Consistent(Apply(st, entry).value)
    ensures var next := Apply(st, entry).value;
      st.qps <= next.qps && |next.qps| <= |st.qps| + 1
  {
    var v := FieldValue(entry);
    if Contains(entry, NalTypeField) {
      assert Apply(st, entry) == SetNal(st, v);
    } else if Contains(entry, PicInitQpField) {
      assert Apply(st, entry) == SetQpInit(st, v);
    } else if Contains(entry, SliceQpDeltaField) && SliceNal(st.currentNal) {
      assert Apply(st, entry) == AddSliceQp(st, v);
      AddSliceQpConsistent(st, v);
    }
  }

  /** Recording a slice QP appends one QP and one slice type, 1 or 5. */
  lemma AddSliceQpConsistent(st: TraceState, v: Result<int>)
    requires Consistent(st) && SliceNal(st.currentNal) && v.Success?
    ensures Consistent(AddSliceQp(st, v).value)
    ensures var next := AddSliceQp(st, v).value;
      st.qps <= next.qps && |next.qps| == |st.qps| + 1
  {
    var next := AddSliceQp(st, v).value;
    assert next.nalTypes == st.nalTypes + [st.currentNal.value];
  }

  /**
   * The fold keeps the invariant, and the QPs recorded before it are never
   * changed: they begin the QP list it ends with.
   */
  lemma {:induction false} FoldConsistent(st: TraceState, lines: seq<string>, i: nat)
    requires i <= |lines| && Consistent(st) && FoldFrom(st, lines, i).Success?
    ensures var final := FoldFrom(st, lines, i).value;
      Consistent(final) && st.qps <= final.qps
    decreases |lines| - i
  {
    if i < |lines| {
      FoldStep(st, lines, i);
      StepConsistent(st, lines[i]);
      var next := Step(st, lines[i]).value;
      FoldConsistent(next, lines, i + 1);
    }
  }

  /**
   * After all the lines, `qps` and `nal_types` have equal length and every
   * slice type is 1 or 5.
   */
  lemma TraceConsistent(lines: seq<string>)
    requires TraceLines(lines).Success?
    ensures Consistent(TraceLines(lines).value)
  {
    FoldConsistent(Initial, lines, 0);
  }

  /** The fold over a prefix of the lines, continued over the rest, is the fold over all of them. */
  lemma {:induction false} FoldSplit(st: TraceState, lines: seq<string>, i: nat, j: nat)
    requires i <= j <= |lines|
    ensures FoldFrom(st, lines, i) ==
      match FoldFrom(st, lines[..j], i)
      case Failure(e) => Failure(e)
      case Success(mid) => FoldFrom(mid, lines, j)
    decreases j - i
  {
    assert lines[..j][i..] == lines[i..j];
    if i < j {
      assert lines[..j][i] == lines[i];
      match Step(st, lines[i])
      case Failure(e) =>
      case Success(next) => FoldSplit(next, lines, i + 1, j);
    }
  }

  /** The QPs found in the first `j` lines begin the QPs found in all of them. */
  lemma QpsOnlyGrow(lines: seq<string>, j: nat)
    requires j <= |lines| && TraceLines(lines).Success?
    ensures TraceLines(lines[..j]).Success?
    ensures var early := TraceLines(lines[..j]).value.qps;
      var final := TraceLines(lines).value.qps;
      early <= final
  {
    FoldSplit(Initial, lines, 0, j);
    var mid := TraceLines(lines[..j]).value;
    FoldConsistent(Initial, lines[..j], 0);
    FoldConsistent(mid, lines, j);
  }
}
