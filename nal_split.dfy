/**
 * Annex B byte-stream splitting and NAL type naming, as the selective slice
 * cipher uses them (ITU-T H.264, Annex B and section 7.3.1).
 */
module NalSplit {
  import opened Bytes
  import Text

  /** A unit as `parse_nal_units` returns it begins with a three- or four-byte start code. */
  predicate StartsWithStartCode(u: seq<byte>)
  {
    Match4(u, 0) || Match3(u, 0)
  }

  /** The length of a unit's start code: 4 after `00 00 00 01`, otherwise 3. */
  function PrefixLength(u: seq<byte>): (n: nat)
    ensures n == 3 || n == 4
  {
    if |u| >= 4 && u[..4] == StartCode4 then 4 else 3
  }

  lemma PrefixLengthMatch4(u: seq<byte>)
    ensures PrefixLength(u) == 4 <==> Match4(u, 0)
  {
    OccursStartCodes(u, 0);
    assert |u| >= 4 ==> u[0..0 + 4] == u[..4];
  }

  /** A well-formed unit: a start code and then no further `00 00 01`. */
  predicate WellFormedUnit(u: seq<byte>)
  {
    StartsWithStartCode(u) && PrefixLength(u) <= |u| && NoMatch3(u[PrefixLength(u)..])
  }

  /** The first position of `s`, from `i` on, where a three- or four-byte start code begins. */
  function FirstStartFrom(s: seq<byte>, i: nat): (r: nat)
    requires i <= |s|
    ensures i <= r <= |s|
    ensures forall k :: i <= k < r ==> !Match3(s, k) && !Match4(s, k)
    ensures r < |s| ==> Match3(s, r) || Match4(s, r)
    decreases |s| - i
  {
    if i == |s| then i
    else if Match4(s, i) || Match3(s, i) then i
    else FirstStartFrom(s, i + 1)
  }

  /** The position of the first start code, or the length when there is none. */
  function FirstStart(s: seq<byte>): nat
  {
    FirstStartFrom(s, 0)
  }

  /**
   * Where a unit whose start code ends at `i` stops: the nearest later three- or
   * four-byte start code, or the end of the stream.
   */
  function UnitEnd(s: seq<byte>, i: nat): (end: nat)
    requires i <= |s|
    ensures i <= end <= |s|
    ensures forall k :: i <= k < end ==> !Match3(s, k) && !Match4(s, k)
    ensures end == |s| || Match3(s, end) || Match4(s, end)
  {
    var next3 := Find(s, StartCode3, i);
    var next4 := Find(s, StartCode4, i);
    StartCodesEverywhere(s);
    if next3 == -1 && next4 == -1 then |s|
    else if next3 == -1 then next4
    else if next4 == -1 then next3
    else if next3 < next4 then next3 else next4
  }

  /** A four-byte start code at `k` holds a three-byte one at `k + 1`. */
  lemma Match4HasMatch3(s: seq<byte>, k: int)
    requires Match4(s, k)
    ensures Match3(s, k + 1)
  {
  }

  /** A stream without `00 00 01` has no start code of either length. */
  lemma NoStartCode(s: seq<byte>)
    requires NoMatch3(s)
    ensures FirstStart(s) == |s|
  {
    assert forall k :: Match4(s, k) ==> Match3(s, k + 1);
  }

  /** The unit `s[start..end]` found after a start code at `start` ending at `i` is well formed. */
  lemma UnitWellFormed(s: seq<byte>, start: nat, i: nat, end: nat)
    requires start <= i <= end <= |s|
    requires (i == start + 4 && Match4(s, start)) || (i == start + 3 && Match3(s, start) && !Match4(s, start))
    requires forall k :: i <= k < end ==> !Match3(s, k)
    ensures WellFormedUnit(s[start..end])
    ensures PrefixLength(s[start..end]) == i - start
    ensures s[start..end][i - start..] == s[i..end]
  {
    var u := s[start..end];
    PrefixLengthMatch4(u);
    assert Match4(u, 0) <==> Match4(s, start);
    assert Match3(u, 0) <==> Match3(s, start);
    assert u[i - start..] == s[i..end];
    forall k | 0 <= k < |s[i..end]| ensures !Match3(s[i..end], k) {
      assert Match3(s[i..end], k) ==> Match3(s, i + k);
    }
  }

  /** Cutting the unit `s[start..end]` extends the units cut so far, which cover `s[first..start]`. */
  lemma CutUnit(s: seq<byte>, nals: seq<seq<byte>>, first: nat, start: nat, i: nat, end: nat)
    requires first <= start <= i <= end <= |s|
    requires (i == start + 4 && Match4(s, start)) || (i == start + 3 && Match3(s, start) && !Match4(s, start))
    requires forall k :: i <= k < end ==> !Match3(s, k)
    requires Concat(nals) == s[first..start]
    ensures Concat(nals + [s[start..end]]) == s[first..end]
    ensures WellFormedUnit(s[start..end])
  {
    UnitWellFormed(s, start, i, end);
    ConcatAppend(nals, s[start..end]);
    assert s[first..start] + s[start..end] == s[first..end];
  }

  lemma AllWellFormedAppend(nals: seq<seq<byte>>, u: seq<byte>)
    requires forall n :: 0 <= n < |nals| ==> WellFormedUnit(nals[n])
    requires WellFormedUnit(u)
    ensures forall n :: 0 <= n < |nals| + 1 ==> WellFormedUnit((nals + [u])[n])
  {
    forall n | 0 <= n < |nals| + 1 ensures WellFormedUnit((nals + [u])[n]) {
      if n < |nals| {
        assert (nals + [u])[n] == nals[n];
      }
    }
  }

  /**
   * `u` is the unit cut at `start`: it runs from its start code up to the nearest
   * later three- or four-byte start code, or to the end of the stream.
   */
  predicate CutAt(s: seq<byte>, start: nat, u: seq<byte>)
  {
    && start + |u| <= |s|
    && u == s[start..start + |u|]
    && PrefixLength(u) <= |u|
    && start + |u| == UnitEnd(s, start + PrefixLength(u))
  }

  /** Unit `n` begins where the units before it, laid end to end from `first`, stop, and is cut there. */
  predicate CutsFrom(s: seq<byte>, first: nat, nals: seq<seq<byte>>, starts: seq<nat>)
  {
    && |starts| == |nals|
    && forall n :: 0 <= n < |nals| ==>
      starts[n] == first + |Concat(nals[..n])| && CutAt(s, starts[n], nals[n])
  }

  /** The unit from a start code at `start`, whose code ends at `i`, up to `UnitEnd` is the unit cut at `start`. */
  lemma CutAtUnit(s: seq<byte>, start: nat, i: nat, end: nat)
    requires start <= i <= |s| && end == UnitEnd(s, i)
    requires (i == start + 4 && Match4(s, start)) || (i == start + 3 && Match3(s, start) && !Match4(s, start))
    ensures CutAt(s, start, s[start..end])
  {
    UnitWellFormed(s, start, i, end);
  }

  lemma CutsFromAppend(s: seq<byte>, first: nat, nals: seq<seq<byte>>, starts: seq<nat>, start: nat, u: seq<byte>)
    requires CutsFrom(s, first, nals, starts)
    requires start == first + |Concat(nals)| && CutAt(s, start, u)
    ensures CutsFrom(s, first, nals + [u], starts + [start])
  {
    var nals2, starts2 := nals + [u], starts + [start];
    forall n | 0 <= n < |nals2|
      ensures starts2[n] == first + |Concat(nals2[..n])| && CutAt(s, starts2[n], nals2[n])
    {
      if n < |nals| {
        assert nals2[..n] == nals[..n];
      } else {
        assert nals2[..n] == nals;
      }
    }
  }

  /** When the walk is over, no units means no `00 00 01` anywhere. */
  lemma ParseEnd(s: seq<byte>, found: bool)
    requires !found ==> forall k :: 0 <= k < |s| ==> !Match3(s, k)
    requires found ==> FirstStart(s) < |s|
    ensures !found <==> NoMatch3(s)
  {
    if found {
      var first := FirstStart(s);
      if Match4(s, first) {
        Match4HasMatch3(s, first);
      }
    }
  }

  /** What holds each time the cursor of `parse_nal_units` is at `i`. */
  predicate ParseInvariant(s: seq<byte>, i: nat, nals: seq<seq<byte>>, starts: seq<nat>)
  {
    var first := FirstStart(s);
    && i <= |s|
    && (nals == [] ==> i <= first)
    && (nals != [] ==> first < |s| && first <= i && Concat(nals) == s[first..i])
    && (nals != [] ==> i == |s| || Match3(s, i) || Match4(s, i))
    && (forall n :: 0 <= n < |nals| ==> WellFormedUnit(nals[n]))
    && CutsFrom(s, first, nals, starts)
  }

  /** Before the first unit, a position with no start code is passed over. */
  lemma ParseSkip(s: seq<byte>, i: nat, nals: seq<seq<byte>>, starts: seq<nat>)
    requires ParseInvariant(s, i, nals, starts) && i < |s|
    requires !Match4(s, i) && !Match3(s, i)
    ensures ParseInvariant(s, i + 1, nals, starts)
  {
  }

  /** Cutting the unit from a start code at `start` up to `UnitEnd` keeps the invariant, with the cursor at the unit's end. */
  lemma ParseCut(s: seq<byte>, nals: seq<seq<byte>>, starts: seq<nat>, start: nat, i: nat, end: nat)
    requires ParseInvariant(s, start, nals, starts) && start < |s|
    requires (i == start + 4 && Match4(s, start)) || (i == start + 3 && Match3(s, start) && !Match4(s, start))
    requires i <= |s| && end == UnitEnd(s, i)
    ensures ParseInvariant(s, end, nals + [s[start..end]], starts + [start])
  {
    var first := FirstStart(s);
    if nals == [] {
      assert start == first;
      assert Concat(nals) == s[first..start];
    }
    CutUnit(s, nals, first, start, i, end);
    CutAtUnit(s, start, i, end);
    assert |Concat(nals)| == start - first;
    AllWellFormedAppend(nals, s[start..end]);
    CutsFromAppend(s, first, nals, starts, start, s[start..end]);
  }

  /** With the cursor at the end of the stream, the invariant gives everything `parse_nal_units` promises. */
  lemma ParseDone(s: seq<byte>, nals: seq<seq<byte>>, starts: seq<nat>)
    requires ParseInvariant(s, |s|, nals, starts)
    ensures nals == [] <==> NoMatch3(s)
    ensures Concat(nals) == s[FirstStart(s)..]
    ensures forall n :: 0 <= n < |nals| ==> WellFormedUnit(nals[n])
    ensures CutsFrom(s, FirstStart(s), nals, starts)
  {
    ParseCover(s, nals != [], Concat(nals));
  }

  /** Whether a unit was found, and what the units cover, once the walk is over. */
  lemma ParseCover(s: seq<byte>, found: bool, cover: seq<byte>)
    requires !found ==> FirstStart(s) >= |s| && cover == []
    requires found ==> FirstStart(s) < |s| && cover == s[FirstStart(s)..|s|]
    ensures !found <==> NoMatch3(s)
    ensures cover == s[FirstStart(s)..]
  {
    var first := FirstStart(s);
    if found {
      ParseEnd(s, true);
      assert s[first..|s|] == s[first..];
    } else {
      ParseEnd(s, false);
      assert s[first..] == [];
    }
  }

  /**
   * `parse_nal_units`: a cursor walks the stream; at each start code it cuts a
   * unit up to the nearest later start code. Bytes before the first start code
   * are dropped.
   */
  method ParseNalUnits(bytestream: seq<byte>) returns (nals: seq<seq<byte>>, ghost starts: seq<nat>)
    ensures nals == [] <==> NoMatch3(bytestream)
    ensures Concat(nals) == bytestream[FirstStart(bytestream)..]
    ensures forall n :: 0 <= n < |nals| ==> WellFormedUnit(nals[n])
    ensures CutsFrom(bytestream, FirstStart(bytestream), nals, starts)
  {
    nals := [];
    starts := [];
    var i := 0;
    var length := |bytestream|;
    while i < length
      invariant ParseInvariant(bytestream, i, nals, starts)
      decreases length - i
    {
      var start := i;
      if Match4(bytestream, i) {
        i := i + 4;
      } else if Match3(bytestream, i) {
        i := i + 3;
      } else {
        ParseSkip(bytestream, i, nals, starts);
        i := i + 1;
        continue;
      }
      var end := UnitEnd(bytestream, i);
      ParseCut(bytestream, nals, starts, start, i, end);
      nals := nals + [bytestream[start..end]];
      starts := starts + [start];
      i := end;
    }
    ParseDone(bytestream, nals, starts);
  }

  /** The NAL unit types `get_nal_type_name` has a fixed name for. */
  const NamedTypes: set<int> := {1, 5, 6, 7, 8, 9}

  /** The text every name of a type outside `NamedTypes` begins with. */
  const UnknownPrefix: string := "Unknown (type "

  /**
   * `get_nal_type_name`: the fixed name of a slice, SEI, SPS, PPS or access unit
   * delimiter type, and `Unknown (type t)` for any other value.
   */
  function NalTypeName(t: int): (name: string)
    ensures |name| > 0
    ensures t in NamedTypes <==> name[0] != 'U'
    ensures t !in NamedTypes ==> |name| > |UnknownPrefix| && name[..|UnknownPrefix|] == UnknownPrefix
  {
    match t
    case 1 => "Non-IDR Slice"
    case 5 => "IDR Slice (I-frame)"
    case 6 => "SEI"
    case 7 => "SPS (Seq Param Set)"
    case 8 => "PPS (Pic Param Set)"
    case 9 => "Access Unit Delimiter"
    case _ => UnknownPrefix + Text.IntToString(t) + ")"
  }

  /** Different types never share a name, so a name identifies its type. */
  lemma NalTypeNameInjective(t1: int, t2: int)
    requires NalTypeName(t1) == NalTypeName(t2)
    ensures t1 == t2
  {
    if t1 !in NamedTypes && t2 !in NamedTypes {
      var n1, n2 := NalTypeName(t1), NalTypeName(t2);
      var s1, s2 := Text.IntToString(t1), Text.IntToString(t2);
      assert s1 == n1[|UnknownPrefix|..|n1| - 1];
      assert s2 == n2[|UnknownPrefix|..|n2| - 1];
      Text.ParseIntToString(t1);
      Text.ParseIntToString(t2);
    }
  }
}
