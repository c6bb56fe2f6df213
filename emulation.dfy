/**
 * Emulation prevention for H.264 NAL unit payloads (section 7.4.1 of ITU-T H.264,
 * `emulation_prevention_three_byte`): `extract_rbsp` removes the `0x03` of every
 * `00 00 03` met in a left-to-right scan, `insert_emulation_prevention` puts a `0x03`
 * in front of every byte <= 3 that follows two zeros counted since the last insertion.
 */
module Emulation {
  import opened Bytes

  // ---------------------------------------------------------------------------
  // Specification functions
  // ---------------------------------------------------------------------------

  /** The payload with the `03` of every `00 00 03` met left to right removed. */
  function Unescape(p: seq<byte>): seq<byte>
    decreases |p|
  {
    if p == [] then []
    else if |p| >= 3 && p[0] == 0 && p[1] == 0 && p[2] == 3 then [0, 0] + Unescape(p[3..])
    else [p[0]] + Unescape(p[1..])
  }

  /** How many bytes `Unescape` drops from `p`. */
  function Dropped(p: seq<byte>): nat
    decreases |p|
  {
    if p == [] then 0
    else if |p| >= 3 && p[0] == 0 && p[1] == 0 && p[2] == 3 then 1 + Dropped(p[3..])
    else Dropped(p[1..])
  }

  /**
   * The escaped form of `x` when `zeros` zero bytes have been emitted since the
   * last inserted `03` (the source's `zero_count`).
   */
  function EscapeFrom(x: seq<byte>, zeros: nat): seq<byte>
    decreases |x|
  {
    if x == [] then [] else Inserted(zeros, x[0]) + [x[0]] + EscapeFrom(x[1..], NextZeros(zeros, x[0]))
  }

  /** Whether a `03` goes in front of `b`: two zeros counted and `b <= 3`. */
  predicate Inserts(zeros: nat, b: byte)
  {
    zeros == 2 && b <= 3
  }

  /** The `03` emitted in front of `b`, if any. */
  function Inserted(zeros: nat, b: byte): seq<byte>
  {
    if Inserts(zeros, b) then [3] else []
  }

  /** `zero_count` after emitting `b`: reset by an insertion, then counting `b` if it is zero. */
  function NextZeros(zeros: nat, b: byte): nat
  {
    var z := if Inserts(zeros, b) then 0 else zeros;
    if b == 0 then z + 1 else 0
  }

  /** The escaped form of a whole RBSP. */
  function Escape(x: seq<byte>): seq<byte>
  {
    EscapeFrom(x, 0)
  }

  /**
   * No `00 00 00`, `00 00 01` or `00 00 02` occurs in `s`: the byte patterns that
   * section 7.4.1 of ITU-T H.264 forbids inside a NAL unit.
   */
  predicate NoEmulation(s: seq<byte>)
  {
    forall k :: 0 <= k && k + 2 < |s| ==> !(s[k] == 0 && s[k + 1] == 0 && s[k + 2] <= 2)
  }

  // ---------------------------------------------------------------------------
  // Properties of the specification
  // ---------------------------------------------------------------------------

  /** Removal keeps every byte it does not drop: the output plus the drops is the input. */
  lemma {:induction false} UnescapeLength(p: seq<byte>)
    ensures |Unescape(p)| + Dropped(p) == |p|
    ensures |Unescape(p)| <= |p|
    decreases |p|
  {
    if p == [] {
    } else if |p| >= 3 && p[0] == 0 && p[1] == 0 && p[2] == 3 {
      UnescapeLength(p[3..]);
    } else {
      UnescapeLength(p[1..]);
    }
  }

  /** A payload not starting with `00 00 03` keeps its first byte. */
  lemma UnescapeCopyHead(p: seq<byte>)
    requires p != [] && !(|p| >= 3 && p[0] == 0 && p[1] == 0 && p[2] == 3)
    ensures Unescape(p) == [p[0]] + Unescape(p[1..])
  {
  }

  /** A leading non-zero byte is copied through by `Unescape`. */
  lemma UnescapeNonZeroHead(b: byte, r: seq<byte>)
    requires b != 0
    ensures Unescape([b] + r) == [b] + Unescape(r)
  {
    UnescapeCopyHead([b] + r);
    assert ([b] + r)[1..] == r;
  }

  /** A payload starting with `00 00 03` loses that `03` and nothing else at its head. */
  lemma UnescapeAtMatch(p: seq<byte>, i: nat)
    requires i + 2 < |p| && p[i] == 0 && p[i + 1] == 0 && p[i + 2] == 3
    ensures Unescape(p[i..]) == p[i..i + 2] + Unescape(p[i + 3..])
  {
    assert p[i..][3..] == p[i + 3..];
    assert p[i..i + 2] == [0, 0];
  }

  /** The same at position `i`. */
  lemma UnescapeAtCopy(p: seq<byte>, i: nat)
    requires i < |p| && !(i + 2 < |p| && p[i] == 0 && p[i + 1] == 0 && p[i + 2] == 3)
    ensures Unescape(p[i..]) == [p[i]] + Unescape(p[i + 1..])
  {
    UnescapeCopyHead(p[i..]);
    assert p[i..][1..] == p[i + 1..];
  }

  /** Case of the round trip where a `03` is inserted in front of `b`. */
  lemma {:induction false} RoundTripInserted(b: byte, rest: seq<byte>)
    requires b <= 3
    requires b == 0 ==> Unescape(Zeros(1) + EscapeFrom(rest, 1)) == Zeros(1) + rest
    requires b != 0 ==> Unescape(Zeros(0) + EscapeFrom(rest, 0)) == Zeros(0) + rest
    ensures Unescape([0, 0] + EscapeFrom([b] + rest, 2)) == [0, 0] + ([b] + rest)
  {
    var x := [b] + rest;
    assert x[0] == b && x[1..] == rest;
    var tail := [b] + EscapeFrom(rest, if b == 0 then 1 else 0);
    assert EscapeFrom(x, 2) == [3 as byte] + tail;
    var w := [0, 0] + EscapeFrom(x, 2);
    assert w == [0, 0, 3] + tail;
    UnescapeAtMatch(w, 0);
    assert w[3..] == tail && w[0..2] == [0, 0];
    if b == 0 {
      assert Zeros(1) == [0];
      assert tail == Zeros(1) + EscapeFrom(rest, 1);
      assert [0, 0] + ([b] + rest) == [0, 0] + (Zeros(1) + rest);
    } else {
      assert Zeros(0) == [];
      assert Zeros(0) + EscapeFrom(rest, 0) == EscapeFrom(rest, 0);
      assert Zeros(0) + rest == rest;
      UnescapeNonZeroHead(b, EscapeFrom(rest, 0));
    }
  }

  /** Case of the round trip where `b` is zero and extends the run of zeros. */
  lemma {:induction false} RoundTripZero(rest: seq<byte>, zeros: nat)
    requires zeros < 2
    requires Unescape(Zeros(zeros + 1) + EscapeFrom(rest, zeros + 1)) == Zeros(zeros + 1) + rest
    ensures Unescape(Zeros(zeros) + EscapeFrom([0] + rest, zeros)) == Zeros(zeros) + ([0] + rest)
  {
    var e := EscapeFrom(rest, zeros + 1);
    EscapeFromCons(0, rest, zeros);
    assert Inserted(zeros, 0) + [0] == [0];
    ZerosCons(zeros, e);
    ZerosCons(zeros, rest);
  }

  /** `EscapeFrom` on a sequence with a known first byte. */
  lemma EscapeFromCons(b: byte, rest: seq<byte>, zeros: nat)
    ensures EscapeFrom([b] + rest, zeros) == Inserted(zeros, b) + [b] + EscapeFrom(rest, NextZeros(zeros, b))
  {
    assert ([b] + rest)[1..] == rest;
  }

  /** One more zero in front of `s` makes the run of zeros one longer. */
  lemma ZerosCons(zeros: nat, s: seq<byte>)
    ensures Zeros(zeros) + ([0] + s) == Zeros(zeros + 1) + s
  {
    assert Zeros(zeros + 1) == Zeros(zeros) + [0];
  }

  /** A single zero in front of a non-zero byte is copied through. */
  lemma UnescapeZeroThenNonZero(t: seq<byte>)
    requires |t| > 0 && t[0] != 0
    ensures Unescape([0] + t) == [0] + Unescape(t)
  {
    UnescapeCopyHead([0] + t);
    assert ([0] + t)[1..] == t;
  }

  /** Two zeros in front of a byte other than `00` and `03` are copied through. */
  lemma UnescapeTwoZerosThenOther(t: seq<byte>)
    requires |t| > 0 && t[0] != 0 && t[0] != 3
    ensures Unescape([0, 0] + t) == [0, 0] + Unescape(t)
  {
    UnescapeLeadingZero(t);
    UnescapeZeroThenNonZero(t);
    TwoZerosInFront(Unescape(t));
  }

  lemma TwoZerosInFront(u: seq<byte>)
    ensures [0] + ([0] + u) == [0, 0] + u
  {
  }

  /** The first of two zeros in front of a byte other than `03` is copied through. */
  lemma UnescapeLeadingZero(t: seq<byte>)
    requires |t| > 0 && t[0] != 3
    ensures Unescape([0, 0] + t) == [0] + Unescape([0] + t)
  {
    var s := [0, 0] + t;
    UnescapeCopyHead(s);
    assert s[1..] == [0] + t;
  }

  /** Case of the round trip where `b` is non-zero and no `03` is inserted. */
  lemma {:induction false} RoundTripPlain(b: byte, rest: seq<byte>, zeros: nat)
    requires zeros <= 2 && b != 0 && !(zeros == 2 && b <= 3)
    requires Unescape(Zeros(0) + EscapeFrom(rest, 0)) == Zeros(0) + rest
    ensures Unescape(Zeros(zeros) + EscapeFrom([b] + rest, zeros)) == Zeros(zeros) + ([b] + rest)
  {
    var x := [b] + rest;
    assert x[0] == b && x[1..] == rest;
    var tail := [b] + EscapeFrom(rest, 0);
    assert EscapeFrom(x, zeros) == tail;
    assert Zeros(0) == [];
    assert Zeros(0) + EscapeFrom(rest, 0) == EscapeFrom(rest, 0);
    assert Zeros(0) + rest == rest;
    UnescapeNonZeroHead(b, EscapeFrom(rest, 0));
    assert Unescape(tail) == [b] + rest;
    if zeros == 1 {
      assert Zeros(1) == [0];
      UnescapeZeroThenNonZero(tail);
    } else if zeros == 2 {
      assert Zeros(2) == [0, 0];
      UnescapeTwoZerosThenOther(tail);
    } else {
      assert Zeros(zeros) + tail == tail;
    }
  }

  /** Unescaping fewer than three zeros leaves them as they are. */
  lemma UnescapeShortZeros(zeros: nat)
    requires zeros <= 2
    ensures Unescape(Zeros(zeros)) == Zeros(zeros)
  {
    var zs := Zeros(zeros);
    if zeros == 1 {
      assert zs == [0] && zs[1..] == [];
    } else if zeros == 2 {
      assert zs == [0, 0] && zs[1..] == [0] && zs[1..][1..] == [];
    }
  }

  /**
   * The generalised round trip: with `zeros` zero bytes already in front,
   * unescaping what `EscapeFrom` emits gives back those zeros and `x`.
   */
  lemma {:induction false} UnescapeEscapeFrom(x: seq<byte>, zeros: nat)
    requires zeros <= 2
    ensures Unescape(Zeros(zeros) + EscapeFrom(x, zeros)) == Zeros(zeros) + x
    decreases |x|
  {
    if x == [] {
      assert Zeros(zeros) + EscapeFrom(x, zeros) == Zeros(zeros) + x == Zeros(zeros);
      UnescapeShortZeros(zeros);
    } else {
      var b, rest := x[0], x[1..];
      assert x == [b] + rest;
      if zeros == 2 && b <= 3 {
        if b == 0 {
          UnescapeEscapeFrom(rest, 1);
        } else {
          UnescapeEscapeFrom(rest, 0);
        }
        assert Zeros(2) == [0, 0];
        RoundTripInserted(b, rest);
      } else if b == 0 {
        UnescapeEscapeFrom(rest, zeros + 1);
        RoundTripZero(rest, zeros);
      } else {
        UnescapeEscapeFrom(rest, 0);
        RoundTripPlain(b, rest, zeros);
      }
    }
  }

  /** Extraction undoes insertion: `extract_rbsp(insert_emulation_prevention(x)) == x`. */
  lemma UnescapeEscape(x: seq<byte>)
    ensures Unescape(Escape(x)) == x
  {
    UnescapeEscapeFrom(x, 0);
    assert Zeros(0) + Escape(x) == Escape(x);
    assert Zeros(0) + x == x;
  }

  /** How many `03` bytes `EscapeFrom` inserts. */
  function Insertions(x: seq<byte>, zeros: nat): nat
    decreases |x|
  {
    if x == [] then 0 else |Inserted(zeros, x[0])| + Insertions(x[1..], NextZeros(zeros, x[0]))
  }

  /** Escaping adds exactly the inserted bytes. */
  lemma {:induction false} EscapeFromLength(x: seq<byte>, zeros: nat)
    ensures |EscapeFrom(x, zeros)| == |x| + Insertions(x, zeros)
    decreases |x|
  {
    if x != [] {
      EscapeFromLength(x[1..], NextZeros(zeros, x[0]));
    }
  }

  /**
   * The escaped output is the input plus one byte per insertion, and those are
   * exactly the bytes that extraction drops again.
   */
  lemma EscapeLength(x: seq<byte>)
    ensures |Escape(x)| == |x| + Insertions(x, 0)
    ensures Insertions(x, 0) == Dropped(Escape(x))
  {
    EscapeFromLength(x, 0);
    UnescapeEscape(x);
    UnescapeLength(Escape(x));
  }

  /** `p` ends in (at least) `zeros` zero bytes, and in exactly `zeros` when fewer than two. */
  predicate TrailingZeros(p: seq<byte>, zeros: nat)
  {
    && zeros <= 2
    && zeros <= |p|
    && (forall k :: |p| - zeros <= k < |p| ==> p[k] == 0)
    && (zeros < 2 && zeros < |p| ==> p[|p| - 1 - zeros] != 0)
  }

  /** Appending a byte keeps `NoEmulation` unless it completes a forbidden triple. */
  lemma AppendByte(p: seq<byte>, c: byte)
    requires NoEmulation(p)
    requires |p| >= 2 && p[|p| - 2] == 0 && p[|p| - 1] == 0 ==> c > 2
    ensures NoEmulation(p + [c])
  {
    var q := p + [c];
    forall k | 0 <= k && k + 2 < |q|
      ensures !(q[k] == 0 && q[k + 1] == 0 && q[k + 2] <= 2)
    {
      if k + 2 < |p| {
        assert q[k] == p[k] && q[k + 1] == p[k + 1] && q[k + 2] == p[k + 2];
      }
    }
  }

  /** Emitting one byte, and the `03` in front of it if any, keeps both facts about the output so far. */
  lemma EmitNoEmulation(p: seq<byte>, b: byte, zeros: nat)
    requires NoEmulation(p) && TrailingZeros(p, zeros)
    ensures var p2 := p + Inserted(zeros, b) + [b];
      NoEmulation(p2) && TrailingZeros(p2, NextZeros(zeros, b))
  {
    var p1 := p + Inserted(zeros, b);
    if Inserts(zeros, b) {
      AppendByte(p, 3);
    } else {
      assert p1 == p;
    }
    assert |p1| >= 2 && p1[|p1| - 2] == 0 && p1[|p1| - 1] == 0 ==> zeros == 2 && !Inserts(zeros, b);
    AppendByte(p1, b);
  }

  /**
   * Escaping after a prefix with no forbidden triple, whose trailing zeros are
   * the ones counted, yields no forbidden triple.
   */
  lemma {:induction false} EscapeFromNoEmulation(p: seq<byte>, x: seq<byte>, zeros: nat)
    requires NoEmulation(p) && TrailingZeros(p, zeros)
    ensures NoEmulation(p + EscapeFrom(x, zeros))
    decreases |x|
  {
    if x == [] {
      assert p + EscapeFrom(x, zeros) == p;
    } else {
      var b, rest := x[0], x[1..];
      var next := NextZeros(zeros, b);
      EmitNoEmulation(p, b, zeros);
      var p2 := p + Inserted(zeros, b) + [b];
      EscapeFromNoEmulation(p2, rest, next);
      var e := EscapeFrom(rest, next);
      assert EscapeFrom(x, zeros) == Inserted(zeros, b) + [b] + e;
      assert p + (Inserted(zeros, b) + [b] + e) == p2 + e;
    }
  }

  /** The escaped form of any RBSP contains no `00 00 00`, `00 00 01` or `00 00 02`. */
  lemma EscapeNoEmulation(x: seq<byte>)
    ensures NoEmulation(Escape(x))
  {
    EscapeFromNoEmulation([], x, 0);
    assert [] + Escape(x) == Escape(x);
  }

  // ---------------------------------------------------------------------------
  // The source's loops
  // ---------------------------------------------------------------------------

  /** `extract_rbsp`: an index loop that appends to a growing buffer. */
  method ExtractRbsp(payload: seq<byte>) returns (rbsp: seq<byte>)
    ensures rbsp == Unescape(payload)
    ensures |rbsp| <= |payload|
  {
    rbsp := [];
    var i := 0;
    var length := |payload|;
    while i < length
      invariant 0 <= i <= length
      invariant rbsp + Unescape(payload[i..]) == Unescape(payload)
    {
      if i + 2 < length && payload[i] == 0 && payload[i + 1] == 0 && payload[i + 2] == 3 {
        UnescapeAtMatch(payload, i);
        rbsp := rbsp + payload[i..i + 2];
        i := i + 3;
      } else {
        UnescapeAtCopy(payload, i);
        rbsp := rbsp + [payload[i]];
        i := i + 1;
      }
    }
    assert payload[length..] == [];
    UnescapeLength(payload);
  }

  /** One turn of the insertion loop: the output so far, the byte and its `03`, then the rest escaped. */
  lemma EscapeStep(out: seq<byte>, x: seq<byte>, i: nat, zeros: nat)
    requires i < |x|
    ensures out + EscapeFrom(x[i..], zeros)
      == out + Inserted(zeros, x[i]) + [x[i]] + EscapeFrom(x[i + 1..], NextZeros(zeros, x[i]))
  {
    assert x[i..][0] == x[i] && x[i..][1..] == x[i + 1..];
  }

  /** `insert_emulation_prevention`: a byte loop carrying `zero_count`. */
  method InsertEmulationPrevention(rbsp: seq<byte>) returns (out: seq<byte>)
    ensures out == Escape(rbsp)
    ensures NoEmulation(out)
    ensures |out| == |rbsp| + Insertions(rbsp, 0)
  {
    out := [];
    var zeroCount: nat := 0;
    for i := 0 to |rbsp|
      invariant zeroCount <= 2
      invariant out + EscapeFrom(rbsp[i..], zeroCount) == Escape(rbsp)
    {
      var b := rbsp[i];
      EscapeStep(out, rbsp, i, zeroCount);
      ghost var emitted := out + Inserted(zeroCount, b);
      ghost var next := NextZeros(zeroCount, b);
      if zeroCount == 2 && b <= 3 {
        out := out + [3];
        zeroCount := 0;
      } else {
        assert out + [] == out;
      }
      assert out == emitted;
      out := out + [b];
      zeroCount := if b == 0 then zeroCount + 1 else 0;
      assert zeroCount == next;
    }
    assert rbsp[|rbsp|..] == [];
    EscapeNoEmulation(rbsp);
    EscapeLength(rbsp);
  }
}
