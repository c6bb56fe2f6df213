/**
 * The selective slice cipher of the second scheme: slice NAL units (types 1 and
 * 5) whose quantisation parameter is at most a threshold have their payload
 * encrypted; every other unit, and the start code and header byte of every
 * unit, pass through unchanged.
 *
 * AES-CTR under the key and nonce derived from the seed and a key index is a
 * keystream XOR; the keystream itself is a parameter, so the model holds for
 * any key derivation.
 */
module SliceCipher {
  import opened Bytes
  import opened Emulation
  import opened NalSplit

  /** The keystream AES-CTR produces under the key and nonce for a key index, by position. */
  type Keystream = (int, nat) -> byte

  /** AES-CTR encryption (and decryption) of `data` under key index `index`. */
  function Ctr(data: seq<byte>, ks: Keystream, index: int): (r: seq<byte>)
    ensures |r| == |data|
  {
    seq(|data|, j requires 0 <= j < |data| => data[j] ^ ks(index, j))
  }

  /** CTR mode is its own inverse under the same key index. */
  lemma CtrInvolution(data: seq<byte>, ks: Keystream, index: int)
    ensures Ctr(Ctr(data, ks, index), ks, index) == data
  {
    var once := Ctr(data, ks, index);
    forall j | 0 <= j < |data| ensures Ctr(once, ks, index)[j] == data[j] {
      assert once[j] == data[j] ^ ks(index, j);
      assert (data[j] ^ ks(index, j)) ^ ks(index, j) == data[j];
    }
  }

  /** A unit that has a NAL header byte after its start code. */
  predicate HasHeader(nal: seq<byte>)
  {
    |nal| > PrefixLength(nal)
  }

  /** The `nal_unit_type` of a unit: the low five bits of its header byte. */
  function UnitType(nal: seq<byte>): (t: int)
    requires HasHeader(nal)
    ensures 0 <= t < 32
  {
    (nal[PrefixLength(nal)] & 0x1F) as int
  }

  /** A coded slice: a non-IDR (1) or IDR (5) slice unit. */
  predicate IsSlice(nal: seq<byte>)
  {
    HasHeader(nal) && UnitType(nal) in {1, 5}
  }

  /** The start code and the header byte, which are never encrypted. */
  function Header(nal: seq<byte>): (h: seq<byte>)
    requires HasHeader(nal)
    ensures |h| == PrefixLength(nal) + 1
  {
    nal[..PrefixLength(nal) + 1]
  }

  /** The bytes after the header byte, still carrying emulation prevention bytes. */
  function Payload(nal: seq<byte>): (p: seq<byte>)
    requires HasHeader(nal)
    ensures Header(nal) + p == nal
  {
    nal[PrefixLength(nal) + 1..]
  }

  /**
   * A slice with its payload replaced by the escaped encryption of its RBSP
   * under key index `k`.
   */
  function TransformSlice(nal: seq<byte>, ks: Keystream, k: int): (r: seq<byte>)
    requires HasHeader(nal)
    ensures HasHeader(r) && PrefixLength(r) == PrefixLength(nal)
    ensures Header(r) == Header(nal) && UnitType(r) == UnitType(nal)
    ensures Unescape(Payload(r)) == Ctr(Unescape(Payload(nal)), ks, k)
    ensures NoEmulation(Payload(r))
  {
    var r := Header(nal) + Escape(Ctr(Unescape(Payload(nal)), ks, k));
    assert r[..4] == nal[..4];
    assert Payload(r) == Escape(Ctr(Unescape(Payload(nal)), ks, k));
    UnescapeEscape(Ctr(Unescape(Payload(nal)), ks, k));
    EscapeNoEmulation(Ctr(Unescape(Payload(nal)), ks, k));
    r
  }

  /** Slice number `k` is transformed exactly when it has a QP and that QP is at most the threshold. */
  predicate Chosen(k: nat, qps: seq<int>, threshold: int)
  {
    k < |qps| && qps[k] <= threshold
  }

  /** What the pass makes of one unit, given the number `k` of slices before it. */
  function PassUnit(nal: seq<byte>, k: nat, ks: Keystream, qps: seq<int>, threshold: int): seq<byte>
  {
    if IsSlice(nal) && Chosen(k, qps, threshold) then TransformSlice(nal, ks, k) else nal
  }

  /** The number of slice units in `nals`. */
  function SliceCount(nals: seq<seq<byte>>): (n: nat)
    ensures n <= |nals|
  {
    if nals == [] then 0
    else SliceCount(nals[..|nals| - 1]) + (if IsSlice(nals[|nals| - 1]) then 1 else 0)
  }

  /** The stream after the selective pass: each unit transformed by its own slice number. */
  function SelectivePass(nals: seq<seq<byte>>, ks: Keystream, qps: seq<int>, threshold: int): (out: seq<seq<byte>>)
    ensures |out| == |nals|
  {
    if nals == [] then []
    else
      var n := |nals| - 1;
      SelectivePass(nals[..n], ks, qps, threshold) + [PassUnit(nals[n], SliceCount(nals[..n]), ks, qps, threshold)]
  }

  /** The `[nal_type, qp]` pairs of the transformed slices, in stream order. */
  function TransformedSlices(nals: seq<seq<byte>>, qps: seq<int>, threshold: int): seq<(int, int)>
  {
    if nals == [] then []
    else
      var n := |nals| - 1;
      var k := SliceCount(nals[..n]);
      TransformedSlices(nals[..n], qps, threshold)
        + (if IsSlice(nals[n]) && Chosen(k, qps, threshold) then [(UnitType(nals[n]), qps[k])] else [])
  }

  /** One more unit extends the pass, the slice count and the transformed slices by that unit's share. */
  lemma PassStep(nals: seq<seq<byte>>, i: nat, ks: Keystream, qps: seq<int>, threshold: int)
    requires i < |nals|
    ensures var k := SliceCount(nals[..i]);
      && SelectivePass(nals[..i + 1], ks, qps, threshold)
         == SelectivePass(nals[..i], ks, qps, threshold) + [PassUnit(nals[i], k, ks, qps, threshold)]
      && SliceCount(nals[..i + 1]) == k + (if IsSlice(nals[i]) then 1 else 0)
      && TransformedSlices(nals[..i + 1], qps, threshold)
         == TransformedSlices(nals[..i], qps, threshold)
           + (if IsSlice(nals[i]) && Chosen(k, qps, threshold) then [(UnitType(nals[i]), qps[k])] else [])
  {
    assert nals[..i + 1][..i] == nals[..i];
  }

  /** A unit with a header byte is a slice exactly when the low five bits of that byte are 1 or 5. */
  lemma SliceByte(nal: seq<byte>)
    requires HasHeader(nal)
    ensures var b := nal[PrefixLength(nal)] & 0x1F;
      (IsSlice(nal) <==> b == 1 || b == 5) && UnitType(nal) == b as int
  {
  }

  /** The header followed by the escaped cipher text of the payload is the transformed slice. */
  lemma TransformSliceIs(nal: seq<byte>, ks: Keystream, k: int, payload: seq<byte>)
    requires HasHeader(nal)
    requires payload == Escape(Ctr(Unescape(nal[PrefixLength(nal) + 1..]), ks, k))
    ensures nal[..PrefixLength(nal) + 1] + payload == TransformSlice(nal, ks, k)
  {
  }

  /**
   * The work done on one selected slice: unescape the payload after the header
   * byte, run it through AES-CTR under key index `k`, escape it again and put
   * the header back in front.
   */
  method CryptSlice(nal: seq<byte>, ks: Keystream, k: int) returns (r: seq<byte>)
    requires HasHeader(nal)
    ensures r == TransformSlice(nal, ks, k)
  {
    var offset := PrefixLength(nal);
    var rbsp := ExtractRbsp(nal[offset + 1..]);
    var cipherRbsp := Ctr(rbsp, ks, k);
    var payload := InsertEmulationPrevention(cipherRbsp);
    TransformSliceIs(nal, ks, k, payload);
    r := nal[..offset + 1] + payload;
  }

  /**
   * The NAL loop of `selective_encrypt`: `count` counts every slice; a slice is
   * encrypted when `count` indexes a QP at most the threshold, with key index
   * `count`.
   */
  method SelectiveEncrypt(nals: seq<seq<byte>>, ks: Keystream, qps: seq<int>, threshold: int)
    returns (encrypted: seq<seq<byte>>, count: nat)
    ensures encrypted == SelectivePass(nals, ks, qps, threshold)
    ensures count == SliceCount(nals)
  {
    encrypted := [];
    count := 0;
    for i := 0 to |nals|
      invariant encrypted == SelectivePass(nals[..i], ks, qps, threshold)
      invariant count == SliceCount(nals[..i])
    {
      var nal := nals[i];
      PassStep(nals, i, ks, qps, threshold);
      var offset := PrefixLength(nal);
      if |nal| <= offset {
        PassUnitKept(nal, count, ks, qps, threshold);
        encrypted := encrypted + [nal];
        continue;
      }
      var nalType := nal[offset] & 0x1F;
      SliceByte(nal);
      ghost var isSlice := IsSlice(nal);
      assert isSlice <==> nalType == 1 || nalType == 5;
      if (nalType == 1 || nalType == 5) && count < |qps| && qps[count] <= threshold {
        var newNal := CryptSlice(nal, ks, count);
        PassUnitChosen(nal, count, ks, qps, threshold);
        encrypted := encrypted + [newNal];
        count := count + 1;
      } else {
        PassUnitKept(nal, count, ks, qps, threshold);
        encrypted := encrypted + [nal];
        if nalType == 1 || nalType == 5 {
          count := count + 1;
        }
      }
    }
    assert nals[..|nals|] == nals;
  }

  lemma PassUnitChosen(nal: seq<byte>, k: nat, ks: Keystream, qps: seq<int>, threshold: int)
    requires IsSlice(nal) && Chosen(k, qps, threshold)
    ensures PassUnit(nal, k, ks, qps, threshold) == TransformSlice(nal, ks, k)
  {
  }

  lemma PassUnitKept(nal: seq<byte>, k: nat, ks: Keystream, qps: seq<int>, threshold: int)
    requires !(IsSlice(nal) && Chosen(k, qps, threshold))
    ensures PassUnit(nal, k, ks, qps, threshold) == nal
  {
  }

  /**
   * The NAL loop of `selective_decrypt`: `count` advances only over slices that
   * still have a QP, so it stops at `|qps|`; the selected slices are decrypted
   * with key index `count` and reported as `[nal_type, qp]`.
   */
  method SelectiveDecrypt(nals: seq<seq<byte>>, ks: Keystream, qps: seq<int>, threshold: int)
    returns (decrypted: seq<seq<byte>>, decUnits: seq<(int, int)>, count: nat)
    ensures decrypted == SelectivePass(nals, ks, qps, threshold)
    ensures decUnits == TransformedSlices(nals, qps, threshold)
    ensures count == if SliceCount(nals) < |qps| then SliceCount(nals) else |qps|
  {
    decrypted := [];
    decUnits := [];
    count := 0;
    for i := 0 to |nals|
      invariant decrypted == SelectivePass(nals[..i], ks, qps, threshold)
      invariant decUnits == TransformedSlices(nals[..i], qps, threshold)
      invariant count == if SliceCount(nals[..i]) < |qps| then SliceCount(nals[..i]) else |qps|
    {
      var nal := nals[i];
      PassStep(nals, i, ks, qps, threshold);
      ghost var k := SliceCount(nals[..i]);
      var offset := PrefixLength(nal);
      if |nal| <= offset {
        PassUnitKept(nal, k, ks, qps, threshold);
        decrypted := decrypted + [nal];
        continue;
      }
      var nalType := nal[offset] & 0x1F;
      SliceByte(nal);
      if (nalType == 1 || nalType == 5) && count < |qps| {
        assert count == k;
        if qps[count] <= threshold {
          var newNal := CryptSlice(nal, ks, count);
          PassUnitChosen(nal, count, ks, qps, threshold);
          decrypted := decrypted + [newNal];
          decUnits := decUnits + [(nalType as int, qps[count])];
        } else {
          PassUnitKept(nal, count, ks, qps, threshold);
          decrypted := decrypted + [nal];
        }
        count := count + 1;
      } else {
        PassUnitKept(nal, k, ks, qps, threshold);
        decrypted := decrypted + [nal];
      }
    }
    assert nals[..|nals|] == nals;
  }

  // Properties of the pass

  /** Taking a prefix of the output is running the pass on the prefix. */
  lemma {:induction false} SelectivePassPrefix(nals: seq<seq<byte>>, ks: Keystream, qps: seq<int>, threshold: int, i: nat)
    requires i <= |nals|
    ensures SelectivePass(nals, ks, qps, threshold)[..i] == SelectivePass(nals[..i], ks, qps, threshold)
    decreases |nals|
  {
    if i < |nals| {
      var n := |nals| - 1;
      SelectivePassPrefix(nals[..n], ks, qps, threshold, i);
      assert nals[..n][..i] == nals[..i];
      assert SelectivePass(nals, ks, qps, threshold)[..n] == SelectivePass(nals[..n], ks, qps, threshold);
    } else {
      assert nals[..i] == nals;
    }
  }

  /**
   * One output unit per input unit, in order: unit `i` is transformed with key
   * index `k`, the number of slices before it, exactly when it is a slice and
   * `k` is chosen; otherwise it is copied unchanged.
   */
  lemma SelectivePassAt(nals: seq<seq<byte>>, ks: Keystream, qps: seq<int>, threshold: int, i: nat)
    requires i < |nals|
    ensures var k := SliceCount(nals[..i]);
      SelectivePass(nals, ks, qps, threshold)[i]
      == if IsSlice(nals[i]) && Chosen(k, qps, threshold) then TransformSlice(nals[i], ks, k) else nals[i]
  {
    SelectivePassPrefix(nals, ks, qps, threshold, i + 1);
    assert nals[..i + 1][..i] == nals[..i];
  }

  /** A unit keeps its start code, its header byte and so its type through the pass. */
  lemma PassUnitKeepsHeader(nal: seq<byte>, k: nat, ks: Keystream, qps: seq<int>, threshold: int)
    ensures var out := PassUnit(nal, k, ks, qps, threshold);
      HasHeader(out) == HasHeader(nal)
      && (HasHeader(nal) ==> Header(out) == Header(nal) && UnitType(out) == UnitType(nal))
      && IsSlice(out) == IsSlice(nal)
  {
  }

  /** The pass changes neither which units are slices nor how many slices precede each unit. */
  lemma {:induction false} SliceCountPreserved(nals: seq<seq<byte>>, ks: Keystream, qps: seq<int>, threshold: int)
    ensures SliceCount(SelectivePass(nals, ks, qps, threshold)) == SliceCount(nals)
  {
    if nals != [] {
      var n := |nals| - 1;
      var out := SelectivePass(nals, ks, qps, threshold);
      SliceCountPreserved(nals[..n], ks, qps, threshold);
      PassUnitKeepsHeader(nals[n], SliceCount(nals[..n]), ks, qps, threshold);
      assert out[..n] == SelectivePass(nals[..n], ks, qps, threshold);
    }
  }

  /**
   * Decryption selects the same units, with the same key indices, as the
   * encryption that produced its input: unit `i` of the output is a slice
   * exactly when unit `i` of the input is, with as many slices before it.
   */
  lemma SameSelection(nals: seq<seq<byte>>, ks: Keystream, qps: seq<int>, threshold: int, i: nat)
    requires i < |nals|
    ensures var out := SelectivePass(nals, ks, qps, threshold);
      IsSlice(out[i]) == IsSlice(nals[i]) && SliceCount(out[..i]) == SliceCount(nals[..i])
  {
    var out := SelectivePass(nals, ks, qps, threshold);
    SelectivePassAt(nals, ks, qps, threshold, i);
    PassUnitKeepsHeader(nals[i], SliceCount(nals[..i]), ks, qps, threshold);
    SelectivePassPrefix(nals, ks, qps, threshold, i);
    SliceCountPreserved(nals[..i], ks, qps, threshold);
  }

  /** A payload that re-escapes to itself after its emulation prevention bytes are removed. */
  predicate Canonical(payload: seq<byte>)
  {
    Escape(Unescape(payload)) == payload
  }

  /** Transforming a slice twice with the same key index restores it up to re-escaping its payload. */
  lemma TransformTwice(nal: seq<byte>, ks: Keystream, k: int)
    requires HasHeader(nal)
    ensures TransformSlice(TransformSlice(nal, ks, k), ks, k) == Header(nal) + Escape(Unescape(Payload(nal)))
  {
    CtrInvolution(Unescape(Payload(nal)), ks, k);
  }

  /**
   * Decrypting the encrypted unit list restores every unit, except that a
   * chosen slice comes back with its payload re-escaped; when every chosen
   * slice's payload is canonical, the list is restored exactly.
   */
  lemma RoundTrip(nals: seq<seq<byte>>, ks: Keystream, qps: seq<int>, threshold: int)
    ensures var restored := SelectivePass(SelectivePass(nals, ks, qps, threshold), ks, qps, threshold);
      |restored| == |nals|
      && forall i :: 0 <= i < |nals| ==>
        restored[i] == if IsSlice(nals[i]) && Chosen(SliceCount(nals[..i]), qps, threshold)
          then Header(nals[i]) + Escape(Unescape(Payload(nals[i]))) else nals[i]
  {
    var out := SelectivePass(nals, ks, qps, threshold);
    forall i | 0 <= i < |nals|
      ensures SelectivePass(out, ks, qps, threshold)[i]
        == if IsSlice(nals[i]) && Chosen(SliceCount(nals[..i]), qps, threshold)
          then Header(nals[i]) + Escape(Unescape(Payload(nals[i]))) else nals[i]
    {
      var k := SliceCount(nals[..i]);
      SelectivePassAt(nals, ks, qps, threshold, i);
      SameSelection(nals, ks, qps, threshold, i);
      SelectivePassAt(out, ks, qps, threshold, i);
      if IsSlice(nals[i]) && Chosen(k, qps, threshold) {
        TransformTwice(nals[i], ks, k);
      }
    }
  }

  /** With canonical payloads on every chosen slice, decryption restores the units exactly. */
  lemma RoundTripCanonical(nals: seq<seq<byte>>, ks: Keystream, qps: seq<int>, threshold: int)
    requires forall i :: (0 <= i < |nals| && IsSlice(nals[i]) && Chosen(SliceCount(nals[..i]), qps, threshold)
      ==> Canonical(Payload(nals[i])))
    ensures SelectivePass(SelectivePass(nals, ks, qps, threshold), ks, qps, threshold) == nals
  {
    RoundTrip(nals, ks, qps, threshold);
  }

  /** The number of chosen slice numbers below `n`. */
  function ChosenCount(n: nat, qps: seq<int>, threshold: int): nat
  {
    if n == 0 then 0 else ChosenCount(n - 1, qps, threshold) + (if Chosen(n - 1, qps, threshold) then 1 else 0)
  }

  /**
   * `dec_units` has one entry per chosen slice among those that have a QP, each
   * a slice type with a QP at most the threshold.
   */
  lemma {:induction false} TransformedSlicesFacts(nals: seq<seq<byte>>, qps: seq<int>, threshold: int)
    ensures var units := TransformedSlices(nals, qps, threshold);
      |units| == ChosenCount(if SliceCount(nals) < |qps| then SliceCount(nals) else |qps|, qps, threshold)
      && forall e :: e in units ==> (e.0 == 1 || e.0 == 5) && e.1 <= threshold && e.1 in qps
  {
    if nals != [] {
      var n := |nals| - 1;
      TransformedSlicesFacts(nals[..n], qps, threshold);
    }
  }
}
