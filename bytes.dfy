/** Bytes, byte strings and the small sequence vocabulary shared by the model. */
module Bytes {

  /** One octet, as read from a file or a pixel channel. */
  type byte = bv8

  /** A sequence of `n` zero bytes. */
  function Zeros(n: nat): (z: seq<byte>)
    ensures |z| == n
    ensures forall k :: 0 <= k < n ==> z[k] == 0
  {
    if n == 0 then [] else Zeros(n - 1) + [0]
  }

  /** The concatenation of a list of byte strings, in order. */
  function Concat(parts: seq<seq<byte>>): seq<byte>
  {
    if parts == [] then [] else Concat(parts[..|parts| - 1]) + parts[|parts| - 1]
  }

  lemma ConcatAppend(parts: seq<seq<byte>>, last: seq<byte>)
    ensures Concat(parts + [last]) == Concat(parts) + last
  {
    assert (parts + [last])[..|parts|] == parts;
  }

  /** The Annex B three-byte start code `00 00 01` begins at position `k` of `s`. */
  predicate Match3(s: seq<byte>, k: int)
  {
    0 <= k && k + 3 <= |s| && s[k] == 0 && s[k + 1] == 0 && s[k + 2] == 1
  }

  /** The Annex B four-byte start code `00 00 00 01` begins at position `k` of `s`. */
  predicate Match4(s: seq<byte>, k: int)
  {
    0 <= k && k + 4 <= |s| && s[k] == 0 && s[k + 1] == 0 && s[k + 2] == 0 && s[k + 3] == 1
  }

  /** No three-byte start code lies wholly inside `s`. */
  predicate NoMatch3(s: seq<byte>)
  {
    forall k :: 0 <= k < |s| ==> !Match3(s, k)
  }

  /** No four-byte start code lies wholly inside `s`. */
  predicate NoMatch4(s: seq<byte>)
  {
    forall k :: 0 <= k < |s| ==> !Match4(s, k)
  }

  /** The three-byte start code `00 00 01`. */
  const StartCode3: seq<byte> := [0, 0, 1]

  /** The four-byte start code `00 00 00 01`. */
  const StartCode4: seq<byte> := [0, 0, 0, 1]

  /** `pat` occurs in `s` at position `k`. */
  predicate OccursAt(s: seq<byte>, pat: seq<byte>, k: int)
  {
    0 <= k && k + |pat| <= |s| && s[k..k + |pat|] == pat
  }

  lemma OccursStartCodes(s: seq<byte>, k: int)
    ensures OccursAt(s, StartCode3, k) <==> Match3(s, k)
    ensures OccursAt(s, StartCode4, k) <==> Match4(s, k)
  {
    if Match3(s, k) {
      assert s[k..k + 3] == StartCode3;
    }
    if Match4(s, k) {
      assert s[k..k + 4] == StartCode4;
    }
    if OccursAt(s, StartCode3, k) {
      assert s[k..k + 3][0] == s[k] && s[k..k + 3][1] == s[k + 1] && s[k..k + 3][2] == s[k + 2];
    }
    if OccursAt(s, StartCode4, k) {
      assert s[k..k + 4][0] == s[k] && s[k..k + 4][1] == s[k + 1];
      assert s[k..k + 4][2] == s[k + 2] && s[k..k + 4][3] == s[k + 3];
    }
  }

  lemma StartCodesEverywhere(s: seq<byte>)
    ensures forall k :: OccursAt(s, StartCode3, k) <==> Match3(s, k)
    ensures forall k :: OccursAt(s, StartCode4, k) <==> Match4(s, k)
  {
    forall k ensures (OccursAt(s, StartCode3, k) <==> Match3(s, k))
      && (OccursAt(s, StartCode4, k) <==> Match4(s, k))
    {
      OccursStartCodes(s, k);
    }
  }

  /**
   * `bytes.find(pat, start)`: the first position at or after `from` where `pat`
   * occurs, or -1 when there is none.
   */
  function Find(s: seq<byte>, pat: seq<byte>, from: nat): (r: int)
    requires |pat| > 0
    ensures r == -1 || (from <= r && OccursAt(s, pat, r))
    ensures r == -1 ==> forall k :: from <= k < |s| ==> !OccursAt(s, pat, k)
    ensures r != -1 ==> forall k :: from <= k < r ==> !OccursAt(s, pat, k)
    decreases |s| - from
  {
    if from + |pat| > |s| then -1
    else if s[from..from + |pat|] == pat then from
    else Find(s, pat, from + 1)
  }
}
