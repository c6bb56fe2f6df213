/**
 * The column-permutation image cipher of scheme 1: a rolling 32-bit hash of the
 * key seeds a shuffle of the column indices; encryption XORs every pixel of
 * column `j` with `key[j mod |key|]` and then permutes the columns; decryption
 * undoes the permutation with its inverse and XORs again.
 *
 * The generator `std::mt19937` and `std::shuffle` are library code: the order in
 * which the library visits positions, and how it turns raw generator output into
 * an index, are its own. They are modelled as a Fisher-Yates shuffle driven by
 * an abstract index source `draw`, where `draw(seed, i) % (i + 1)` stands for
 * whatever index the library picks. Only what holds for every index source is
 * claimed of the real generator: the swap key is a permutation, and it depends
 * on nothing but the width and the key's hash.
 */
module Scheme1 {
  import opened Bytes

  /** 2^32: `unsigned int` arithmetic wraps modulo this. */
  const Modulus: nat := 0x1_0000_0000

  /** An abstract index source: `draw(seed, i) % (i + 1)` is the partner the shuffle picks for position `i`. */
  type IndexSource = (nat, nat) -> nat

  // ---------------------------------------------------------------------------
  // simpleHash
  // ---------------------------------------------------------------------------

  /**
   * `static_cast<unsigned int>(c)` for a `char` holding byte `c`: `char` is signed,
   * so bytes from 0x80 up sign-extend to 0xFFFFFF80..0xFFFFFFFF.
   */
  function Widen(c: byte): (w: nat)
    ensures w < Modulus
    ensures w % 256 == c as nat
    ensures c < 0x80 ==> w == c as nat
    ensures c >= 0x80 ==> w >= 0xFFFF_FF80
  {
    if c < 0x80 then c as nat else Modulus - 256 + c as nat
  }

  /** The rolling hash `h := h * 101 + c` over the key, with 32-bit wrap-around. */
  function HashOf(key: seq<byte>): (h: nat)
    ensures h < Modulus
  {
    if key == [] then 0
    else (HashOf(key[..|key| - 1]) * 101 + Widen(key[|key| - 1])) % Modulus
  }

  /** The same rolling hash without wrap-around: the key read as digits in base 101. */
  function Polynomial(key: seq<byte>): nat
  {
    if key == [] then 0
    else Polynomial(key[..|key| - 1]) * 101 + Widen(key[|key| - 1])
  }

  lemma ModMulAdd(a: nat, w: nat)
    ensures ((a % Modulus) * 101 + w) % Modulus == (a * 101 + w) % Modulus
  {
    var q, r := a / Modulus, a % Modulus;
    assert a == q * Modulus + r;
    assert a * 101 + w == (r * 101 + w) + (q * 101) * Modulus;
  }

  /** The 32-bit hash is the unbounded base-101 polynomial reduced modulo 2^32. */
  lemma {:induction false} HashIsPolynomialMod(key: seq<byte>)
    ensures HashOf(key) == Polynomial(key) % Modulus
  {
    if key != [] {
      var init := key[..|key| - 1];
      HashIsPolynomialMod(init);
      ModMulAdd(Polynomial(init), Widen(key[|key| - 1]));
    }
  }

  /** `simpleHash`: a loop folding each key byte into an `unsigned int`. */
  method SimpleHash(key: seq<byte>) returns (hash: nat)
    ensures hash == HashOf(key)
    ensures hash < Modulus
    ensures key == [] ==> hash == 0
  {
    hash := 0;
    for i := 0 to |key|
      invariant hash == HashOf(key[..i])
    {
      assert key[..i + 1][..i] == key[..i];
      hash := (hash * 101 + Widen(key[i])) % Modulus;
    }
    assert key[..|key|] == key;
  }

  // ---------------------------------------------------------------------------
  // Permutations
  // ---------------------------------------------------------------------------

  /** `p` is a bijection on `[0, n)`. */
  predicate IsPermutation(p: seq<int>, n: nat)
  {
    && |p| == n
    && (forall i :: 0 <= i < n ==> 0 <= p[i] < n)
    && (forall i, j :: 0 <= i < j < n ==> p[i] != p[j])
    && (forall v :: 0 <= v < n ==> v in p)
  }

  /** The identity permutation `0, 1, ..., n-1`, as the source first fills the vector. */
  function Identity(n: nat): (s: seq<int>)
    ensures |s| == n && forall i :: 0 <= i < n ==> s[i] == i
  {
    seq(n, i => i)
  }

  lemma IdentityIsPermutation(n: nat)
    ensures IsPermutation(Identity(n), n)
  {
    var s := Identity(n);
    forall v | 0 <= v < n ensures v in s {
      assert s[v] == v;
    }
  }

  /** `s` with the elements at `i` and `j` exchanged. */
  function Swap(s: seq<int>, i: nat, j: nat): (r: seq<int>)
    requires i < |s| && j < |s|
    ensures |r| == |s| && r[i] == s[j] && r[j] == s[i]
    ensures forall k :: 0 <= k < |s| && k != i && k != j ==> r[k] == s[k]
  {
    s[i := s[j]][j := s[i]]
  }

  lemma SwapPreservesPermutation(s: seq<int>, n: nat, i: nat, j: nat)
    requires IsPermutation(s, n) && i < n && j < n
    ensures IsPermutation(Swap(s, i, j), n)
  {
    var r := Swap(s, i, j);
    forall a, b | 0 <= a < b < n ensures r[a] != r[b] {
      var sa := if a == i then j else if a == j then i else a;
      var sb := if b == i then j else if b == j then i else b;
      assert r[a] == s[sa] && r[b] == s[sb];
      if sa < sb { assert s[sa] != s[sb]; } else { assert s[sb] != s[sa]; }
    }
    forall v | 0 <= v < n ensures v in r {
      var k := IndexOf(s, v);
      var sk := if k == i then j else if k == j then i else k;
      assert r[sk] == v;
    }
  }

  /**
   * Fisher-Yates over positions `m-1` down to `1`: position `i` is exchanged with
   * `draw(seed, i) mod (i + 1)`.
   */
  function ShuffleBelow(s: seq<int>, m: nat, seed: nat, draw: IndexSource): (r: seq<int>)
    requires m <= |s|
    ensures |r| == |s|
    decreases m
  {
    if m <= 1 then s
    else ShuffleBelow(Swap(s, m - 1, draw(seed, m - 1) % m), m - 1, seed, draw)
  }

  lemma {:induction false} ShufflePreservesPermutation(s: seq<int>, n: nat, m: nat, seed: nat, draw: IndexSource)
    requires IsPermutation(s, n) && m <= n
    ensures IsPermutation(ShuffleBelow(s, m, seed, draw), n)
    decreases m
  {
    if m > 1 {
      SwapPreservesPermutation(s, n, m - 1, draw(seed, m - 1) % m);
      ShufflePreservesPermutation(Swap(s, m - 1, draw(seed, m - 1) % m), n, m - 1, seed, draw);
    }
  }

  /** The column permutation for a frame `width` wide and a key hashing to `seed`. */
  function SwapKey(width: nat, seed: nat, draw: IndexSource): seq<int>
  {
    ShuffleBelow(Identity(width), width, seed, draw)
  }

  /** Whatever the generator draws, the swap key is a permutation of the columns. */
  lemma SwapKeyIsPermutation(width: nat, seed: nat, draw: IndexSource)
    ensures IsPermutation(SwapKey(width, seed, draw), width)
  {
    IdentityIsPermutation(width);
    ShufflePreservesPermutation(Identity(width), width, width, seed, draw);
  }

  /** `std::shuffle` over the whole vector, in place. */
  method Shuffle(a: array<int>, seed: nat, draw: IndexSource)
    modifies a
    ensures a[..] == ShuffleBelow(old(a[..]), a.Length, seed, draw)
  {
    var m: nat := a.Length;
    while m > 1
      invariant m <= a.Length
      invariant ShuffleBelow(a[..], m, seed, draw) == ShuffleBelow(old(a[..]), a.Length, seed, draw)
      decreases m
    {
      var j := draw(seed, m - 1) % m;
      ghost var before := a[..];
      var t := a[m - 1];
      a[m - 1] := a[j];
      a[j] := t;
      assert a[..] == Swap(before, m - 1, j);
      m := m - 1;
    }
  }

  /**
   * `generateSwapKey`: fill `0..width-1`, then shuffle with the generator seeded
   * by the key's hash. The result depends on nothing but `width` and that hash.
   */
  method GenerateSwapKey(width: nat, key: seq<byte>, draw: IndexSource) returns (perm: seq<int>)
    ensures perm == SwapKey(width, HashOf(key), draw)
    ensures IsPermutation(perm, width)
  {
    var a := new int[width];
    for i := 0 to width
      invariant forall k :: 0 <= k < i ==> a[k] == k
    {
      a[i] := i;
    }
    assert a[..] == Identity(width);
    var seed := SimpleHash(key);
    Shuffle(a, seed, draw);
    perm := a[..];
    SwapKeyIsPermutation(width, seed, draw);
  }

  /** The first position of `v` in `p`. */
  function IndexOf(p: seq<int>, v: int): (k: nat)
    requires v in p
    ensures k < |p| && p[k] == v
  {
    if p[0] == v then 0 else 1 + IndexOf(p[1..], v)
  }

  /** The inverse of a permutation: the position of each value. */
  function Inverse(p: seq<int>): (inv: seq<int>)
    requires IsPermutation(p, |p|)
    ensures |inv| == |p|
  {
    seq(|p|, j requires 0 <= j < |p| => IndexOf(p, j))
  }

  /** `inv` undoes `p` on both sides. */
  predicate Inverts(p: seq<int>, inv: seq<int>)
    requires IsPermutation(p, |p|) && IsPermutation(inv, |p|)
  {
    && (forall i :: 0 <= i < |p| ==> inv[p[i]] == i)
    && (forall j :: 0 <= j < |p| ==> p[inv[j]] == j)
  }

  /** The inverse of a permutation is a permutation that undoes it on both sides. */
  lemma InverseInverts(p: seq<int>)
    requires IsPermutation(p, |p|)
    ensures IsPermutation(Inverse(p), |p|)
    ensures Inverts(p, Inverse(p))
  {
    var n, inv := |p|, Inverse(p);
    forall j | 0 <= j < n ensures p[inv[j]] == j && 0 <= inv[j] < n {
      assert inv[j] == IndexOf(p, j);
    }
    forall i | 0 <= i < n ensures inv[p[i]] == i {
      var k := inv[p[i]];
      assert p[k] == p[i];
    }
    forall a, b | 0 <= a < b < n ensures inv[a] != inv[b] {
      assert p[inv[a]] == a && p[inv[b]] == b;
    }
    forall v | 0 <= v < n ensures v in inv {
      assert inv[p[v]] == v;
    }
  }

  /** `invertPermutation`: one pass writing `inv[perm[i]] = i`. */
  method InvertPermutation(perm: seq<int>) returns (inv: seq<int>)
    requires IsPermutation(perm, |perm|)
    ensures inv == Inverse(perm)
    ensures IsPermutation(inv, |perm|) && Inverts(perm, inv)
  {
    var n := |perm|;
    var a := new int[n];
    for i := 0 to n
      invariant forall k :: 0 <= k < i ==> a[perm[k]] == k
    {
      a[perm[i]] := i;
    }
    inv := a[..];
    InverseInverts(perm);
    forall j | 0 <= j < n ensures inv[j] == Inverse(perm)[j] {
      var k := Inverse(perm)[j];
      assert perm[k] == j;
      assert a[perm[k]] == k;
    }
  }

  // ---------------------------------------------------------------------------
  // Images
  // ---------------------------------------------------------------------------

  /** One 8-bit, three-channel pixel in OpenCV's blue, green, red order. */
  datatype Pixel = Pixel(b: byte, g: byte, r: byte)

  /** Every channel XORed with the same keystream byte. */
  function XorPixel(px: Pixel, k: byte): Pixel
  {
    Pixel(px.b ^ k, px.g ^ k, px.r ^ k)
  }

  /** Each pixel of a row XORed with `key[j mod |key|]`, whatever the row. */
  function XorRow(row: seq<Pixel>, key: seq<byte>): (r: seq<Pixel>)
    requires |key| > 0
    ensures |r| == |row|
  {
    seq(|row|, j requires 0 <= j < |row| => XorPixel(row[j], key[j % |key|]))
  }

  /** Output column `j` takes input column `p[j]`. */
  function PermuteRow(row: seq<Pixel>, p: seq<int>): (r: seq<Pixel>)
    requires forall j :: 0 <= j < |p| ==> 0 <= p[j] < |row|
    ensures |r| == |p|
  {
    seq(|p|, j requires 0 <= j < |p| => row[p[j]])
  }

  /** The encryption of one row: XOR, then permute. */
  function EncryptRow(row: seq<Pixel>, key: seq<byte>, p: seq<int>): seq<Pixel>
    requires |key| > 0 && IsPermutation(p, |row|)
  {
    PermuteRow(XorRow(row, key), p)
  }

  /** The decryption of one row: undo the permutation with `inv`, then XOR. */
  function DecryptRow(row: seq<Pixel>, key: seq<byte>, inv: seq<int>): seq<Pixel>
    requires |key| > 0 && IsPermutation(inv, |row|)
  {
    XorRow(PermuteRow(row, inv), key)
  }

  /** Encrypted pixel `(i, j)` is input pixel `(i, p[j])` XOR `key[p[j] mod |key|]`. */
  lemma EncryptRowAt(row: seq<Pixel>, key: seq<byte>, p: seq<int>, j: nat)
    requires |key| > 0 && IsPermutation(p, |row|) && j < |row|
    ensures |EncryptRow(row, key, p)| == |row|
    ensures EncryptRow(row, key, p)[j] == XorPixel(row[p[j]], key[p[j] % |key|])
  {
  }

  /** Decrypted pixel `(i, j)` is input pixel `(i, inv[j])` XOR `key[j mod |key|]`. */
  lemma DecryptRowAt(row: seq<Pixel>, key: seq<byte>, inv: seq<int>, j: nat)
    requires |key| > 0 && IsPermutation(inv, |row|) && j < |row|
    ensures |DecryptRow(row, key, inv)| == |row|
    ensures DecryptRow(row, key, inv)[j] == XorPixel(row[inv[j]], key[j % |key|])
  {
  }

  /** Decrypting an encrypted row with the inverse permutation gives the row back. */
  lemma RowRoundTrip(row: seq<Pixel>, key: seq<byte>, p: seq<int>, inv: seq<int>)
    requires |key| > 0 && IsPermutation(p, |row|) && IsPermutation(inv, |row|) && Inverts(p, inv)
    ensures DecryptRow(EncryptRow(row, key, p), key, inv) == row
  {
    var e := EncryptRow(row, key, p);
    var d := DecryptRow(e, key, inv);
    forall j | 0 <= j < |row| ensures d[j] == row[j] {
      var c := inv[j];
      assert p[c] == j;
      assert e[c] == XorPixel(row[j], key[j % |key|]);
      assert d[j] == XorPixel(e[c], key[j % |key|]);
    }
  }

  /** An image as rows of pixels, every row `cols` wide. */
  predicate IsImage(g: seq<seq<Pixel>>, cols: nat)
  {
    forall i :: 0 <= i < |g| ==> |g[i]| == cols
  }

  function EncryptGrid(g: seq<seq<Pixel>>, key: seq<byte>, p: seq<int>): (e: seq<seq<Pixel>>)
    requires |key| > 0 && IsPermutation(p, |p|) && IsImage(g, |p|)
    ensures |e| == |g|
  {
    seq(|g|, i requires 0 <= i < |g| => EncryptRow(g[i], key, p))
  }

  function DecryptGrid(g: seq<seq<Pixel>>, key: seq<byte>, inv: seq<int>): (d: seq<seq<Pixel>>)
    requires |key| > 0 && IsPermutation(inv, |inv|) && IsImage(g, |inv|)
    ensures |d| == |g|
  {
    seq(|g|, i requires 0 <= i < |g| => DecryptRow(g[i], key, inv))
  }

  /** Encrypting every row with `p` and decrypting every row with its inverse restores the grid. */
  lemma GridRoundTrip(g: seq<seq<Pixel>>, key: seq<byte>, p: seq<int>, inv: seq<int>)
    requires |key| > 0 && IsPermutation(p, |p|) && IsPermutation(inv, |p|) && Inverts(p, inv)
    requires IsImage(g, |p|)
    ensures IsImage(EncryptGrid(g, key, p), |p|)
    ensures DecryptGrid(EncryptGrid(g, key, p), key, inv) == g
  {
    var e := EncryptGrid(g, key, p);
    forall i | 0 <= i < |e| ensures |e[i]| == |p| {
      if |p| > 0 {
        EncryptRowAt(g[i], key, p, 0);
      }
    }
    var d := DecryptGrid(e, key, inv);
    forall i | 0 <= i < |g| ensures d[i] == g[i] {
      RowRoundTrip(g[i], key, p, inv);
    }
  }

  /**
   * The round-trip law: for a non-empty key, decrypting the encryption of an
   * image, with the swap key the same width and key regenerate, restores it.
   */
  lemma ImageRoundTrip(g: seq<seq<Pixel>>, key: seq<byte>, cols: nat, draw: IndexSource)
    requires |key| > 0 && IsImage(g, cols)
    ensures var p := SwapKey(cols, HashOf(key), draw);
      IsPermutation(p, cols) && IsPermutation(Inverse(p), cols) &&
      IsImage(EncryptGrid(g, key, p), cols) &&
      DecryptGrid(EncryptGrid(g, key, p), key, Inverse(p)) == g
  {
    var p := SwapKey(cols, HashOf(key), draw);
    SwapKeyIsPermutation(cols, HashOf(key), draw);
    InverseInverts(p);
    GridRoundTrip(g, key, p, Inverse(p));
  }

  // ---------------------------------------------------------------------------
  // The cv::Mat side: a two-dimensional array of pixels
  // ---------------------------------------------------------------------------

  /** Row `i` of a matrix. */
  function RowAt(m: array2<Pixel>, i: nat): (r: seq<Pixel>)
    reads m
    requires i < m.Length0
    ensures |r| == m.Length1
  {
    seq(m.Length1, j requires 0 <= j < m.Length1 reads m => m[i, j])
  }

  /** The matrix as rows of pixels. */
  function Rows(m: array2<Pixel>): (g: seq<seq<Pixel>>)
    reads m
    ensures |g| == m.Length0 && IsImage(g, m.Length1)
  {
    seq(m.Length0, i requires 0 <= i < m.Length0 reads m => RowAt(m, i))
  }

  /** `cv::Mat::clone`: a fresh matrix with the same pixels. */
  method Clone(image: array2<Pixel>) returns (c: array2<Pixel>)
    ensures fresh(c)
    ensures c.Length0 == image.Length0 && c.Length1 == image.Length1
    ensures forall i :: 0 <= i < c.Length0 ==> RowAt(c, i) == RowAt(image, i)
  {
    c := new Pixel[image.Length0, image.Length1]((i, j) reads image =>
      if 0 <= i < image.Length0 && 0 <= j < image.Length1 then image[i, j] else Pixel(0, 0, 0));
  }

  /** Reads row `i` into a buffer, XORing column `j` with `key[j mod |key|]`. */
  method ReadXoredRow(m: array2<Pixel>, i: nat, key: seq<byte>) returns (row: seq<Pixel>)
    requires i < m.Length0 && |key| > 0
    ensures row == XorRow(RowAt(m, i), key)
  {
    var buf := new Pixel[m.Length1];
    for j := 0 to m.Length1
      invariant forall k :: 0 <= k < j ==> buf[k] == XorPixel(m[i, k], key[k % |key|])
    {
      buf[j] := XorPixel(m[i, j], key[j % |key|]);
    }
    row := buf[..];
  }

  /** Moves column `p[j]` of a row buffer to column `j`. */
  method PermuteBuffer(row: seq<Pixel>, p: seq<int>) returns (out: seq<Pixel>)
    requires forall j :: 0 <= j < |p| ==> 0 <= p[j] < |row|
    ensures out == PermuteRow(row, p)
  {
    var buf := new Pixel[|p|];
    for j := 0 to |p|
      invariant forall k :: 0 <= k < j ==> buf[k] == row[p[k]]
    {
      buf[j] := row[p[j]];
    }
    out := buf[..];
  }

  /** Reads row `i` through the permutation `inv`: column `j` takes column `inv[j]`. */
  method ReadPermutedRow(m: array2<Pixel>, i: nat, inv: seq<int>) returns (row: seq<Pixel>)
    requires i < m.Length0 && |inv| == m.Length1
    requires forall j :: 0 <= j < |inv| ==> 0 <= inv[j] < m.Length1
    ensures row == PermuteRow(RowAt(m, i), inv)
  {
    var buf := new Pixel[|inv|];
    for j := 0 to |inv|
      invariant forall k :: 0 <= k < j ==> buf[k] == m[i, inv[k]]
    {
      buf[j] := m[i, inv[j]];
    }
    row := buf[..];
  }

  /** XORs column `j` of a row buffer with `key[j mod |key|]`. */
  method XorBuffer(row: seq<Pixel>, key: seq<byte>) returns (out: seq<Pixel>)
    requires |key| > 0
    ensures out == XorRow(row, key)
  {
    var buf := new Pixel[|row|];
    for j := 0 to |row|
      invariant forall k :: 0 <= k < j ==> buf[k] == XorPixel(row[k], key[k % |key|])
    {
      buf[j] := XorPixel(row[j], key[j % |key|]);
    }
    out := buf[..];
  }

  /** Writes a row buffer back into row `i`; every other row is left alone. */
  method WriteRow(m: array2<Pixel>, i: nat, row: seq<Pixel>)
    requires i < m.Length0 && |row| == m.Length1
    modifies m
    ensures RowAt(m, i) == row
    ensures forall r :: 0 <= r < m.Length0 && r != i ==> RowAt(m, r) == old(RowAt(m, r))
  {
    for j := 0 to m.Length1
      invariant forall k :: 0 <= k < j ==> m[i, k] == row[k]
      invariant forall r, k :: 0 <= r < m.Length0 && r != i && 0 <= k < m.Length1 ==> m[r, k] == old(m[r, k])
    {
      m[i, j] := row[j];
    }
  }

  /**
   * `encrypt_image`: clone the image, then for each row XOR into a buffer,
   * permute the buffer by the swap key and write it back.
   */
  method EncryptImage(image: array2<Pixel>, key: seq<byte>, draw: IndexSource) returns (encrypted: array2<Pixel>)
    requires |key| > 0
    ensures encrypted.Length0 == image.Length0 && encrypted.Length1 == image.Length1
    ensures var p := SwapKey(image.Length1, HashOf(key), draw);
      IsPermutation(p, image.Length1) && Rows(encrypted) == EncryptGrid(Rows(image), key, p)
  {
    encrypted := Clone(image);
    var rows, cols := encrypted.Length0, encrypted.Length1;
    var swapKey := GenerateSwapKey(cols, key, draw);
    for i := 0 to rows
      invariant forall r :: 0 <= r < i ==> RowAt(encrypted, r) == EncryptRow(RowAt(image, r), key, swapKey)
      invariant forall r :: i <= r < rows ==> RowAt(encrypted, r) == RowAt(image, r)
    {
      var row := ReadXoredRow(encrypted, i, key);
      var newRow := PermuteBuffer(row, swapKey);
      WriteRow(encrypted, i, newRow);
    }
    assert Rows(encrypted) == EncryptGrid(Rows(image), key, swapKey);
  }

  /**
   * `decrypt_image`: clone the image, then for each row read it through the
   * inverse swap key, XOR the buffer and write it back.
   */
  method DecryptImage(image: array2<Pixel>, key: seq<byte>, draw: IndexSource) returns (decrypted: array2<Pixel>)
    requires |key| > 0
    ensures decrypted.Length0 == image.Length0 && decrypted.Length1 == image.Length1
    ensures var p := SwapKey(image.Length1, HashOf(key), draw);
      IsPermutation(p, image.Length1) && IsPermutation(Inverse(p), image.Length1) &&
      Rows(decrypted) == DecryptGrid(Rows(image), key, Inverse(p))
  {
    decrypted := Clone(image);
    var rows, cols := decrypted.Length0, decrypted.Length1;
    var swapKey := GenerateSwapKey(cols, key, draw);
    var invSwap := InvertPermutation(swapKey);
    for i := 0 to rows
      invariant forall r :: 0 <= r < i ==> RowAt(decrypted, r) == DecryptRow(RowAt(image, r), key, invSwap)
      invariant forall r :: i <= r < rows ==> RowAt(decrypted, r) == RowAt(image, r)
    {
      var row := ReadPermutedRow(decrypted, i, invSwap);
      row := XorBuffer(row, key);
      WriteRow(decrypted, i, row);
    }
    assert Rows(decrypted) == DecryptGrid(Rows(image), key, invSwap);
  }

  /** Decrypting what `EncryptImage` returns, with the same key, restores the image. */
  method RoundTrip(image: array2<Pixel>, key: seq<byte>, draw: IndexSource) returns (restored: array2<Pixel>)
    requires |key| > 0
    ensures Rows(restored) == Rows(image)
  {
    var encrypted := EncryptImage(image, key, draw);
    restored := DecryptImage(encrypted, key, draw);
    ImageRoundTrip(Rows(image), key, image.Length1, draw);
  }
}
