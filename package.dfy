/**
 * The `.bin` package of the second scheme: the encrypted video stream, the
 * encrypted audio stream (possibly empty) and the encrypted metadata, each
 * behind its length as an 8-byte big-endian unsigned integer.
 */
module Package {
  import opened Bytes
  import opened Wrappers
  import opened SliceCipher

  /** `2^64`: the first length that `struct.pack('>Q', n)` cannot encode. */
  const Limit: nat := 0x1_0000_0000_0000_0000

  /** `256^k`. */
  function Pow256(k: nat): (p: nat)
    ensures p > 0
  {
    if k == 0 then 1 else 256 * Pow256(k - 1)
  }

  /** The byte whose unsigned value is `x`, counted up from zero. */
  function ByteOf(x: nat): byte
    requires x < 256
  {
    if x == 0 then 0 else ByteOf(x - 1) + 1
  }

  lemma Increment(b: byte)
    requires (b as int) < 255
    ensures (b + 1) as int == b as int + 1
  {
  }

  lemma Decrement(b: byte)
    requires b != 0
    ensures (b - 1) as int == b as int - 1
    ensures (b - 1) + 1 == b
  {
  }

  /** `ByteOf(x)` has the value `x`. */
  lemma {:induction false} ValueOfByteOf(x: nat)
    requires x < 256
    ensures ByteOf(x) as int == x
  {
    if x > 0 {
      ValueOfByteOf(x - 1);
      Increment(ByteOf(x - 1));
    }
  }

  /** Every byte is `ByteOf` its value. */
  lemma {:induction false} ByteOfValue(b: byte)
    ensures ByteOf(b as int) == b
    decreases b as int
  {
    if b != 0 {
      Decrement(b);
      ByteOfValue(b - 1);
    }
  }

  /** The `k`-byte big-endian encoding of `n`, most significant byte first. */
  function BigEndian(n: nat, k: nat): (b: seq<byte>)
    ensures |b| == k
  {
    if k == 0 then [] else BigEndian(n / 256, k - 1) + [ByteOf(n % 256)]
  }

  /** The unsigned value of a big-endian byte string. */
  function BigEndianValue(b: seq<byte>): (n: nat)
    ensures n < Pow256(|b|)
  {
    if b == [] then 0 else BigEndianValue(b[..|b| - 1]) * 256 + b[|b| - 1] as nat
  }

  lemma DivBound(n: nat, p: nat)
    requires n < 256 * p
    ensures n / 256 < p
    ensures (n / 256) * 256 + n % 256 == n
  {
  }

  lemma {:induction false} BigEndianRoundTrip(n: nat, k: nat)
    requires n < Pow256(k)
    ensures BigEndianValue(BigEndian(n, k)) == n
  {
    if k > 0 {
      var b := BigEndian(n, k);
      assert b[..k - 1] == BigEndian(n / 256, k - 1);
      DivBound(n, Pow256(k - 1));
      BigEndianRoundTrip(n / 256, k - 1);
      ValueOfByteOf(n % 256);
    }
  }

  lemma {:induction false} BigEndianOfValue(b: seq<byte>)
    ensures BigEndian(BigEndianValue(b), |b|) == b
  {
    if b != [] {
      var init := b[..|b| - 1];
      var v := BigEndianValue(b);
      ByteOfValue(b[|b| - 1]);
      assert v / 256 == BigEndianValue(init);
      assert v % 256 == b[|b| - 1] as nat;
      BigEndianOfValue(init);
    }
  }

  /** `struct.pack('>Q', n)`. */
  function PackLength(n: nat): (b: seq<byte>)
    requires n < Limit
    ensures |b| == 8
  {
    BigEndian(n, 8)
  }

  /** `struct.unpack('>Q', b)[0]`. */
  function UnpackLength(b: seq<byte>): (n: nat)
    requires |b| == 8
    ensures n < Limit
  {
    BigEndianValue(b)
  }

  /** Reading back a packed length gives the length, and packing a read length gives the bytes back. */
  lemma LengthRoundTrip(n: nat, b: seq<byte>)
    requires n < Limit && |b| == 8
    ensures UnpackLength(PackLength(n)) == n
    ensures PackLength(UnpackLength(b)) == b
  {
    BigEndianRoundTrip(n, 8);
    BigEndianOfValue(b);
  }

  /** Every blob's length fits the 8-byte header. */
  predicate Fits(blobs: seq<seq<byte>>)
  {
    forall i :: 0 <= i < |blobs| ==> |blobs[i]| < Limit
  }

  /** One blob behind its packed length. */
  function Frame(blob: seq<byte>): (f: seq<byte>)
    requires |blob| < Limit
    ensures |f| == 8 + |blob|
  {
    PackLength(|blob|) + blob
  }

  /** The blobs, each behind its packed length, in order. */
  function Frames(blobs: seq<seq<byte>>): seq<byte>
    requires Fits(blobs)
  {
    if blobs == [] then [] else Frames(blobs[..|blobs| - 1]) + Frame(blobs[|blobs| - 1])
  }

  /** The audio blob: the encrypted audio when it is included and exists, else empty. */
  function AudioBlob(includeAudio: bool, audioFile: Option<seq<byte>>): seq<byte>
  {
    if includeAudio && audioFile.Some? then audioFile.value else []
  }

  /** The message `struct.pack` raises for a length that needs more than 8 bytes. */
  const PackError: string := "struct.error: 'Q' format requires 0 <= number <= 18446744073709551615"

  /** The message `struct.unpack` raises when fewer than 8 header bytes remain. */
  const UnpackError: string := "struct.error: unpack requires a buffer of 8 bytes"

  /** `2^63`: the first size that `read` refuses, since it does not fit a `Py_ssize_t`. */
  const ReadLimit: nat := 0x8000_0000_0000_0000

  /** The message `read` raises for a size of `ReadLimit` or more. */
  const ReadError: string := "OverflowError: Python int too large to convert to C ssize_t"

  /**
   * The package `package_encrypted_files` writes: video, audio and the metadata
   * encrypted under key index -2, each framed; `struct.error` when a blob is too
   * long to frame.
   */
  function PackageBytes(video: seq<byte>, audioFile: Option<seq<byte>>, includeAudio: bool,
                        metadata: seq<byte>, ks: Keystream): Result<seq<byte>>
  {
    var blobs := [video, AudioBlob(includeAudio, audioFile), Ctr(metadata, ks, -2)];
    if Fits(blobs) then Success(Frames(blobs)) else Failure(PackError)
  }

  /** The package file as `package_encrypted_files` fills it, one write at a time. */
  class PackageFile {
    var contents: seq<byte>

    constructor ()
      ensures contents == []
    {
      contents := [];
    }

    method Write(data: seq<byte>)
      modifies this
      ensures contents == old(contents) + data
    {
      contents := contents + data;
    }
  }

  lemma FramesAppend(blobs: seq<seq<byte>>, last: seq<byte>)
    requires Fits(blobs) && |last| < Limit
    ensures Fits(blobs + [last])
    ensures Frames(blobs + [last]) == Frames(blobs) + Frame(last)
  {
    assert forall i :: 0 <= i < |blobs| ==> blobs[i] == (blobs + [last])[i];
    assert (blobs + [last])[..|blobs|] == blobs;
  }

  /** Framing one more blob of a list extends the frames of the blobs before it. */
  lemma FramesPrefix(blobs: seq<seq<byte>>, i: nat)
    requires i < |blobs| && Fits(blobs[..i]) && |blobs[i]| < Limit
    ensures Fits(blobs[..i + 1])
    ensures Frames(blobs[..i + 1]) == Frames(blobs[..i]) + Frame(blobs[i])
  {
    FramesAppend(blobs[..i], blobs[i]);
    assert blobs[..i + 1] == blobs[..i] + [blobs[i]];
  }

  /** Three fitting blobs frame to their frames in order. */
  lemma FramesThree(a: seq<byte>, b: seq<byte>, c: seq<byte>)
    requires |a| < Limit && |b| < Limit && |c| < Limit
    ensures Fits([a, b, c])
    ensures Frames([a, b, c]) == Frame(a) + Frame(b) + Frame(c)
  {
    FramesAppend([], a);
    assert [] + [a] == [a];
    FramesAppend([a], b);
    assert [a] + [b] == [a, b];
    FramesAppend([a, b], c);
    assert [a, b] + [c] == [a, b, c];
  }

  /**
   * `package_encrypted_files`, with the files' contents as values: the audio
   * file is `None` when it does not exist, and the metadata is the JSON text.
   */
  method PackageEncryptedFiles(video: seq<byte>, audioFile: Option<seq<byte>>, includeAudio: bool,
                               metadata: seq<byte>, ks: Keystream) returns (r: Result<seq<byte>>)
    ensures r == PackageBytes(video, audioFile, includeAudio, metadata, ks)
  {
    var audioBlob: seq<byte> := [];
    if includeAudio && audioFile.Some? {
      audioBlob := audioFile.value;
    }
    var encMeta := Ctr(metadata, ks, -2);
    var blobs := [video, audioBlob, encMeta];
    PackageOfBlobs(video, audioFile, includeAudio, metadata, ks, blobs);
    var pkg := new PackageFile();
    for i := 0 to |blobs|
      invariant Fits(blobs[..i])
      invariant pkg.contents == Frames(blobs[..i])
    {
      if |blobs[i]| >= Limit {
        return Failure(PackError);
      }
      FramesPrefix(blobs, i);
      WriteFrame(pkg.contents, blobs[i]);
      pkg.Write(PackLength(|blobs[i]|));
      pkg.Write(blobs[i]);
    }
    assert blobs[..|blobs|] == blobs;
    r := Success(pkg.contents);
  }

  /** Writing the length and then the blob appends the blob's frame. */
  lemma WriteFrame(written: seq<byte>, blob: seq<byte>)
    requires |blob| < Limit
    ensures written + PackLength(|blob|) + blob == written + Frame(blob)
  {
  }

  /** The package is the frames of the three blobs, or the error when one of them does not fit. */
  lemma PackageOfBlobs(video: seq<byte>, audioFile: Option<seq<byte>>, includeAudio: bool,
                       metadata: seq<byte>, ks: Keystream, blobs: seq<seq<byte>>)
    requires blobs == [video, AudioBlob(includeAudio, audioFile), Ctr(metadata, ks, -2)]
    ensures Fits(blobs) ==> PackageBytes(video, audioFile, includeAudio, metadata, ks) == Success(Frames(blobs))
    ensures !Fits(blobs) ==> PackageBytes(video, audioFile, includeAudio, metadata, ks) == Failure(PackError)
  {
  }

  /** Packing fails exactly when one of the three blobs is too long for its header. */
  lemma PackageSucceeds(video: seq<byte>, audioFile: Option<seq<byte>>, includeAudio: bool,
                        metadata: seq<byte>, ks: Keystream)
    ensures PackageBytes(video, audioFile, includeAudio, metadata, ks).Success?
      <==> |video| < Limit && |AudioBlob(includeAudio, audioFile)| < Limit && |metadata| < Limit
  {
    var blobs := [video, AudioBlob(includeAudio, audioFile), Ctr(metadata, ks, -2)];
    assert blobs[0] == video && blobs[1] == AudioBlob(includeAudio, audioFile);
    assert |blobs[2]| == |metadata|;
  }

  /** A package is the three length-prefixed blobs in order: 24 header bytes plus the blobs. */
  lemma PackageLayout(video: seq<byte>, audioFile: Option<seq<byte>>, includeAudio: bool,
                      metadata: seq<byte>, ks: Keystream)
    requires |video| < Limit && |AudioBlob(includeAudio, audioFile)| < Limit && |metadata| < Limit
    ensures var audio := AudioBlob(includeAudio, audioFile);
      var p := Frame(video) + Frame(audio) + Frame(Ctr(metadata, ks, -2));
      PackageBytes(video, audioFile, includeAudio, metadata, ks) == Success(p)
      && |p| == 24 + |video| + |audio| + |metadata|
  {
    FramesThree(video, AudioBlob(includeAudio, audioFile), Ctr(metadata, ks, -2));
  }

  /** The audio blob is empty unless audio is included. */
  lemma AudioOnlyWhenIncluded(includeAudio: bool, audioFile: Option<seq<byte>>)
    ensures !includeAudio ==> AudioBlob(includeAudio, audioFile) == []
    ensures includeAudio && audioFile.Some? ==> AudioBlob(includeAudio, audioFile) == audioFile.value
  {
  }

  /** The package file opened for reading: its bytes and the read cursor. */
  class PackageReader {
    const data: seq<byte>
    var pos: nat

    predicate Valid()
      reads this
    {
      pos <= |data|
    }

    constructor (data: seq<byte>)
      ensures this.data == data && pos == 0 && Valid()
    {
      this.data := data;
      pos := 0;
    }

    /**
     * `read(n)`: up to `n` bytes from the cursor on, fewer at the end of the file;
     * `OverflowError` when `n` does not fit a `Py_ssize_t`.
     */
    method Read(n: nat) returns (r: Result<seq<byte>>)
      requires Valid()
      modifies this
      ensures Valid()
      ensures n >= ReadLimit ==> r == Failure(ReadError) && pos == old(pos)
      ensures n < ReadLimit ==> pos == (if old(pos) + n <= |data| then old(pos) + n else |data|)
      ensures n < ReadLimit ==> r == Success(data[old(pos)..pos])
    {
      if n >= ReadLimit {
        return Failure(ReadError);
      }
      var end := if pos + n <= |data| then pos + n else |data|;
      r := Success(data[pos..end]);
      pos := end;
    }
  }

  /** The three blobs read back from a package, the metadata decrypted. */
  datatype Unpacked = Unpacked(video: seq<byte>, audio: seq<byte>, metadata: seq<byte>)

  /**
   * Reading one framed blob at `pos`: the 8-byte length, then up to that many
   * bytes; `struct.error` when fewer than 8 bytes remain for the length, and
   * `OverflowError` when the length is `2^63` or more.
   */
  function ReadFrame(data: seq<byte>, pos: nat): (r: Result<(seq<byte>, nat)>)
    requires pos <= |data|
    ensures r.Success? ==> pos + 8 <= r.value.1 <= |data| && r.value.0 == data[pos + 8..r.value.1]
    ensures r.Success? ==> r.value.1 - (pos + 8) <= UnpackLength(data[pos..pos + 8]) < ReadLimit
    ensures r.Success? && r.value.1 < |data| ==> r.value.1 - (pos + 8) == UnpackLength(data[pos..pos + 8])
    ensures r == Failure(UnpackError) <==> |data| < pos + 8
    ensures r == Failure(ReadError) <==> pos + 8 <= |data| && UnpackLength(data[pos..pos + 8]) >= ReadLimit
    ensures r.Failure? ==> r == Failure(UnpackError) || r == Failure(ReadError)
  {
    if |data| < pos + 8 then Failure(UnpackError)
    else
      var n := UnpackLength(data[pos..pos + 8]);
      if n >= ReadLimit then Failure(ReadError)
      else
        var end := if pos + 8 + n <= |data| then pos + 8 + n else |data|;
        Success((data[pos + 8..end], end))
  }

  /** What `unpack_package` reads from the package bytes, with the metadata decrypted under key index -2. */
  function Unpack(data: seq<byte>, ks: Keystream): Result<Unpacked>
  {
    match ReadFrame(data, 0)
    case Failure(e) => Failure(e)
    case Success((video, p1)) =>
      match ReadFrame(data, p1)
      case Failure(e) => Failure(e)
      case Success((audio, p2)) =>
        match ReadFrame(data, p2)
        case Failure(e) => Failure(e)
        case Success((encMeta, _)) => Success(Unpacked(video, audio, Ctr(encMeta, ks, -2)))
  }

  /**
   * One length-prefixed read of `unpack_package`: an 8-byte length, `struct.error`
   * when fewer than 8 bytes are left, then up to that many bytes, or the
   * `OverflowError` of `read` for a length of `2^63` or more.
   */
  method ReadBlob(pkg: PackageReader) returns (r: Result<seq<byte>>)
    requires pkg.Valid()
    modifies pkg
    ensures pkg.Valid()
    ensures var f := ReadFrame(pkg.data, old(pkg.pos));
      (r.Failure? <==> f.Failure?)
      && (r.Failure? ==> r.error == f.error)
      && (r.Success? ==> r.value == f.value.0 && pkg.pos == f.value.1)
  {
    ghost var start := pkg.pos;
    var header := pkg.Read(8);
    ReadFrameFails(pkg.data, start, header.value);
    if |header.value| < 8 {
      return Failure(UnpackError);
    }
    var length := UnpackLength(header.value);
    var blob := pkg.Read(length);
    if blob.Failure? {
      ReadFrameOverflows(pkg.data, start, header.value);
      return Failure(blob.error);
    }
    ReadFrameReads(pkg.data, start, header.value, blob.value, pkg.pos);
    r := Success(blob.value);
  }

  /**
   * `unpack_package`: three length-prefixed reads, video, audio and the
   * metadata, which is then decrypted under key index -2.
   */
  method UnpackPackage(package: seq<byte>, ks: Keystream) returns (r: Result<Unpacked>)
    ensures r == Unpack(package, ks)
  {
    var pkg := new PackageReader(package);
    var video := ReadBlob(pkg);
    if video.Failure? {
      return Failure(video.error);
    }
    var audio := ReadBlob(pkg);
    if audio.Failure? {
      return Failure(audio.error);
    }
    var encMeta := ReadBlob(pkg);
    if encMeta.Failure? {
      return Failure(encMeta.error);
    }
    r := Success(Unpacked(video.value, audio.value, Ctr(encMeta.value, ks, -2)));
  }

  /** A header read short of 8 bytes is exactly the case where reading a frame fails with `struct.error`. */
  lemma ReadFrameFails(data: seq<byte>, pos: nat, header: seq<byte>)
    requires pos <= |data|
    requires header == data[pos..if pos + 8 <= |data| then pos + 8 else |data|]
    ensures |header| < 8 <==> ReadFrame(data, pos) == Failure(UnpackError)
  {
  }

  /** A full header holding `2^63` or more makes reading the frame fail with `OverflowError`. */
  lemma ReadFrameOverflows(data: seq<byte>, pos: nat, header: seq<byte>)
    requires pos + 8 <= |data| && header == data[pos..pos + 8]
    ensures UnpackLength(header) >= ReadLimit <==> ReadFrame(data, pos) == Failure(ReadError)
  {
  }

  /**
   * A full header holding a length `read` accepts, followed by the read of that
   * length, is the frame `ReadFrame` reads.
   */
  lemma ReadFrameReads(data: seq<byte>, pos: nat, header: seq<byte>, blob: seq<byte>, end: nat)
    requires pos + 8 <= |data| && header == data[pos..pos + 8]
    requires var n := UnpackLength(header);
      n < ReadLimit && end == (if pos + 8 + n <= |data| then pos + 8 + n else |data|) && blob == data[pos + 8..end]
    ensures ReadFrame(data, pos) == Success((blob, end))
  {
  }

  /**
   * A frame written with a fitting length reads back as its blob, whatever
   * follows it, unless the blob is too long for `read`.
   */
  lemma ReadFrameOfFrame(prefix: seq<byte>, blob: seq<byte>, rest: seq<byte>)
    requires |blob| < Limit
    ensures ReadFrame(prefix + Frame(blob) + rest, |prefix|)
      == if |blob| < ReadLimit then Success((blob, |prefix| + 8 + |blob|)) else Failure(ReadError)
  {
    var data := prefix + Frame(blob) + rest;
    var p := |prefix|;
    assert data[p..p + 8] == PackLength(|blob|);
    LengthRoundTrip(|blob|, data[p..p + 8]);
    assert data[p + 8..p + 8 + |blob|] == blob;
  }

  /** `ReadFrameOfFrame` for a package already laid out as `prefix + Frame(blob) + rest`. */
  lemma ReadFrameAt(data: seq<byte>, prefix: seq<byte>, blob: seq<byte>, rest: seq<byte>)
    requires |blob| < Limit && data == prefix + Frame(blob) + rest
    ensures ReadFrame(data, |prefix|)
      == if |blob| < ReadLimit then Success((blob, |prefix| + 8 + |blob|)) else Failure(ReadError)
  {
    ReadFrameOfFrame(prefix, blob, rest);
  }

  lemma FirstRead(a: seq<byte>, b: seq<byte>, c: seq<byte>, rest: seq<byte>)
    requires |a| < Limit && |b| < Limit && |c| < Limit
    ensures ReadFrame(Frame(a) + Frame(b) + Frame(c) + rest, 0)
      == if |a| < ReadLimit then Success((a, 8 + |a|)) else Failure(ReadError)
  {
    ReadFrameAt(Frame(a) + Frame(b) + Frame(c) + rest, [], a, Frame(b) + Frame(c) + rest);
  }

  lemma SecondRead(a: seq<byte>, b: seq<byte>, c: seq<byte>, rest: seq<byte>)
    requires |a| < Limit && |b| < Limit && |c| < Limit
    ensures ReadFrame(Frame(a) + Frame(b) + Frame(c) + rest, 8 + |a|)
      == if |b| < ReadLimit then Success((b, 16 + |a| + |b|)) else Failure(ReadError)
  {
    ReadFrameAt(Frame(a) + Frame(b) + Frame(c) + rest, Frame(a), b, Frame(c) + rest);
  }

  lemma ThirdRead(a: seq<byte>, b: seq<byte>, c: seq<byte>, rest: seq<byte>)
    requires |a| < Limit && |b| < Limit && |c| < Limit
    ensures ReadFrame(Frame(a) + Frame(b) + Frame(c) + rest, 16 + |a| + |b|)
      == if |c| < ReadLimit then Success((c, 24 + |a| + |b| + |c|)) else Failure(ReadError)
  {
    var prefix := Frame(a) + Frame(b);
    assert |prefix| == 16 + |a| + |b|;
    ReadFrameAt(Frame(a) + Frame(b) + Frame(c) + rest, prefix, c, rest);
  }

  /** Three successful frame reads, each starting where the one before ended, make a successful unpack. */
  lemma UnpackOfReads(data: seq<byte>, ks: Keystream, a: seq<byte>, b: seq<byte>, c: seq<byte>, p1: nat, p2: nat, p3: nat)
    requires p1 <= |data| && p2 <= |data|
    requires ReadFrame(data, 0) == Success((a, p1))
    requires ReadFrame(data, p1) == Success((b, p2))
    requires ReadFrame(data, p2) == Success((c, p3))
    ensures Unpack(data, ks) == Success(Unpacked(a, b, Ctr(c, ks, -2)))
  {
  }

  /**
   * Three frames, followed by anything, unpack to their blobs; when one of them
   * is too long for `read`, unpacking raises `OverflowError` at that one.
   */
  lemma UnpackThreeFrames(a: seq<byte>, b: seq<byte>, c: seq<byte>, rest: seq<byte>, ks: Keystream)
    requires |a| < Limit && |b| < Limit && |c| < Limit
    ensures Unpack(Frame(a) + Frame(b) + Frame(c) + rest, ks)
      == if |a| < ReadLimit && |b| < ReadLimit && |c| < ReadLimit
         then Success(Unpacked(a, b, Ctr(c, ks, -2))) else Failure(ReadError)
  {
    var data := Frame(a) + Frame(b) + Frame(c) + rest;
    FirstRead(a, b, c, rest);
    if |a| < ReadLimit {
      SecondRead(a, b, c, rest);
      if |b| < ReadLimit {
        ThirdRead(a, b, c, rest);
        if |c| < ReadLimit {
          UnpackOfReads(data, ks, a, b, c, 8 + |a|, 16 + |a| + |b|, 24 + |a| + |b| + |c|);
        }
      }
    }
  }

  /**
   * Unpacking what `package_encrypted_files` wrote, followed by anything,
   * returns the video, the audio blob and the original metadata; a blob of
   * `2^63` bytes or more, which packing accepts, makes unpacking raise `OverflowError`.
   */
  lemma UnpackOfPackage(video: seq<byte>, audioFile: Option<seq<byte>>, includeAudio: bool,
                        metadata: seq<byte>, ks: Keystream, rest: seq<byte>)
    requires |video| < Limit && |AudioBlob(includeAudio, audioFile)| < Limit && |metadata| < Limit
    ensures Unpack(PackageBytes(video, audioFile, includeAudio, metadata, ks).value + rest, ks)
      == if |video| < ReadLimit && |AudioBlob(includeAudio, audioFile)| < ReadLimit && |metadata| < ReadLimit
         then Success(Unpacked(video, AudioBlob(includeAudio, audioFile), metadata))
         else Failure(ReadError)
  {
    var encMeta := Ctr(metadata, ks, -2);
    PackageLayout(video, audioFile, includeAudio, metadata, ks);
    UnpackThreeFrames(video, AudioBlob(includeAudio, audioFile), encMeta, rest, ks);
    CtrInvolution(metadata, ks, -2);
  }

  /** A package shorter than one length header is an error. */
  lemma ShortPackageFails(data: seq<byte>, ks: Keystream)
    requires |data| < 8
    ensures Unpack(data, ks) == Failure(UnpackError)
  {
  }
}
