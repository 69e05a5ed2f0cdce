/**
 * The two programs together: the QR texts src/encode.cpp writes for a
 * ciphertext, read back by src/decode.cpp in any order, any number of
 * times each, restore that ciphertext together with the salt, the nonce
 * and the file name, and the associated data the decoder rebuilds matches
 * the encoder's exactly when both machines report the same thread count.
 */
module RoundTrip {
  import opened Basics
  import opened MiniJson
  import Base64
  import Hex
  import Paths
  import Encode
  import Decode

  /** The sizes the model's number text covers: fewer than a million chunks and threads. */
  predicate Fits(cipher: seq<byte>, m: Encode.FileMeta) {
    0 < |cipher| && Encode.ChunkCount(|cipher|) < 1000000 && m.threads < 1000000
  }

  /** The envelope of chunk `i`, as the encoder builds it for `cipher`. */
  function EnvelopeOf(sha: Hasher, cipher: seq<byte>, m: Encode.FileMeta, i: nat): Value
    requires i < Encode.ChunkCount(|cipher|)
  {
    Encode.Envelope(sha, m, Hex.Sha256Hex(sha, cipher), Encode.FileId(sha, m.nameBase), i,
                    Encode.ChunkCount(|cipher|), Encode.ChunkAt(cipher, i))
  }

  /** The decoder accepts the text of chunk `i` and reads back its index, the total and the chunk's bytes. */
  lemma PayloadAccepted(sha: Hasher, cipher: seq<byte>, m: Encode.FileMeta, i: nat)
    requires Fits(cipher, m) && i < Encode.ChunkCount(|cipher|)
    ensures Decode.Validate(sha, Encode.Payload(sha, cipher, m, i))
      == Some(Decode.Candidate(EnvelopeOf(sha, cipher, m, i), i, Encode.ChunkCount(|cipher|), Encode.ChunkAt(cipher, i)))
  {
    var total := Encode.ChunkCount(|cipher|);
    var buf := Encode.ChunkAt(cipher, i);
    var cipherSha := Hex.Sha256Hex(sha, cipher);
    var fileId := Encode.FileId(sha, m.nameBase);
    var env := EnvelopeOf(sha, cipher, m, i);
    Encode.EnvelopeDumpable(sha, m, cipherSha, fileId, i, total, buf);
    DumpParse(env);
    Encode.EnvelopeFields(sha, m, cipherSha, fileId, i, total, buf);
    Base64.DecodeEncode(buf);
    assert Encode.Payload(sha, cipher, m, i) == Dump(env);
    assert Dump(env) != [];
  }

  /** A latch that is still empty or already holds `x`. */
  predicate Open<T(==)>(cur: seq<T>, x: seq<T>) {
    cur == [] || cur == x
  }

  /** No latch of `st` holds anything but this encoding's value. */
  predicate Latched(sha: Hasher, cipher: seq<byte>, m: Encode.FileMeta, st: Decode.ScanState) {
    && Open(st.nameBase, m.nameBase) && Open(st.metaExt, m.metaExt)
    && Open(st.cipherSha, Hex.Sha256Hex(sha, cipher)) && Open(st.salt, m.salt) && Open(st.nonce, m.nonce)
    && (st.expectedTotal < 0 || st.expectedTotal == Encode.ChunkCount(|cipher|))
  }

  /** The chunk map `chunks` with every latch holding this encoding's value. */
  function Filled(sha: Hasher, cipher: seq<byte>, m: Encode.FileMeta, chunks: map<int, seq<byte>>): Decode.ScanState {
    Decode.ScanState(chunks, m.nameBase, m.metaExt, Hex.Sha256Hex(sha, cipher), m.salt, m.nonce,
                     Encode.ChunkCount(|cipher|))
  }

  /**
   * The latches on the envelope of chunk `i`: whatever the earlier texts of
   * the same encoding left, every field ends up holding the encoder's value.
   */
  lemma LatchEnvelope(sha: Hasher, cipher: seq<byte>, m: Encode.FileMeta, i: nat, st: Decode.ScanState)
    requires i < Encode.ChunkCount(|cipher|) && Latched(sha, cipher, m, st)
    ensures Decode.Latch(st, EnvelopeOf(sha, cipher, m, i), Encode.ChunkCount(|cipher|)) == Filled(sha, cipher, m, st.chunks)
  {
    var total := Encode.ChunkCount(|cipher|);
    var buf := Encode.ChunkAt(cipher, i);
    Encode.EnvelopeFields(sha, m, Hex.Sha256Hex(sha, cipher), Encode.FileId(sha, m.nameBase), i, total, buf);
    Base64.DecodeEncode(m.salt);
    Base64.DecodeEncode(m.nonce);
  }

  /** The text of chunk `i` stores that chunk under `i` and fills every latch. */
  lemma StepPayload(sha: Hasher, cipher: seq<byte>, m: Encode.FileMeta, st: Decode.ScanState, i: nat)
    requires Fits(cipher, m) && i < Encode.ChunkCount(|cipher|) && Latched(sha, cipher, m, st)
    ensures Decode.Step(sha, st, Encode.Payload(sha, cipher, m, i))
      == Filled(sha, cipher, m, st.chunks[i := Encode.ChunkAt(cipher, i)])
  {
    PayloadAccepted(sha, cipher, m, i);
    LatchEnvelope(sha, cipher, m, i, st.(chunks := st.chunks[i := Encode.ChunkAt(cipher, i)]));
  }

  /** Every index in `idx` names a chunk. */
  predicate Indices(cipher: seq<byte>, idx: seq<int>) {
    forall j | 0 <= j < |idx| :: 0 <= idx[j] < Encode.ChunkCount(|cipher|)
  }

  /** Each index of `idx` with its own chunk. */
  function ChunksOf(cipher: seq<byte>, idx: seq<int>): (chunks: map<int, seq<byte>>)
    requires Indices(cipher, idx)
    ensures chunks.Keys == set k | k in idx
  {
    map k | k in idx :: Encode.ChunkAt(cipher, k)
  }

  lemma ChunksOfSnoc(cipher: seq<byte>, idx: seq<int>, i: nat)
    requires Indices(cipher, idx) && i < Encode.ChunkCount(|cipher|)
    ensures Indices(cipher, idx + [i])
    ensures ChunksOf(cipher, idx + [i]) == ChunksOf(cipher, idx)[i := Encode.ChunkAt(cipher, i)]
  {
    assert forall k :: k in idx + [i] <==> k in idx || k == i;
  }

  /**
   * What the decoder holds after the texts of chunks `idx`: nothing before
   * the first text, and afterwards each index read with its own chunk and
   * every latch with the encoder's value.
   */
  function Expected(sha: Hasher, cipher: seq<byte>, m: Encode.FileMeta, idx: seq<int>): Decode.ScanState
    requires Indices(cipher, idx)
  {
    if idx == [] then Decode.Start else Filled(sha, cipher, m, ChunksOf(cipher, idx))
  }

  /** The QR texts of chunks `idx`, in that order. */
  function Payloads(sha: Hasher, cipher: seq<byte>, m: Encode.FileMeta, idx: seq<int>): (ts: seq<string>)
    requires Indices(cipher, idx)
    ensures |ts| == |idx| && forall j | 0 <= j < |idx| :: ts[j] == Encode.Payload(sha, cipher, m, idx[j])
  {
    seq(|idx|, j requires 0 <= j < |idx| => Encode.Payload(sha, cipher, m, idx[j]))
  }

  lemma PayloadsSnoc(sha: Hasher, cipher: seq<byte>, m: Encode.FileMeta, idx: seq<int>)
    requires Indices(cipher, idx) && idx != []
    ensures Indices(cipher, idx[..|idx| - 1])
    ensures Payloads(sha, cipher, m, idx)[..|idx| - 1] == Payloads(sha, cipher, m, idx[..|idx| - 1])
  {
  }

  /** Each state `Expected` describes leaves every latch open to this encoding. */
  lemma ExpectedLatched(sha: Hasher, cipher: seq<byte>, m: Encode.FileMeta, idx: seq<int>)
    requires Indices(cipher, idx)
    ensures Latched(sha, cipher, m, Expected(sha, cipher, m, idx))
  {
  }

  /** The text of one more chunk adds that chunk to the state `Expected` describes. */
  lemma ExpectedSnoc(sha: Hasher, cipher: seq<byte>, m: Encode.FileMeta, idx: seq<int>)
    requires Indices(cipher, idx) && idx != []
    ensures Indices(cipher, idx[..|idx| - 1])
    ensures Expected(sha, cipher, m, idx)
      == Filled(sha, cipher, m, Expected(sha, cipher, m, idx[..|idx| - 1]).chunks[idx[|idx| - 1] := Encode.ChunkAt(cipher, idx[|idx| - 1])])
  {
    var n := |idx| - 1;
    assert idx == idx[..n] + [idx[n]];
    ChunksOfSnoc(cipher, idx[..n], idx[n]);
    if n == 0 {
      assert ChunksOf(cipher, idx[..n]) == map[];
    }
  }

  /** The decoder's state after any sequence of this encoding's texts. */
  lemma {:induction false} ScanPayloads(sha: Hasher, cipher: seq<byte>, m: Encode.FileMeta, idx: seq<int>)
    requires Fits(cipher, m) && Indices(cipher, idx)
    ensures Decode.Scan(sha, Payloads(sha, cipher, m, idx)) == Expected(sha, cipher, m, idx)
    decreases |idx|
  {
    if idx != [] {
      var n := |idx| - 1;
      PayloadsSnoc(sha, cipher, m, idx);
      ScanPayloads(sha, cipher, m, idx[..n]);
      ExpectedLatched(sha, cipher, m, idx[..n]);
      StepPayload(sha, cipher, m, Expected(sha, cipher, m, idx[..n]), idx[n]);
      ExpectedSnoc(sha, cipher, m, idx);
    }
  }

  /** The first `n` chunks laid end to end are the bytes before chunk `n`. */
  lemma {:induction false} JoinedChunks(cipher: seq<byte>, chunks: map<int, seq<byte>>, n: nat)
    requires n <= Encode.ChunkCount(|cipher|)
    requires forall k | 0 <= k < n :: k in chunks && chunks[k] == Encode.ChunkAt(cipher, k)
    ensures Decode.NoGap(chunks, n) && Decode.Joined(chunks, n) == Encode.Upto(cipher, n)
  {
    if n > 0 {
      JoinedChunks(cipher, chunks, n - 1);
    } else {
      assert Encode.Upto(cipher, 0) == [];
    }
  }

  /** With every index read, the chunk map holds exactly the indices 0 to n-1 and joins back to `cipher`. */
  lemma AllChunks(cipher: seq<byte>, idx: seq<int>)
    requires Indices(cipher, idx) && 0 < |cipher|
    requires forall k | 0 <= k < Encode.ChunkCount(|cipher|) :: k in idx
    ensures idx != []
    ensures |ChunksOf(cipher, idx)| == Encode.ChunkCount(|cipher|)
    ensures Decode.NoGap(ChunksOf(cipher, idx), Encode.ChunkCount(|cipher|))
    ensures Decode.Joined(ChunksOf(cipher, idx), Encode.ChunkCount(|cipher|)) == cipher
  {
    var total := Encode.ChunkCount(|cipher|);
    var chunks := ChunksOf(cipher, idx);
    assert 0 in idx;
    assert chunks.Keys == Decode.Range(total);
    assert |chunks| == |chunks.Keys|;
    JoinedChunks(cipher, chunks, total);
    assert Encode.Upto(cipher, total) == cipher;
  }

  /** Every chunk read: the checks pass and the ciphertext is whole again. */
  lemma AllRead(sha: Hasher, cipher: seq<byte>, m: Encode.FileMeta, idx: seq<int>, cores: nat)
    requires Fits(cipher, m) && Indices(cipher, idx) && m.salt != [] && m.nonce != []
    requires forall k | 0 <= k < Encode.ChunkCount(|cipher|) :: k in idx
    ensures Decode.Outcome(sha, Expected(sha, cipher, m, idx), cores)
      == Ok(Decode.Restored(cipher, m.salt, m.nonce, Encode.Aad(m.nameBase, m.metaExt, Encode.Threads(cores)),
                            m.nameBase + m.metaExt))
  {
    AllChunks(cipher, idx);
    assert m.nameBase + (if m.metaExt == [] then "" else m.metaExt) == m.nameBase + m.metaExt;
  }

  /** A chunk never read: the count check stops the decoder. */
  lemma SomeMissing(sha: Hasher, cipher: seq<byte>, m: Encode.FileMeta, idx: seq<int>, cores: nat, k: int)
    requires Fits(cipher, m) && Indices(cipher, idx)
    requires 0 <= k < Encode.ChunkCount(|cipher|) && k !in idx
    ensures Decode.Outcome(sha, Expected(sha, cipher, m, idx), cores) == Err(Decode.MissingChunks)
  {
    if idx != [] {
      var total := Encode.ChunkCount(|cipher|);
      var st := Expected(sha, cipher, m, idx);
      assert st.chunks.Keys <= Decode.Range(total) - {k};
      Decode.SubsetSize(st.chunks.Keys, Decode.Range(total) - {k});
      assert |st.chunks| == |st.chunks.Keys|;
    }
  }

  /**
   * Decoding the texts of chunks `idx` restores the ciphertext, the salt, the
   * nonce and the file name when every chunk is among them, and stops with
   * missing chunks otherwise; order and repetitions do not matter.
   */
  lemma DecodeEncoded(sha: Hasher, cipher: seq<byte>, m: Encode.FileMeta, idx: seq<int>, cores: nat)
    requires Fits(cipher, m) && Indices(cipher, idx) && m.salt != [] && m.nonce != []
    ensures Decode.Outcome(sha, Decode.Scan(sha, Payloads(sha, cipher, m, idx)), cores)
      == if forall k | 0 <= k < Encode.ChunkCount(|cipher|) :: k in idx
         then Ok(Decode.Restored(cipher, m.salt, m.nonce, Encode.Aad(m.nameBase, m.metaExt, Encode.Threads(cores)),
                                 m.nameBase + m.metaExt))
         else Err(Decode.MissingChunks)
  {
    ScanPayloads(sha, cipher, m, idx);
    if forall k | 0 <= k < Encode.ChunkCount(|cipher|) :: k in idx {
      AllRead(sha, cipher, m, idx, cores);
    } else {
      var k :| 0 <= k < Encode.ChunkCount(|cipher|) && k !in idx;
      SomeMissing(sha, cipher, m, idx, cores, k);
    }
  }

  /** A text written by this encoding. */
  predicate FromEncoding(sha: Hasher, cipher: seq<byte>, m: Encode.FileMeta, t: string) {
    exists i | 0 <= i < Encode.ChunkCount(|cipher|) :: t == Encode.Payload(sha, cipher, m, i)
  }

  /** Texts of this encoding, each named by the chunk index it carries. */
  lemma IndicesOf(sha: Hasher, cipher: seq<byte>, m: Encode.FileMeta, ts: seq<string>) returns (idx: seq<int>)
    requires Fits(cipher, m)
    requires forall j | 0 <= j < |ts| :: FromEncoding(sha, cipher, m, ts[j])
    ensures Indices(cipher, idx) && Payloads(sha, cipher, m, idx) == ts
  {
    forall j | 0 <= j < |ts|
      ensures Decode.Validate(sha, ts[j]).Some?
      ensures 0 <= Decode.Validate(sha, ts[j]).value.chunk < Encode.ChunkCount(|cipher|)
      ensures ts[j] == Encode.Payload(sha, cipher, m, Decode.Validate(sha, ts[j]).value.chunk)
    {
      var i :| 0 <= i < Encode.ChunkCount(|cipher|) && ts[j] == Encode.Payload(sha, cipher, m, i);
      PayloadAccepted(sha, cipher, m, i);
    }
    idx := seq(|ts|, j requires 0 <= j < |ts| => Decode.Validate(sha, ts[j]).value.chunk);
  }

  /** Chunk `k` is among `idx` exactly when its text is among the texts of `idx`. */
  lemma IndexRead(sha: Hasher, cipher: seq<byte>, m: Encode.FileMeta, idx: seq<int>, k: nat)
    requires Fits(cipher, m) && Indices(cipher, idx) && k < Encode.ChunkCount(|cipher|)
    ensures k in idx <==> Encode.Payload(sha, cipher, m, k) in Payloads(sha, cipher, m, idx)
  {
    var ts := Payloads(sha, cipher, m, idx);
    if k in idx {
      var j :| 0 <= j < |idx| && idx[j] == k;
      assert ts[j] == Encode.Payload(sha, cipher, m, k);
    }
    if Encode.Payload(sha, cipher, m, k) in ts {
      var j :| 0 <= j < |ts| && ts[j] == Encode.Payload(sha, cipher, m, k);
      PayloadAccepted(sha, cipher, m, k);
      PayloadAccepted(sha, cipher, m, idx[j]);
      assert idx[j] == k;
    }
  }

  /**
   * The decoder on any texts of this encoding, in any order and with any
   * repetitions: it restores the file when the text of every chunk is among
   * them, and reports missing chunks otherwise.
   */
  lemma DecodeTexts(sha: Hasher, cipher: seq<byte>, m: Encode.FileMeta, ts: seq<string>, cores: nat)
    requires Fits(cipher, m) && m.salt != [] && m.nonce != []
    requires forall j | 0 <= j < |ts| :: FromEncoding(sha, cipher, m, ts[j])
    ensures Decode.Outcome(sha, Decode.Scan(sha, ts), cores)
      == if forall k | 0 <= k < Encode.ChunkCount(|cipher|) :: Encode.Payload(sha, cipher, m, k) in ts
         then Ok(Decode.Restored(cipher, m.salt, m.nonce, Encode.Aad(m.nameBase, m.metaExt, Encode.Threads(cores)),
                                 m.nameBase + m.metaExt))
         else Err(Decode.MissingChunks)
  {
    var idx := IndicesOf(sha, cipher, m, ts);
    forall k | 0 <= k < Encode.ChunkCount(|cipher|)
      ensures k in idx <==> Encode.Payload(sha, cipher, m, k) in ts
    {
      IndexRead(sha, cipher, m, idx, k);
    }
    DecodeEncoded(sha, cipher, m, idx, cores);
  }

  /**
   * The whole decoder on a directory whose readable images all hold texts of
   * this encoding: no images, an image that does not read, a missing chunk,
   * or the file restored.
   */
  lemma RestoreEncoded(sha: Hasher, cipher: seq<byte>, m: Encode.FileMeta, es: seq<Decode.DirEntry>,
                       decodeQr: Decode.Reader, cores: nat)
    requires Fits(cipher, m) && m.salt != [] && m.nonce != []
    requires forall j | 0 <= j < |Decode.Images(es)| :: decodeQr(Decode.Images(es)[j]).Some? ==>
      FromEncoding(sha, cipher, m, decodeQr(Decode.Images(es)[j]).value)
    ensures Decode.RestoreSpec(sha, es, decodeQr, cores)
      == if Decode.Images(es) == [] then Err(Decode.NoImages)
         else if !Decode.Readable(decodeQr, Decode.Images(es)) then Err(Decode.Terminated)
         else if forall k | 0 <= k < Encode.ChunkCount(|cipher|) ::
                   Encode.Payload(sha, cipher, m, k) in Decode.Texts(decodeQr, Decode.Images(es))
         then Ok(Decode.Restored(cipher, m.salt, m.nonce, Encode.Aad(m.nameBase, m.metaExt, Encode.Threads(cores)),
                                 m.nameBase + m.metaExt))
         else Err(Decode.MissingChunks)
  {
    var files := Decode.Images(es);
    if files != [] && Decode.Readable(decodeQr, files) {
      var ts := Decode.Texts(decodeQr, files);
      DecodeTexts(sha, cipher, m, ts, cores);
    }
  }

  /**
   * The decoder that skips images it cannot read, on a directory whose
   * readable images hold texts of this encoding: it restores the file
   * exactly when every chunk's text is on some image.
   */
  lemma RestoreSkippingEncoded(sha: Hasher, cipher: seq<byte>, m: Encode.FileMeta, es: seq<Decode.DirEntry>,
                               decodeQr: Decode.Reader, cores: nat)
    requires Fits(cipher, m) && m.salt != [] && m.nonce != []
    requires forall j | 0 <= j < |Decode.Images(es)| :: decodeQr(Decode.Images(es)[j]).Some? ==>
      FromEncoding(sha, cipher, m, decodeQr(Decode.Images(es)[j]).value)
    ensures Decode.RestoreSkippingSpec(sha, es, decodeQr, cores)
      == if Decode.Images(es) == [] then Err(Decode.NoImages)
         else if forall k | 0 <= k < Encode.ChunkCount(|cipher|) ::
                   Decode.Shows(decodeQr, Decode.Images(es), Encode.Payload(sha, cipher, m, k))
         then Ok(Decode.Restored(cipher, m.salt, m.nonce, Encode.Aad(m.nameBase, m.metaExt, Encode.Threads(cores)),
                                 m.nameBase + m.metaExt))
         else Err(Decode.MissingChunks)
  {
    var files := Decode.Images(es);
    if files != [] {
      var ts := Decode.Readings(decodeQr, files);
      forall j | 0 <= j < |ts| ensures FromEncoding(sha, cipher, m, ts[j]) {
        Decode.ReadingsIff(decodeQr, files, ts[j]);
      }
      forall k | 0 <= k < Encode.ChunkCount(|cipher|)
        ensures Encode.Payload(sha, cipher, m, k) in ts <==> Decode.Shows(decodeQr, files, Encode.Payload(sha, cipher, m, k))
      {
        Decode.ReadingsIff(decodeQr, files, Encode.Payload(sha, cipher, m, k));
      }
      DecodeTexts(sha, cipher, m, ts, cores);
    }
  }

  /**
   * One image that does not read (a JPEG, which the filter selects) next to
   * images holding every chunk: `main` terminates, where skipping the image
   * restores the file.
   */
  lemma UnreadableBesideComplete(sha: Hasher, cipher: seq<byte>, m: Encode.FileMeta, es: seq<Decode.DirEntry>,
                                 decodeQr: Decode.Reader, cores: nat, bad: nat)
    requires Fits(cipher, m) && m.salt != [] && m.nonce != []
    requires bad < |Decode.Images(es)| && decodeQr(Decode.Images(es)[bad]).None?
    requires forall j | 0 <= j < |Decode.Images(es)| :: decodeQr(Decode.Images(es)[j]).Some? ==>
      FromEncoding(sha, cipher, m, decodeQr(Decode.Images(es)[j]).value)
    requires forall k | 0 <= k < Encode.ChunkCount(|cipher|) ::
      Decode.Shows(decodeQr, Decode.Images(es), Encode.Payload(sha, cipher, m, k))
    ensures Decode.RestoreSpec(sha, es, decodeQr, cores) == Err(Decode.Terminated)
    ensures Decode.RestoreSkippingSpec(sha, es, decodeQr, cores)
      == Ok(Decode.Restored(cipher, m.salt, m.nonce, Encode.Aad(m.nameBase, m.metaExt, Encode.Threads(cores)),
                            m.nameBase + m.metaExt))
  {
    Decode.UnreadableAborts(sha, es, decodeQr, cores, bad);
    RestoreSkippingEncoded(sha, cipher, m, es, decodeQr, cores);
  }

  /**
   * The associated data the decoder rebuilds equals the one the encoder
   * authenticated exactly when the decoding machine's thread count is the
   * one the encoder recorded.
   */
  lemma AadAgrees(m: Encode.FileMeta, cores: nat)
    requires m.threads < 1000000 && cores < 1000000
    ensures Encode.Aad(m.nameBase, m.metaExt, Encode.Threads(cores)) == Encode.Aad(m.nameBase, m.metaExt, m.threads)
      <==> Encode.Threads(cores) == m.threads
  {
    Encode.AadNamesThreads(m.nameBase, m.metaExt, Encode.Threads(cores), m.threads);
  }

  /** A chunk's file name holds no `/`. */
  lemma ChunkFileNameNoSlash(i: nat)
    ensures '/' !in Encode.ChunkFileName(i)
  {
    var f := Encode.ChunkFileName(i);
    var d := ZeroPadded(i, 6);
    assert f == "qr-" + d + ".png";
    forall k | 0 <= k < |f| ensures f[k] != '/' {
      if 3 <= k < |f| - 4 {
        assert f[k] == d[k - 3];
      }
    }
  }

  /** In a name ending in `.png`, the last dot is the one of `.png`. */
  lemma PngDot(f: string)
    requires |f| >= 4 && f[|f| - 4..] == ".png"
    ensures Paths.LastIndex(f, '.') == |f| - 4
  {
    var n := |f|;
    assert f[n - 1] == 'g' && f[n - 2] == 'n' && f[n - 3] == 'p' && f[n - 4] == '.';
    assert Paths.LastIndexBelow(f, '.', n - 3) == n - 4;
  }

  /** The file name of `qr-NNNNNN.png` is the whole name, and its extension is `.png`. */
  lemma ChunkFileParts(i: nat)
    ensures Paths.Filename(Encode.ChunkFileName(i)) == Encode.ChunkFileName(i)
    ensures Paths.Extension(Encode.ChunkFileName(i)) == ".png"
  {
    var f := Encode.ChunkFileName(i);
    ChunkFileNameNoSlash(i);
    PngDot(f);
  }

  /** The decoder picks up every file the encoder writes: `qr-NNNNNN.png` is a `.png` image. */
  lemma ChunkFileIsImage(i: nat)
    ensures Decode.IsImage(Decode.DirEntry(Encode.ChunkFileName(i), true))
  {
    ChunkFileParts(i);
    PngIsImage();
  }

  lemma PngIsImage()
    ensures Paths.ImageExtension(".png")
  {
    assert Paths.LowerAll(".png") == ".png";
  }
}
