/**
 * The chunking half of src/encode.cpp: the encrypted payload is cut into
 * 1400-byte chunks, and each chunk travels in a JSON envelope (the text of
 * one QR code) that also carries the file's metadata and the chunk's own
 * SHA-256. Encryption, `qrencode` and the worker threads are not modelled:
 * the ciphertext is an input and the chunks are produced in index order.
 */
module Encode {
  import opened Basics
  import Base64
  import Hex
  import opened MiniJson
  import JsonWriter

  const ChunkSize: nat := 1400
  /** The `type` every envelope carries and the decoder insists on. */
  const Tag: string := "GitZipQR-CHUNK-ENC"
  const Version: string := "4.0-cpp-inline"
  /** scrypt's N = 2^15 and r = 8; p is the number of hardware threads. */
  const KdfN: nat := 32768
  const KdfR: nat := 8

  /** `std::max(1u, std::thread::hardware_concurrency())`. */
  function Threads(cores: nat): (p: nat)
    ensures p >= 1 && p >= cores && (cores >= 1 ==> p == cores)
  {
    if cores < 1 then 1 else cores
  }

  // ---------------------------------------------------------------------
  // Chunking (lines 64-67)
  // ---------------------------------------------------------------------

  /** `(sz + CHUNK_SIZE - 1) / CHUNK_SIZE`: just enough chunks to hold `sz` bytes. */
  function ChunkCount(sz: nat): (total: nat)
    ensures total * ChunkSize >= sz
    ensures total > 0 ==> (total - 1) * ChunkSize < sz
    ensures sz == 0 <==> total == 0
  {
    (sz + ChunkSize - 1) / ChunkSize
  }

  function Min(a: int, b: int): int {
    if a < b then a else b
  }

  /** The bytes before chunk `i` starts, or all of them. */
  function Upto(data: seq<byte>, i: nat): seq<byte> {
    data[..Min(i * ChunkSize, |data|)]
  }

  /** Chunk `i`: `min(1400, sz - 1400 i)` bytes from offset `1400 i`. */
  function ChunkAt(data: seq<byte>, i: nat): (c: seq<byte>)
    requires i < ChunkCount(|data|)
    ensures 0 < |c| <= ChunkSize
    ensures |c| == Min(ChunkSize, |data| - i * ChunkSize)
    ensures Upto(data, i) + c == Upto(data, i + 1)
  {
    var s := i * ChunkSize;
    var c := data[s..s + Min(ChunkSize, |data| - s)];
    assert data[..s] + c == data[..s + |c|];
    c
  }

  /** The chunks laid end to end, first to last. */
  function Concat(chunks: seq<seq<byte>>): seq<byte>
    decreases |chunks|
  {
    if chunks == [] then [] else Concat(chunks[..|chunks| - 1]) + chunks[|chunks| - 1]
  }

  /** Every chunk but the last is full. */
  lemma ChunkFull(data: seq<byte>, i: nat)
    requires i + 1 < ChunkCount(|data|)
    ensures |ChunkAt(data, i)| == ChunkSize
  {
  }

  /**
   * The loop at line 67: a vector of `total` chunks, chunk `i` filled with
   * the at most 1400 bytes from offset `1400 i`; together they are the input.
   */
  method SplitChunks(data: seq<byte>) returns (chunks: seq<seq<byte>>)
    ensures |chunks| == ChunkCount(|data|)
    ensures forall i | 0 <= i < |chunks| :: chunks[i] == ChunkAt(data, i)
    ensures Concat(chunks) == data
  {
    var total := ChunkCount(|data|);
    var a := new seq<byte>[total](_ => []);
    for i := 0 to total
      invariant forall j | 0 <= j < i :: a[j] == ChunkAt(data, j)
      invariant Concat(a[..i]) == Upto(data, i)
    {
      var s := i * ChunkSize;
      var len := Min(ChunkSize, |data| - s);
      a[i] := data[s..s + len];
      assert a[i] == ChunkAt(data, i);
      assert a[..i + 1][..i] == a[..i];
    }
    chunks := a[..];
    assert a[..total] == chunks;
  }

  // ---------------------------------------------------------------------
  // Names (lines 68, 78)
  // ---------------------------------------------------------------------

  /**
   * `fileId`: the first 16 characters of `sha256_hex(nameBase)`, that is the
   * hex text of the first 8 bytes of the digest.
   */
  function FileId(sha: Hasher, nameBase: string): (id: string)
    ensures |id| == 16 && forall k | 0 <= k < 16 :: Hex.IsLowerHex(id[k])
    ensures id == Hex.Hex(sha(ToBytes(nameBase))[..8])
  {
    var d := sha(ToBytes(nameBase));
    var h := Hex.Sha256Hex(sha, ToBytes(nameBase));
    assert forall k | 0 <= k < 16 :: h[k] == Hex.Hex(d[..8])[k];
    h[..16]
  }

  /** `snprintf(fn, 64, "qr-%06d.png", i)`. */
  function ChunkFileName(i: nat): (f: string)
    ensures |f| >= 13 && f[..3] == "qr-" && f[|f| - 4..] == ".png"
    ensures f[3..|f| - 4] == ZeroPadded(i, 6)
  {
    var f := "qr-" + ZeroPadded(i, 6) + ".png";
    assert f[3..|f| - 4] == ZeroPadded(i, 6);
    f
  }

  /** Every chunk has a file of its own, however many chunks there are. */
  lemma {:induction false} ChunkFileNameInjective(i: nat, j: nat)
    requires ChunkFileName(i) == ChunkFileName(j)
    ensures i == j
  {
    var f := ChunkFileName(i);
    assert ZeroPadded(i, 6) == f[3..|f| - 4] == ZeroPadded(j, 6);
  }

  /** Below a million chunks every file name is 13 characters: six digits exactly. */
  lemma {:induction false} ChunkFileNameLength(i: nat)
    requires i < 1000000
    ensures |ChunkFileName(i)| == 13
  {
    assert Pow10(6) == 1000000;
    DecimalShort(i, 6);
  }

  // ---------------------------------------------------------------------
  // The envelope (lines 59-60, 72-78)
  // ---------------------------------------------------------------------

  /** scrypt's p as the encoder sets it, `max(1, hardware_concurrency())` (line 57): never zero. */
  type ThreadCount = p: nat | p >= 1 witness 1

  /** The per-file values every envelope repeats. */
  datatype FileMeta = FileMeta(
    nameBase: string,
    metaExt: string,
    salt: seq<byte>,
    nonce: seq<byte>,
    threads: ThreadCount)

  /** A `std::map` built from an initializer list: each pair is inserted in turn, the first of a repeated key kept. */
  function MapOf(pairs: seq<Member>): (ms: seq<Member>)
    ensures Sorted(ms)
    ensures forall k :: Lookup(ms, k) == Lookup(pairs, k)
  {
    InsertAllKeepsSorted([], pairs);
    forall k ensures Lookup(InsertAll([], pairs), k) == Lookup(pairs, k) {
      InsertAllLookup([], pairs, k);
    }
    InsertAll([], pairs)
  }

  /** `kdfParams`: N, r and p as numbers. */
  function KdfParams(p: nat): Value {
    Obj(MapOf([Member("N", Num(KdfN)), Member("r", Num(KdfR)), Member("p", Num(p))]))
  }

  /** The object whose dump is the AES-GCM associated data, on both sides. */
  function AadObject(nameBase: string, metaExt: string, p: nat): Value {
    Obj(MapOf([Member("version", Str(Version)), Member("name", Str(nameBase)), Member("ext", Str(metaExt)),
               Member("N", Num(KdfN)), Member("r", Num(KdfR)), Member("p", Num(p))]))
  }

  /** `aad_obj.dump()`, whose characters are the associated-data bytes. */
  function Aad(nameBase: string, metaExt: string, p: nat): string {
    Dump(AadObject(nameBase, metaExt, p))
  }

  /** The keys of the envelope, in the order the source lists them. */
  const EnvelopeKeys: seq<string> := ["type", "version", "fileId", "name", "ext", "chunk", "total", "hash",
    "cipherHash", "kdfParams", "saltB64", "nonceB64", "chunkSize", "dataB64"]

  /** The values of the envelope of chunk `i`, key by key. */
  function EnvelopeValues(sha: Hasher, m: FileMeta, cipherSha: string, fileId: string, i: nat, total: nat, buf: seq<byte>): (vs: seq<Value>)
    ensures |vs| == |EnvelopeKeys|
  {
    [ Str(Tag),                          // type
      Str(Version),                      // version
      Str(fileId),                       // fileId
      Str(m.nameBase),                   // name
      Str(m.metaExt),                    // ext
      Num(i),                            // chunk
      Num(total),                        // total
      Str(Hex.Sha256Hex(sha, buf)),      // hash
      Str(cipherSha),                    // cipherHash
      KdfParams(m.threads),              // kdfParams
      Str(Base64.Encode(m.salt)),        // saltB64
      Str(Base64.Encode(m.nonce)),       // nonceB64
      Num(ChunkSize),                    // chunkSize
      Str(Base64.Encode(buf)) ]          // dataB64
  }

  /** Keys paired with values, in order. */
  function Zip(ks: seq<string>, vs: seq<Value>): (ms: seq<Member>)
    requires |ks| == |vs|
    ensures |ms| == |ks| && forall i | 0 <= i < |ks| :: ms[i] == Member(ks[i], vs[i])
  {
    seq(|ks|, i requires 0 <= i < |ks| => Member(ks[i], vs[i]))
  }

  /** The `meta` object `do_one` builds for chunk `i`. */
  function Envelope(sha: Hasher, m: FileMeta, cipherSha: string, fileId: string, i: nat, total: nat, buf: seq<byte>): Value {
    Obj(MapOf(Zip(EnvelopeKeys, EnvelopeValues(sha, m, cipherSha, fileId, i, total, buf))))
  }

  lemma EnvelopeKeysDistinct()
    ensures forall i, j | 0 <= i < j < |EnvelopeKeys| :: EnvelopeKeys[i] != EnvelopeKeys[j]
  {
  }

  /** A key that no earlier member has is found at its own position. */
  lemma {:induction false} LookupAt(ms: seq<Member>, i: nat)
    requires i < |ms| && forall j | 0 <= j < i :: ms[j].key != ms[i].key
    ensures Lookup(ms, ms[i].key) == Some(ms[i].val)
  {
    if i > 0 {
      LookupAt(ms[1..], i - 1);
    }
  }

  /** Each key of the envelope reads back its own value. */
  lemma {:induction false} EnvelopeLookup(vs: seq<Value>, i: nat)
    requires |vs| == |EnvelopeKeys| && i < |vs|
    ensures Lookup(MapOf(Zip(EnvelopeKeys, vs)), EnvelopeKeys[i]) == Some(vs[i])
  {
    EnvelopeKeysDistinct();
    LookupAt(Zip(EnvelopeKeys, vs), i);
  }

  /**
   * What the envelope says, key by key: the decoder reads back the tag, the
   * chunk index, the total, the chunk's hash and its bytes in base64, and the
   * metadata every chunk repeats.
   */
  lemma {:induction false} EnvelopeFields(sha: Hasher, m: FileMeta, cipherSha: string, fileId: string, i: nat, total: nat, buf: seq<byte>)
    ensures GetStr(Envelope(sha, m, cipherSha, fileId, i, total, buf), "type") == Some(Tag)
    ensures GetNum(Envelope(sha, m, cipherSha, fileId, i, total, buf), "chunk") == Some(i)
    ensures GetNum(Envelope(sha, m, cipherSha, fileId, i, total, buf), "total") == Some(total)
    ensures GetStr(Envelope(sha, m, cipherSha, fileId, i, total, buf), "hash") == Some(Hex.Sha256Hex(sha, buf))
    ensures GetStr(Envelope(sha, m, cipherSha, fileId, i, total, buf), "dataB64") == Some(Base64.Encode(buf))
    ensures GetStr(Envelope(sha, m, cipherSha, fileId, i, total, buf), "name") == Some(m.nameBase)
    ensures GetStr(Envelope(sha, m, cipherSha, fileId, i, total, buf), "ext") == Some(m.metaExt)
    ensures GetStr(Envelope(sha, m, cipherSha, fileId, i, total, buf), "cipherHash") == Some(cipherSha)
    ensures GetStr(Envelope(sha, m, cipherSha, fileId, i, total, buf), "saltB64") == Some(Base64.Encode(m.salt))
    ensures GetStr(Envelope(sha, m, cipherSha, fileId, i, total, buf), "nonceB64") == Some(Base64.Encode(m.nonce))
  {
    var vs := EnvelopeValues(sha, m, cipherSha, fileId, i, total, buf);
    EnvelopeLookup(vs, 0);
    EnvelopeLookup(vs, 3);
    EnvelopeLookup(vs, 4);
    EnvelopeLookup(vs, 5);
    EnvelopeLookup(vs, 6);
    EnvelopeLookup(vs, 7);
    EnvelopeLookup(vs, 8);
    EnvelopeLookup(vs, 10);
    EnvelopeLookup(vs, 11);
    EnvelopeLookup(vs, 13);
  }

  lemma EnvelopeKeysPlain()
    ensures forall i | 0 <= i < |EnvelopeKeys| :: PlainKey(EnvelopeKeys[i])
  {
  }

  lemma {:induction false} KdfParamsDumpable(p: nat)
    requires p < 1000000
    ensures Dumpable(KdfParams(p))
  {
    var kp := [Member("N", Num(KdfN)), Member("r", Num(KdfR)), Member("p", Num(p))];
    MembersDumpableEach(kp);
    InsertAllDumpable([], kp);
  }

  /** The envelope's text parses back to the envelope while the numbers in it stay below a million. */
  lemma {:induction false} EnvelopeDumpable(sha: Hasher, m: FileMeta, cipherSha: string, fileId: string, i: nat, total: nat, buf: seq<byte>)
    requires total < 1000000 && m.threads < 1000000 && i < 1000000
    ensures Dumpable(Envelope(sha, m, cipherSha, fileId, i, total, buf))
  {
    var vs := EnvelopeValues(sha, m, cipherSha, fileId, i, total, buf);
    KdfParamsDumpable(m.threads);
    assert forall j | 0 <= j < |vs| :: Dumpable(vs[j]);
    EnvelopeKeysPlain();
    var ps := Zip(EnvelopeKeys, vs);
    MembersDumpableEach(ps);
    InsertAllDumpable([], ps);
  }

  lemma {:induction false} AadDumpable(nameBase: string, metaExt: string, p: nat)
    requires p < 1000000
    ensures Dumpable(AadObject(nameBase, metaExt, p))
  {
    var ps := [Member("version", Str(Version)), Member("name", Str(nameBase)), Member("ext", Str(metaExt)),
               Member("N", Num(KdfN)), Member("r", Num(KdfR)), Member("p", Num(p))];
    MembersDumpableEach(ps);
    InsertAllDumpable([], ps);
  }

  /**
   * The associated data names the thread count: the text the decoder rebuilds
   * from its own machine equals the one the encoder authenticated exactly
   * when both report the same number of hardware threads.
   */
  lemma {:induction false} AadNamesThreads(nameBase: string, metaExt: string, p: nat, q: nat)
    requires p < 1000000 && q < 1000000
    ensures Aad(nameBase, metaExt, p) == Aad(nameBase, metaExt, q) <==> p == q
  {
    if Aad(nameBase, metaExt, p) == Aad(nameBase, metaExt, q) {
      AadDumpable(nameBase, metaExt, p);
      AadDumpable(nameBase, metaExt, q);
      DumpParse(AadObject(nameBase, metaExt, p));
      DumpParse(AadObject(nameBase, metaExt, q));
      AadThreads(nameBase, metaExt, p);
      AadThreads(nameBase, metaExt, q);
    }
  }

  /** The `p` member of the associated data holds the thread count. */
  lemma AadThreads(nameBase: string, metaExt: string, p: nat)
    ensures GetNum(AadObject(nameBase, metaExt, p), "p") == Some(p)
  {
    var ps := [Member("version", Str(Version)), Member("name", Str(nameBase)), Member("ext", Str(metaExt)),
               Member("N", Num(KdfN)), Member("r", Num(KdfR)), Member("p", Num(p))];
    LookupAt(ps, 5);
  }

  // ---------------------------------------------------------------------
  // The chunk loop (lines 62-84)
  // ---------------------------------------------------------------------

  /** The text of the QR code for chunk `i` of `cipher`. */
  function Payload(sha: Hasher, cipher: seq<byte>, m: FileMeta, i: nat): string
    requires i < ChunkCount(|cipher|)
  {
    Dump(Envelope(sha, m, Hex.Sha256Hex(sha, cipher), FileId(sha, m.nameBase), i, ChunkCount(|cipher|), ChunkAt(cipher, i)))
  }

  /** One QR code to write: its file name and the text it encodes. */
  datatype QrCode = QrCode(fileName: string, payload: string)

  /** What `do_one(i)` writes: `qr-%06d.png` holding the dumped envelope of chunk `i`. */
  function QrFor(sha: Hasher, cipher: seq<byte>, m: FileMeta, i: nat): QrCode
    requires i < ChunkCount(|cipher|)
  {
    QrCode(ChunkFileName(i), Payload(sha, cipher, m, i))
  }

  /** The codes of the first `n` chunks, in index order. */
  function Codes(sha: Hasher, cipher: seq<byte>, m: FileMeta, n: nat): (cs: seq<QrCode>)
    requires n <= ChunkCount(|cipher|)
    ensures |cs| == n
  {
    if n == 0 then [] else Codes(sha, cipher, m, n - 1) + [QrFor(sha, cipher, m, n - 1)]
  }

  /** Code `i` is the one `do_one(i)` writes, whichever `n` it is counted in. */
  lemma {:induction false} CodeAt(sha: Hasher, cipher: seq<byte>, m: FileMeta, n: nat, i: nat)
    requires i < n <= ChunkCount(|cipher|)
    ensures Codes(sha, cipher, m, n)[i] == QrFor(sha, cipher, m, i)
  {
    var c, x := Codes(sha, cipher, m, n - 1), QrFor(sha, cipher, m, n - 1);
    assert Codes(sha, cipher, m, n) == c + [x];
    if i < n - 1 {
      CodeAt(sha, cipher, m, n - 1, i);
      assert (c + [x])[i] == c[i];
    } else {
      assert (c + [x])[i] == x;
    }
  }

  /** No two codes share a file name, so none overwrites another. */
  lemma CodesNamesDistinct(sha: Hasher, cipher: seq<byte>, m: FileMeta, n: nat)
    requires n <= ChunkCount(|cipher|)
    ensures forall i, j | 0 <= i < j < n :: Codes(sha, cipher, m, n)[i].fileName != Codes(sha, cipher, m, n)[j].fileName
  {
    forall i, j | 0 <= i < j < n ensures Codes(sha, cipher, m, n)[i].fileName != Codes(sha, cipher, m, n)[j].fileName {
      CodeAt(sha, cipher, m, n, i);
      CodeAt(sha, cipher, m, n, j);
      if ChunkFileName(i) == ChunkFileName(j) {
        ChunkFileNameInjective(i, j);
      }
    }
  }

  /**
   * `do_one(i)`: given the ciphertext's hash, the file id and chunk `i` as
   * the encoder computed them, the code it writes is code `i`.
   */
  method DoOne(sha: Hasher, cipher: seq<byte>, m: FileMeta, cipherSha: string, fileId: string,
               chunks: seq<seq<byte>>, i: nat) returns (code: QrCode)
    requires cipherSha == Hex.Sha256Hex(sha, cipher) && fileId == FileId(sha, m.nameBase)
    requires |chunks| == ChunkCount(|cipher|) && i < |chunks| && chunks[i] == ChunkAt(cipher, i)
    ensures code == QrFor(sha, cipher, m, i)
  {
    var payload := JsonWriter.DumpText(Envelope(sha, m, cipherSha, fileId, i, |chunks|, chunks[i]));
    code := QrCode(ChunkFileName(i), payload);
  }

  /**
   * From the ciphertext on: its hash, the chunks, the file id, and for each
   * chunk `do_one`, which dumps the envelope and names the file.
   */
  method EncodeChunks(sha: Hasher, cipher: seq<byte>, m: FileMeta) returns (codes: seq<QrCode>)
    ensures codes == Codes(sha, cipher, m, ChunkCount(|cipher|))
  {
    var cipherSha := Hex.Sha256Hex(sha, cipher);
    var chunks := SplitChunks(cipher);
    var total := |chunks|;
    var fileId := FileId(sha, m.nameBase);
    codes := [];
    for i := 0 to total
      invariant codes == Codes(sha, cipher, m, i)
    {
      var code := DoOne(sha, cipher, m, cipherSha, fileId, chunks, i);
      codes := codes + [code];
    }
  }
}
