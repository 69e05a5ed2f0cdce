/**
 * src/decode.cpp without the image decoding and the decryption: the
 * directory scan for QR images, the worker that validates each QR text and
 * stores its chunk while latching the file's metadata, and the checks that
 * reassemble the ciphertext and rebuild the associated data.
 *
 * `decode_qr` (libpng and ZXing) is a function parameter from file path to
 * QR text, or to nothing when `png_rgba` throws, SHA-256 is the `Hasher` parameter, and the worker threads are a
 * sequential pass over the images: every update of the shared state happens
 * under the mutex, so any run of the threads is the pass over some order of
 * the images.
 */
module Decode {
  import opened Basics
  import opened MiniJson
  import Base64
  import Hex
  import Paths
  import JsonWriter
  import Encode

  // ---------------------------------------------------------------------
  // Collecting the images (lines 49-55)
  // ---------------------------------------------------------------------

  /** One entry of the input directory, as `directory_iterator` lists it. */
  datatype DirEntry = DirEntry(path: string, isRegularFile: bool)

  /** A regular file whose extension, lower-cased, is `.png`, `.jpg` or `.jpeg`. */
  predicate IsImage(e: DirEntry) {
    e.isRegularFile && Paths.ImageExtension(Paths.Extension(Paths.Filename(e.path)))
  }

  /** The paths of the entries `keep` accepts, in directory order. */
  function Select(es: seq<DirEntry>, keep: DirEntry -> bool): (files: seq<string>)
    ensures |files| <= |es|
  {
    if es == [] then []
    else Select(es[..|es| - 1], keep) + (if keep(es[|es| - 1]) then [es[|es| - 1].path] else [])
  }

  /** Some entry of `es` that `keep` accepts has path `p`. */
  predicate Listed(es: seq<DirEntry>, keep: DirEntry -> bool, p: string) {
    exists k | 0 <= k < |es| :: keep(es[k]) && es[k].path == p
  }

  lemma ListedSnoc(es: seq<DirEntry>, keep: DirEntry -> bool, p: string)
    requires es != []
    ensures Listed(es, keep, p) <==> Listed(es[..|es| - 1], keep, p) || (keep(es[|es| - 1]) && es[|es| - 1].path == p)
  {
    var n := |es| - 1;
    var init := es[..n];
    if Listed(init, keep, p) {
      var k :| 0 <= k < n && keep(init[k]) && init[k].path == p;
      assert es[k] == init[k];
    }
    if Listed(es, keep, p) {
      var k :| 0 <= k < |es| && keep(es[k]) && es[k].path == p;
      if k < n {
        assert init[k] == es[k];
      }
    }
  }

  lemma {:induction false} SelectIff(es: seq<DirEntry>, keep: DirEntry -> bool, p: string)
    ensures p in Select(es, keep) <==> Listed(es, keep, p)
    decreases |es|
  {
    if es != [] {
      var n := |es| - 1;
      SelectIff(es[..n], keep, p);
      ListedSnoc(es, keep, p);
    } else {
      assert !Listed(es, keep, p);
    }
  }

  /** The paths of the image entries, in directory order. */
  function Images(es: seq<DirEntry>): (files: seq<string>)
    ensures |files| <= |es|
  {
    Select(es, IsImage)
  }

  /** A path is collected exactly when some image entry has it. */
  lemma ImagesIff(es: seq<DirEntry>, p: string)
    ensures p in Images(es) <==> exists k | 0 <= k < |es| :: IsImage(es[k]) && es[k].path == p
  {
    SelectIff(es, IsImage, p);
  }

  lemma SelectSnoc(es: seq<DirEntry>, keep: DirEntry -> bool, k: nat)
    requires k < |es|
    ensures Select(es[..k + 1], keep) == Select(es[..k], keep) + (if keep(es[k]) then [es[k].path] else [])
  {
    assert es[..k + 1][..k] == es[..k];
  }

  /** Lines 51-53 for one entry: a regular file, its extension lower-cased in place and compared. */
  method CheckEntry(e: DirEntry) returns (image: bool)
    ensures image == IsImage(e)
  {
    if !e.isRegularFile {
      return false;
    }
    var ext := Paths.Extension(Paths.Filename(e.path));
    var lower := Paths.LowerCopy(ext);
    image := lower == ".png" || lower == ".jpg" || lower == ".jpeg";
  }

  /** One turn of the loop of lines 50-54: the entry's path is kept when it is an image. */
  method Visit(files: seq<string>, e: DirEntry) returns (r: seq<string>)
    ensures r == files + (if IsImage(e) then [e.path] else [])
  {
    var image := CheckEntry(e);
    r := files;
    if image {
      r := r + [e.path];
    }
  }

  /** The loop of lines 50-54. */
  method CollectImages(es: seq<DirEntry>) returns (files: seq<string>)
    ensures files == Images(es)
  {
    files := [];
    for k := 0 to |es|
      invariant files == Images(es[..k])
    {
      SelectSnoc(es, IsImage, k);
      files := Visit(files, es[k]);
    }
    assert es[..|es|] == es;
  }

  // ---------------------------------------------------------------------
  // Validating one QR text (lines 62-67)
  // ---------------------------------------------------------------------

  /** What the worker keeps from a text it accepts. */
  datatype Candidate = Candidate(doc: Value, chunk: int, total: int, data: seq<byte>)

  /**
   * The checks before the lock: a non-empty text that parses, whose `type`
   * is the tag, whose `chunk` and `total` are numbers, and whose `dataB64`
   * decodes to bytes with the SHA-256 hex given as `hash`. A failed `get`
   * throws and is caught: the text is skipped either way.
   */
  function Validate(sha: Hasher, txt: string): Option<Candidate> {
    if txt == [] then None
    else match Parse(txt)
      case Err(_) => None
      case Ok(j) =>
        if !Contains(j, "type") || GetStr(j, "type") != Some(Encode.Tag) then None
        else match (GetNum(j, "chunk"), GetNum(j, "total"), GetStr(j, "dataB64"), GetStr(j, "hash"))
          case (Some(chunk), Some(total), Some(d64), Some(hash)) =>
            var data := Base64.Decode(d64);
            if Hex.Sha256Hex(sha, data) != hash then None else Some(Candidate(j, chunk, total, data))
          case _ => None
  }

  /** Lines 62-67 as the worker runs them, with `b64d` and `sha256_hex`. */
  method Check(sha: Hasher, txt: string) returns (r: Option<Candidate>)
    ensures r == Validate(sha, txt)
  {
    if txt == [] {
      return None;
    }
    var parsed := Parse(txt);
    if parsed.Err? {
      return None;
    }
    var j := parsed.value;
    if !Contains(j, "type") || GetStr(j, "type") != Some(Encode.Tag) {
      return None;
    }
    var chunk, total := GetNum(j, "chunk"), GetNum(j, "total");
    var d64, hash := GetStr(j, "dataB64"), GetStr(j, "hash");
    if chunk.None? || total.None? || d64.None? || hash.None? {
      return None;
    }
    var data := Base64.B64d(d64.value);
    var hex := Hex.HexDigest(sha(data));
    if hex != hash.value {
      return None;
    }
    r := Some(Candidate(j, chunk.value, total.value, data));
  }

  /** The fields of an accepted text, read as the worker reads them. */
  predicate Carries(sha: Hasher, txt: string, c: Candidate) {
    && txt != []
    && Parse(txt) == Ok(c.doc)
    && GetStr(c.doc, "type") == Some(Encode.Tag)
    && GetNum(c.doc, "chunk") == Some(c.chunk)
    && GetNum(c.doc, "total") == Some(c.total)
    && GetStr(c.doc, "dataB64").Some?
    && c.data == Base64.Decode(GetStr(c.doc, "dataB64").value)
    && GetStr(c.doc, "hash") == Some(Hex.Sha256Hex(sha, c.data))
  }

  /** A text is accepted, with candidate `c`, exactly when it carries `c`'s fields. */
  lemma ValidateIff(sha: Hasher, txt: string, c: Candidate)
    ensures Validate(sha, txt) == Some(c) <==> Carries(sha, txt, c)
  {
  }

  // ---------------------------------------------------------------------
  // Storing and latching (lines 68-75)
  // ---------------------------------------------------------------------

  /** The state the workers share: the chunk map and the latched metadata. */
  datatype ScanState = ScanState(
    chunks: map<int, seq<byte>>,
    nameBase: string,
    metaExt: string,
    cipherSha: string,
    salt: seq<byte>,
    nonce: seq<byte>,
    expectedTotal: int)

  const Start: ScanState := ScanState(map[], "", "", "", [], [], -1)

  /**
   * `if(x.empty() && j.contains(k)) x = j[k].get<std::string>();`: the new
   * value of `x`, or None when `get` throws.
   */
  function LatchText(x: string, j: Value, k: string): (r: Option<string>)
    ensures x != [] ==> r == Some(x)
  {
    if x != [] || !Contains(j, k) then Some(x)
    else match GetStr(j, k)
      case Some(t) => Some(t)
      case None => None
  }

  /** The same for salt and nonce, whose text goes through `b64d`. */
  function LatchBytes(x: seq<byte>, j: Value, k: string): (r: Option<seq<byte>>)
    ensures x != [] ==> r == Some(x)
  {
    if x != [] || !Contains(j, k) then Some(x)
    else match GetStr(j, k)
      case Some(t) => Some(Base64.Decode(t))
      case None => None
  }

  /**
   * `b` keeps what `a` has settled: the same chunks, and every latch that
   * already holds a value (a non-empty field, a non-negative total) unchanged.
   */
  predicate Keeps(a: ScanState, b: ScanState) {
    && b.chunks == a.chunks
    && (a.nameBase != [] ==> b.nameBase == a.nameBase)
    && (a.metaExt != [] ==> b.metaExt == a.metaExt)
    && (a.cipherSha != [] ==> b.cipherSha == a.cipherSha)
    && (a.salt != [] ==> b.salt == a.salt)
    && (a.nonce != [] ==> b.nonce == a.nonce)
    && (a.expectedTotal >= 0 ==> b.expectedTotal == a.expectedTotal)
  }

  /**
   * Lines 70-75 in order: name, ext, cipherHash, saltB64, nonceB64, then the
   * total. A `get` that throws leaves the later fields as they were (the
   * chunk is already stored by then).
   */
  function Latch(st: ScanState, j: Value, total: int): (r: ScanState)
    ensures Keeps(st, r)
  {
    match LatchText(st.nameBase, j, "name")
    case None => st
    case Some(nameBase) => LatchExt(st.(nameBase := nameBase), j, total)
  }

  function LatchExt(st: ScanState, j: Value, total: int): (r: ScanState)
    ensures Keeps(st, r)
  {
    match LatchText(st.metaExt, j, "ext")
    case None => st
    case Some(metaExt) => LatchCipherSha(st.(metaExt := metaExt), j, total)
  }

  function LatchCipherSha(st: ScanState, j: Value, total: int): (r: ScanState)
    ensures Keeps(st, r)
  {
    match LatchText(st.cipherSha, j, "cipherHash")
    case None => st
    case Some(cipherSha) => LatchSalt(st.(cipherSha := cipherSha), j, total)
  }

  function LatchSalt(st: ScanState, j: Value, total: int): (r: ScanState)
    ensures Keeps(st, r)
  {
    match LatchBytes(st.salt, j, "saltB64")
    case None => st
    case Some(salt) => LatchNonce(st.(salt := salt), j, total)
  }

  function LatchNonce(st: ScanState, j: Value, total: int): (r: ScanState)
    ensures Keeps(st, r)
  {
    match LatchBytes(st.nonce, j, "nonceB64")
    case None => st
    case Some(nonce) => st.(nonce := nonce, expectedTotal := if st.expectedTotal < 0 then total else st.expectedTotal)
  }

  /** One text through the worker: skipped, or its chunk stored under its index and the latches run. */
  function Step(sha: Hasher, st: ScanState, txt: string): ScanState {
    match Validate(sha, txt)
    case None => st
    case Some(c) => Latch(st.(chunks := st.chunks[c.chunk := c.data]), c.doc, c.total)
  }

  /** The texts one after another, from the empty state. */
  function Scan(sha: Hasher, texts: seq<string>): ScanState
    decreases |texts|
  {
    if texts == [] then Start else Step(sha, Scan(sha, texts[..|texts| - 1]), texts[|texts| - 1])
  }

  /**
   * What one text does to the latches: a rejected text changes nothing, and
   * an accepted one never changes a latch that already holds a value.
   */
  lemma StepLatches(sha: Hasher, st: ScanState, txt: string)
    ensures Validate(sha, txt).None? ==> Step(sha, st, txt) == st
    ensures Keeps(st.(chunks := Step(sha, st, txt).chunks), Step(sha, st, txt))
  {
  }

  /** Text `txt` is accepted with chunk index `k`. */
  predicate Stores(sha: Hasher, txt: string, k: int) {
    Validate(sha, txt).Some? && Validate(sha, txt).value.chunk == k
  }

  /**
   * What one text does to the chunk map: index `k` is stored after it when
   * it was before or the text is accepted with index `k`, and then it holds
   * that text's data (the last writer wins) or what it held before.
   */
  lemma StepChunks(sha: Hasher, st: ScanState, txt: string, k: int)
    ensures k in Step(sha, st, txt).chunks <==> k in st.chunks || Stores(sha, txt, k)
    ensures k in Step(sha, st, txt).chunks ==>
      Step(sha, st, txt).chunks[k] == if Stores(sha, txt, k) then Validate(sha, txt).value.data else st.chunks[k]
  {
  }

  /** A latch, once it holds a value, holds it to the end of the scan. */
  lemma {:induction false} LatchesHold(sha: Hasher, texts: seq<string>, k: nat)
    requires k <= |texts|
    ensures Keeps(Scan(sha, texts[..k]).(chunks := Scan(sha, texts).chunks), Scan(sha, texts))
    decreases |texts|
  {
    if k < |texts| {
      var init := texts[..|texts| - 1];
      assert init[..k] == texts[..k];
      LatchesHold(sha, init, k);
      StepLatches(sha, Scan(sha, init), texts[|texts| - 1]);
    } else {
      assert texts[..k] == texts;
    }
  }

  // ---------------------------------------------------------------------
  // Which text sets each latch
  // ---------------------------------------------------------------------

  /** What a document holds under a key, as a latch sees it: nothing, a value `get<std::string>` throws on, or a string. */
  datatype KeyRead = Absent | NotText | Text(t: string)

  function ReadKey(j: Value, k: string): KeyRead {
    if !Contains(j, k) then Absent
    else match GetStr(j, k)
      case Some(t) => Text(t)
      case None => NotText
  }

  /** What the document holds under the five keys the latches read, in the order of lines 70-74. */
  datatype LatchReads = LatchReads(name: KeyRead, ext: KeyRead, cipherSha: KeyRead, salt: KeyRead, nonce: KeyRead)

  function Reads(j: Value): LatchReads {
    LatchReads(ReadKey(j, "name"), ReadKey(j, "ext"), ReadKey(j, "cipherHash"), ReadKey(j, "saltB64"), ReadKey(j, "nonceB64"))
  }

  /** Latch `n` (0 name, 1 ext, 2 cipherHash, 3 saltB64, 4 nonceB64) reads this. */
  function ReadAt(rs: LatchReads, n: nat): KeyRead {
    if n == 0 then rs.name else if n == 1 then rs.ext else if n == 2 then rs.cipherSha
    else if n == 3 then rs.salt else rs.nonce
  }

  /** A latch throws: its field is empty and the key holds something that is not a string. */
  predicate Throws(empty: bool, r: KeyRead) {
    empty && r.NotText?
  }

  /**
   * Latches `from` to `n - 1` of the chain of lines 70-75 do not throw in
   * state `st`. Each latch tests only its own field, so this depends on the
   * state before the chain.
   */
  predicate Passes(st: ScanState, rs: LatchReads, from: nat, n: nat) {
    && (from <= 0 < n ==> !Throws(st.nameBase == [], rs.name))
    && (from <= 1 < n ==> !Throws(st.metaExt == [], rs.ext))
    && (from <= 2 < n ==> !Throws(st.cipherSha == [], rs.cipherSha))
    && (from <= 3 < n ==> !Throws(st.salt == [], rs.salt))
    && (from <= 4 < n ==> !Throws(st.nonce == [], rs.nonce))
  }

  /** The string latch `n` writes into its empty field, when the chain started at latch `from` gets there. */
  function OfferFrom(st: ScanState, rs: LatchReads, from: nat, n: nat): Option<string> {
    if Passes(st, rs, from, n) && ReadAt(rs, n).Text? then Some(ReadAt(rs, n).t) else None
  }

  /** The same for salt and nonce, through `b64d`. */
  function BytesOfferFrom(st: ScanState, rs: LatchReads, from: nat, n: nat): Option<seq<byte>> {
    match OfferFrom(st, rs, from, n)
    case Some(t) => Some(Base64.Decode(t))
    case None => None
  }

  /** The total line 75 writes when the expected total is negative. */
  function TotalOfferFrom(st: ScanState, rs: LatchReads, from: nat, total: int): Option<int> {
    if Passes(st, rs, from, 5) then Some(total) else None
  }

  /** A field that is unset takes what is offered; a set one stays. */
  function Take<T>(v: T, o: Option<T>, unset: bool): T {
    if unset && o.Some? then o.value else v
  }

  /** `r` is `st` after the chain run from latch `from`: earlier fields as they were, each later unset one takes its offer. */
  predicate Chained(st: ScanState, rs: LatchReads, total: int, from: nat, r: ScanState) {
    && r.chunks == st.chunks
    && r.nameBase == (if from <= 0 then Take(st.nameBase, OfferFrom(st, rs, from, 0), st.nameBase == []) else st.nameBase)
    && r.metaExt == (if from <= 1 then Take(st.metaExt, OfferFrom(st, rs, from, 1), st.metaExt == []) else st.metaExt)
    && r.cipherSha == (if from <= 2 then Take(st.cipherSha, OfferFrom(st, rs, from, 2), st.cipherSha == []) else st.cipherSha)
    && r.salt == (if from <= 3 then Take(st.salt, BytesOfferFrom(st, rs, from, 3), st.salt == []) else st.salt)
    && r.nonce == Take(st.nonce, BytesOfferFrom(st, rs, from, 4), st.nonce == [])
    && r.expectedTotal == Take(st.expectedTotal, TotalOfferFrom(st, rs, from, total), st.expectedTotal < 0)
  }

  /** Latch `from` passes, its field updated: the rest of the chain from `next` is the chain from `st`. */
  lemma ChainedShift(st: ScanState, next: ScanState, rs: LatchReads, total: int, from: nat, r: ScanState)
    requires from < 4 && Passes(st, rs, from, from + 1)
    requires next.chunks == st.chunks && Passes(next, rs, from + 1, 5) == Passes(st, rs, from + 1, 5)
    requires from < 1 ==> next.metaExt == st.metaExt
    requires from < 2 ==> next.cipherSha == st.cipherSha
    requires from < 3 ==> next.salt == st.salt
    requires next.nonce == st.nonce && next.expectedTotal == st.expectedTotal
    requires from > 0 ==> next.nameBase == st.nameBase
    requires from > 1 ==> next.metaExt == st.metaExt
    requires from > 2 ==> next.cipherSha == st.cipherSha
    requires from == 0 ==> next.nameBase == Take(st.nameBase, OfferFrom(st, rs, 0, 0), st.nameBase == [])
    requires from == 1 ==> next.metaExt == Take(st.metaExt, OfferFrom(st, rs, 1, 1), st.metaExt == [])
    requires from == 2 ==> next.cipherSha == Take(st.cipherSha, OfferFrom(st, rs, 2, 2), st.cipherSha == [])
    requires from == 3 ==> next.salt == Take(st.salt, BytesOfferFrom(st, rs, 3, 3), st.salt == [])
    requires Chained(next, rs, total, from + 1, r)
    ensures Chained(st, rs, total, from, r)
  {
    forall n | from < n <= 4 ensures OfferFrom(st, rs, from, n) == OfferFrom(next, rs, from + 1, n) {
      assert Passes(st, rs, from, n) == Passes(next, rs, from + 1, n);
    }
  }

  /** A latch that throws ends the chain: nothing from it on is offered. */
  lemma ChainedStop(st: ScanState, rs: LatchReads, total: int, from: nat)
    requires from <= 4 && !Passes(st, rs, from, from + 1)
    ensures Chained(st, rs, total, from, st)
  {
    forall n | from < n <= 4 ensures OfferFrom(st, rs, from, n) == None {
      assert !Passes(st, rs, from, n);
    }
  }

  /** A text latch is the offer of its read. */
  lemma LatchTextRead(x: string, j: Value, k: string)
    ensures LatchText(x, j, k) == if Throws(x == [], ReadKey(j, k)) then None
      else Some(Take(x, if ReadKey(j, k).Text? then Some(ReadKey(j, k).t) else None, x == []))
  {
  }

  lemma LatchBytesRead(x: seq<byte>, j: Value, k: string)
    ensures LatchBytes(x, j, k) == if Throws(x == [], ReadKey(j, k)) then None
      else Some(Take(x, if ReadKey(j, k).Text? then Some(Base64.Decode(ReadKey(j, k).t)) else None, x == []))
  {
  }

  lemma NonceChain(st: ScanState, j: Value, total: int)
    ensures Chained(st, Reads(j), total, 4, LatchNonce(st, j, total))
  {
    LatchBytesRead(st.nonce, j, "nonceB64");
  }

  lemma SaltChain(st: ScanState, j: Value, total: int)
    ensures Chained(st, Reads(j), total, 3, LatchSalt(st, j, total))
  {
    var rs := Reads(j);
    LatchBytesRead(st.salt, j, "saltB64");
    if Passes(st, rs, 3, 4) {
      var next := st.(salt := Take(st.salt, BytesOfferFrom(st, rs, 3, 3), st.salt == []));
      NonceChain(next, j, total);
      ChainedShift(st, next, rs, total, 3, LatchNonce(next, j, total));
    } else {
      ChainedStop(st, rs, total, 3);
    }
  }

  lemma CipherShaChain(st: ScanState, j: Value, total: int)
    ensures Chained(st, Reads(j), total, 2, LatchCipherSha(st, j, total))
  {
    var rs := Reads(j);
    LatchTextRead(st.cipherSha, j, "cipherHash");
    if Passes(st, rs, 2, 3) {
      var next := st.(cipherSha := Take(st.cipherSha, OfferFrom(st, rs, 2, 2), st.cipherSha == []));
      SaltChain(next, j, total);
      ChainedShift(st, next, rs, total, 2, LatchSalt(next, j, total));
    } else {
      ChainedStop(st, rs, total, 2);
    }
  }

  lemma ExtChain(st: ScanState, j: Value, total: int)
    ensures Chained(st, Reads(j), total, 1, LatchExt(st, j, total))
  {
    var rs := Reads(j);
    LatchTextRead(st.metaExt, j, "ext");
    if Passes(st, rs, 1, 2) {
      var next := st.(metaExt := Take(st.metaExt, OfferFrom(st, rs, 1, 1), st.metaExt == []));
      CipherShaChain(next, j, total);
      ChainedShift(st, next, rs, total, 1, LatchCipherSha(next, j, total));
    } else {
      ChainedStop(st, rs, total, 1);
    }
  }

  /**
   * The whole chain of lines 70-75: every field that was unset takes its
   * latch's offer, the string under its key when no earlier latch threw.
   */
  lemma LatchChain(st: ScanState, j: Value, total: int)
    ensures Chained(st, Reads(j), total, 0, Latch(st, j, total))
  {
    var rs := Reads(j);
    LatchTextRead(st.nameBase, j, "name");
    if Passes(st, rs, 0, 1) {
      var next := st.(nameBase := Take(st.nameBase, OfferFrom(st, rs, 0, 0), st.nameBase == []));
      ExtChain(next, j, total);
      ChainedShift(st, next, rs, total, 0, LatchExt(next, j, total));
    } else {
      ChainedStop(st, rs, total, 0);
    }
  }

  /** The string an accepted text offers field `n` (0 name, 1 ext, 2 cipherHash) in state `st`; a rejected text offers nothing. */
  function TextOffer(sha: Hasher, st: ScanState, txt: string, n: nat): Option<string> {
    match Validate(sha, txt)
    case None => None
    case Some(c) => OfferFrom(st, Reads(c.doc), 0, n)
  }

  /** The bytes an accepted text offers field `n` (3 salt, 4 nonce). */
  function BytesOffer(sha: Hasher, st: ScanState, txt: string, n: nat): Option<seq<byte>> {
    match Validate(sha, txt)
    case None => None
    case Some(c) => BytesOfferFrom(st, Reads(c.doc), 0, n)
  }

  /** The total an accepted text offers: its own, when its latch chain gets to line 75. */
  function TotalOffer(sha: Hasher, st: ScanState, txt: string): Option<int> {
    match Validate(sha, txt)
    case None => None
    case Some(c) => TotalOfferFrom(st, Reads(c.doc), 0, c.total)
  }

  /** The chunk stored first does not change what the latches see. */
  lemma StoreChain(st: ScanState, j: Value, chunk: int, data: seq<byte>, total: int)
    ensures Chained(st, Reads(j), total, 0, Latch(st.(chunks := st.chunks[chunk := data]), j, total).(chunks := st.chunks))
  {
    var stored := st.(chunks := st.chunks[chunk := data]);
    LatchChain(stored, j, total);
    ChainedChunks(st, stored, Reads(j), total, Latch(stored, j, total));
  }

  /** The chain does not look at the chunk map. */
  lemma ChainedChunks(st: ScanState, stored: ScanState, rs: LatchReads, total: int, r: ScanState)
    requires stored == st.(chunks := stored.chunks) && Chained(stored, rs, total, 0, r)
    ensures Chained(st, rs, total, 0, r.(chunks := st.chunks))
  {
  }

  /** One text through the worker: each latched field that was unset takes what the text offers it. */
  lemma StepFields(sha: Hasher, st: ScanState, txt: string)
    ensures Step(sha, st, txt).nameBase == Take(st.nameBase, TextOffer(sha, st, txt, 0), st.nameBase == [])
    ensures Step(sha, st, txt).metaExt == Take(st.metaExt, TextOffer(sha, st, txt, 1), st.metaExt == [])
    ensures Step(sha, st, txt).cipherSha == Take(st.cipherSha, TextOffer(sha, st, txt, 2), st.cipherSha == [])
    ensures Step(sha, st, txt).salt == Take(st.salt, BytesOffer(sha, st, txt, 3), st.salt == [])
    ensures Step(sha, st, txt).nonce == Take(st.nonce, BytesOffer(sha, st, txt, 4), st.nonce == [])
    ensures Step(sha, st, txt).expectedTotal == Take(st.expectedTotal, TotalOffer(sha, st, txt), st.expectedTotal < 0)
  {
    match Validate(sha, txt) {
      case None =>
      case Some(c) =>
        StoreChain(st, c.doc, c.chunk, c.data, c.total);
    }
  }

  /** The state after the first `i` texts. */
  function ScanBefore(sha: Hasher, texts: seq<string>, i: nat): ScanState
    requires i <= |texts|
  {
    Scan(sha, texts[..i])
  }

  lemma ScanBeforeStep(sha: Hasher, texts: seq<string>, i: nat)
    requires i < |texts|
    ensures ScanBefore(sha, texts, i + 1) == Step(sha, ScanBefore(sha, texts, i), texts[i])
  {
    assert texts[..i + 1] == texts[..i] + [texts[i]];
    ScanSnoc(sha, texts[..i], texts[i]);
  }

  /** Offer `o` finds the value `v` unset and sets it. */
  predicate Settles<T>(v: T, o: Option<T>, unset: T -> bool) {
    unset(v) && o.Some? && !unset(o.value)
  }

  /**
   * One value per prefix of a run of offers, each the previous one after a
   * latch: an unset value takes the offer, a set one stays. The last value is
   * set exactly when some offer found the value unset and set it, and it is
   * that offer; an offer that would set it leaves it set; a set value stays
   * to the end.
   */
  lemma {:induction false} FirstOffer<T>(vals: seq<T>, offers: seq<Option<T>>, unset: T -> bool)
    requires |vals| == |offers| + 1 && unset(vals[0])
    requires forall k | 0 <= k < |offers| :: vals[k + 1] == Take(vals[k], offers[k], unset(vals[k]))
    ensures !unset(vals[|offers|]) <==> exists k | 0 <= k < |offers| :: Settles(vals[k], offers[k], unset)
    ensures forall k | 0 <= k < |offers| && Settles(vals[k], offers[k], unset) :: vals[|offers|] == offers[k].value
    ensures forall k | 0 <= k < |offers| && offers[k].Some? && !unset(offers[k].value) :: !unset(vals[|offers|])
    ensures forall k | 0 <= k <= |offers| && !unset(vals[k]) :: vals[|offers|] == vals[k]
  {
    var n := |offers|;
    if n > 0 {
      FirstOffer(vals[..n], offers[..n - 1], unset);
      assert forall k | 0 <= k < n :: vals[..n][k] == vals[k];
      assert forall k | 0 <= k < n - 1 :: offers[..n - 1][k] == offers[k];
    }
  }

  /** The scan before no text is the start; before all of them, the whole scan. */
  lemma ScanBeforeEnds(sha: Hasher, texts: seq<string>)
    ensures ScanBefore(sha, texts, 0) == Start && ScanBefore(sha, texts, |texts|) == Scan(sha, texts)
  {
    assert texts[..0] == [] && texts[..|texts|] == texts;
  }

  /** The string text `i` offers field `n` (0 name, 1 ext, 2 cipherHash) in the state the texts before it leave. */
  function OfferAt(sha: Hasher, texts: seq<string>, i: nat, n: nat): Option<string>
    requires i < |texts|
  {
    TextOffer(sha, ScanBefore(sha, texts, i), texts[i], n)
  }

  /** The bytes text `i` offers field `n` (3 salt, 4 nonce). */
  function BytesOfferAt(sha: Hasher, texts: seq<string>, i: nat, n: nat): Option<seq<byte>>
    requires i < |texts|
  {
    BytesOffer(sha, ScanBefore(sha, texts, i), texts[i], n)
  }

  /** The total text `i` offers. */
  function TotalOfferAt(sha: Hasher, texts: seq<string>, i: nat): Option<int>
    requires i < |texts|
  {
    TotalOffer(sha, ScanBefore(sha, texts, i), texts[i])
  }

  /** An empty field and an offer that fills it. */
  predicate Fills<T>(v: seq<T>, o: Option<seq<T>>) {
    |v| == 0 && o.Some? && |o.value| > 0
  }

  /** A negative total and an offer that makes it non-negative. */
  predicate Raises(v: int, o: Option<int>) {
    v < 0 && o.Some? && o.value >= 0
  }

  /** Each text moves every latched field on by one `Take` of what it offers. */
  lemma ScanSteps(sha: Hasher, texts: seq<string>)
    ensures forall i {:trigger OfferAt(sha, texts, i, 0)} | 0 <= i < |texts| ::
      ScanBefore(sha, texts, i + 1).nameBase == Take(ScanBefore(sha, texts, i).nameBase, OfferAt(sha, texts, i, 0), |ScanBefore(sha, texts, i).nameBase| == 0)
    ensures forall i {:trigger OfferAt(sha, texts, i, 1)} | 0 <= i < |texts| ::
      ScanBefore(sha, texts, i + 1).metaExt == Take(ScanBefore(sha, texts, i).metaExt, OfferAt(sha, texts, i, 1), |ScanBefore(sha, texts, i).metaExt| == 0)
    ensures forall i {:trigger OfferAt(sha, texts, i, 2)} | 0 <= i < |texts| ::
      ScanBefore(sha, texts, i + 1).cipherSha == Take(ScanBefore(sha, texts, i).cipherSha, OfferAt(sha, texts, i, 2), |ScanBefore(sha, texts, i).cipherSha| == 0)
    ensures forall i {:trigger BytesOfferAt(sha, texts, i, 3)} | 0 <= i < |texts| ::
      ScanBefore(sha, texts, i + 1).salt == Take(ScanBefore(sha, texts, i).salt, BytesOfferAt(sha, texts, i, 3), |ScanBefore(sha, texts, i).salt| == 0)
    ensures forall i {:trigger BytesOfferAt(sha, texts, i, 4)} | 0 <= i < |texts| ::
      ScanBefore(sha, texts, i + 1).nonce == Take(ScanBefore(sha, texts, i).nonce, BytesOfferAt(sha, texts, i, 4), |ScanBefore(sha, texts, i).nonce| == 0)
    ensures forall i {:trigger TotalOfferAt(sha, texts, i)} | 0 <= i < |texts| ::
      ScanBefore(sha, texts, i + 1).expectedTotal == Take(ScanBefore(sha, texts, i).expectedTotal, TotalOfferAt(sha, texts, i), ScanBefore(sha, texts, i).expectedTotal < 0)
  {
    forall i | 0 <= i < |texts|
      ensures ScanBefore(sha, texts, i + 1) == Step(sha, ScanBefore(sha, texts, i), texts[i])
    {
      ScanBeforeStep(sha, texts, i);
    }
    forall i | 0 <= i < |texts| {
      StepFields(sha, ScanBefore(sha, texts, i), texts[i]);
    }
  }

  /** `FirstOffer` for fields that are unset while empty. */
  lemma FirstFill<T>(vals: seq<seq<T>>, offers: seq<Option<seq<T>>>)
    requires |vals| == |offers| + 1 && |vals[0]| == 0
    requires forall k | 0 <= k < |offers| :: vals[k + 1] == Take(vals[k], offers[k], |vals[k]| == 0)
    ensures |vals[|offers|]| > 0 <==> exists k | 0 <= k < |offers| :: Fills(vals[k], offers[k])
    ensures forall k | 0 <= k < |offers| && Fills(vals[k], offers[k]) :: vals[|offers|] == offers[k].value
    ensures forall k | 0 <= k < |offers| && offers[k].Some? && |offers[k].value| > 0 :: |vals[|offers|]| > 0
  {
    var unset := (v: seq<T>) => |v| == 0;
    FirstOffer(vals, offers, unset);
    assert forall k | 0 <= k < |offers| :: Fills(vals[k], offers[k]) <==> Settles(vals[k], offers[k], unset);
  }

  /** `FirstOffer` for the total, unset while negative. */
  lemma FirstTotal(vals: seq<int>, offers: seq<Option<int>>)
    requires |vals| == |offers| + 1 && vals[0] < 0
    requires forall k | 0 <= k < |offers| :: vals[k + 1] == Take(vals[k], offers[k], vals[k] < 0)
    ensures vals[|offers|] >= 0 <==> exists k | 0 <= k < |offers| :: Raises(vals[k], offers[k])
    ensures forall k | 0 <= k < |offers| && Raises(vals[k], offers[k]) :: vals[|offers|] == offers[k].value
    ensures forall k | 0 <= k < |offers| && offers[k].Some? && offers[k].value >= 0 :: vals[|offers|] >= 0
  {
    var unset := (v: int) => v < 0;
    FirstOffer(vals, offers, unset);
    assert forall k | 0 <= k < |offers| :: Raises(vals[k], offers[k]) <==> Settles(vals[k], offers[k], unset);
  }

  /** The `nameBase` before each text and what each text offers it: each the one before after a `Take`. */
  lemma NameTrace(sha: Hasher, texts: seq<string>) returns (vals: seq<string>, offers: seq<Option<string>>)
    ensures |vals| == |texts| + 1 && |offers| == |texts|
    ensures forall k | 0 <= k <= |texts| :: vals[k] == ScanBefore(sha, texts, k).nameBase
    ensures forall k | 0 <= k < |texts| :: offers[k] == OfferAt(sha, texts, k, 0)
    ensures |vals[0]| == 0
    ensures forall k | 0 <= k < |texts| :: vals[k + 1] == Take(vals[k], offers[k], |vals[k]| == 0)
  {
    var n := |texts|;
    vals := seq(n + 1, k requires 0 <= k <= n => ScanBefore(sha, texts, k).nameBase);
    offers := seq(n, k requires 0 <= k < n => OfferAt(sha, texts, k, 0));
    ScanSteps(sha, texts);
    ScanBeforeEnds(sha, texts);
  }

  /**
   * `nameBase` at the end of the scan (line 70): set exactly when some text
   * found it empty and offered a non-empty name, and then it is that
   * text's offer, the first accepted one whose latch chain got to `name`
   * with one; any such offer leaves it set.
   */
  lemma NameLatched(sha: Hasher, texts: seq<string>)
    ensures |Scan(sha, texts).nameBase| > 0
      <==> exists i | 0 <= i < |texts| :: Fills(ScanBefore(sha, texts, i).nameBase, OfferAt(sha, texts, i, 0))
    ensures forall i | 0 <= i < |texts| && Fills(ScanBefore(sha, texts, i).nameBase, OfferAt(sha, texts, i, 0)) ::
      Scan(sha, texts).nameBase == OfferAt(sha, texts, i, 0).value
    ensures forall i | 0 <= i < |texts| && OfferAt(sha, texts, i, 0).Some? && |OfferAt(sha, texts, i, 0).value| > 0 :: |Scan(sha, texts).nameBase| > 0
  {
    var vals, offers := NameTrace(sha, texts);
    ScanBeforeEnds(sha, texts);
    FirstFill(vals, offers);
  }

  /** The `metaExt` before each text and what each text offers it: each the one before after a `Take`. */
  lemma ExtTrace(sha: Hasher, texts: seq<string>) returns (vals: seq<string>, offers: seq<Option<string>>)
    ensures |vals| == |texts| + 1 && |offers| == |texts|
    ensures forall k | 0 <= k <= |texts| :: vals[k] == ScanBefore(sha, texts, k).metaExt
    ensures forall k | 0 <= k < |texts| :: offers[k] == OfferAt(sha, texts, k, 1)
    ensures |vals[0]| == 0
    ensures forall k | 0 <= k < |texts| :: vals[k + 1] == Take(vals[k], offers[k], |vals[k]| == 0)
  {
    var n := |texts|;
    vals := seq(n + 1, k requires 0 <= k <= n => ScanBefore(sha, texts, k).metaExt);
    offers := seq(n, k requires 0 <= k < n => OfferAt(sha, texts, k, 1));
    ScanSteps(sha, texts);
    ScanBeforeEnds(sha, texts);
  }

  /**
   * `metaExt` at the end of the scan (line 71): set exactly when some text
   * found it empty and offered a non-empty extension, and then it is that
   * text's offer, the first accepted one whose latch chain got to `ext`
   * with one; any such offer leaves it set.
   */
  lemma ExtLatched(sha: Hasher, texts: seq<string>)
    ensures |Scan(sha, texts).metaExt| > 0
      <==> exists i | 0 <= i < |texts| :: Fills(ScanBefore(sha, texts, i).metaExt, OfferAt(sha, texts, i, 1))
    ensures forall i | 0 <= i < |texts| && Fills(ScanBefore(sha, texts, i).metaExt, OfferAt(sha, texts, i, 1)) ::
      Scan(sha, texts).metaExt == OfferAt(sha, texts, i, 1).value
    ensures forall i | 0 <= i < |texts| && OfferAt(sha, texts, i, 1).Some? && |OfferAt(sha, texts, i, 1).value| > 0 :: |Scan(sha, texts).metaExt| > 0
  {
    var vals, offers := ExtTrace(sha, texts);
    ScanBeforeEnds(sha, texts);
    FirstFill(vals, offers);
  }

  /** The `cipherSha` before each text and what each text offers it: each the one before after a `Take`. */
  lemma CipherShaTrace(sha: Hasher, texts: seq<string>) returns (vals: seq<string>, offers: seq<Option<string>>)
    ensures |vals| == |texts| + 1 && |offers| == |texts|
    ensures forall k | 0 <= k <= |texts| :: vals[k] == ScanBefore(sha, texts, k).cipherSha
    ensures forall k | 0 <= k < |texts| :: offers[k] == OfferAt(sha, texts, k, 2)
    ensures |vals[0]| == 0
    ensures forall k | 0 <= k < |texts| :: vals[k + 1] == Take(vals[k], offers[k], |vals[k]| == 0)
  {
    var n := |texts|;
    vals := seq(n + 1, k requires 0 <= k <= n => ScanBefore(sha, texts, k).cipherSha);
    offers := seq(n, k requires 0 <= k < n => OfferAt(sha, texts, k, 2));
    ScanSteps(sha, texts);
    ScanBeforeEnds(sha, texts);
  }

  /**
   * `cipherSha` at the end of the scan (line 72): set exactly when some text
   * found it empty and offered a non-empty hash, and then it is that
   * text's offer, the first accepted one whose latch chain got to `cipherHash`
   * with one; any such offer leaves it set.
   */
  lemma CipherShaLatched(sha: Hasher, texts: seq<string>)
    ensures |Scan(sha, texts).cipherSha| > 0
      <==> exists i | 0 <= i < |texts| :: Fills(ScanBefore(sha, texts, i).cipherSha, OfferAt(sha, texts, i, 2))
    ensures forall i | 0 <= i < |texts| && Fills(ScanBefore(sha, texts, i).cipherSha, OfferAt(sha, texts, i, 2)) ::
      Scan(sha, texts).cipherSha == OfferAt(sha, texts, i, 2).value
    ensures forall i | 0 <= i < |texts| && OfferAt(sha, texts, i, 2).Some? && |OfferAt(sha, texts, i, 2).value| > 0 :: |Scan(sha, texts).cipherSha| > 0
  {
    var vals, offers := CipherShaTrace(sha, texts);
    ScanBeforeEnds(sha, texts);
    FirstFill(vals, offers);
  }

  /** The `salt` before each text and what each text offers it: each the one before after a `Take`. */
  lemma SaltTrace(sha: Hasher, texts: seq<string>) returns (vals: seq<seq<byte>>, offers: seq<Option<seq<byte>>>)
    ensures |vals| == |texts| + 1 && |offers| == |texts|
    ensures forall k | 0 <= k <= |texts| :: vals[k] == ScanBefore(sha, texts, k).salt
    ensures forall k | 0 <= k < |texts| :: offers[k] == BytesOfferAt(sha, texts, k, 3)
    ensures |vals[0]| == 0
    ensures forall k | 0 <= k < |texts| :: vals[k + 1] == Take(vals[k], offers[k], |vals[k]| == 0)
  {
    var n := |texts|;
    vals := seq(n + 1, k requires 0 <= k <= n => ScanBefore(sha, texts, k).salt);
    offers := seq(n, k requires 0 <= k < n => BytesOfferAt(sha, texts, k, 3));
    ScanSteps(sha, texts);
    ScanBeforeEnds(sha, texts);
  }

  /**
   * `salt` at the end of the scan (line 73): set exactly when some text
   * found it empty and offered a non-empty `b64d` of `saltB64`, and then it is that
   * text's offer, the first accepted one whose latch chain got to `saltB64`
   * with one; any such offer leaves it set.
   */
  lemma SaltLatched(sha: Hasher, texts: seq<string>)
    ensures |Scan(sha, texts).salt| > 0
      <==> exists i | 0 <= i < |texts| :: Fills(ScanBefore(sha, texts, i).salt, BytesOfferAt(sha, texts, i, 3))
    ensures forall i | 0 <= i < |texts| && Fills(ScanBefore(sha, texts, i).salt, BytesOfferAt(sha, texts, i, 3)) ::
      Scan(sha, texts).salt == BytesOfferAt(sha, texts, i, 3).value
    ensures forall i | 0 <= i < |texts| && BytesOfferAt(sha, texts, i, 3).Some? && |BytesOfferAt(sha, texts, i, 3).value| > 0 :: |Scan(sha, texts).salt| > 0
  {
    var vals, offers := SaltTrace(sha, texts);
    ScanBeforeEnds(sha, texts);
    FirstFill(vals, offers);
  }

  /** The `nonce` before each text and what each text offers it: each the one before after a `Take`. */
  lemma NonceTrace(sha: Hasher, texts: seq<string>) returns (vals: seq<seq<byte>>, offers: seq<Option<seq<byte>>>)
    ensures |vals| == |texts| + 1 && |offers| == |texts|
    ensures forall k | 0 <= k <= |texts| :: vals[k] == ScanBefore(sha, texts, k).nonce
    ensures forall k | 0 <= k < |texts| :: offers[k] == BytesOfferAt(sha, texts, k, 4)
    ensures |vals[0]| == 0
    ensures forall k | 0 <= k < |texts| :: vals[k + 1] == Take(vals[k], offers[k], |vals[k]| == 0)
  {
    var n := |texts|;
    vals := seq(n + 1, k requires 0 <= k <= n => ScanBefore(sha, texts, k).nonce);
    offers := seq(n, k requires 0 <= k < n => BytesOfferAt(sha, texts, k, 4));
    ScanSteps(sha, texts);
    ScanBeforeEnds(sha, texts);
  }

  /**
   * `nonce` at the end of the scan (line 74): set exactly when some text
   * found it empty and offered a non-empty `b64d` of `nonceB64`, and then it is that
   * text's offer, the first accepted one whose latch chain got to `nonceB64`
   * with one; any such offer leaves it set.
   */
  lemma NonceLatched(sha: Hasher, texts: seq<string>)
    ensures |Scan(sha, texts).nonce| > 0
      <==> exists i | 0 <= i < |texts| :: Fills(ScanBefore(sha, texts, i).nonce, BytesOfferAt(sha, texts, i, 4))
    ensures forall i | 0 <= i < |texts| && Fills(ScanBefore(sha, texts, i).nonce, BytesOfferAt(sha, texts, i, 4)) ::
      Scan(sha, texts).nonce == BytesOfferAt(sha, texts, i, 4).value
    ensures forall i | 0 <= i < |texts| && BytesOfferAt(sha, texts, i, 4).Some? && |BytesOfferAt(sha, texts, i, 4).value| > 0 :: |Scan(sha, texts).nonce| > 0
  {
    var vals, offers := NonceTrace(sha, texts);
    ScanBeforeEnds(sha, texts);
    FirstFill(vals, offers);
  }

  /** The `expectedTotal` before each text and what each text offers it: each the one before after a `Take`. */
  lemma TotalTrace(sha: Hasher, texts: seq<string>) returns (vals: seq<int>, offers: seq<Option<int>>)
    ensures |vals| == |texts| + 1 && |offers| == |texts|
    ensures forall k | 0 <= k <= |texts| :: vals[k] == ScanBefore(sha, texts, k).expectedTotal
    ensures forall k | 0 <= k < |texts| :: offers[k] == TotalOfferAt(sha, texts, k)
    ensures vals[0] < 0
    ensures forall k | 0 <= k < |texts| :: vals[k + 1] == Take(vals[k], offers[k], vals[k] < 0)
  {
    var n := |texts|;
    vals := seq(n + 1, k requires 0 <= k <= n => ScanBefore(sha, texts, k).expectedTotal);
    offers := seq(n, k requires 0 <= k < n => TotalOfferAt(sha, texts, k));
    ScanSteps(sha, texts);
    ScanBeforeEnds(sha, texts);
  }

  /**
   * `expectedTotal` at the end of the scan (line 75): non-negative exactly
   * when some text found it negative and offered a non-negative total, and
   * then it is that total. A negative total is written but does not stick:
   * the next text whose latch chain gets to line 75 writes over it.
   */
  lemma TotalLatched(sha: Hasher, texts: seq<string>)
    ensures Scan(sha, texts).expectedTotal >= 0
      <==> exists i | 0 <= i < |texts| :: Raises(ScanBefore(sha, texts, i).expectedTotal, TotalOfferAt(sha, texts, i))
    ensures forall i | 0 <= i < |texts| && Raises(ScanBefore(sha, texts, i).expectedTotal, TotalOfferAt(sha, texts, i)) ::
      Scan(sha, texts).expectedTotal == TotalOfferAt(sha, texts, i).value
    ensures forall i | 0 <= i < |texts| && TotalOfferAt(sha, texts, i).Some? && TotalOfferAt(sha, texts, i).value >= 0 ::
      Scan(sha, texts).expectedTotal >= 0
  {
    var vals, offers := TotalTrace(sha, texts);
    ScanBeforeEnds(sha, texts);
    FirstTotal(vals, offers);
  }

  /** Some text of `texts` satisfies `p`. */
  predicate AnyOf(texts: seq<string>, p: string -> bool) {
    exists i | 0 <= i < |texts| :: p(texts[i])
  }

  lemma AnyOfSnoc(texts: seq<string>, p: string -> bool)
    requires texts != []
    ensures AnyOf(texts, p) <==> AnyOf(texts[..|texts| - 1], p) || p(texts[|texts| - 1])
  {
    var n := |texts| - 1;
    var init := texts[..n];
    if AnyOf(init, p) {
      var i :| 0 <= i < n && p(init[i]);
      assert texts[i] == init[i];
    }
    if AnyOf(texts, p) {
      var i :| 0 <= i < |texts| && p(texts[i]);
      if i < n {
        assert init[i] == texts[i];
      }
    }
  }

  /** The test "accepted with chunk index `k`" as a value. */
  function StoresIndex(sha: Hasher, k: int): string -> bool {
    txt => Stores(sha, txt, k)
  }

  /** Some text of `texts` is accepted with chunk index `k`. */
  predicate StoredIn(sha: Hasher, texts: seq<string>, k: int) {
    AnyOf(texts, StoresIndex(sha, k))
  }

  /** Index `k` is present after the scan exactly when some accepted text has it. */
  lemma {:induction false} ScanHas(sha: Hasher, texts: seq<string>, k: int)
    ensures k in Scan(sha, texts).chunks <==> StoredIn(sha, texts, k)
    decreases |texts|
  {
    if texts != [] {
      var n := |texts| - 1;
      var init := texts[..n];
      ScanHas(sha, init, k);
      assert Scan(sha, texts) == Step(sha, Scan(sha, init), texts[n]);
      StepChunks(sha, Scan(sha, init), texts[n], k);
      AnyOfSnoc(texts, StoresIndex(sha, k));
    } else {
      assert !AnyOf(texts, StoresIndex(sha, k));
    }
  }

  /** Text `i` is the last accepted text with chunk index `k`. */
  predicate LastStore(sha: Hasher, texts: seq<string>, i: int, k: int) {
    && 0 <= i < |texts| && Stores(sha, texts[i], k)
    && forall l | i < l < |texts| :: !Stores(sha, texts[l], k)
  }

  lemma LastStoreSnoc(sha: Hasher, texts: seq<string>, i: int, k: int)
    requires texts != [] && !Stores(sha, texts[|texts| - 1], k) && LastStore(sha, texts[..|texts| - 1], i, k)
    ensures LastStore(sha, texts, i, k)
  {
    var n := |texts| - 1;
    var init := texts[..n];
    forall l | i < l < |texts| ensures !Stores(sha, texts[l], k) {
      if l < n {
        assert texts[l] == init[l];
      }
    }
    assert texts[i] == init[i];
  }

  /** A stored chunk holds the data of the last accepted text with its index: the last writer wins. */
  lemma {:induction false} ScanLast(sha: Hasher, texts: seq<string>, k: int)
    requires k in Scan(sha, texts).chunks
    ensures exists i :: LastStore(sha, texts, i, k) && Scan(sha, texts).chunks[k] == Validate(sha, texts[i]).value.data
    decreases |texts|
  {
    var n := |texts| - 1;
    var init, last := texts[..n], texts[n];
    assert Scan(sha, texts) == Step(sha, Scan(sha, init), last);
    StepChunks(sha, Scan(sha, init), last, k);
    if Stores(sha, last, k) {
      assert LastStore(sha, texts, n, k);
    } else {
      ScanLast(sha, init, k);
      var i :| LastStore(sha, init, i, k) && Scan(sha, init).chunks[k] == Validate(sha, init[i]).value.data;
      LastStoreSnoc(sha, texts, i, k);
      assert texts[i] == init[i];
    }
  }

  // ---------------------------------------------------------------------
  // After the workers (lines 81-98)
  // ---------------------------------------------------------------------

  datatype DecodeError =
    | NoImages             // line 55
    | Terminated           // line 62: a `png_rgba` exception leaves a worker thread, `std::terminate`
    | MissingChunks        // line 81
    | Gap                  // line 83
    | GlobalMismatch       // line 84
    | CryptoParamsMissing  // line 87

  /**
   * What the decryption is given: the reassembled ciphertext, salt, nonce,
   * the associated-data text, and the name the plaintext is written under.
   */
  datatype Restored = Restored(cipher: seq<byte>, salt: seq<byte>, nonce: seq<byte>, aad: string, outName: string)

  /** Every index below `n` has a chunk. */
  predicate NoGap(chunks: map<int, seq<byte>>, n: int) {
    forall i | 0 <= i < n :: i in chunks
  }

  /** Chunks 0 to n-1 laid end to end. */
  function Joined(chunks: map<int, seq<byte>>, n: nat): seq<byte>
    requires NoGap(chunks, n)
  {
    if n == 0 then [] else Joined(chunks, n - 1) + chunks[n - 1]
  }

  /** The checks of lines 81-87 in order, then the AAD and the output name. */
  function Outcome(sha: Hasher, st: ScanState, cores: nat): Result<Restored, DecodeError> {
    if st.expectedTotal <= 0 || |st.chunks| != st.expectedTotal then Err(MissingChunks)
    else if !NoGap(st.chunks, st.expectedTotal) then Err(Gap)
    else
      var cipher := Joined(st.chunks, st.expectedTotal);
      if st.cipherSha != [] && Hex.Sha256Hex(sha, cipher) != st.cipherSha then Err(GlobalMismatch)
      else if st.salt == [] || st.nonce == [] then Err(CryptoParamsMissing)
      else Ok(Restored(cipher, st.salt, st.nonce,
                       Encode.Aad(st.nameBase, st.metaExt, Encode.Threads(cores)),
                       st.nameBase + (if st.metaExt == [] then "" else st.metaExt)))
  }

  /** The indices 0 to n-1. */
  function Range(n: nat): (r: set<int>)
    ensures |r| == n
    ensures forall i :: i in r <==> 0 <= i < n
  {
    if n == 0 then {} else Range(n - 1) + {n - 1}
  }

  /** A subset is no larger than the set. */
  lemma SubsetSize(a: set<int>, b: set<int>)
    requires a <= b
    ensures |a| <= |b|
    ensures |a| == |b| ==> a == b
  {
    var c := b - a;
    assert b == a + c && a * c == {};
    if |a| == |b| {
      assert |c| == 0;
      assert c == {};
    }
  }

  /**
   * The chunk checks pass exactly when the stored indices are 0 to n-1 for
   * a positive total n: neither a missing index nor a stray one survives.
   */
  lemma ChunksComplete(sha: Hasher, st: ScanState, cores: nat)
    ensures Outcome(sha, st, cores) != Err(MissingChunks) && Outcome(sha, st, cores) != Err(Gap)
      <==> st.expectedTotal > 0 && st.chunks.Keys == Range(st.expectedTotal)
  {
    var n := st.expectedTotal;
    if n > 0 && |st.chunks| == n && NoGap(st.chunks, n) {
      assert Range(n) <= st.chunks.Keys;
      SubsetSize(Range(n), st.chunks.Keys);
    }
    if n > 0 && st.chunks.Keys == Range(n) {
      assert |st.chunks| == |st.chunks.Keys|;
    }
  }

  /** Line 83 fails exactly when the count matched but some stored index lies outside 0 to n-1. */
  lemma GapIff(sha: Hasher, st: ScanState, cores: nat)
    ensures Outcome(sha, st, cores) == Err(Gap)
      <==> && st.expectedTotal > 0 && |st.chunks| == st.expectedTotal
           && exists k | k in st.chunks :: k < 0 || k >= st.expectedTotal
  {
    var n := st.expectedTotal;
    if n > 0 && |st.chunks| == n {
      if NoGap(st.chunks, n) {
        assert Range(n) <= st.chunks.Keys;
        SubsetSize(Range(n), st.chunks.Keys);
      } else {
        var i :| 0 <= i < n && i !in st.chunks;
        if forall k | k in st.chunks :: 0 <= k < n {
          var r := Range(n) - {i};
          assert Range(n) == r + {i} && r * {i} == {};
          SubsetSize(st.chunks.Keys, r);
        }
      }
    }
  }

  // ---------------------------------------------------------------------
  // The shared state as the program keeps it
  // ---------------------------------------------------------------------

  /** The variables the worker lambda captures by reference (lines 56-58). */
  class Scanner {
    var chunks: map<int, seq<byte>>
    var nameBase: string
    var metaExt: string
    var cipherSha: string
    var salt: seq<byte>
    var nonce: seq<byte>
    var expectedTotal: int

    function State(): ScanState
      reads this
    {
      ScanState(chunks, nameBase, metaExt, cipherSha, salt, nonce, expectedTotal)
    }

    constructor ()
      ensures State() == Start
    {
      chunks, nameBase, metaExt, cipherSha := map[], "", "", "";
      salt, nonce, expectedTotal := [], [], -1;
    }

    /**
     * The body of the worker loop for one decoded text; `return` stands for
     * `continue` and for the exception the `catch(...)` swallows.
     */
    method Accept(sha: Hasher, txt: string)
      modifies this
      ensures State() == Step(sha, old(State()), txt)
    {
      var candidate := Check(sha, txt);
      if candidate.None? {
        return;
      }
      var c := candidate.value;
      chunks := chunks[c.chunk := c.data];
      Store(c.doc, c.total);
    }

    /** Lines 70-75 under the lock. */
    method Store(j: Value, total: int)
      modifies this
      ensures State() == Latch(old(State()), j, total)
    {
      if nameBase == [] && Contains(j, "name") {
        var t := GetStr(j, "name");
        if t.None? {
          return;
        }
        nameBase := t.value;
      }
      StoreExt(j, total);
    }

    method StoreExt(j: Value, total: int)
      modifies this
      ensures State() == LatchExt(old(State()), j, total)
    {
      if metaExt == [] && Contains(j, "ext") {
        var t := GetStr(j, "ext");
        if t.None? {
          return;
        }
        metaExt := t.value;
      }
      StoreCipherSha(j, total);
    }

    method StoreCipherSha(j: Value, total: int)
      modifies this
      ensures State() == LatchCipherSha(old(State()), j, total)
    {
      if cipherSha == [] && Contains(j, "cipherHash") {
        var t := GetStr(j, "cipherHash");
        if t.None? {
          return;
        }
        cipherSha := t.value;
      }
      StoreSalt(j, total);
    }

    method StoreSalt(j: Value, total: int)
      modifies this
      ensures State() == LatchSalt(old(State()), j, total)
    {
      if salt == [] && Contains(j, "saltB64") {
        var t := GetStr(j, "saltB64");
        if t.None? {
          return;
        }
        salt := Base64.B64d(t.value);
      }
      StoreNonce(j, total);
    }

    method StoreNonce(j: Value, total: int)
      modifies this
      ensures State() == LatchNonce(old(State()), j, total)
    {
      if nonce == [] && Contains(j, "nonceB64") {
        var t := GetStr(j, "nonceB64");
        if t.None? {
          return;
        }
        nonce := Base64.B64d(t.value);
      }
      if expectedTotal < 0 {
        expectedTotal := total;
      }
    }

    /** Lines 81-98 once the workers have joined. */
    method Finish(sha: Hasher, cores: nat) returns (r: Result<Restored, DecodeError>)
      ensures r == Outcome(sha, State(), cores)
    {
      if expectedTotal <= 0 || |chunks| != expectedTotal {
        return Err(MissingChunks);
      }
      var cipher: seq<byte> := [];
      for i := 0 to expectedTotal
        invariant NoGap(chunks, i) && cipher == Joined(chunks, i)
      {
        if i !in chunks {
          return Err(Gap);
        }
        cipher := cipher + chunks[i];
      }
      var hex := Hex.HexDigest(sha(cipher));
      if cipherSha != [] && hex != cipherSha {
        return Err(GlobalMismatch);
      }
      if salt == [] || nonce == [] {
        return Err(CryptoParamsMissing);
      }
      var aad := JsonWriter.DumpText(Encode.AadObject(nameBase, metaExt, Encode.Threads(cores)));
      var outName := nameBase + (if metaExt == [] then "" else metaExt);
      r := Ok(Restored(cipher, salt, nonce, aad, outName));
    }
  }

  // ---------------------------------------------------------------------
  // The whole decoder up to the decryption
  // ---------------------------------------------------------------------

  /**
   * `decode_qr` (lines 37-42): the QR text of an image, "" when no QR code is
   * found, and `None` when `png_rgba` throws (lines 16-22) because the file
   * cannot be opened or is not a PNG (a JPEG, say).
   */
  type Reader = string -> Option<string>

  /** Every image reads without an exception. */
  predicate Readable(decodeQr: Reader, files: seq<string>) {
    forall k | 0 <= k < |files| :: decodeQr(files[k]).Some?
  }

  /** The QR texts of the files, in order. */
  function Texts(decodeQr: Reader, files: seq<string>): (ts: seq<string>)
    requires Readable(decodeQr, files)
    ensures |ts| == |files| && forall k | 0 <= k < |files| :: decodeQr(files[k]) == Some(ts[k])
  {
    seq(|files|, k requires 0 <= k < |files| => decodeQr(files[k]).value)
  }

  /** One more text scanned: the step from the state the others leave. */
  lemma ScanSnoc(sha: Hasher, texts: seq<string>, t: string)
    ensures Scan(sha, texts + [t]) == Step(sha, Scan(sha, texts), t)
  {
    assert (texts + [t])[..|texts|] == texts;
  }

  /**
   * `main` up to the decryption. `decode_qr` is called outside the `try` of
   * the worker, so one image that does not read ends the program, whatever
   * the other images hold.
   */
  function RestoreSpec(sha: Hasher, es: seq<DirEntry>, decodeQr: Reader, cores: nat): Result<Restored, DecodeError> {
    var files := Images(es);
    if files == [] then Err(NoImages)
    else if !Readable(decodeQr, files) then Err(Terminated)
    else Outcome(sha, Scan(sha, Texts(decodeQr, files)), cores)
  }

  /** One image that does not read terminates the decoder. */
  lemma UnreadableAborts(sha: Hasher, es: seq<DirEntry>, decodeQr: Reader, cores: nat, k: nat)
    requires k < |Images(es)| && decodeQr(Images(es)[k]).None?
    ensures RestoreSpec(sha, es, decodeQr, cores) == Err(Terminated)
  {
  }

  /** `main` of src/decode.cpp from the directory listing to the input of the decryption. */
  method Restore(sha: Hasher, es: seq<DirEntry>, decodeQr: Reader, cores: nat) returns (r: Result<Restored, DecodeError>)
    ensures r == RestoreSpec(sha, es, decodeQr, cores)
  {
    var files := CollectImages(es);
    if files == [] {
      return Err(NoImages);
    }
    ghost var texts: seq<string> := [];
    var scanner := new Scanner();
    for k := 0 to |files|
      invariant |texts| == k && forall j | 0 <= j < k :: decodeQr(files[j]) == Some(texts[j])
      invariant scanner.State() == Scan(sha, texts)
    {
      var txt := decodeQr(files[k]);
      if txt.None? {
        return Err(Terminated);
      }
      scanner.Accept(sha, txt.value);
      ScanSnoc(sha, texts, txt.value);
      texts := texts + [txt.value];
    }
    assert texts == Texts(decodeQr, files);
    r := scanner.Finish(sha, cores);
  }

  // ---------------------------------------------------------------------
  // A reader failure skipped like an empty text
  // ---------------------------------------------------------------------

  /** The texts of the images that read, in order. */
  function Readings(decodeQr: Reader, files: seq<string>): (ts: seq<string>)
    ensures |ts| <= |files|
    decreases |files|
  {
    if files == [] then []
    else
      Readings(decodeQr, files[..|files| - 1])
        + (match decodeQr(files[|files| - 1]) case Some(t) => [t] case None => [])
  }

  /** The texts that read from the first `k + 1` images: those of the first `k`, then image `k`'s if it reads. */
  lemma ReadingsSnoc(decodeQr: Reader, files: seq<string>, k: nat)
    requires k < |files|
    ensures Readings(decodeQr, files[..k + 1])
      == Readings(decodeQr, files[..k]) + (match decodeQr(files[k]) case Some(t) => [t] case None => [])
  {
    assert files[..k + 1][..k] == files[..k];
  }

  /** Some image reads as `t`. */
  predicate Shows(decodeQr: Reader, files: seq<string>, t: string) {
    exists k | 0 <= k < |files| :: decodeQr(files[k]) == Some(t)
  }

  /** A text is read exactly when some image holds it. */
  lemma {:induction false} ReadingsIff(decodeQr: Reader, files: seq<string>, t: string)
    ensures t in Readings(decodeQr, files) <==> Shows(decodeQr, files, t)
    decreases |files|
  {
    if files != [] {
      var init := files[..|files| - 1];
      ReadingsIff(decodeQr, init, t);
      if exists k | 0 <= k < |init| :: decodeQr(init[k]) == Some(t) {
        var k :| 0 <= k < |init| && decodeQr(init[k]) == Some(t);
        assert files[k] == init[k];
      }
      if exists k | 0 <= k < |files| :: decodeQr(files[k]) == Some(t) {
        var k :| 0 <= k < |files| && decodeQr(files[k]) == Some(t);
        if k < |init| {
          assert init[k] == files[k];
        }
      }
    }
  }

  /** When every image reads, skipping failures changes nothing. */
  lemma {:induction false} ReadingsAll(decodeQr: Reader, files: seq<string>)
    requires Readable(decodeQr, files)
    ensures Readings(decodeQr, files) == Texts(decodeQr, files)
    decreases |files|
  {
    if files != [] {
      var init := files[..|files| - 1];
      assert Readable(decodeQr, init) by {
        forall k | 0 <= k < |init| ensures decodeQr(init[k]).Some? {
          assert init[k] == files[k];
        }
      }
      ReadingsAll(decodeQr, init);
      assert Texts(decodeQr, files) == Texts(decodeQr, init) + [decodeQr(files[|files| - 1]).value];
    }
  }

  /**
   * The decoder with the read inside the worker's `try`: an image that does
   * not read is skipped like one without a QR code.
   */
  function RestoreSkippingSpec(sha: Hasher, es: seq<DirEntry>, decodeQr: Reader, cores: nat): Result<Restored, DecodeError> {
    var files := Images(es);
    if files == [] then Err(NoImages) else Outcome(sha, Scan(sha, Readings(decodeQr, files)), cores)
  }

  /** The skipping decoder never terminates, and agrees with `main` whenever every image reads. */
  lemma SkippingAgrees(sha: Hasher, es: seq<DirEntry>, decodeQr: Reader, cores: nat)
    ensures RestoreSkippingSpec(sha, es, decodeQr, cores) != Err(Terminated)
    ensures Readable(decodeQr, Images(es)) ==> RestoreSkippingSpec(sha, es, decodeQr, cores) == RestoreSpec(sha, es, decodeQr, cores)
  {
    if Readable(decodeQr, Images(es)) {
      ReadingsAll(decodeQr, Images(es));
    }
  }

  /** `main` with the read moved inside the `try`. */
  method RestoreSkipping(sha: Hasher, es: seq<DirEntry>, decodeQr: Reader, cores: nat) returns (r: Result<Restored, DecodeError>)
    ensures r == RestoreSkippingSpec(sha, es, decodeQr, cores)
  {
    var files := CollectImages(es);
    if files == [] {
      return Err(NoImages);
    }
    var scanner := new Scanner();
    ghost var read: seq<string> := [];
    for k := 0 to |files|
      invariant read == Readings(decodeQr, files[..k])
      invariant scanner.State() == Scan(sha, read)
    {
      ReadingsSnoc(decodeQr, files, k);
      var txt := decodeQr(files[k]);
      if txt.Some? {
        scanner.Accept(sha, txt.value);
        read := read + [txt.value];
        assert read[..|read| - 1] == Readings(decodeQr, files[..k]);
      }
    }
    assert files[..|files|] == files;
    r := scanner.Finish(sha, cores);
  }
}
