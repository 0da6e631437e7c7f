/**
 The chunked AEAD stream of encrypted backups (pkg/backupcrypto/crypto.go): a header, then
 per chunk a nonce and a sealed piece of the plaintext. Sealing and opening are abstract.
 */
module Crypto {
  import opened Sectors
  import opened Backups
  import opened Layers

  const CHUNK_COUNTERS: nat := 0x1_0000_0000
  const NONCE_LEN: nat := 12
  const TAG_LEN: nat := 16
  const HEADER_LEN: nat := 32
  const PREFIX_LEN: nat := 8
  const DEFAULT_CHUNK_SIZE: nat := 4 * 1024 * 1024
  const MAGIC: seq<byte> := [0x57, 0x45, 0x46, 0x54, 0x42, 0x41, 0x4B, 0x31]

  datatype Algorithm = Default | ChaCha20Poly1305 | Aes256Gcm

  /** `seal(nonce, plaintext, header)` and `open(nonce, ciphertext, header)`. */
  datatype Aead = Aead(seal: (seq<byte>, seq<byte>, seq<byte>) -> seq<byte>,
                       open: (seq<byte>, seq<byte>, seq<byte>) -> Option<seq<byte>>)

  /** Opening undoes sealing, and sealing adds a tag. */
  ghost predicate Honest(a: Aead) {
    forall n: seq<byte>, p: seq<byte>, h: seq<byte> ::
        |a.seal(n, p, h)| == |p| + TAG_LEN && a.open(n, a.seal(n, p, h), h) == Some(p)
  }

  // ---------------------------------------------------------------- numbers on the wire

  function Pow256(k: nat): (p: nat)
    ensures p > 0
  {
    if k == 0 then 1 else 256 * Pow256(k - 1)
  }

  /** The last `k` bytes of `n`, most significant first. */
  function BigEndian(n: nat, k: nat): (s: seq<byte>)
    ensures |s| == k
    decreases k
  {
    if k == 0 then [] else BigEndian(n / 256, k - 1) + [n % 256]
  }

  function FromBigEndian(s: seq<byte>): nat {
    if s == [] then 0 else 256 * FromBigEndian(s[..|s| - 1]) + s[|s| - 1]
  }

  lemma {:induction false} BigEndianRoundTrip(n: nat, k: nat)
    ensures FromBigEndian(BigEndian(n, k)) < Pow256(k)
    ensures n < Pow256(k) <==> FromBigEndian(BigEndian(n, k)) == n
    decreases k
  {
    if k > 0 {
      BigEndianRoundTrip(n / 256, k - 1);
      var s := BigEndian(n, k);
      assert s[..k - 1] == BigEndian(n / 256, k - 1) && s[k - 1] == n % 256;
    }
  }

  /** Any bytes are those of the number that they stand for. */
  lemma {:induction false} FromBigEndianBack(s: seq<byte>)
    ensures BigEndian(FromBigEndian(s), |s|) == s
    decreases |s|
  {
    if s != [] {
      var front, last := s[..|s| - 1], s[|s| - 1];
      FromBigEndianBack(front);
      var n := FromBigEndian(front);
      assert FromBigEndian(s) == 256 * n + last && (256 * n + last) / 256 == n && (256 * n + last) % 256 == last;
      assert s == front + [last];
    }
  }

  /** Byte `i` is the i-th most significant of the last `k` bytes of `n`. */
  lemma {:induction false} BigEndianByte(n: nat, k: nat, i: nat)
    requires i < k
    ensures BigEndian(n, k)[i] == n / Pow256(k - 1 - i) % 256
    decreases k
  {
    if i < k - 1 {
      BigEndianByte(n / 256, k - 1, i);
      DivTwice(n, Pow256(k - 2 - i));
      assert Pow256(k - 1 - i) == 256 * Pow256(k - 2 - i);
    }
  }

  lemma {:induction false} DivTwice(n: nat, p: nat)
    requires 0 < p
    ensures n / 256 / p == n / (256 * p)
  {
    var a := n / 256;
    var q, b := a / p, a % p;
    Parts(n, p, a, n % 256, q, b, 256 * p, q * p);
    DivUnique(n, 256 * p, q, 256 * b + n % 256);
  }

  /** A number by its quotients: `q` times `m`, and a rest. */
  lemma {:induction false} Parts(n: nat, p: nat, a: nat, t: nat, q: nat, b: nat, m: nat, x: nat)
    requires n == 256 * a + t && t < 256 && a == x + b && b < p && x == q * p && m == 256 * p
    ensures n == q * m + (256 * b + t) && 256 * b + t < m
  {
    assert q * m == 256 * x;
  }

  lemma {:induction false} DivUnique(n: nat, m: nat, q: nat, r: nat)
    requires r < m && n == q * m + r
    ensures n / m == q
  {
    var e := n / m;
    assert n == e * m + n % m;
    Multiples(e, q, m);
    Multiples(q, e, m);
  }

  lemma {:induction false} Multiples(a: nat, b: nat, m: nat)
    ensures a < b ==> a * m + m <= b * m
  {
    if a < b {
      assert (a + 1) * m <= b * m;
    }
  }

  lemma {:induction false} FourBytes()
    ensures Pow256(4) == CHUNK_COUNTERS
  {
    assert Pow256(1) == 256;
    assert Pow256(2) == 65536;
    assert Pow256(3) == 16777216;
  }

  /** A 32-bit number survives being written as four bytes exactly if it is one. */
  lemma {:induction false} Word(n: nat)
    ensures FromBigEndian(BigEndian(n, 4)) == n <==> n < CHUNK_COUNTERS
  {
    FourBytes();
    BigEndianRoundTrip(n, 4);
  }

  // ---------------------------------------------------------------- header and nonces

  function AlgorithmByte(a: Algorithm): byte {
    if a.Aes256Gcm? then 2 else 1
  }

  function Header(a: Algorithm, chunkSize: nat, prefix: seq<byte>): (h: seq<byte>)
    requires |prefix| == PREFIX_LEN
    ensures |h| == HEADER_LEN
  {
    MAGIC + [1, AlgorithmByte(a)] + BigEndian(chunkSize, 4) + prefix + [0, 0, 0, 0, 0, 0, 0, 0, 0, 0]
  }

  function Nonce(prefix: seq<byte>, counter: nat): (n: seq<byte>)
    requires |prefix| == PREFIX_LEN
    ensures |n| == NONCE_LEN
  {
    prefix + BigEndian(counter, 4)
  }

  /** The counter that chunk `k` gets: it wraps after 2^32 chunks. */
  function CounterOf(k: nat): (c: nat)
    ensures c < CHUNK_COUNTERS
  {
    k % CHUNK_COUNTERS
  }

  /** Two chunks of a stream get different nonces exactly if their numbers differ modulo 2^32. */
  lemma {:induction false} NoncesDistinct(prefix: seq<byte>, i: nat, j: nat)
    requires |prefix| == PREFIX_LEN
    ensures Nonce(prefix, CounterOf(i)) == Nonce(prefix, CounterOf(j)) <==> i % CHUNK_COUNTERS == j % CHUNK_COUNTERS
    ensures i < j < CHUNK_COUNTERS ==> Nonce(prefix, CounterOf(i)) != Nonce(prefix, CounterOf(j))
  {
    hide BigEndian, FromBigEndian, Nonce;
    Word(CounterOf(i));
    Word(CounterOf(j));
    NonceTail(prefix, CounterOf(i), CounterOf(j));
  }

  lemma {:induction false} NonceTail(prefix: seq<byte>, c: nat, d: nat)
    requires |prefix| == PREFIX_LEN
    ensures Nonce(prefix, c) == Nonce(prefix, d) <==> BigEndian(c, 4) == BigEndian(d, 4)
  {
    hide BigEndian;
    assert Nonce(prefix, c)[PREFIX_LEN..] == BigEndian(c, 4) && Nonce(prefix, d)[PREFIX_LEN..] == BigEndian(d, 4);
  }

  // ---------------------------------------------------------------- the stream of a plaintext

  /** A plaintext cut into chunks: all of them full but the last, and none empty. */
  function ChunksOf(plain: seq<byte>, chunkSize: nat): (chunks: seq<seq<byte>>)
    requires 0 < chunkSize
    ensures forall i :: 0 <= i < |chunks| ==>
              0 < |chunks[i]| <= chunkSize && (i < |chunks| - 1 ==> |chunks[i]| == chunkSize)
    ensures Concat(chunks) == plain
    decreases |plain|
  {
    if plain == [] then []
    else if |plain| <= chunkSize then
      assert [plain][1..] == [];
      [plain]
    else
      var rest := ChunksOf(plain[chunkSize..], chunkSize);
      assert ([plain[..chunkSize]] + rest)[1..] == rest;
      [plain[..chunkSize]] + rest
  }

  function Concat(chunks: seq<seq<byte>>): seq<byte> {
    if chunks == [] then [] else chunks[0] + Concat(chunks[1..])
  }

  /** Chunk number `k` on the wire. */
  function Piece(a: Aead, prefix: seq<byte>, header: seq<byte>, k: nat, chunk: seq<byte>): seq<byte>
    requires |prefix| == PREFIX_LEN
  {
    Nonce(prefix, CounterOf(k)) + a.seal(Nonce(prefix, CounterOf(k)), chunk, header)
  }

  /** The chunks from number `k` on. */
  function Pieces(a: Aead, prefix: seq<byte>, header: seq<byte>, k: nat, chunks: seq<seq<byte>>): seq<byte>
    requires |prefix| == PREFIX_LEN
    decreases |chunks|
  {
    if chunks == [] then [] else Piece(a, prefix, header, k, chunks[0]) + Pieces(a, prefix, header, k + 1, chunks[1..])
  }

  lemma {:induction false} PiecesSnoc(a: Aead, prefix: seq<byte>, header: seq<byte>, k: nat, chunks: seq<seq<byte>>,
                                      c: seq<byte>)
    requires |prefix| == PREFIX_LEN
    ensures Pieces(a, prefix, header, k, chunks + [c]) ==
              Pieces(a, prefix, header, k, chunks) + Piece(a, prefix, header, k + |chunks|, c)
    decreases |chunks|
  {
    hide Piece;
    if chunks == [] {
      assert chunks + [c] == [c] && [c][1..] == [];
    } else {
      var rest, last := chunks[1..], k + |chunks|;
      assert k + 1 + |rest| == last;
      PiecesSnoc(a, prefix, header, k + 1, rest, c);
      assert (chunks + [c])[1..] == rest + [c];
      var x, y, z := Piece(a, prefix, header, k, chunks[0]), Pieces(a, prefix, header, k + 1, rest),
          Piece(a, prefix, header, last, c);
      assert x + (y + z) == x + y + z;
    }
  }

  /** A plaintext made of full chunks only. */
  ghost predicate Whole(plain: seq<byte>, chunkSize: nat)
    requires 0 < chunkSize
    decreases |plain|
  {
    plain == [] || (|plain| >= chunkSize && Whole(plain[chunkSize..], chunkSize))
  }

  /** How a plaintext is cut. */
  lemma {:induction false} ChunksCases(plain: seq<byte>, chunkSize: nat)
    requires 0 < chunkSize
    ensures plain == [] ==> ChunksOf(plain, chunkSize) == []
    ensures 0 < |plain| <= chunkSize ==> ChunksOf(plain, chunkSize) == [plain]
    ensures |plain| > chunkSize ==>
              ChunksOf(plain, chunkSize) == [plain[..chunkSize]] + ChunksOf(plain[chunkSize..], chunkSize)
  {
  }

  lemma {:induction false} WholeCases(plain: seq<byte>, chunkSize: nat)
    requires 0 < chunkSize
    ensures Whole(plain, chunkSize) <==> plain == [] || (|plain| >= chunkSize && Whole(plain[chunkSize..], chunkSize))
  {
  }

  /** One more chunk after full chunks is cut off as it is. */
  lemma {:induction false} ChunksSnoc(plain: seq<byte>, c: seq<byte>, chunkSize: nat)
    requires 0 < |c| <= chunkSize && Whole(plain, chunkSize)
    ensures ChunksOf(plain + c, chunkSize) == ChunksOf(plain, chunkSize) + [c]
    ensures |c| == chunkSize ==> Whole(plain + c, chunkSize)
    decreases |plain|
  {
    hide ChunksOf, Whole;
    WholeCases(plain, chunkSize);
    ChunksCases(plain, chunkSize);
    ChunksCases(plain + c, chunkSize);
    WholeCases(plain + c, chunkSize);
    WholeCases((plain + c)[Min(chunkSize, |plain + c|)..], chunkSize);
    if plain == [] {
      assert plain + c == c;
    } else {
      assert (plain + c)[..chunkSize] == plain[..chunkSize] && (plain + c)[chunkSize..] == plain[chunkSize..] + c;
      ChunksSnoc(plain[chunkSize..], c, chunkSize);
      if |plain| == chunkSize {
        ChunksCases([], chunkSize);
        assert plain[chunkSize..] == [] && plain[..chunkSize] == plain;
      }
    }
  }

  /** What the next chunk adds to the stream and to the counter. */
  lemma {:induction false} EmitNext(a: Aead, prefix: seq<byte>, header: seq<byte>, plain: seq<byte>, c: seq<byte>,
                                    chunkSize: nat)
    requires |prefix| == PREFIX_LEN && 0 < |c| <= chunkSize && Whole(plain, chunkSize)
    ensures var k := |ChunksOf(plain, chunkSize)|;
            && CounterOf(|ChunksOf(plain + c, chunkSize)|) == (CounterOf(k) + 1) % CHUNK_COUNTERS
            && Pieces(a, prefix, header, 0, ChunksOf(plain + c, chunkSize)) ==
               Pieces(a, prefix, header, 0, ChunksOf(plain, chunkSize)) + Nonce(prefix, CounterOf(k)) +
                   a.seal(Nonce(prefix, CounterOf(k)), c, header)
    ensures |c| == chunkSize ==> Whole(plain + c, chunkSize)
  {
    hide ChunksOf, Pieces, Whole, Nonce, CounterOf;
    ChunksSnoc(plain, c, chunkSize);
    PiecesSnoc(a, prefix, header, 0, ChunksOf(plain, chunkSize), c);
    CounterNext(|ChunksOf(plain, chunkSize)|);
  }

  lemma {:induction false} CounterNext(k: nat)
    ensures CounterOf(k + 1) == (CounterOf(k) + 1) % CHUNK_COUNTERS
  {
  }

  /** Everything an encoder writes for a plaintext. */
  function Encoded(a: Aead, alg: Algorithm, chunkSize: nat, prefix: seq<byte>, plain: seq<byte>): seq<byte>
    requires |prefix| == PREFIX_LEN && 0 < chunkSize
  {
    var header := Header(alg, chunkSize, prefix);
    header + Pieces(a, prefix, header, 0, ChunksOf(plain, chunkSize))
  }

  // ---------------------------------------------------------------- the encoder

  class Encoder {
    const aead: Aead
    const algorithm: Algorithm
    const prefix: seq<byte>
    const chunkSize: nat
    const header: seq<byte>
    var dst: seq<byte>          // what was written so far
    var counter: nat
    var headSent: bool
    var buf: seq<byte>
    var closed: bool
    ghost var taken: seq<byte>  // the plaintext absorbed so far

    ghost predicate Valid()
      reads this
    {
      && |prefix| == PREFIX_LEN && 0 < chunkSize && header == Header(algorithm, chunkSize, prefix)
      && (closed || (|buf| < chunkSize && |buf| <= |taken| && taken[|taken| - |buf|..] == buf &&
          Flushed(taken[..|taken| - |buf|])))
    }

    /** The header, if it was sent, and the full chunks of `plain` were written. */
    ghost predicate Flushed(plain: seq<byte>)
      requires |prefix| == PREFIX_LEN && 0 < chunkSize
      reads this
    {
      && Whole(plain, chunkSize)
      && counter == CounterOf(|ChunksOf(plain, chunkSize)|)
      && dst == (if headSent then header else []) + Pieces(aead, prefix, header, 0, ChunksOf(plain, chunkSize))
      && (!headSent ==> taken == [])
    }

    constructor (aead: Aead, algorithm: Algorithm, chunkSize: int, prefix: seq<byte>)
      requires |prefix| == PREFIX_LEN
      ensures Valid() && !closed && taken == [] && dst == []
      ensures this.aead == aead && this.algorithm == algorithm && this.prefix == prefix
      ensures this.chunkSize == if chunkSize <= 0 then DEFAULT_CHUNK_SIZE else chunkSize
    {
      hide Header, Whole, ChunksOf, Pieces, CounterOf;
      var size: nat := if chunkSize <= 0 then DEFAULT_CHUNK_SIZE else chunkSize;
      NoPieces(aead, prefix, Header(algorithm, size, prefix), size);
      this.aead, this.algorithm, this.prefix, this.chunkSize := aead, algorithm, prefix, size;
      this.header := Header(algorithm, size, prefix);
      this.dst, this.counter, this.headSent, this.buf, this.closed, this.taken := [], 0, false, [], false, [];
    }

    /** Seals the buffer as the next chunk. */
    method FlushChunk(ghost plain: seq<byte>)
      requires |prefix| == PREFIX_LEN && 0 < chunkSize && 0 < |buf| <= chunkSize && headSent && Flushed(plain)
      modifies this`dst, this`buf, this`counter
      ensures buf == []
      ensures counter == CounterOf(|ChunksOf(plain + old(buf), chunkSize)|)
      ensures dst == header + Pieces(aead, prefix, header, 0, ChunksOf(plain + old(buf), chunkSize))
      ensures |old(buf)| == chunkSize ==> Whole(plain + old(buf), chunkSize)
    {
      hide ChunksOf, Pieces, Whole, Nonce, CounterOf;
      EmitNext(aead, prefix, header, plain, buf, chunkSize);
      var nonce := Nonce(prefix, counter);
      dst := dst + nonce + aead.seal(nonce, buf, header);
      buf := [];
      counter := (counter + 1) % CHUNK_COUNTERS;
    }

    /** Absorbs plaintext; every full chunk is sealed at once. */
    method Write(p: seq<byte>) returns (written: nat, ok: bool)
      requires Valid()
      modifies this
      ensures Valid() && closed == old(closed)
      ensures ok <==> !old(closed)
      ensures ok ==> written == |p| && taken == old(taken) + p
      ensures !ok ==> written == 0 && taken == old(taken) && dst == old(dst)
    {
      hide Flushed, Header;
      if closed {
        return 0, false;
      }
      if !headSent {
        SendHeader();
      }
      var rest := p;
      written := 0;
      ghost var done: seq<byte> := [];
      while |rest| > 0
        invariant Valid() && !closed && headSent
        invariant written == |done| && p == done + rest && taken == old(taken) + done
        decreases |rest|
      {
        var need := chunkSize - |buf|;
        if need > |rest| {
          need := |rest|;
        }
        Absorb(rest[..need]);
        done := done + rest[..need];
        rest := rest[need..];
        written := written + need;
      }
      assert done == p;
      ok := true;
    }

    method SendHeader()
      requires Valid() && !closed && !headSent
      modifies this`dst, this`headSent
      ensures Valid() && headSent
    {
      NoPieces(aead, prefix, header, chunkSize);
      dst := dst + header;
      headSent := true;
    }

    /** Takes bytes that fit into the current chunk. */
    method Absorb(piece: seq<byte>)
      requires Valid() && !closed && headSent && 0 < |piece| <= chunkSize - |buf|
      modifies this`dst, this`buf, this`counter, this`taken
      ensures Valid() && taken == old(taken) + piece
    {
      hide ChunksOf, Pieces, Whole, Header;
      ghost var plain := taken[..|taken| - |buf|];
      assert taken == plain + buf;
      buf := buf + piece;
      taken := taken + piece;
      assert taken == plain + buf && taken[..|taken| - |buf|] == plain && taken[|taken| - |buf|..] == buf;
      if |buf| == chunkSize {
        FlushChunk(plain);
        assert taken[..|taken|] == taken && taken[|taken|..] == [];
      }
    }

    /** Seals what is buffered; afterwards the output is the stream of all the plaintext. */
    method Close()
      requires Valid()
      modifies this
      ensures Valid() && closed && taken == old(taken)
      ensures old(closed) ==> dst == old(dst)
      ensures !old(closed) ==> dst == Encoded(aead, algorithm, chunkSize, prefix, taken)
    {
      hide ChunksOf, Pieces, Whole, Header;
      if closed {
        return;
      }
      if !headSent {
        SendHeader();
      }
      ghost var plain := taken[..|taken| - |buf|];
      assert taken == plain + buf;
      if |buf| > 0 {
        FlushChunk(plain);
      } else {
        assert plain == taken;
      }
      closed := true;
    }
  }

  lemma {:induction false} NoPieces(a: Aead, prefix: seq<byte>, header: seq<byte>, chunkSize: nat)
    requires |prefix| == PREFIX_LEN && 0 < chunkSize
    ensures Pieces(a, prefix, header, 0, ChunksOf([], chunkSize)) == []
    ensures Whole([], chunkSize) && CounterOf(|ChunksOf([], chunkSize)|) == 0
  {
  }

  // ---------------------------------------------------------------- the decoder

  /** How a stream was encoded. */
  datatype Format = Format(algorithm: Algorithm, chunkSize: nat, prefix: seq<byte>)

  ghost predicate Usable(f: Format) {
    |f.prefix| == PREFIX_LEN && 0 < f.chunkSize < CHUNK_COUNTERS
  }

  datatype ReadStatus = Delivered | Eof | Corrupt

  /** Chunks as an encoder cuts them. */
  ghost predicate Cut(chunks: seq<seq<byte>>, chunkSize: nat) {
    forall i :: 0 <= i < |chunks| ==> 0 < |chunks[i]| <= chunkSize && (i < |chunks| - 1 ==> |chunks[i]| == chunkSize)
  }

  /** The rest of a stream from chunk `k` on, whose plaintext is `left` after the `pending` bytes. */
  ghost predicate Rest(a: Aead, f: Format, k: nat, chunks: seq<seq<byte>>, counter: nat, rest: seq<byte>,
                       pending: seq<byte>, done: bool, left: seq<byte>)
    requires Usable(f)
  {
    && Cut(chunks, f.chunkSize) && counter == CounterOf(k)
    && rest == Pieces(a, f.prefix, Header(f.algorithm, f.chunkSize, f.prefix), k, chunks)
    && left == pending + Concat(chunks) && (done ==> chunks == [])
  }

  class Decoder {
    const aead: Aead
    const algorithm: Algorithm
    const src: Source
    var chunkSize: nat
    var prefix: seq<byte>
    var counter: nat
    var header: seq<byte>
    var headRead: bool
    var pending: seq<byte>
    var done: bool
    ghost var unsealed: seq<seq<byte>>  // the chunks opened so far
    ghost var given: seq<byte>        // the plaintext delivered so far

    constructor (src: Source, aead: Aead, algorithm: Algorithm, chunkSize: int)
      ensures this.src == src && this.aead == aead && this.algorithm == algorithm
      ensures !headRead && pending == [] && !done && counter == 0
      ensures Books() && given == [] && this.chunkSize == if chunkSize <= 0 then DEFAULT_CHUNK_SIZE else chunkSize
    {
      this.src, this.aead, this.algorithm := src, aead, algorithm;
      this.chunkSize := if chunkSize <= 0 then DEFAULT_CHUNK_SIZE else chunkSize;
      this.prefix, this.counter, this.header, this.headRead, this.pending, this.done := [], 0, [], false, [], false;
      this.unsealed, this.given := [], [];
    }

    /** Whatever the stream: what was delivered and what is pending are the chunks that opened, nonce by nonce. */
    ghost predicate Books()
      reads this
    {
      && counter == CounterOf(|unsealed|) && given + pending == Concat(unsealed)
      && if headRead then |prefix| == PREFIX_LEN && InTurn(aead, prefix, header, unsealed) else unsealed == []
    }

    /** The decoder is on a stream in format `f` and has the plaintext `left` still to deliver. */
    ghost predicate Expects(f: Format, left: seq<byte>)
      reads this, src
    {
      && Usable(f) && Honest(aead)
      && (algorithm.Default? || AlgorithmByte(algorithm) == AlgorithmByte(f.algorithm))
      && if !headRead then
           pending == [] && !done && counter == 0 && src.rest == Encoded(aead, f.algorithm, f.chunkSize, f.prefix, left)
         else
           && chunkSize == f.chunkSize && prefix == f.prefix && header == Header(f.algorithm, f.chunkSize, f.prefix)
           && exists k, chunks :: Rest(aead, f, k, chunks, counter, src.rest, pending, done, left)
    }

    /** Reads and checks the stream header. */
    method ReadHeader(ghost f: Format, ghost left: seq<byte>) returns (ok: bool)
      requires !headRead && Books()
      modifies this, src
      ensures pending == old(pending) && done == old(done) && counter == old(counter)
      ensures Books() && unsealed == old(unsealed) && given == old(given)
      ensures ok <==> headRead
      ensures old(Expects(f, left)) ==> ok && Expects(f, left)
      ensures ok <==> Understood(old(src.rest), algorithm)
      ensures ok ==> && header + src.rest == old(src.rest) && |header| == HEADER_LEN
                     && chunkSize == FromBigEndian(header[10..14]) && prefix == header[14..22]
    {
      hide Pieces, ChunksOf, Honest, Concat, BigEndian, FromBigEndian;
      ghost var expected := Expects(f, left);
      var hdr, eof := ReadFull(src, HEADER_LEN);
      if expected {
        HeaderFirst(aead, f, left, hdr, src.rest);
      }
      if |hdr| < HEADER_LEN || hdr[0..8] != MAGIC || hdr[8] != 1 {
        return false;
      }
      if hdr[9] == 1 {
        if algorithm.Aes256Gcm? {
          return false;
        }
      } else if hdr[9] == 2 {
        if algorithm.ChaCha20Poly1305? {
          return false;
        }
      } else {
        return false;
      }
      chunkSize := FromBigEndian(hdr[10..14]);
      prefix := hdr[14..22];
      header := hdr;
      headRead := true;
      return true;
    }

    /** Reads, checks and opens the next chunk into `pending`. */
    method ReadChunk(ghost f: Format, ghost left: seq<byte>) returns (status: ReadStatus)
      requires headRead && pending == [] && !done && Books()
      modifies this, src
      ensures headRead && prefix == old(prefix) && Books() && given == old(given)
      ensures old(Expects(f, left)) && left == [] ==> status == Eof && Expects(f, left) && pending == []
      ensures old(Expects(f, left)) && left != [] ==> status == Delivered && Expects(f, left) && pending != []
      ensures status == Eof <==> old(src.rest) == []
      ensures status == Delivered <==> Opens(aead, prefix, header, chunkSize, old(counter), old(src.rest))
      ensures unsealed == if status == Delivered then old(unsealed) + [pending] else old(unsealed)
      ensures status != Delivered ==> pending == []
      ensures done <==>
                status == Eof || (status == Delivered && |old(src.rest)| < NONCE_LEN + old(chunkSize) + TAG_LEN)
    {
      hide Pieces, Honest, Concat, Header, Nonce, CounterOf, FromBigEndian, Rest, InTurn, Opens,
          NonceMatchesCounter;
      ghost var expected := Expects(f, left);
      ghost var k: nat, chunks: seq<seq<byte>> := 0, [];
      if expected {
        k, chunks :| Rest(aead, f, k, chunks, counter, src.rest, pending, done, left);
        RestCases(aead, f, k, chunks, counter, src.rest, done, left);
      }
      ghost var all := src.rest;
      var nonce, eof := ReadFull(src, NONCE_LEN);
      ghost var body := src.rest;
      OpensBy(aead, prefix, header, chunkSize, counter, all, nonce, body);
      if |nonce| == 0 {
        done := true;
        if expected {
          RestEnds(aead, f, k, chunks, counter, all, old(done), left);
          assert Rest(aead, f, k, chunks, counter, src.rest, pending, done, left);
        }
        return Eof;
      }
      if expected {
        NonceFirst(aead, f, k, chunks, counter, all, old(done), left, nonce, src.rest);
      }
      NonceMatches(nonce, prefix, counter);
      if |nonce| < NONCE_LEN || !NonceMatchesCounter(nonce, prefix, counter) {
        return Corrupt;
      }
      var cipherBuf, short := ReadFull(src, chunkSize + TAG_LEN);
      assert cipherBuf == body[..Min(|body|, chunkSize + TAG_LEN)];
      if |cipherBuf| == 0 {
        return Corrupt;
      }
      if expected {
        ChunkFirst(aead, f, k, chunks, counter, all, left, nonce, cipherBuf, src.rest);
      }
      var plain := aead.open(nonce, cipherBuf, header);
      if plain.None? {
        return Corrupt;
      }
      ChunkOpened(aead, prefix, header, unsealed, plain.value, nonce, cipherBuf, given);
      counter := (counter + 1) % CHUNK_COUNTERS;
      pending := plain.value;
      unsealed := unsealed + [plain.value];
      if |cipherBuf| < chunkSize + TAG_LEN {
        done := true;
      }
      if expected {
        assert Rest(aead, f, k + 1, chunks[1..], counter, src.rest, pending, done, left);
      }
      return Delivered;
    }

    /** Delivers up to `max` bytes of plaintext. */
    method Read(max: nat, ghost f: Format, ghost left: seq<byte>) returns (piece: seq<byte>, status: ReadStatus)
      requires 0 < max && Books()
      modifies this, src
      ensures Books() && old(unsealed) <= unsealed
      ensures given == old(given) + piece && |piece| <= max && (status != Delivered ==> piece == [])
      ensures status == Eof ==> given == Concat(unsealed) && done && pending == []
      ensures old(done && pending == []) ==> status == Eof
      ensures old(Expects(f, left)) && left == [] ==> status == Eof && piece == [] && Expects(f, left)
      ensures old(Expects(f, left)) && left != [] ==>
                status == Delivered && 0 < |piece| <= max && |piece| <= |left| && piece == left[..|piece|] &&
                    Expects(f, left[|piece|..])
    {
      hide Rest, Encoded, Honest, Header, InTurn, Opens, Understood, Concat;
      piece := [];
      if done && |pending| == 0 {
        if Expects(f, left) {
          DoneEmpty(f, left);
        }
        return [], Eof;
      }
      if !headRead {
        var ok := ReadHeader(f, left);
        if !ok {
          return [], Corrupt;
        }
      }
      if |pending| == 0 {
        status := ReadChunk(f, left);
        if status != Delivered {
          return;
        }
      }
      piece := Deliver(max, f, left);
      return piece, Delivered;
    }

    lemma {:induction false} DoneEmpty(f: Format, left: seq<byte>)
      requires Expects(f, left) && done && pending == []
      ensures left == []
    {
    }

    /** Hands out pending bytes. */
    method Deliver(max: nat, ghost f: Format, ghost left: seq<byte>) returns (piece: seq<byte>)
      requires headRead && 0 < max && Books()
      modifies this`pending, this`given
      ensures Books() && |piece| <= max && given == old(given) + piece
      ensures old(Expects(f, left)) && old(pending) != [] ==>
                0 < |piece| <= max && |piece| <= |left| && piece == left[..|piece|] && Expects(f, left[|piece|..])
    {
      hide Honest, Header, Rest, InTurn;
      ghost var expected := Expects(f, left);
      ghost var k: nat, chunks: seq<seq<byte>> := 0, [];
      if expected {
        k, chunks :| Rest(aead, f, k, chunks, counter, src.rest, pending, done, left);
      }
      var n := if max < |pending| then max else |pending|;
      piece := pending[..n];
      pending := pending[n..];
      given := given + piece;
      assert given + pending == old(given + pending);
      if expected {
        RestDelivered(aead, f, k, chunks, counter, src.rest, old(pending), done, left, piece, pending);
      }
    }
  }

  // ---------------------------------------------------------------- streams of any kind

  /** A header that the decoder accepts: the magic, version 1, and an algorithm that it was not configured against. */
  ghost predicate Understood(stream: seq<byte>, algorithm: Algorithm) {
    && |stream| >= HEADER_LEN && stream[..8] == MAGIC && stream[8] == 1
    && ((stream[9] == 1 && !algorithm.Aes256Gcm?) || (stream[9] == 2 && !algorithm.ChaCha20Poly1305?))
  }

  /** The stream goes on with the expected nonce and a ciphertext that authenticates under it. */
  ghost predicate Opens(a: Aead, prefix: seq<byte>, header: seq<byte>, chunkSize: nat, counter: nat, stream: seq<byte>)
    requires |prefix| == PREFIX_LEN
  {
    && |stream| > NONCE_LEN && stream[..NONCE_LEN] == Nonce(prefix, counter)
    && a.open(stream[..NONCE_LEN], stream[NONCE_LEN..Min(|stream|, NONCE_LEN + chunkSize + TAG_LEN)], header).Some?
  }

  lemma {:induction false} OpensBy(a: Aead, prefix: seq<byte>, header: seq<byte>, chunkSize: nat, counter: nat,
                                   stream: seq<byte>, nonce: seq<byte>, body: seq<byte>)
    requires |prefix| == PREFIX_LEN && stream == nonce + body
    requires |nonce| <= NONCE_LEN && (|nonce| < NONCE_LEN ==> body == [])
    ensures Opens(a, prefix, header, chunkSize, counter, stream) <==>
            && nonce == Nonce(prefix, counter) && body != []
            && a.open(nonce, body[..Min(|body|, chunkSize + TAG_LEN)], header).Some?
  {
    hide Nonce;
    if |stream| > NONCE_LEN {
      assert stream[..NONCE_LEN] == nonce;
      assert stream[NONCE_LEN..Min(|stream|, NONCE_LEN + chunkSize + TAG_LEN)] ==
             body[..Min(|body|, chunkSize + TAG_LEN)];
    }
  }

  /** The counter check admits exactly one nonce. */
  lemma {:induction false} NonceMatches(nonce: seq<byte>, prefix: seq<byte>, counter: nat)
    requires |prefix| == PREFIX_LEN && counter < CHUNK_COUNTERS
    ensures NonceMatchesCounter(nonce, prefix, counter) <==> nonce == Nonce(prefix, counter)
  {
    hide BigEndian, FromBigEndian;
    Word(counter);
    if nonce == Nonce(prefix, counter) {
      assert nonce[..8] == prefix && nonce[8..] == BigEndian(counter, 4);
    }
    if NonceMatchesCounter(nonce, prefix, counter) {
      FromBigEndianBack(nonce[8..]);
      assert nonce == nonce[..8] + nonce[8..];
    }
  }

  /** Each chunk was opened under its own nonce. */
  ghost predicate InTurn(a: Aead, prefix: seq<byte>, header: seq<byte>, unsealed: seq<seq<byte>>)
    requires |prefix| == PREFIX_LEN
  {
    forall i :: 0 <= i < |unsealed| ==> OpenedAs(a, prefix, header, i, unsealed[i])
  }

  ghost predicate OpenedAs(a: Aead, prefix: seq<byte>, header: seq<byte>, i: nat, plain: seq<byte>)
    requires |prefix| == PREFIX_LEN
  {
    exists c :: a.open(Nonce(prefix, CounterOf(i)), c, header) == Some(plain)
  }

  lemma {:induction false} ChunkOpened(a: Aead, prefix: seq<byte>, header: seq<byte>, unsealed: seq<seq<byte>>,
                                       plain: seq<byte>, nonce: seq<byte>, cipher: seq<byte>, given: seq<byte>)
    requires |prefix| == PREFIX_LEN && InTurn(a, prefix, header, unsealed)
    requires nonce == Nonce(prefix, CounterOf(|unsealed|)) && a.open(nonce, cipher, header) == Some(plain)
    requires given == Concat(unsealed)
    ensures InTurn(a, prefix, header, unsealed + [plain]) && given + plain == Concat(unsealed + [plain])
    ensures CounterOf(|unsealed + [plain]|) == (CounterOf(|unsealed|) + 1) % CHUNK_COUNTERS
  {
    hide Nonce, Concat;
    var now := unsealed + [plain];
    assert OpenedAs(a, prefix, header, |unsealed|, plain);
    forall i | 0 <= i < |now|
      ensures OpenedAs(a, prefix, header, i, now[i])
    {
      if i < |unsealed| {
        assert OpenedAs(a, prefix, header, i, unsealed[i]);
      }
    }
    CounterNext(|unsealed|);
    assert now[..|unsealed|] == unsealed && now[..|now|] == now;
    ConcatSnoc(now, |unsealed|);
  }

  /** Nothing authenticates under this header but the chunks that the encoder sealed, each under its own nonce. */
  ghost predicate OnlySealed(a: Aead, prefix: seq<byte>, header: seq<byte>, chunks: seq<seq<byte>>)
    requires |prefix| == PREFIX_LEN
  {
    forall n, c, p :: a.open(n, c, header) == Some(p) ==> SealedAs(prefix, chunks, n, p)
  }

  ghost predicate SealedAs(prefix: seq<byte>, chunks: seq<seq<byte>>, n: seq<byte>, p: seq<byte>)
    requires |prefix| == PREFIX_LEN
  {
    exists k :: 0 <= k < |chunks| && n == Nonce(prefix, CounterOf(k)) && p == chunks[k]
  }

  lemma {:induction false} OpenedIsSealed(a: Aead, prefix: seq<byte>, header: seq<byte>, unsealed: seq<seq<byte>>,
                                          chunks: seq<seq<byte>>, i: nat)
    requires |prefix| == PREFIX_LEN && InTurn(a, prefix, header, unsealed) && OnlySealed(a, prefix, header, chunks)
    requires i < |unsealed| <= CHUNK_COUNTERS && |chunks| <= CHUNK_COUNTERS
    ensures i < |chunks| && unsealed[i] == chunks[i]
  {
    hide Nonce;
    assert OpenedAs(a, prefix, header, i, unsealed[i]);
    var n := Nonce(prefix, CounterOf(i));
    var c :| a.open(n, c, header) == Some(unsealed[i]);
    assert SealedAs(prefix, chunks, n, unsealed[i]);
    var k :| 0 <= k < |chunks| && n == Nonce(prefix, CounterOf(k)) && unsealed[i] == chunks[k];
    NoncesDistinct(prefix, i, k);
  }

  /** Chunks that were opened in turn are the first chunks of the encoder, in order. */
  lemma {:induction false} OpenedAreSealed(a: Aead, prefix: seq<byte>, header: seq<byte>, unsealed: seq<seq<byte>>,
                                           chunks: seq<seq<byte>>)
    requires |prefix| == PREFIX_LEN && InTurn(a, prefix, header, unsealed) && OnlySealed(a, prefix, header, chunks)
    requires |unsealed| <= CHUNK_COUNTERS && |chunks| <= CHUNK_COUNTERS
    ensures unsealed <= chunks
  {
    hide InTurn, OnlySealed;
    if unsealed != [] {
      OpenedIsSealed(a, prefix, header, unsealed, chunks, |unsealed| - 1);
      forall i | 0 <= i < |unsealed|
        ensures unsealed[i] == chunks[i]
      {
        OpenedIsSealed(a, prefix, header, unsealed, chunks, i);
      }
    }
  }

  /**
   Whatever was done to a stream, a decoder that accepted the encoder's header delivers a prefix of the plaintext, and
   has delivered whole chunks of it when it reports the end.
   */
  lemma {:induction false} TamperedPrefix(d: Decoder, f: Format, plain: seq<byte>)
    requires Usable(f) && d.Books() && d.headRead && d.prefix == f.prefix
    requires d.header == Header(f.algorithm, f.chunkSize, f.prefix)
    requires OnlySealed(d.aead, f.prefix, d.header, ChunksOf(plain, f.chunkSize))
    requires |d.unsealed| <= CHUNK_COUNTERS && |ChunksOf(plain, f.chunkSize)| <= CHUNK_COUNTERS
    ensures d.unsealed <= ChunksOf(plain, f.chunkSize) && d.given <= plain
  {
    hide InTurn, OnlySealed, Header, ChunksOf;
    var chunks := ChunksOf(plain, f.chunkSize);
    OpenedAreSealed(d.aead, f.prefix, d.header, d.unsealed, chunks);
    ConcatPrefix(d.unsealed, chunks);
    assert d.given <= Concat(d.unsealed);
  }

  lemma {:induction false} ConcatPrefix(some: seq<seq<byte>>, all: seq<seq<byte>>)
    requires some <= all
    ensures Concat(some) <= Concat(all)
    decreases |some|
  {
    if some != [] {
      ConcatPrefix(some[1..], all[1..]);
    }
  }

  /** A stream that is cut between two chunks is the stream of a shorter plaintext: the decoder cannot tell. */
  lemma {:induction false} CutIsStream(a: Aead, alg: Algorithm, chunkSize: nat, prefix: seq<byte>, p: seq<byte>,
                                       q: seq<byte>)
    requires |prefix| == PREFIX_LEN && 0 < chunkSize && Whole(p, chunkSize)
    ensures Encoded(a, alg, chunkSize, prefix, p) <= Encoded(a, alg, chunkSize, prefix, p + q)
  {
    hide Header;
    var header := Header(alg, chunkSize, prefix);
    ChunksJoin(p, q, chunkSize);
    PiecesJoin(a, prefix, header, 0, ChunksOf(p, chunkSize), ChunksOf(q, chunkSize));
  }

  lemma {:induction false} ChunksJoin(p: seq<byte>, q: seq<byte>, chunkSize: nat)
    requires 0 < chunkSize && Whole(p, chunkSize)
    ensures ChunksOf(p + q, chunkSize) == ChunksOf(p, chunkSize) + ChunksOf(q, chunkSize)
    decreases |p|
  {
    hide ChunksOf, Whole;
    WholeCases(p, chunkSize);
    ChunksCases(p, chunkSize);
    ChunksCases(p + q, chunkSize);
    ChunksCases([], chunkSize);
    if p == [] {
      assert p + q == q;
    } else {
      assert (p + q)[..chunkSize] == p[..chunkSize] && (p + q)[chunkSize..] == p[chunkSize..] + q;
      ChunksJoin(p[chunkSize..], q, chunkSize);
      if |p| == chunkSize {
        assert p[chunkSize..] == [] && p[..chunkSize] == p && [] + q == q;
        if q == [] {
          assert p + q == p;
        }
      }
    }
  }

  lemma {:induction false} PiecesJoin(a: Aead, prefix: seq<byte>, header: seq<byte>, k: nat, c: seq<seq<byte>>,
                                      d: seq<seq<byte>>)
    requires |prefix| == PREFIX_LEN
    ensures Pieces(a, prefix, header, k, c + d) ==
            Pieces(a, prefix, header, k, c) + Pieces(a, prefix, header, k + |c|, d)
    decreases |c|
  {
    hide Piece;
    if c == [] {
      assert c + d == d;
    } else {
      assert (c + d)[1..] == c[1..] + d && k + 1 + |c[1..]| == k + |c|;
      PiecesJoin(a, prefix, header, k + 1, c[1..], d);
    }
  }

  lemma {:induction false} RestDelivered(a: Aead, f: Format, k: nat, chunks: seq<seq<byte>>, counter: nat,
                                         rest: seq<byte>, pending: seq<byte>, done: bool, left: seq<byte>,
                                         piece: seq<byte>, more: seq<byte>)
    requires Usable(f) && Rest(a, f, k, chunks, counter, rest, pending, done, left) && pending == piece + more
    ensures |piece| <= |left| && piece == left[..|piece|]
    ensures Rest(a, f, k, chunks, counter, rest, more, done, left[|piece|..])
  {
    hide Pieces, Header, Cut, CounterOf, Concat;
    assert left == piece + (more + Concat(chunks));
  }

  /** The nonce carries the stream's prefix and the expected counter. */
  predicate NonceMatchesCounter(nonce: seq<byte>, prefix: seq<byte>, counter: nat) {
    |nonce| == NONCE_LEN && |prefix| == PREFIX_LEN && nonce[..8] == prefix && FromBigEndian(nonce[8..]) == counter
  }

  /** With nothing pending, the plaintext left is that of the chunks left. */
  lemma {:induction false} RestCases(a: Aead, f: Format, k: nat, chunks: seq<seq<byte>>, counter: nat, rest: seq<byte>,
                                     done: bool, left: seq<byte>)
    requires Usable(f) && Rest(a, f, k, chunks, counter, rest, [], done, left)
    ensures left == [] <==> chunks == []
    ensures rest == [] <==> chunks == []
  {
    assert left == Concat(chunks);
    if chunks != [] {
      assert |chunks[0]| > 0;
    }
  }

  /** At the end of the stream nothing is left, whether or not that was known before. */
  lemma {:induction false} RestEnds(a: Aead, f: Format, k: nat, chunks: seq<seq<byte>>, counter: nat, rest: seq<byte>,
                                    done: bool, left: seq<byte>)
    requires Usable(f) && Rest(a, f, k, chunks, counter, rest, [], done, left) && chunks == []
    ensures Rest(a, f, k, chunks, counter, rest, [], true, left)
  {
  }

  lemma {:induction false} NonceFirst(a: Aead, f: Format, k: nat, chunks: seq<seq<byte>>, counter: nat, all: seq<byte>,
                                      done: bool, left: seq<byte>, nonce: seq<byte>, rest: seq<byte>)
    requires Usable(f) && Honest(a) && Rest(a, f, k, chunks, counter, all, [], done, left) && chunks != []
    requires all == nonce + rest && |nonce| <= NONCE_LEN && (|nonce| < NONCE_LEN ==> rest == [])
    ensures nonce == Nonce(f.prefix, CounterOf(k)) && NonceMatchesCounter(nonce, f.prefix, counter)
    ensures var header := Header(f.algorithm, f.chunkSize, f.prefix);
            rest == a.seal(nonce, chunks[0], header) + Pieces(a, f.prefix, header, k + 1, chunks[1..])
    ensures rest != []
  {
    hide Header, BigEndian, FromBigEndian, CounterOf;
    var header := Header(f.algorithm, f.chunkSize, f.prefix);
    var n := Nonce(f.prefix, CounterOf(k));
    var body := a.seal(n, chunks[0], header) + Pieces(a, f.prefix, header, k + 1, chunks[1..]);
    assert all == n + body;
    assert all[..NONCE_LEN] == n && all[NONCE_LEN..] == body;
    assert nonce == all[..NONCE_LEN] && rest == all[NONCE_LEN..];
    Word(CounterOf(k));
    assert n[..8] == f.prefix && n[8..] == BigEndian(CounterOf(k), 4);
  }

  lemma {:induction false} ChunkFirst(a: Aead, f: Format, k: nat, chunks: seq<seq<byte>>, counter: nat, all: seq<byte>,
                                      left: seq<byte>, nonce: seq<byte>, cipher: seq<byte>, rest: seq<byte>)
    requires Usable(f) && Honest(a) && chunks != [] && Rest(a, f, k, chunks, counter, all, [], false, left)
    requires var header := Header(f.algorithm, f.chunkSize, f.prefix);
             cipher + rest == a.seal(nonce, chunks[0], header) + Pieces(a, f.prefix, header, k + 1, chunks[1..])
    requires |cipher| <= f.chunkSize + TAG_LEN && (|cipher| < f.chunkSize + TAG_LEN ==> rest == [])
    ensures a.open(nonce, cipher, Header(f.algorithm, f.chunkSize, f.prefix)) == Some(chunks[0]) && chunks[0] != []
    ensures Rest(a, f, k + 1, chunks[1..], (counter + 1) % CHUNK_COUNTERS, rest, chunks[0],
              |cipher| < f.chunkSize + TAG_LEN, left)
  {
    hide Header;
    var header := Header(f.algorithm, f.chunkSize, f.prefix);
    var sealed, more := a.seal(nonce, chunks[0], header), Pieces(a, f.prefix, header, k + 1, chunks[1..]);
    assert |sealed| == |chunks[0]| + TAG_LEN;
    if |chunks| > 1 {
      assert |chunks[0]| == f.chunkSize;
      assert (cipher + rest)[..|sealed|] == sealed && (cipher + rest)[|sealed|..] == more;
    } else {
      assert chunks[1..] == [] && more == [] && cipher + rest == sealed;
      assert cipher == sealed;
    }
    assert cipher == sealed && rest == more;
    CounterNext(k);
    assert Cut(chunks[1..], f.chunkSize);
  }

  /** The first bytes of a stream are its header, which gives the format back. */
  lemma {:induction false} HeaderFirst(a: Aead, f: Format, plain: seq<byte>, hdr: seq<byte>, rest: seq<byte>)
    requires Usable(f) && |hdr| <= HEADER_LEN && (|hdr| < HEADER_LEN ==> rest == [])
    requires hdr + rest == Encoded(a, f.algorithm, f.chunkSize, f.prefix, plain)
    ensures hdr == Header(f.algorithm, f.chunkSize, f.prefix) && |hdr| == HEADER_LEN
    ensures hdr[0..8] == MAGIC && hdr[8] == 1 && hdr[9] == AlgorithmByte(f.algorithm)
    ensures FromBigEndian(hdr[10..14]) == f.chunkSize && hdr[14..22] == f.prefix
    ensures Rest(a, f, 0, ChunksOf(plain, f.chunkSize), 0, rest, [], false, plain)
  {
    hide Pieces, ChunksOf, Concat, BigEndian, FromBigEndian;
    var h := Header(f.algorithm, f.chunkSize, f.prefix);
    var e := Encoded(a, f.algorithm, f.chunkSize, f.prefix, plain);
    assert e[..HEADER_LEN] == h && e[HEADER_LEN..] == Pieces(a, f.prefix, h, 0, ChunksOf(plain, f.chunkSize));
    assert hdr == e[..HEADER_LEN] && rest == e[HEADER_LEN..];
    HeaderFields(f);
    Word(f.chunkSize);
  }

  /** The header tells the decoder the right chunk size exactly if that fits into 32 bits. */
  lemma {:induction false} HeaderChunkSize(f: Format)
    requires |f.prefix| == PREFIX_LEN
    ensures FromBigEndian(Header(f.algorithm, f.chunkSize, f.prefix)[10..14]) == f.chunkSize <==>
              f.chunkSize < CHUNK_COUNTERS
  {
    HeaderFields(f);
    Word(f.chunkSize);
  }

  lemma {:induction false} HeaderFields(f: Format)
    requires |f.prefix| == PREFIX_LEN
    ensures var h := Header(f.algorithm, f.chunkSize, f.prefix);
            && h[0..8] == MAGIC && h[8] == 1 && h[9] == (if f.algorithm.Aes256Gcm? then 2 else 1)
            && h[10..14] == BigEndian(f.chunkSize, 4) && h[14..22] == f.prefix && h[22..32] == Zeros(10)
  {
    hide BigEndian;
  }

  /** Reads a whole stream with reads of any sizes. */
  method ReadAll(d: Decoder, ghost f: Format, ghost plain: seq<byte>) returns (out: seq<byte>, status: ReadStatus)
    requires d.Expects(f, plain) && d.Books()
    modifies d, d.src
    ensures status == Eof && out == plain
  {
    hide Decoder.Expects;
    out := [];
    ghost var left := plain;
    status := Delivered;
    while status == Delivered
      invariant d.Expects(f, left) && d.Books()
      invariant plain == out + left
      invariant status == Delivered || (status == Eof && left == [])
      decreases |left|, status == Delivered
    {
      var max: nat :| max > 0;
      var piece;
      piece, status := d.Read(max, f, left);
      out := out + piece;
      left := left[|piece|..];
    }
  }

  /**
   Splits of one plaintext give one stream, and any reads of that stream give the plaintext back, and then the end.
   */
  method RoundTrip(a: Aead, algorithm: Algorithm, chunkSize: int, prefix: seq<byte>, writes: seq<seq<byte>>)
    returns (stream: seq<byte>, out: seq<byte>, status: ReadStatus)
    requires Honest(a) && |prefix| == PREFIX_LEN && chunkSize < CHUNK_COUNTERS
    ensures stream == Encoded(a, algorithm, if chunkSize <= 0 then DEFAULT_CHUNK_SIZE
              else chunkSize, prefix, Concat(writes))
    ensures out == Concat(writes) && status == Eof
  {
    var e := new Encoder(a, algorithm, chunkSize, prefix);
    for i := 0 to |writes|
      invariant e.Valid() && !e.closed && e.taken == Concat(writes[..i])
    {
      var n, ok := e.Write(writes[i]);
      ConcatSnoc(writes, i);
    }
    e.Close();
    assert writes[..|writes|] == writes;
    stream := e.dst;
    var src := new Source(stream);
    var d := new Decoder(src, a, algorithm, chunkSize);
    out, status := ReadAll(d, Format(algorithm, e.chunkSize, prefix), Concat(writes));
  }

  lemma {:induction false} ConcatSnoc(writes: seq<seq<byte>>, i: nat)
    requires i < |writes|
    ensures Concat(writes[..i + 1]) == Concat(writes[..i]) + writes[i]
    decreases i
  {
    if i == 0 {
      assert writes[..1][1..] == writes[..0];
    } else {
      ConcatSnoc(writes[1..], i - 1);
      assert writes[..i + 1][1..] == writes[1..][..i] && writes[..i][1..] == writes[1..][..i - 1];
    }
  }
}
