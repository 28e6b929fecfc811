/** The sealed backup stream: MAGIC, a 16-byte salt, an 8-byte nonce prefix, then length-prefixed
    chunks, each an authenticated encryption of at most CHUNK bytes.

    AES-GCM under an HKDF-derived key is an ideal AEAD: encrypting is any function whose result is 16
    bytes longer than the plaintext, and decrypting answers only for what was encrypted before, under
    the same key, nonce and associated data (the log). The derived key is the pair (key, salt). */
module Seal {
  import opened Wrappers
  import opened Sequences
  import opened Bytes

  // "LABAPESEAL1\n"
  const MAGIC: bytes := [76, 65, 66, 65, 80, 69, 83, 69, 65, 76, 49, 10]
  const CHUNK: nat := 0x10_0000
  const TAG: nat := 16
  const HEAD: nat := 36

  /** What one encryption is bound to: the derived key, the nonce and the associated data. */
  datatype Slot = Slot(key: bytes, salt: bytes, nonce: bytes, last: bool)

  ghost predicate AddsTag(f: (Slot, bytes) -> bytes) {
    forall s, p :: |f(s, p)| == |p| + TAG
  }

  type Encryptor = f: (Slot, bytes) -> bytes | AddsTag(f)
    witness (s, p) => p + [0, 0, 0, 0, 0, 0, 0, 0, 0, 0, 0, 0, 0, 0, 0, 0]

  /** (slot, ciphertext) -> plaintext, for everything encrypted so far. */
  type Log = map<(Slot, bytes), bytes>

  function Lookup(log: Log, s: Slot, ct: bytes): Option<bytes> {
    if (s, ct) in log then Some(log[(s, ct)]) else None
  }

  class Aead {
    const enc: Encryptor
    var log: Log

    constructor (enc: Encryptor)
      ensures this.enc == enc && log == map[]
    {
      this.enc := enc;
      log := map[];
    }

    method Encrypt(s: Slot, p: bytes) returns (ct: bytes)
      modifies this
      ensures ct == enc(s, p) && log == old(log)[(s, ct) := p]
    {
      ct := enc(s, p);
      log := log[(s, ct) := p];
    }

    /** None is InvalidTag. */
    method Decrypt(s: Slot, ct: bytes) returns (r: Option<bytes>)
      ensures r == Lookup(log, s, ct)
    {
      r := Lookup(log, s, ct);
    }
  }

  // --- the format ---------------------------------------------------------------------------

  /** One sealing: the backup key, the random salt and prefix it drew, and what it sealed. */
  datatype Archive = Archive(key: bytes, salt: bytes, prefix: bytes, plain: bytes)

  predicate WellSized(a: Archive) {
    |a.salt| == 16 && |a.prefix| == 8
  }

  function ChunkCount(len: nat): (c: nat)
    ensures c >= 1
  {
    if len <= CHUNK then 1 else 1 + ChunkCount(len - CHUNK)
  }

  /** The chunk counter is four bytes: more chunks than that make struct.pack raise. */
  predicate Fits(len: nat) {
    ChunkCount(len) <= LIMIT32
  }

  function SlotOf(a: Archive, n: nat, last: bool): Slot
    requires n < LIMIT32
  {
    Slot(a.key, a.salt, a.prefix + BE32(n), last)
  }

  function Header(a: Archive): bytes {
    MAGIC + a.salt + a.prefix
  }

  /** The frames that carry p from chunk number n on; `claim` is what the last frame's length field
      says. Empty from the chunk number that doesn't fit the counter. */
  function FramesFrom(enc: Encryptor, a: Archive, n: nat, p: bytes, claim: nat): bytes
    requires claim < LIMIT32
    decreases |p|
  {
    if n >= LIMIT32 then []
    else if |p| <= CHUNK then BE32(claim) + enc(SlotOf(a, n, true), p)
    else BE32(CHUNK + TAG) + enc(SlotOf(a, n, false), p[..CHUNK]) + FramesFrom(enc, a, n + 1, p[CHUNK..], claim)
  }

  function LastLength(len: nat): (n: nat)
    ensures n <= CHUNK
  {
    if len <= CHUNK then len else LastLength(len - CHUNK)
  }

  /** What a true last length field says: the ciphertext's length. */
  function TrueClaim(a: Archive): (n: nat)
    ensures n <= CHUNK + TAG
  {
    LastLength(|a.plain|) + TAG
  }

  /** The archive with `claim` in its last length field. */
  function SealedWith(enc: Encryptor, a: Archive, claim: nat): bytes
    requires claim < LIMIT32
  {
    Header(a) + FramesFrom(enc, a, 0, a.plain, claim)
  }

  function Sealed(enc: Encryptor, a: Archive): bytes {
    SealedWith(enc, a, TrueClaim(a))
  }

  /** The log after encrypting p's chunks, numbered from n. */
  function LogFrom(log: Log, enc: Encryptor, a: Archive, n: nat, p: bytes): Log
    decreases |p|
  {
    if n >= LIMIT32 then log
    else if |p| <= CHUNK then log[(SlotOf(a, n, true), enc(SlotOf(a, n, true), p)) := p]
    else
      var (s, c) := (SlotOf(a, n, false), p[..CHUNK]);
      LogFrom(log[(s, enc(s, c)) := c], enc, a, n + 1, p[CHUNK..])
  }

  // --- sealing ------------------------------------------------------------------------------

  datatype SealResult = Total(n: nat) | SealOverflow

  lemma NoFrames(enc: Encryptor, log: Log, a: Archive, n: nat, p: bytes, claim: nat)
    requires n >= LIMIT32 && claim < LIMIT32
    ensures FramesFrom(enc, a, n, p, claim) == [] && LogFrom(log, enc, a, n, p) == log
    ensures ChunkCount(|p|) >= 1
  {
  }

  /** What is still to be written and logged when `cur` is read, and `rest` isn't. */
  lemma LastFrame(enc: Encryptor, log: Log, a: Archive, n: nat, cur: bytes)
    requires n < LIMIT32 && |cur| <= CHUNK
    ensures var ct := enc(SlotOf(a, n, true), cur);
            && FramesFrom(enc, a, n, cur, |cur| + TAG) == BE32(|cur| + TAG) + ct
            && LogFrom(log, enc, a, n, cur) == log[(SlotOf(a, n, true), ct) := cur]
            && ChunkCount(|cur|) == 1 && LastLength(|cur|) == |cur|
  {
  }

  lemma NextFrame(enc: Encryptor, log: Log, a: Archive, n: nat, cur: bytes, more: bytes, claim: nat)
    requires n < LIMIT32 && |cur| == CHUNK && more != [] && claim < LIMIT32
    ensures var ct := enc(SlotOf(a, n, false), cur);
            && FramesFrom(enc, a, n, cur + more, claim)
               == (BE32(|cur| + TAG) + ct) + FramesFrom(enc, a, n + 1, more, claim)
            && LogFrom(log, enc, a, n, cur + more)
               == LogFrom(log[(SlotOf(a, n, false), ct) := cur], enc, a, n + 1, more)
            && ChunkCount(|cur + more|) == 1 + ChunkCount(|more|) && LastLength(|cur + more|) == LastLength(|more|)
  {
    assert (cur + more)[..CHUNK] == cur && (cur + more)[CHUNK..] == more;
  }

  method WriteFrame(dst: Sink, aead: Aead, s: Slot, p: bytes)
    requires |p| <= CHUNK
    modifies dst, aead
    ensures dst.written == old(dst.written) + (BE32(|p| + TAG) + aead.enc(s, p))
    ensures aead.log == old(aead.log)[(s, aead.enc(s, p)) := p]
  {
    var ct := aead.Encrypt(s, p);
    dst.Write(BE32(|ct|) + ct);
  }

  /** `seal`, with the random salt and prefix as parameters. */
  method SealStream(src: Source, dst: Sink, aead: Aead, key: bytes, salt: bytes, prefix: bytes)
    returns (r: SealResult)
    modifies src, dst, aead
    ensures dst.written == old(dst.written) + Sealed(aead.enc, Archive(key, salt, prefix, old(src.rest)))
    ensures aead.log
         == LogFrom(old(aead.log), aead.enc, Archive(key, salt, prefix, old(src.rest)), 0, old(src.rest))
    ensures r == if Fits(|old(src.rest)|) then Total(|old(src.rest)|) else SealOverflow
    ensures r.Total? ==> src.rest == []
  {
    hide FramesFrom, LogFrom, ChunkCount, LastLength, BE32;
    ghost var a, enc := Archive(key, salt, prefix, src.rest), aead.enc;
    ghost var claim := TrueClaim(a);
    ghost var w, log := dst.written + Sealed(enc, a), LogFrom(aead.log, enc, a, 0, a.plain);
    dst.Write(MAGIC + salt + prefix);
    var total, n := 0, 0;
    var cur := src.ReadFully(CHUNK);
    assert cur + src.rest == a.plain;
    while true
      invariant |cur| <= CHUNK && (|cur| < CHUNK ==> src.rest == [])
      invariant dst.written + FramesFrom(enc, a, n, cur + src.rest, claim) == w
      invariant LogFrom(aead.log, enc, a, n, cur + src.rest) == log
      invariant total + |cur| + |src.rest| == |a.plain|
      invariant n <= LIMIT32 && n + ChunkCount(|cur + src.rest|) == ChunkCount(|a.plain|)
      invariant LastLength(|cur + src.rest|) + TAG == claim
      decreases |src.rest|, |cur|
    {
      ghost var p, log0, w0 := cur + src.rest, aead.log, dst.written;
      var nxt := [];
      if |cur| == CHUNK {
        nxt := src.ReadFully(CHUNK);
      }
      assert p == cur + (nxt + src.rest);
      var last := nxt == [];
      if n >= LIMIT32 {
        NoFrames(enc, aead.log, a, n, p, claim);
        return SealOverflow;
      }
      WriteFrame(dst, aead, Slot(key, salt, prefix + BE32(n), last), cur);
      total := total + |cur|;
      if last {
        assert p == cur;
        LastFrame(enc, log0, a, n, cur);
        return Total(total);
      }
      NextFrame(enc, log0, a, n, cur, nxt + src.rest, claim);
      assert w == dst.written + FramesFrom(enc, a, n + 1, nxt + src.rest, claim) by {
        Assoc(w0, BE32(|cur| + TAG) + enc(SlotOf(a, n, false), cur), FramesFrom(enc, a, n + 1, nxt + src.rest, claim));
      }
      n, cur := n + 1, nxt;
    }
  }

  // --- opening ------------------------------------------------------------------------------

  datatype Outcome = Opened | NotSealed | CutShort | Damaged(chunk: nat) | TrailingData | OpenOverflow

  /** What opening writes, and how it ends. */
  datatype Opening = Opening(written: bytes, outcome: Outcome)

  function Then(p: bytes, o: Opening): Opening {
    Opening(p + o.written, o.outcome)
  }

  function OpenFrames(log: Log, key: bytes, salt: bytes, prefix: bytes, n: nat, b: bytes): Opening
    decreases |b|
  {
    if |b| < 4 then Opening([], CutShort)
    else
      var claim := UnBE32(b[..4]);
      var (ct, rest) := (Take(b[4..], claim), Drop(b[4..], claim));
      if n >= LIMIT32 then Opening([], OpenOverflow)
      else
        var nonce := prefix + BE32(n);
        match Lookup(log, Slot(key, salt, nonce, false), ct)
        case Some(pt) => Then(pt, OpenFrames(log, key, salt, prefix, n + 1, rest))
        case None =>
          match Lookup(log, Slot(key, salt, nonce, true), ct)
          case Some(pt) => Opening(pt, if rest == [] then Opened else TrailingData)
          case None => Opening([], Damaged(n))
  }

  function Open(log: Log, key: bytes, b: bytes): Opening {
    if |b| < HEAD || !(MAGIC <= b) then Opening([], NotSealed)
    else OpenFrames(log, key, b[12..28], b[28..36], 0, b[HEAD..])
  }

  lemma ThenNothing(o: Opening)
    ensures Then([], o) == o
  {
  }

  lemma ThenThen(p: bytes, q: bytes, o: Opening)
    ensures Then(p, Then(q, o)) == Then(p + q, o)
  {
  }

  /** One turn of the opening loop. */
  lemma OpenStep(log: Log, key: bytes, salt: bytes, prefix: bytes, n: nat, b: bytes)
    ensures var (o, ln) := (OpenFrames(log, key, salt, prefix, n, b), Take(b, 4));
            && (|ln| < 4 ==> o == Opening([], CutShort))
            && (|ln| >= 4 ==>
                  var (ct, rest) := (Take(Drop(b, 4), UnBE32(ln)), Drop(Drop(b, 4), UnBE32(ln)));
                  && |rest| < |b|
                  && (n >= LIMIT32 ==> o == Opening([], OpenOverflow))
                  && (n < LIMIT32 ==>
                        var (inner, last) := (Lookup(log, Slot(key, salt, prefix + BE32(n), false), ct),
                                              Lookup(log, Slot(key, salt, prefix + BE32(n), true), ct));
                        o == if inner.Some? then Then(inner.value, OpenFrames(log, key, salt, prefix, n + 1, rest))
                             else if last.Some? then Opening(last.value, if rest == [] then Opened else TrailingData)
                             else Opening([], Damaged(n))))
  {
    if |b| >= 4 {
      assert Take(b, 4) == b[..4] && Drop(b, 4) == b[4..];
    }
  }

  /** The two-flag trial: an inner chunk first, then the last one. */
  method DecryptEither(aead: Aead, key: bytes, salt: bytes, nonce: bytes, ct: bytes)
    returns (pt: Option<bytes>, last: bool)
    ensures var inner := Lookup(aead.log, Slot(key, salt, nonce, false), ct);
            if inner.Some? then pt == inner && !last
            else pt == Lookup(aead.log, Slot(key, salt, nonce, true), ct) && last
  {
    last := false;
    pt := aead.Decrypt(Slot(key, salt, nonce, false), ct);
    if pt == None {
      last := true;
      pt := aead.Decrypt(Slot(key, salt, nonce, true), ct);
    }
  }

  /** The frames after the header. */
  method UnsealFrames(src: Source, dst: Sink, aead: Aead, key: bytes, salt: bytes, prefix: bytes)
    returns (r: Outcome, total: nat)
    modifies src, dst
    ensures var o := OpenFrames(aead.log, key, salt, prefix, 0, old(src.rest));
            && r == o.outcome && dst.written == old(dst.written) + o.written
            && (r == Opened ==> total == |o.written| && src.rest == [])
  {
    hide OpenFrames, BE32, UnBE32, Take, Drop, Lookup;
    ghost var w0, done, all := dst.written, [], OpenFrames(aead.log, key, salt, prefix, 0, src.rest);
    var n := 0;
    total := 0;
    ThenNothing(all);
    while true
      invariant dst.written == w0 + done && total == |done|
      invariant all == Then(done, OpenFrames(aead.log, key, salt, prefix, n, src.rest))
      decreases |src.rest|
    {
      OpenStep(aead.log, key, salt, prefix, n, src.rest);
      var ln := src.ReadFully(4);
      if |ln| < 4 {
        return CutShort, total;
      }
      var ct := src.ReadFully(UnBE32(ln));
      if n >= LIMIT32 {
        return OpenOverflow, total;
      }
      var pt, last := DecryptEither(aead, key, salt, prefix + BE32(n), ct);
      if pt == None {
        return Damaged(n), total;
      }
      dst.Write(pt.value);
      ThenThen(done, pt.value, OpenFrames(aead.log, key, salt, prefix, n + 1, src.rest));
      done := done + pt.value;
      total := total + |pt.value|;
      n := n + 1;
      if last {
        var extra := src.Read(1);
        if extra != [] {
          return TrailingData, total;
        }
        return Opened, total;
      }
    }
  }

  /** `unseal`: the outcome, and the total it returns when it returns one. */
  method UnsealStream(src: Source, dst: Sink, aead: Aead, key: bytes)
    returns (r: Outcome, total: nat)
    modifies src, dst
    ensures var o := Open(aead.log, key, old(src.rest));
            && r == o.outcome && dst.written == old(dst.written) + o.written
            && (r == Opened ==> total == |o.written| && src.rest == [])
  {
    hide OpenFrames;
    ghost var b := src.rest;
    var head := src.ReadFully(|MAGIC| + 24);
    if |b| >= HEAD {
      assert head == b[..HEAD] && src.rest == b[HEAD..];
      assert MAGIC <= b <==> MAGIC <= head;
    }
    if |head| < |MAGIC| + 24 || !(MAGIC <= head) {
      return NotSealed, 0;
    }
    var salt, prefix := head[|MAGIC|..|MAGIC| + 16], head[|MAGIC| + 16..];
    assert salt == b[12..28] && prefix == b[28..36];
    r, total := UnsealFrames(src, dst, aead, key, salt, prefix);
  }
}
