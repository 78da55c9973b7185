/** The streaming SHA-256 of the kernel: a buffer that takes a message in pieces. */
module Sha256 {
  import opened Sha256Spec

  class Buff {
    var dataSize: nat
    const h: array<Word>
    const lastChunk: array<Octet>
    var chunkSize: nat
    ghost var data: seq<Octet>

    /** The message so far: its whole blocks are hashed, its tail waits in lastChunk. */
    ghost predicate Valid()
      reads this, h, lastChunk
    {
      && Shaped() && |data| < LIMIT && dataSize == |data| && chunkSize < BLOCK
      && Holds(h[..], lastChunk[..chunkSize], data)
    }

    predicate Shaped() {
      h.Length == 8 && lastChunk.Length == BLOCK
    }

    /** sha256_init. */
    constructor ()
      ensures Valid() && data == [] && fresh(h) && fresh(lastChunk)
    {
      hide Holds, InitialHash;
      h := new Word[8] [0x6a09e667, 0xbb67ae85, 0x3c6ef372, 0xa54ff53a, 0x510e527f, 0x9b05688c, 0x1f83d9ab, 0x5be0cd19];
      lastChunk := new Octet[BLOCK];
      dataSize, chunkSize, data := 0, 0, [];
      new;
      StartsWith(h[..]);
      HoldsNothing();
      assert lastChunk[..0] == [];
    }

    /** sha256_update. */
    method Update(bytes: seq<Octet>)
      requires Valid() && |data| + |bytes| < LIMIT
      modifies this`dataSize, this`chunkSize, this`data, h, lastChunk
      ensures Valid() && data == old(data) + bytes
    {
      hide HashOf, Compress, Fed, Wrapped, Holds;
      NotWrapped(dataSize + |bytes|);
      dataSize := Wrapped(dataSize + |bytes|);
      var ptr, size;
      ghost var done := FedStart(h[..], lastChunk[..chunkSize], data, bytes);
      ptr, done := FillChunk(bytes, done);
      ptr, size, done := HashBlocks(bytes, ptr, data, lastChunk[..chunkSize], done);
      Ahead(data, bytes, ptr, size);
      FedEnd(h[..], lastChunk[..chunkSize], data + bytes, done, |data| + ptr, bytes[ptr..]);
      CopyIn(chunkSize, bytes[ptr..]);
      chunkSize := chunkSize + size;
      data := data + bytes;
    }

    /** Completes the chunk that is waiting, if there are enough bytes, and hashes it. */
    method FillChunk(bytes: seq<Octet>, ghost before: nat) returns (ptr: nat, ghost done: nat)
      requires Shaped() && chunkSize < BLOCK && Fed(h[..], lastChunk[..chunkSize], data + bytes, before, |data|)
      modifies this`chunkSize, h
      ensures chunkSize < BLOCK && ptr <= |bytes| && (chunkSize == 0 || chunkSize + (|bytes| - ptr) < BLOCK)
      ensures Fed(h[..], lastChunk[..chunkSize], data + bytes, done, |data| + ptr)
    {
      hide Compress, Fed;
      if |bytes| + chunkSize < 64 {
        return 0, before;
      }
      var tmpChunk := lastChunk[..chunkSize] + bytes[..64 - chunkSize];
      Ahead(data, bytes, 0, 64 - chunkSize);
      FedSize(h[..], lastChunk[..chunkSize], data + bytes, before, |data|);
      FedBlock(h[..], lastChunk[..chunkSize], data + bytes, before, |data|, tmpChunk);
      ptr := 64 - chunkSize;
      chunkSize := 0;
      CalcChunk(tmpChunk);
      done := before + 1;
    }

    /** Hashes whole blocks of bytes from ptr on. */
    method HashBlocks(bytes: seq<Octet>, start: nat, ghost m: seq<Octet>, ghost waiting: seq<Octet>, ghost before: nat)
      returns (ptr: nat, size: nat, ghost done: nat)
      requires Shaped() && start <= |bytes| && (waiting == [] || |waiting| + (|bytes| - start) < BLOCK)
      requires Fed(h[..], waiting, m + bytes, before, |m| + start)
      modifies h
      ensures ptr + size == |bytes| && size < BLOCK && (waiting == [] || ptr == start)
      ensures Fed(h[..], waiting, m + bytes, done, |m| + ptr)
    {
      hide Compress, Fed;
      ptr, size, done := start, |bytes| - start, before;
      while size >= 64
        invariant ptr + size == |bytes| && (waiting == [] || ptr == start)
        invariant Fed(h[..], waiting, m + bytes, done, |m| + ptr)
      {
        Ahead(m, bytes, ptr, 64);
        FedBlock(h[..], [], m + bytes, done, |m| + ptr, bytes[ptr..ptr + 64]);
        CalcChunk(bytes[ptr..ptr + 64]);
        done := done + 1;
        ptr := ptr + 64;
        size := size - 64;
      }
    }

    /** memcpy into lastChunk. */
    method CopyIn(at: nat, bytes: seq<Octet>)
      requires Shaped() && at + |bytes| <= BLOCK
      modifies lastChunk
      ensures lastChunk[..] == old(lastChunk[..at]) + bytes + old(lastChunk[at + |bytes|..])
    {
      forall i | 0 <= i < |bytes| {
        lastChunk[at + i] := bytes[i];
      }
    }

    /** sha256_finalize: pads the message. */
    method Finalize()
      requires Valid()
      modifies this`chunkSize, h, lastChunk
      ensures Shaped() && h[..] == HashOf(Padded(data), |Padded(data)| / BLOCK)
    {
      hide HashOf, Compress, BigEndian, Padded, Wrapped, Holds;
      ghost var done, padded := |data| / BLOCK, Padded(data);
      ghost var tail := lastChunk[..chunkSize];
      PaddedParts(h[..], tail, data, done);
      MarkEnd();
      assert lastChunk[..] == tail + [0x80] + ZeroOctets(63 - |tail|);
      if chunkSize > 56 {
        NextBlock(padded, done, lastChunk[..]);
        CalcChunk(lastChunk[..]);
        CopyIn(0, ZeroOctets(64));
        done := done + 1;
      }
      ghost var head := lastChunk[..56];
      assert head == if |tail| < 56 then tail + [0x80] + ZeroOctets(55 - |tail|) else ZeroOctets(56);
      NotWrapped(dataSize * 8);
      StoreSize(Wrapped(dataSize * 8));
      NextBlock(padded, done, lastChunk[..]);
      CalcChunk(lastChunk[..]);
    }

    /** Appends the bit 1 and clears the rest of the chunk. */
    method MarkEnd()
      requires Shaped() && chunkSize < BLOCK
      modifies this`chunkSize, lastChunk
      ensures chunkSize == old(chunkSize) + 1
      ensures lastChunk[..] == old(lastChunk[..chunkSize]) + [0x80] + ZeroOctets(63 - old(chunkSize))
    {
      CopyIn(chunkSize, [0x80]);
      chunkSize := chunkSize + 1;
      CopyIn(chunkSize, ZeroOctets(64 - chunkSize));
    }

    /** Stores the size in bits in the last eight bytes, the highest first. */
    method StoreSize(bits: nat)
      requires Shaped()
      modifies lastChunk
      ensures lastChunk[..] == old(lastChunk[..56]) + BigEndian(bits, 8)
    {
      ghost var head := lastChunk[..56];
      var size := bits;
      var i := 8;
      while i > 0
        invariant 0 <= i <= 8 && lastChunk[..56] == head
        invariant BigEndian(size, i) + lastChunk[56 + i..] == BigEndian(bits, 8)
      {
        ghost var low := lastChunk[56 + i..];
        lastChunk[55 + i] := (size % 256) as Octet;
        assert lastChunk[55 + i..] == [(size % 256) as Octet] + low;
        size := size / 256;
        i := i - 1;
      }
    }

    /** sha256_read. */
    method Read() returns (hash: seq<Octet>)
      requires Shaped()
      ensures hash == Octets(h[..])
    {
      hide OctetsOf;
      hash := [];
      var i := 0;
      while i < 8
        invariant 0 <= i <= 8 && hash == Octets(h[..i])
      {
        WordOctets(h[i]);
        hash := hash + [((h[i] >> 24) & 255) as Octet, ((h[i] >> 16) & 255) as Octet, ((h[i] >> 8) & 255) as Octet, (h[i] & 255) as Octet];
        assert h[..i + 1][..i] == h[..i];
        i := i + 1;
      }
      assert h[..8] == h[..];
    }

    /** One block of the message. */
    method CalcChunk(chunk: Block)
      requires Shaped()
      modifies h
      ensures h[..] == Compress(old(h[..]), chunk)
    {
      hide K, Schedule, Round, Rounds, Added, Plus;
      var w := CalcSchedule(chunk);
      var tv := new Word[8] [h[0], h[1], h[2], h[3], h[4], h[5], h[6], h[7]];
      ghost var hash: Hash := h[..];
      assert tv[..] == hash;
      RoundsStart(hash, chunk);
      var i := 0;
      while i < 64
        invariant 0 <= i <= 64 && tv[..] == Rounds(hash, chunk, i)
        invariant h[..] == hash && forall j: nat | j < 64 :: w[j] == Schedule(chunk, j)
      {
        RoundsStep(hash, chunk, i);
        CalcRound(tv, K(i), w[i]);
        i := i + 1;
      }
      AddTo(tv);
    }

    /** h += tv. */
    method AddTo(tv: array<Word>)
      requires Shaped() && tv.Length == 8 && tv != h
      modifies h
      ensures h[..] == Added(old(h[..]), tv[..])
    {
      hide Plus;
      ghost var hash: Hash := h[..];
      var i := 0;
      while i < 8
        invariant 0 <= i <= 8
        invariant forall j | 0 <= j < i :: h[j] == Plus(hash[j], tv[j])
        invariant forall j | i <= j < 8 :: h[j] == hash[j]
      {
        h[i] := Plus(h[i], tv[i]);
        i := i + 1;
      }
    }

    method CalcSchedule(chunk: Block) returns (w: array<Word>)
      ensures fresh(w) && w.Length == 64 && forall j: nat | j < 64 :: w[j] == Schedule(chunk, j)
    {
      hide Schedule, SmallSigma0, SmallSigma1, Plus;
      w := new Word[64];
      var i := 0;
      while i < 16
        invariant 0 <= i <= 16 && forall j: nat | j < i :: w[j] == Schedule(chunk, j)
      {
        w[i] := (chunk[4 * i] as Word << 24) | (chunk[4 * i + 1] as Word << 16)
                | (chunk[4 * i + 2] as Word << 8) | chunk[4 * i + 3] as Word;
        ScheduleStart(chunk, i);
        i := i + 1;
      }
      while i < 64
        invariant 16 <= i <= 64 && forall j: nat | j < i :: w[j] == Schedule(chunk, j)
      {
        var s0 := CalcSmall0(w[i - 15]);
        var s1 := CalcSmall1(w[i - 2]);
        ScheduleStep(chunk, i);
        w[i] := Plus(Plus(Plus(w[i - 16], s0), w[i - 7]), s1);
        i := i + 1;
      }
    }

    method CalcRound(tv: array<Word>, k: Word, w: Word)
      requires tv.Length == 8
      modifies tv
      ensures tv[..] == Round(old(tv[..]), k, w)
    {
      hide T1, T2, Plus, Round;
      ghost var v: Hash := tv[..];
      var temp1 := CalcTemp1(tv, k, w);
      var temp2 := CalcTemp2(tv);
      tv[7] := tv[6];
      tv[6] := tv[5];
      tv[5] := tv[4];
      tv[4] := Plus(tv[3], temp1);
      tv[3] := tv[2];
      tv[2] := tv[1];
      tv[1] := tv[0];
      tv[0] := Plus(temp1, temp2);
      RoundIs(v, k, w, tv[..]);
    }

    method CalcTemp1(tv: array<Word>, k: Word, w: Word) returns (temp1: Word)
      requires tv.Length == 8
      ensures temp1 == T1(tv[..], k, w)
    {
      hide BigSigma1, Ch, Plus;
      var s1 := CalcBig1(tv[4]);
      var ch := CalcCh(tv[4], tv[5], tv[6]);
      temp1 := Plus(Plus(Plus(Plus(tv[7], s1), ch), k), w);
    }

    method CalcTemp2(tv: array<Word>) returns (temp2: Word)
      requires tv.Length == 8
      ensures temp2 == T2(tv[..])
    {
      hide BigSigma0, Maj, Plus;
      var s0 := CalcBig0(tv[0]);
      var maj := CalcMaj(tv[0], tv[1], tv[2]);
      temp2 := Plus(s0, maj);
    }
  }

  /** sha256_easy_hash. */
  method EasyHash(data: seq<Octet>) returns (hash: seq<Octet>)
    requires |data| < LIMIT
    ensures hash == Sha256(data)
  {
    hide HashOf, Octets, Padded;
    var buff := new Buff();
    assert [] + data == data;
    buff.Update(data);
    buff.Finalize();
    hash := buff.Read();
  }

  /** However a message is cut into pieces, feeding them in turn gives its digest. */
  method HashPieces(pieces: seq<seq<Octet>>) returns (hash: seq<Octet>)
    requires |Joined(pieces)| < LIMIT
    ensures hash == Sha256(Joined(pieces))
  {
    hide HashOf, Octets, Padded;
    var buff := new Buff();
    var i := 0;
    while i < |pieces|
      invariant 0 <= i <= |pieces| && buff.Valid() && fresh(buff) && fresh(buff.h) && fresh(buff.lastChunk)
      invariant buff.data == Joined(pieces[..i])
    {
      JoinedNext(pieces, i);
      buff.Update(pieces[i]);
      i := i + 1;
    }
    assert pieces[..i] == pieces;
    buff.Finalize();
    hash := buff.Read();
  }

  function Joined(pieces: seq<seq<Octet>>): seq<Octet> {
    if pieces == [] then [] else Joined(pieces[..|pieces| - 1]) + pieces[|pieces| - 1]
  }

  /** The first i pieces are followed by piece i, and are no longer than the whole. */
  lemma {:induction false} JoinedNext(pieces: seq<seq<Octet>>, i: nat)
    requires i < |pieces|
    ensures Joined(pieces[..i + 1]) == Joined(pieces[..i]) + pieces[i]
    ensures |Joined(pieces[..i + 1])| <= |Joined(pieces)|
    decreases |pieces|
  {
    assert pieces[..i + 1][..i] == pieces[..i];
    if i + 1 < |pieces| {
      var rest := pieces[..|pieces| - 1];
      assert rest[..i + 1] == pieces[..i + 1] && rest[..i] == pieces[..i];
      JoinedNext(rest, i);
    } else {
      assert pieces[..i + 1] == pieces;
    }
  }

  // ----- rotations by shifts -----

  method CalcSmall0(x: Word) returns (s: Word)
    ensures s == SmallSigma0(x)
  {
    s := ((x >> 7) | (x << 25)) ^ ((x >> 18) | (x << 14)) ^ (x >> 3);
  }

  method CalcSmall1(x: Word) returns (s: Word)
    ensures s == SmallSigma1(x)
  {
    s := ((x >> 17) | (x << 15)) ^ ((x >> 19) | (x << 13)) ^ (x >> 10);
  }

  method CalcBig0(x: Word) returns (s: Word)
    ensures s == BigSigma0(x)
  {
    s := ((x >> 2) | (x << 30)) ^ ((x >> 13) | (x << 19)) ^ ((x >> 22) | (x << 10));
  }

  method CalcBig1(x: Word) returns (s: Word)
    ensures s == BigSigma1(x)
  {
    s := ((x >> 6) | (x << 26)) ^ ((x >> 11) | (x << 21)) ^ ((x >> 25) | (x << 7));
  }

  method CalcCh(e: Word, f: Word, g: Word) returns (ch: Word)
    ensures ch == Ch(e, f, g)
  {
    ch := (e & f) ^ (!e & g);
  }

  method CalcMaj(a: Word, b: Word, c: Word) returns (maj: Word)
    ensures maj == Maj(a, b, c)
  {
    maj := (a & b) ^ (a & c) ^ (b & c);
  }

  // ----- blocks and padding -----

  /** The whole blocks of m are hashed, and its tail is waiting. */
  ghost predicate Holds(hash: seq<Word>, waiting: seq<Octet>, m: seq<Octet>) {
    |waiting| == |m| % BLOCK && waiting == m[|m| - |waiting|..] && hash == HashOf(m, |m| / BLOCK)
  }

  lemma StartsWith(h: seq<Word>)
    requires |h| == 8 && h[0] == 0x6a09e667 && h[1] == 0xbb67ae85 && h[2] == 0x3c6ef372 && h[3] == 0xa54ff53a
    requires h[4] == 0x510e527f && h[5] == 0x9b05688c && h[6] == 0x1f83d9ab && h[7] == 0x5be0cd19
    ensures h == InitialHash()
  {
  }

  lemma HoldsNothing()
    ensures Holds(InitialHash(), [], [])
  {
  }

  /** The first `upto` bytes of a message have been taken: `done` blocks are hashed and
      the rest is waiting. */
  ghost predicate Fed(hash: seq<Word>, waiting: seq<Octet>, m: seq<Octet>, done: nat, upto: nat) {
    && BLOCK * done + |waiting| == upto <= |m|
    && hash == HashOf(m, done) && waiting == m[BLOCK * done..upto]
  }

  lemma FedSize(hash: seq<Word>, waiting: seq<Octet>, m: seq<Octet>, done: nat, upto: nat)
    requires Fed(hash, waiting, m, done, upto)
    ensures upto <= |m| && |hash| == 8
  {
  }

  lemma Ahead(m: seq<Octet>, more: seq<Octet>, ptr: nat, n: nat)
    requires ptr + n <= |more|
    ensures (m + more)[|m| + ptr..|m| + ptr + n] == more[ptr..ptr + n]
  {
  }

  lemma FedStart(hash: seq<Word>, waiting: seq<Octet>, m: seq<Octet>, more: seq<Octet>) returns (done: nat)
    requires Holds(hash, waiting, m)
    ensures Fed(hash, waiting, m + more, done, |m|)
  {
    hide HashOf;
    done := |m| / BLOCK;
    HashOfPrefix(m, more, done);
  }

  lemma FedBlock(hash: Hash, waiting: seq<Octet>, m: seq<Octet>, done: nat, upto: nat, block: Block)
    requires Fed(hash, waiting, m, done, upto) && |waiting| <= BLOCK && upto + (BLOCK - |waiting|) <= |m|
    requires block == waiting + m[upto..upto + (BLOCK - |waiting|)]
    ensures Fed(Compress(hash, block), [], m, done + 1, upto + (BLOCK - |waiting|))
  {
    hide HashOf, Compress;
    NextBlock(m, done, block);
  }

  lemma FedEnd(hash: seq<Word>, waiting: seq<Octet>, m: seq<Octet>, done: nat, upto: nat, rest: seq<Octet>)
    requires Fed(hash, waiting, m, done, upto) && |waiting| + |rest| < BLOCK && rest == m[upto..]
    ensures Holds(hash, waiting + rest, m)
  {
    hide HashOf;
    TailEnd(|m|, done, |waiting| + |rest|);
  }

  lemma NextBlock(m: seq<Octet>, n: nat, block: Block)
    requires BLOCK * (n + 1) <= |m| && m[BLOCK * n..BLOCK * (n + 1)] == block
    ensures HashOf(m, n + 1) == Compress(HashOf(m, n), block)
  {
    hide Compress;
  }

  lemma TailEnd(length: nat, n: nat, t: nat)
    requires length == BLOCK * n + t && t < BLOCK
    ensures length / BLOCK == n && length % BLOCK == t
  {
  }

  lemma WordOctets(w: Word)
    ensures OctetsOf(w) == [((w >> 24) & 255) as Octet, ((w >> 16) & 255) as Octet, ((w >> 8) & 255) as Octet, (w & 255) as Octet]
  {
  }

  lemma Sliced(s: seq<Octet>, a: seq<Octet>, b: seq<Octet>, c: seq<Octet>)
    requires s == a + b + c
    ensures s[|a|..|a| + |b|] == b && s[|a| + |b|..] == c
  {
  }

  /** The blocks of the padded message that still have to be hashed. */
  lemma PaddedParts(hash: seq<Word>, tail: seq<Octet>, m: seq<Octet>, n: nat)
    requires Holds(hash, tail, m) && n == |m| / BLOCK
    ensures hash == HashOf(Padded(m), n)
    ensures var p, t := Padded(m), |tail|;
            if t < 56 then
              |p| == BLOCK * (n + 1) && p[BLOCK * n..] == tail + [0x80] + ZeroOctets(55 - t) + BigEndian(8 * |m|, 8)
            else
              && |p| == BLOCK * (n + 2) && p[BLOCK * n..BLOCK * (n + 1)] == tail + [0x80] + ZeroOctets(63 - t)
              && p[BLOCK * (n + 1)..] == ZeroOctets(56) + BigEndian(8 * |m|, 8)
  {
    hide HashOf, BigEndian;
    var size := BigEndian(8 * |m|, 8);
    var k := ZerosNeeded(|m|);
    HashOfPrefix(m, [0x80] + ZeroOctets(k) + size, n);
    assert Padded(m) == m + ([0x80] + ZeroOctets(k) + size);
    assert m == m[..BLOCK * n] + tail;
    TailEnd(|m|, n, |tail|);
    if |tail| < 56 {
      assert k == 55 - |tail|;
      var last := tail + [0x80] + ZeroOctets(55 - |tail|) + size;
      assert Padded(m) == m[..BLOCK * n] + [] + last;
      Sliced(Padded(m), m[..BLOCK * n], [], last);
    } else {
      assert k == 119 - |tail|;
      assert ZeroOctets(k) == ZeroOctets(63 - |tail|) + ZeroOctets(56);
      var last := tail + [0x80] + ZeroOctets(63 - |tail|);
      assert Padded(m) == m[..BLOCK * n] + last + (ZeroOctets(56) + size);
      Sliced(Padded(m), m[..BLOCK * n], last, ZeroOctets(56) + size);
    }
  }

  lemma ScheduleStart(chunk: Block, i: nat)
    requires i < 16
    ensures Schedule(chunk, i)
            == (chunk[4 * i] as Word << 24) | (chunk[4 * i + 1] as Word << 16)
               | (chunk[4 * i + 2] as Word << 8) | chunk[4 * i + 3] as Word
  {
  }

  lemma ScheduleStep(chunk: Block, i: nat)
    requires 16 <= i
    ensures Schedule(chunk, i)
            == Plus(Plus(Plus(Schedule(chunk, i - 16), SmallSigma0(Schedule(chunk, i - 15))),
                         Schedule(chunk, i - 7)), SmallSigma1(Schedule(chunk, i - 2)))
  {
    hide SmallSigma0, SmallSigma1, Plus;
  }

  lemma RoundIs(v: Hash, k: Word, w: Word, r: seq<Word>)
    requires |r| == 8 && r[0] == Plus(T1(v, k, w), T2(v)) && r[1] == v[0] && r[2] == v[1] && r[3] == v[2]
    requires r[4] == Plus(v[3], T1(v, k, w)) && r[5] == v[4] && r[6] == v[5] && r[7] == v[6]
    ensures r == Round(v, k, w)
  {
    hide T1, T2, Plus;
  }

  lemma RoundsStart(hash: Hash, chunk: Block)
    ensures Rounds(hash, chunk, 0) == hash
  {
  }

  lemma RoundsStep(hash: Hash, chunk: Block, i: nat)
    requires i < 64
    ensures Rounds(hash, chunk, i + 1) == Round(Rounds(hash, chunk, i), K(i), Schedule(chunk, i))
  {
    hide K, Schedule, Round;
  }
}
