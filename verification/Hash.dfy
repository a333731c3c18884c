/**
 Hashing a message that arrives in pieces (RFC 1321, sections 3.1 and 3.2; FIPS 180-4,
 section 5.1.1).  The compression function is a parameter.
 */
module Hash {
  import opened Utf8
  import opened Sequences

  const BLOCK: nat := 64

  // `m_h`
  type Words = seq<int>

  // What the algorithms differ in: the initial state, the compression of one block, the bytes of
  // the final state, and the order of the bytes of the length.
  datatype Algorithm = Algorithm(
    initial: Words, transform: (Words, seq<byte>) -> Words, digest: Words -> seq<byte>, digestSize: nat,
    bigEndian: bool)
  {
    // Every digest has that many bytes.
    ghost predicate Valid()
    {
      digestSize > 0 && forall h :: |digest(h)| == digestSize
    }
  }

  // ---- the definition ----

  // The blocks of a message, one after the other.
  function Fold(a: Algorithm, h: Words, s: seq<byte>): Words
    requires |s| % BLOCK == 0
    decreases |s|
  {
    if s == [] then h else Fold(a, a.transform(h, s[..BLOCK]), s[BLOCK..])
  }

  // The eight bytes of a number, the lowest first.
  function LittleEndian(n: nat, k: nat): (s: seq<byte>)
    ensures |s| == k
  {
    if k == 0 then [] else [n % 256] + LittleEndian(n / 256, k - 1)
  }

  function Reversed<T>(s: seq<T>): (r: seq<T>)
    ensures |r| == |s|
  {
    if s == [] then [] else Reversed(s[1..]) + [s[0]]
  }

  // `write_bit_length`
  function LengthBytes(a: Algorithm, bits: nat): (s: seq<byte>)
    ensures |s| == 8
  {
    if a.bigEndian then Reversed(LittleEndian(bits, 8)) else LittleEndian(bits, 8)
  }

  function Zeros(n: nat): (s: seq<byte>)
    ensures |s| == n
  {
    seq(n, _ => 0)
  }

  const WORD64: nat := 0x1_0000_0000_0000_0000

  // As few zero bytes as lead, behind a message of `n` bytes and one byte more, to eight bytes before
  // the end of a block.
  function ZerosAfter(n: nat): nat
  {
    (BLOCK + 55 - n % BLOCK) % BLOCK
  }

  lemma FillsBlock(n: nat)
    ensures (n + 9 + ZerosAfter(n)) % BLOCK == 0
    ensures ZerosAfter(n) == if n % BLOCK <= 55 then 55 - n % BLOCK else 119 - n % BLOCK
  {
    var (q, r) := (n / BLOCK, n % BLOCK);
    if r <= 55 {
      assert n + 9 + ZerosAfter(n) == BLOCK * (q + 1);
    } else {
      assert n + 9 + ZerosAfter(n) == BLOCK * (q + 2);
    }
  }

  // A one bit, zeros, and the length of the message in bits, in 64 bits.
  function Padding(a: Algorithm, n: nat): (s: seq<byte>)
    ensures (n + |s|) % BLOCK == 0 && |s| <= BLOCK + 8
  {
    FillsBlock(n);
    var s := [0x80] + Zeros(ZerosAfter(n)) + LengthBytes(a, 8 * n % WORD64);
    assert |s| == 9 + ZerosAfter(n);
    s
  }

  function Digest(a: Algorithm, message: seq<byte>): seq<byte>
  {
    a.digest(Fold(a, a.initial, message + Padding(a, |message|)))
  }

  // ---- the padding in the words of the standards ----

  // The number that bytes stand for, with the highest byte first or the lowest.
  function FromHighest(s: seq<byte>): nat
  {
    if s == [] then 0 else 256 * FromHighest(s[..|s| - 1]) + s[|s| - 1]
  }

  function FromLowest(s: seq<byte>): nat
  {
    if s == [] then 0 else s[0] + 256 * FromLowest(s[1..])
  }

  lemma {:induction false} LowestFirst(n: nat, k: nat)
    requires n < Power256(k)
    ensures FromLowest(LittleEndian(n, k)) == n && FromHighest(Reversed(LittleEndian(n, k))) == n
  {
    if k > 0 {
      LowestFirst(n / 256, k - 1);
      var s, rest := LittleEndian(n, k), LittleEndian(n / 256, k - 1);
      assert s[1..] == rest && s[0] == n % 256;
      var r := Reversed(s);
      assert r == Reversed(rest) + [s[0]] && r[..|r| - 1] == Reversed(rest);
    }
  }

  function Power256(k: nat): nat
  {
    if k == 0 then 1 else 256 * Power256(k - 1)
  }

  /** The eight bytes of the length, read in the order of the algorithm. */
  lemma LengthIsRead(a: Algorithm, bits: nat)
    requires bits < WORD64
    ensures (if a.bigEndian then FromHighest(LengthBytes(a, bits)) else FromLowest(LengthBytes(a, bits))) == bits
  {
    assert Power256(4) == 0x1_0000_0000 && Power256(8) == WORD64;
    LowestFirst(bits, 8);
    hide LittleEndian, Reversed, FromHighest, FromLowest;
  }

  /**
   Behind a message of `n` bytes come a one bit, as few zero bits as fill a block of 64 bytes, and
   the number of bits of the message in the last eight bytes.
   */
  lemma PaddingStandard(a: Algorithm, n: nat)
    ensures var p := Padding(a, n);
      && 9 <= |p| < 9 + 64 && (n + |p|) % 64 == 0
      && p[0] == 0x80 && (forall i :: 1 <= i < |p| - 8 ==> p[i] == 0)
      && (if a.bigEndian then FromHighest(p[|p| - 8..]) else FromLowest(p[|p| - 8..]))
         == 8 * n % 0x1_0000_0000_0000_0000
  {
    FillsBlock(n);
    var p, l := Padding(a, n), LengthBytes(a, 8 * n % WORD64);
    LengthIsRead(a, 8 * n % WORD64);
    hide LengthBytes, FromHighest, FromLowest, ZerosAfter;
    assert p == [0x80] + Zeros(ZerosAfter(n)) + l;
    assert p[|p| - 8..] == l;
  }

  lemma {:induction false} FoldConcat(a: Algorithm, h: Words, s: seq<byte>, t: seq<byte>)
    requires |s| % BLOCK == 0 && |t| % BLOCK == 0
    ensures |s + t| % BLOCK == 0 && Fold(a, h, s + t) == Fold(a, Fold(a, h, s), t)
    decreases |s|
  {
    if s == [] {
      Unit(t);
    } else {
      assert (s + t)[..BLOCK] == s[..BLOCK] && (s + t)[BLOCK..] == s[BLOCK..] + t;
      FoldConcat(a, a.transform(h, s[..BLOCK]), s[BLOCK..], t);
    }
  }

  lemma FoldOne(a: Algorithm, h: Words, s: seq<byte>, block: seq<byte>)
    requires |s| % BLOCK == 0 && |block| == BLOCK
    ensures |s + block| % BLOCK == 0 && Fold(a, h, s + block) == a.transform(Fold(a, h, s), block)
  {
    FoldConcat(a, h, s, block);
    Ends(block);
    assert Fold(a, Fold(a, h, s), block) == Fold(a, a.transform(Fold(a, h, s), block[..BLOCK]), block[BLOCK..]);
  }

  // ---- the object ----

  // The message is compressed up to what is in the buffer.
  ghost predicate Kept(a: Algorithm, h: Words, buffer: seq<byte>, message: seq<byte>)
  {
    exists done :: KeptAfter(a, h, done, buffer, message)
  }

  predicate KeptAfter(a: Algorithm, h: Words, done: seq<byte>, buffer: seq<byte>, message: seq<byte>)
  {
    message == done + buffer && |done| % BLOCK == 0 && h == Fold(a, a.initial, done)
  }

  lemma KeepsNothing(a: Algorithm)
    ensures Kept(a, a.initial, [], [])
  {
    assert KeptAfter(a, a.initial, [], [], []);
  }

  // The buffer takes more of the message.
  lemma KeepsMore(a: Algorithm, h: Words, buffer: seq<byte>, message: seq<byte>, p: seq<byte>)
    requires Kept(a, h, buffer, message)
    ensures Kept(a, h, buffer + p, message + p)
  {
    var done :| KeptAfter(a, h, done, buffer, message);
    Associate(done, buffer, p);
    hide Fold;
    assert KeptAfter(a, h, done, buffer + p, message + p);
  }

  // A full buffer is compressed.
  lemma KeepsFull(a: Algorithm, h: Words, buffer: seq<byte>, message: seq<byte>)
    requires Kept(a, h, buffer, message) && |buffer| == BLOCK
    ensures Kept(a, a.transform(h, buffer), [], message)
  {
    var done :| KeptAfter(a, h, done, buffer, message);
    FoldOne(a, a.initial, done, buffer);
    Unit(message);
    hide Fold;
    assert KeptAfter(a, a.transform(h, buffer), message, [], message);
  }

  lemma MoreBits(m: nat, n: nat)
    ensures (8 * m % WORD64 + n * 8) % WORD64 == 8 * (m + n) % WORD64
  {
  }

  class HashBase {
    const algorithm: Algorithm
    var h: Words                    // m_h
    const data: array<byte>         // m_data
    var dataLength: nat             // m_data_length
    var bitLength: nat              // m_bit_length
    ghost var message: seq<byte>    // what was passed to `update` since the last `init`

    ghost predicate Consistent()
      reads this, data
    {
      data.Length == BLOCK && dataLength < BLOCK && Kept(algorithm, h, data[..dataLength], message)
    }

    ghost predicate Valid()
      reads this, data
    {
      Consistent() && bitLength == 8 * |message| % WORD64
    }

    constructor (algorithm: Algorithm)
      ensures Valid() && message == [] && fresh(data) && this.algorithm == algorithm
    {
      this.algorithm := algorithm;
      h, dataLength, bitLength, message := algorithm.initial, 0, 0, [];
      data := new byte[BLOCK];
      new;
      KeepsNothing(algorithm);
      assert data[..0] == [];
    }

    method Init()
      requires data.Length == BLOCK
      modifies this
      ensures Valid() && message == []
    {
      h, dataLength, bitLength, message := algorithm.initial, 0, 0, [];
      KeepsNothing(algorithm);
      assert data[..0] == [];
    }

    // `memcpy` to the end of what is in the buffer
    method Copy(p: seq<byte>)
      requires data.Length == BLOCK && dataLength + |p| <= BLOCK
      modifies data
      ensures data[..dataLength + |p|] == old(data[..dataLength]) + p
    {
      var i := 0;
      while i < |p|
        invariant i <= |p| && data[..dataLength + i] == old(data[..dataLength]) + p[..i]
      {
        data[dataLength + i] := p[i];
        i := i + 1;
      }
    }

    // Bytes that the buffer has room for.
    method Fill(p: seq<byte>)
      requires Consistent() && dataLength + |p| <= BLOCK
      modifies this`h, this`dataLength, this`message, data
      ensures Consistent() && message == old(message) + p
      ensures dataLength == if old(dataLength) + |p| == BLOCK then 0 else old(dataLength) + |p|
    {
      KeepsMore(algorithm, h, data[..dataLength], message, p);
      hide Kept;
      Copy(p);
      dataLength := dataLength + |p|;
      message := message + p;
      if dataLength == BLOCK {
        assert data[..] == data[..dataLength];
        KeepsFull(algorithm, h, data[..], message);
        h := algorithm.transform(h, data[..]);
        dataLength := 0;
        assert data[..0] == [];
      }
    }

    // A block that is compressed where it is.
    method Compress(block: seq<byte>)
      requires Consistent() && dataLength == 0 && |block| == BLOCK
      modifies this`h, this`message
      ensures Consistent() && message == old(message) + block
    {
      assert data[..0] == [];
      KeepsMore(algorithm, h, [], message, block);
      Unit(block);
      message := message + block;
      KeepsFull(algorithm, h, block, message);
      h := algorithm.transform(h, block);
    }

    /** A piece of the message. */
    method Update(p: seq<byte>)
      requires Valid()
      modifies this`h, this`dataLength, this`bitLength, this`message, data
      ensures Valid() && message == old(message) + p
    {
      MoreBits(|message|, |p|);
      bitLength := (bitLength + |p| * 8) % WORD64;
      var rest := p;
      Unit(message);
      if dataLength > 0 {
        var n := if |rest| < BLOCK - dataLength then |rest| else BLOCK - dataLength;
        Fill(rest[..n]);
        rest := rest[n..];
      }
      while |rest| >= BLOCK
        invariant Consistent() && message + rest == old(message) + p && (rest == [] || dataLength == 0)
        invariant bitLength == 8 * (|old(message)| + |p|) % WORD64
      {
        hide Kept;
        ghost var before := message;
        Compress(rest[..BLOCK]);
        Associate(before, rest[..BLOCK], rest[BLOCK..]);
        assert rest == rest[..BLOCK] + rest[BLOCK..];
        rest := rest[BLOCK..];
      }
      if |rest| > 0 {
        Fill(rest);
      } else {
        Unit(message);
      }
      assert |message| == |old(message)| + |p|;
      hide Kept;
    }

    /**
     The digest of everything that was passed to `update`; the object is then as freshly
     initialized.
     */
    method Final() returns (result: seq<byte>)
      requires Valid()
      modifies this, data
      ensures result == Digest(algorithm, old(message)) && Valid() && message == []
    {
      ghost var (m, buffer, h0) := (message, data[..dataLength], h);
      data[dataLength] := 0x80;
      assert data[..dataLength + 1] == buffer + [0x80];
      dataLength := dataLength + 1;
      FillZeros(dataLength, BLOCK);
      hide Kept, Fold, Padding;
      if BLOCK - dataLength < 8 {
        PaddedTwo(algorithm, h0, buffer, m);
        assert data[..] == buffer + [0x80] + Zeros(63 - |buffer|);
        h := algorithm.transform(h, data[..]);
        FillZeros(0, BLOCK - 8);
        assert data[..BLOCK - 8] == Zeros(BLOCK - 8);
      } else {
        PaddedOne(algorithm, h0, buffer, m);
        FewerZeros(data[..], buffer + [0x80], 63 - |buffer|);
      }
      WriteBitLength();
      h := algorithm.transform(h, data[..]);
      FillZeros(0, BLOCK);
      result := algorithm.digest(h);
      Init();
    }

    // `std::fill`
    method FillZeros(from: nat, to: nat)
      requires from <= to <= data.Length
      modifies data
      ensures data[from..to] == Zeros(to - from) && data[..from] == old(data[..from]) && data[to..] == old(data[to..])
    {
      var i := from;
      while i < to
        invariant from <= i <= to && data[from..i] == Zeros(i - from)
        invariant data[..from] == old(data[..from]) && data[to..] == old(data[to..])
      {
        data[i] := 0;
        i := i + 1;
      }
    }

    method WriteBitLength()
      requires data.Length == BLOCK
      modifies data
      ensures data[..] == old(data[..BLOCK - 8]) + LengthBytes(algorithm, bitLength)
    {
      var bytes := LengthBytes(algorithm, bitLength);
      var i := 0;
      while i < 8
        invariant i <= 8 && data[..BLOCK - 8] == old(data[..BLOCK - 8])
        invariant data[BLOCK - 8..BLOCK - 8 + i] == bytes[..i]
      {
        data[BLOCK - 8 + i] := bytes[i];
        i := i + 1;
      }
      assert bytes[..8] == bytes;
    }
  }

  lemma FewerZeros(s: seq<byte>, front: seq<byte>, n: nat)
    requires |s| == BLOCK == |front| + n && n >= 8 && s[..|front|] == front && s[|front|..] == Zeros(n)
    ensures s[..BLOCK - 8] == front + Zeros(n - 8)
  {
    forall i | |front| <= i < BLOCK - 8 ensures s[i] == 0 {
      assert s[i] == s[|front|..][i - |front|];
    }
    assert forall i :: 0 <= i < |front| ==> s[i] == s[..|front|][i];
  }

  lemma Regroup<T>(a: seq<T>, b: seq<T>, c: seq<T>, d: seq<T>, e: seq<T>)
    ensures a + b + (c + d + e) == a + (b + c + d + e)
  {
  }

  lemma RegroupTwo<T>(a: seq<T>, b: seq<T>, c: seq<T>, d: seq<T>, e: seq<T>, f: seq<T>)
    ensures a + b + (c + (d + e) + f) == a + (b + c + d) + (e + f)
  {
    Regroup(a, b, c, d + e, f);
    Associate(b + c, d, e);
    Associate(b + c + d, e, f);
    Associate(a, b + c + d, e + f);
  }

  lemma FoldTwo(a: Algorithm, h: Words, s: seq<byte>, first: seq<byte>, last: seq<byte>)
    requires |s| % BLOCK == 0 && |first| == BLOCK && |last| == BLOCK
    ensures |s + first + last| % BLOCK == 0
    ensures Fold(a, h, s + first + last) == a.transform(a.transform(Fold(a, h, s), first), last)
  {
    FoldOne(a, h, s, first);
    FoldOne(a, h, s + first, last);
  }

  lemma ZerosTwo(m: nat, n: nat)
    ensures Zeros(m + n) == Zeros(m) + Zeros(n)
  {
  }

  // The padding of a message whose last part leaves room for the length.
  lemma PaddedOne(a: Algorithm, h: Words, buffer: seq<byte>, m: seq<byte>)
    requires Kept(a, h, buffer, m) && |buffer| + 1 <= BLOCK - 8
    ensures Fold(a, a.initial, m + Padding(a, |m|))
         == a.transform(h, buffer + [0x80] + Zeros(55 - |buffer|) + LengthBytes(a, 8 * |m| % WORD64))
  {
    var done :| KeptAfter(a, h, done, buffer, m);
    var n := 55 - |buffer|;
    PaddingIs(a, done, buffer, m, n);
    PaddedBlock(a, done, buffer + [0x80] + Zeros(n) + LengthBytes(a, 8 * |m| % WORD64), m + Padding(a, |m|)) by {
      hide *;
      Regroup(done, buffer, [0x80], Zeros(n), LengthBytes(a, 8 * |m| % WORD64));
    }
  }

  lemma PaddedBlock(a: Algorithm, done: seq<byte>, block: seq<byte>, padded: seq<byte>)
    requires padded == done + block && |done| % BLOCK == 0 && |block| == BLOCK
    ensures |padded| % BLOCK == 0 && Fold(a, a.initial, padded) == a.transform(Fold(a, a.initial, done), block)
  {
    FoldOne(a, a.initial, done, block);
  }

  // The padding of any other message ends with a block of its own.
  lemma PaddedTwo(a: Algorithm, h: Words, buffer: seq<byte>, m: seq<byte>)
    requires Kept(a, h, buffer, m) && BLOCK - 8 < |buffer| + 1 <= BLOCK
    ensures Fold(a, a.initial, m + Padding(a, |m|))
         == a.transform(a.transform(h, buffer + [0x80] + Zeros(63 - |buffer|)),
              Zeros(BLOCK - 8) + LengthBytes(a, 8 * |m| % WORD64))
  {
    var done :| KeptAfter(a, h, done, buffer, m);
    var length := LengthBytes(a, 8 * |m| % WORD64);
    var (first, last) := (buffer + [0x80] + Zeros(63 - |buffer|), Zeros(BLOCK - 8) + length);
    PaddingIs(a, done, buffer, m, 119 - |buffer|);
    ZerosTwo(63 - |buffer|, BLOCK - 8);
    assert |first| == BLOCK == |last| && |done| % BLOCK == 0 && m == done + buffer && h == Fold(a, a.initial, done);
    hide *;
    RegroupTwo(done, buffer, [0x80], Zeros(63 - |buffer|), Zeros(BLOCK - 8), length);
    FoldTwo(a, a.initial, done, first, last);
  }

  lemma PaddingIs(a: Algorithm, done: seq<byte>, buffer: seq<byte>, m: seq<byte>, n: nat)
    requires m == done + buffer && |done| % BLOCK == 0 && |buffer| < BLOCK
    requires n == if |buffer| < 56 then 55 - |buffer| else 119 - |buffer|
    ensures Padding(a, |m|) == [0x80] + Zeros(n) + LengthBytes(a, 8 * |m| % WORD64)
  {
    Modulo(|done|, |buffer|);
    FillsBlock(|m|);
    hide Zeros, LengthBytes, ZerosAfter;
  }

  lemma Modulo(done: nat, n: nat)
    requires done % BLOCK == 0 && n < BLOCK
    ensures (done + n) % BLOCK == n
  {
  }
}
