/**
 Keyed hashing (RFC 2104, section 2) and keys derived from passwords (RFC 8018, section 5.2).
 */
module KeyDerivation {
  import opened Utf8
  import opened Sequences
  import opened Bits
  import opened Hash

  function Xor(a: byte, b: byte): byte
  {
    assert Power2(8) == 256;
    XorBits(a, b, 8)
  }

  function XorAll(s: seq<byte>, t: seq<byte>): (r: seq<byte>)
    requires |s| == |t|
    ensures |r| == |s|
  {
    seq(|s|, i requires 0 <= i < |s| => Xor(s[i], t[i]))
  }

  // ---- HMAC ----

  // A key that is shorter than a block, filled up with zeros.
  function Filled(key: seq<byte>): (k: seq<byte>)
    requires |key| <= BLOCK
    ensures |k| == BLOCK
  {
    key + Zeros(BLOCK - |key|)
  }

  function Repeat(b: byte): (s: seq<byte>)
    ensures |s| == BLOCK
  {
    seq(BLOCK, _ => b)
  }

  // The definition of RFC 2104.
  function Hmac(a: Algorithm, key: seq<byte>, message: seq<byte>): seq<byte>
    requires |key| <= BLOCK
  {
    Digest(a, XorAll(Filled(key), Repeat(0x5c)) + Digest(a, XorAll(Filled(key), Repeat(0x36)) + message))
  }

  lemma XorLaws(a: byte, b: byte)
    ensures Xor(a, b) == Xor(b, a) && Xor(0, a) == a
  {
    assert Power2(8) == 256;
    XorBitsLaws(a, b, 8);
    hide XorBits;
  }

  /** A bit of the result is set where the bits differ. */
  lemma XorIsBitwise(a: byte, b: byte)
    ensures forall i :: 0 <= i < 8 ==> Bit(Xor(a, b), i) == if Bit(a, i) != Bit(b, i) then 1 else 0
  {
    forall i | 0 <= i < 8 ensures Bit(Xor(a, b), i) == if Bit(a, i) != Bit(b, i) then 1 else 0 {
      XorBitwise(a, b, 8, i);
    }
    hide XorBits, Bit;
  }

  // The byte `b` with its bits inverted where those of `pad` are set.
  predicate Inverted(b: byte, pad: byte, r: byte)
  {
    forall i :: 0 <= i < 8 ==> Bit(r, i) == if Bit(b, i) != Bit(pad, i) then 1 else 0
  }

  /**
   The key is filled up with zeros to 64 bytes; the result hashes it, inverted by 0x5C, before the hash of it,
   inverted by 0x36, before the message.
   */
  lemma HmacStandard(a: Algorithm, key: seq<byte>, message: seq<byte>) returns (inner: seq<byte>, outer: seq<byte>)
    requires |key| <= 64
    ensures |inner| == 64 && forall i :: 0 <= i < 64 ==> Inverted(if i < |key| then key[i] else 0, 0x36, inner[i])
    ensures |outer| == 64 && forall i :: 0 <= i < 64 ==> Inverted(if i < |key| then key[i] else 0, 0x5C, outer[i])
    ensures Hmac(a, key, message) == Digest(a, outer + Digest(a, inner + message))
  {
    inner, outer := XorAll(Filled(key), Repeat(0x36)), XorAll(Filled(key), Repeat(0x5c));
    forall i | 0 <= i < 64
      ensures Inverted(if i < |key| then key[i] else 0, 0x36, inner[i])
      ensures Inverted(if i < |key| then key[i] else 0, 0x5C, outer[i])
    {
      XorIsBitwise(Filled(key)[i], 0x36);
      XorIsBitwise(Filled(key)[i], 0x5C);
      hide Xor, Bit;
    }
    hide Digest, Xor, Inverted;
  }

  // The loop of the constructor over one of the pads.
  method Pad(key: seq<byte>, b: byte) returns (pad: seq<byte>)
    requires |key| <= BLOCK
    ensures pad == XorAll(Filled(key), Repeat(b))
  {
    pad := Repeat(b);
    var i := 0;
    while i < |key|
      invariant i <= |key| && |pad| == BLOCK
      invariant forall k :: 0 <= k < i ==> pad[k] == Xor(b, key[k])
      invariant forall k :: i <= k < BLOCK ==> pad[k] == b
    {
      hide *;
      pad := pad[i := Xor(pad[i], key[i])];
      i := i + 1;
    }
    forall k | 0 <= k < BLOCK ensures pad[k] == XorAll(Filled(key), Repeat(b))[k] {
      XorLaws(b, if k < |key| then key[k] else 0);
    }
  }

  class HmacObject {
    const algorithm: Algorithm
    const key: seq<byte>
    const ipad: seq<byte>             // m_ipad
    const opad: seq<byte>             // m_opad
    var innerUpdated: bool            // m_inner_updated
    const inner: HashBase             // m_inner
    ghost var message: seq<byte>      // what was passed to `update` since the last `final`

    ghost predicate Valid()
      reads this, inner, inner.data
    {
      && inner.Valid() && inner.algorithm == algorithm && |key| <= BLOCK
      && ipad == XorAll(Filled(key), Repeat(0x36)) && opad == XorAll(Filled(key), Repeat(0x5c))
      && inner.message == (if innerUpdated then ipad + message else [])
      && (!innerUpdated ==> message == [])
    }

    constructor (algorithm: Algorithm, key: seq<byte>)
      requires |key| <= BLOCK
      ensures Valid() && message == [] && !innerUpdated && this.algorithm == algorithm && this.key == key
      ensures fresh(inner) && fresh(inner.data)
    {
      this.algorithm, this.key := algorithm, key;
      var i := Pad(key, 0x36);
      var o := Pad(key, 0x5c);
      ipad, opad := i, o;
      inner := new HashBase(algorithm);
      innerUpdated, message := false, [];
    }

    method Update(data: seq<byte>)
      requires Valid()
      modifies this`innerUpdated, this`message, inner, inner.data
      ensures Valid() && message == old(message) + data && innerUpdated
    {
      hide Digest, XorAll, Filled, Repeat;
      if !innerUpdated {
        inner.Update(ipad);
        innerUpdated := true;
        Unit(ipad);
      }
      inner.Update(data);
      Associate(ipad, message, data);
      message := message + data;
    }

    /** The keyed hash of what was passed to `update`; the object can then be used again. */
    method Final() returns (result: seq<byte>)
      requires Valid()
      modifies this`innerUpdated, this`message, inner, inner.data
      ensures Valid() && message == [] && !innerUpdated
      ensures result == if old(innerUpdated) then Hmac(algorithm, key, old(message))
        else Digest(algorithm, opad + Digest(algorithm, []))
    {
      hide Digest, XorAll, Filled, Repeat;
      var outer := new HashBase(algorithm);
      outer.Update(opad);
      var digest := inner.Final();
      Unit(opad);
      outer.Update(digest);
      innerUpdated, message := false, [];
      result := outer.Final();
    }
  }

  // ---- PBKDF2 ----

  // The four bytes of a block index, the highest first.
  function IndexBytes(i: nat): seq<byte>
  {
    [i / 0x100_0000 % 256, i / 0x1_0000 % 256, i / 0x100 % 256, i % 256]
  }

  /** The bytes of an index read as that index, the highest first; other indices have other bytes. */
  lemma IndexIsRead(i: nat)
    requires i < 0x1_0000_0000
    ensures |IndexBytes(i)| == 4 && FromHighest(IndexBytes(i)) == i
    ensures forall j :: 0 <= j < 0x1_0000_0000 && IndexBytes(j) == IndexBytes(i) ==> j == i
  {
    ReadBytes(i);
    forall j | 0 <= j < 0x1_0000_0000 && IndexBytes(j) == IndexBytes(i) ensures j == i {
      ReadBytes(j);
    }
    hide IndexBytes, FromHighest;
  }

  lemma ReadBytes(i: nat)
    requires i < 0x1_0000_0000
    ensures FromHighest(IndexBytes(i)) == i
  {
    var q1 := i / 256;
    var q2 := q1 / 256;
    var q3 := q2 / 256;
    Quotients(i, q1, q2, q3);
    assert IndexBytes(i) == [q3 % 256, q2 % 256, q1 % 256, i % 256];
    hide *;
    FourRead(q3 % 256, q2 % 256, q1 % 256, i % 256);
  }

  lemma Quotients(i: nat, q1: nat, q2: nat, q3: nat)
    requires i < 0x1_0000_0000 && q1 == i / 256 && q2 == q1 / 256 && q3 == q2 / 256
    ensures i / 0x100 == q1 && i / 0x1_0000 == q2 && i / 0x100_0000 == q3 && q3 % 256 == q3
    ensures i == ((q3 * 256 + q2 % 256) * 256 + q1 % 256) * 256 + i % 256
  {
    var b, c, d := q2 % 256, q1 % 256, i % 256;
    assert q2 == 256 * q3 + b && q1 == 256 * q2 + c && i == 256 * q1 + d;
    assert i == 0x1_0000 * q2 + (256 * c + d) && i == 0x100_0000 * q3 + (0x1_0000 * b + 256 * c + d);
  }

  lemma FourRead(a: byte, b: byte, c: byte, d: byte)
    ensures FromHighest([a, b, c, d]) == ((a * 256 + b) * 256 + c) * 256 + d
  {
    OneMoreByte([], a);
    OneMoreByte([a], b);
    OneMoreByte([a, b], c);
    OneMoreByte([a, b, c], d);
    assert [] + [a] == [a] && [a] + [b] == [a, b] && [a, b] + [c] == [a, b, c] && [a, b, c] + [d] == [a, b, c, d];
    assert FromHighest([]) == 0;
    hide FromHighest;
  }

  lemma OneMoreByte(s: seq<byte>, b: byte)
    ensures FromHighest(s + [b]) == 256 * FromHighest(s) + b
  {
    assert (s + [b])[..|s|] == s;
  }

  // U_c of a block.
  function Round(a: Algorithm, password: seq<byte>, salt: seq<byte>, i: nat, c: nat): seq<byte>
    requires |password| <= BLOCK && c > 0
  {
    if c == 1 then Hmac(a, password, salt + IndexBytes(i))
    else Hmac(a, password, Round(a, password, salt, i, c - 1))
  }

  // U_1 xor U_2 xor ... xor U_c.
  function DerivedBlock(a: Algorithm, password: seq<byte>, salt: seq<byte>, i: nat, c: nat): (r: seq<byte>)
    requires a.Valid() && |password| <= BLOCK && c > 0
    ensures |r| == a.digestSize
  {
    if c == 1 then Round(a, password, salt, i, 1)
    else XorAll(DerivedBlock(a, password, salt, i, c - 1), Round(a, password, salt, i, c))
  }

  // T_1 || ... || T_n
  function Blocks(a: Algorithm, password: seq<byte>, salt: seq<byte>, c: nat, n: nat): seq<byte>
    requires a.Valid() && |password| <= BLOCK && c > 0
  {
    if n == 0 then [] else Blocks(a, password, salt, c, n - 1) + DerivedBlock(a, password, salt, n, c)
  }

  lemma {:induction false} BlocksLength(a: Algorithm, password: seq<byte>, salt: seq<byte>, c: nat, n: nat)
    requires a.Valid() && |password| <= BLOCK && c > 0
    ensures |Blocks(a, password, salt, c, n)| == n * a.digestSize
  {
    if n > 0 {
      BlocksLength(a, password, salt, c, n - 1);
      hide DerivedBlock;
      assert n * a.digestSize == (n - 1) * a.digestSize + a.digestSize;
    }
  }

  // The number of blocks that have at least `length` bytes.
  function Needed(length: nat, size: nat): nat
    requires size > 0
  {
    (length + size - 1) / size
  }

  lemma EnoughBlocks(length: nat, size: nat)
    requires size > 0
    ensures length <= Needed(length, size) * size
  {
    assert length + size - 1 == Needed(length, size) * size + (length + size - 1) % size;
  }

  lemma EnoughBytes(a: Algorithm, password: seq<byte>, salt: seq<byte>, c: nat, length: nat)
    requires a.Valid() && |password| <= BLOCK && c > 0
    ensures length <= |Blocks(a, password, salt, c, Needed(length, a.digestSize))|
  {
    EnoughBlocks(length, a.digestSize);
    hide Needed, Blocks;
    BlocksLength(a, password, salt, c, Needed(length, a.digestSize));
  }

  // As many blocks as are needed for the bytes asked for, cut to their number.
  function DerivedKey(a: Algorithm, password: seq<byte>, salt: seq<byte>, c: nat, length: nat): (r: seq<byte>)
    requires a.Valid() && |password| <= BLOCK && c > 0
    ensures |r| == length
  {
    EnoughBytes(a, password, salt, c, length);
    Blocks(a, password, salt, c, Needed(length, a.digestSize))[..length]
  }

  // More blocks than needed make no difference.
  lemma {:induction false} MoreBlocks(a: Algorithm, password: seq<byte>, salt: seq<byte>, c: nat, m: nat, n: nat)
    requires a.Valid() && |password| <= BLOCK && c > 0 && m <= n
    ensures Blocks(a, password, salt, c, m) <= Blocks(a, password, salt, c, n)
  {
    hide DerivedBlock;
    if m < n {
      MoreBlocks(a, password, salt, c, m, n - 1);
    }
  }

  lemma KeyOfBlocks(a: Algorithm, password: seq<byte>, salt: seq<byte>, c: nat, length: nat, n: nat)
    requires a.Valid() && |password| <= BLOCK && c > 0 && length <= |Blocks(a, password, salt, c, n)|
    ensures Blocks(a, password, salt, c, n)[..length] == DerivedKey(a, password, salt, c, length)
  {
    var m := Needed(length, a.digestSize);
    EnoughBytes(a, password, salt, c, length);
    hide Blocks, Needed;
    if m <= n {
      MoreBlocks(a, password, salt, c, m, n);
      SamePrefix(Blocks(a, password, salt, c, m), Blocks(a, password, salt, c, n), length);
    } else {
      MoreBlocks(a, password, salt, c, n, m);
      SamePrefix(Blocks(a, password, salt, c, n), Blocks(a, password, salt, c, m), length);
    }
  }

  lemma SamePrefix<T>(s: seq<T>, t: seq<T>, n: nat)
    requires s <= t && n <= |s|
    ensures s[..n] == t[..n]
  {
  }

  /** A shorter key is the beginning of a longer one. */
  lemma ShorterKey(a: Algorithm, password: seq<byte>, salt: seq<byte>, c: nat, shorter: nat, longer: nat)
    requires a.Valid() && |password| <= BLOCK && c > 0 && shorter <= longer
    ensures DerivedKey(a, password, salt, c, shorter) == DerivedKey(a, password, salt, c, longer)[..shorter]
  {
    var n := Needed(longer, a.digestSize);
    EnoughBytes(a, password, salt, c, longer);
    hide Blocks, Needed;
    KeyOfBlocks(a, password, salt, c, shorter, n);
    CutTwice(Blocks(a, password, salt, c, n), shorter, longer);
  }

  lemma CutTwice<T>(s: seq<T>, m: nat, n: nat)
    requires m <= n <= |s|
    ensures s[..n][..m] == s[..m]
  {
  }

  // `derived[i] ^= buffer[i]` for all `i`
  method XorInto(derived: seq<byte>, buffer: seq<byte>) returns (r: seq<byte>)
    requires |derived| == |buffer|
    ensures r == XorAll(derived, buffer)
  {
    r := derived;
    var i := 0;
    while i < |buffer|
      invariant i <= |buffer| == |r|
      invariant forall k :: 0 <= k < i ==> r[k] == Xor(derived[k], buffer[k])
      invariant forall k :: i <= k < |r| ==> r[k] == derived[k]
    {
      hide *;
      r := r[i := Xor(r[i], buffer[i])];
      i := i + 1;
    }
  }

  // The bytes are passed one by one.
  method UpdateEach(hmac: HmacObject, bytes: seq<byte>)
    requires hmac.Valid() && hmac.innerUpdated
    modifies hmac`innerUpdated, hmac`message, hmac.inner, hmac.inner.data
    ensures hmac.Valid() && hmac.innerUpdated && hmac.message == old(hmac.message) + bytes
  {
    ghost var before := hmac.message;
    var j := 0;
    Ends(bytes);
    Unit(before);
    while j < |bytes|
      invariant j <= |bytes| && hmac.Valid() && hmac.innerUpdated && hmac.message == before + bytes[..j]
    {
      hide *;
      Associate(before, bytes[..j], [bytes[j]]);
      Longer(bytes, j);
      hmac.Update([bytes[j]]);
      j := j + 1;
    }
  }

  // One block: the rounds are hashed one after the other and combined.
  method DeriveBlock(hmac: HmacObject, salt: seq<byte>, i: nat, iterations: nat) returns (derived: seq<byte>)
    requires hmac.Valid() && !hmac.innerUpdated && hmac.algorithm.Valid() && iterations > 0
    modifies hmac`innerUpdated, hmac`message, hmac.inner, hmac.inner.data
    ensures hmac.Valid() && !hmac.innerUpdated
    ensures derived == DerivedBlock(hmac.algorithm, hmac.key, salt, i, iterations)
  {
    ghost var (a, p) := (hmac.algorithm, hmac.key);
    FirstRound(a, p, salt, i);
    assert hmac.message == [];
    hide *;
    hmac.Update(salt);
    Unit(salt);
    UpdateEach(hmac, IndexBytes(i));
    derived := hmac.Final();
    var buffer := derived;
    var c := 1;
    while c < iterations
      invariant 1 <= c <= iterations && hmac.Valid() && !hmac.innerUpdated && hmac.message == []
      invariant buffer == Round(a, p, salt, i, c) && derived == DerivedBlock(a, p, salt, i, c)
    {
      NextRound(a, p, salt, i, c);
      hide *;
      hmac.Update(buffer);
      Unit(buffer);
      buffer := hmac.Final();
      derived := XorInto(derived, buffer);
      c := c + 1;
    }
  }

  lemma FirstRound(a: Algorithm, password: seq<byte>, salt: seq<byte>, i: nat)
    requires a.Valid() && |password| <= BLOCK
    ensures var u := Hmac(a, password, salt + IndexBytes(i));
      Round(a, password, salt, i, 1) == u && DerivedBlock(a, password, salt, i, 1) == u
  {
    hide Hmac, IndexBytes;
  }

  lemma NextRound(a: Algorithm, password: seq<byte>, salt: seq<byte>, i: nat, c: nat)
    requires a.Valid() && |password| <= BLOCK && c > 0
    ensures var u := Hmac(a, password, Round(a, password, salt, i, c));
      && u == Round(a, password, salt, i, c + 1) && |u| == |DerivedBlock(a, password, salt, i, c)|
      && DerivedBlock(a, password, salt, i, c + 1) == XorAll(DerivedBlock(a, password, salt, i, c), u)
  {
    DigestLength(a, password, salt, i, c + 1);
    hide Hmac, IndexBytes, XorAll;
  }

  lemma DigestLength(a: Algorithm, password: seq<byte>, salt: seq<byte>, i: nat, c: nat)
    requires a.Valid() && |password| <= BLOCK && c > 0
    ensures |Round(a, password, salt, i, c)| == a.digestSize
  {
  }

  /** `pbkdf2`: exactly the bytes asked for. */
  method Pbkdf2(a: Algorithm, salt: seq<byte>, password: seq<byte>, iterations: nat, keyLength: nat)
      returns (result: seq<byte>)
    requires a.Valid() && |password| <= BLOCK && keyLength < 0x1_0000_0000
    ensures result == DerivedKey(a, password, salt, if iterations == 0 then 1 else iterations, keyLength)
  {
    var rounds := if iterations == 0 then 1 else iterations;
    var hmac := new HmacObject(a, password);
    ghost var n;
    result, n := DeriveBlocks(hmac, salt, rounds, keyLength);
    KeyOfBlocks(a, password, salt, rounds, keyLength, n);
    if |result| > keyLength {
      result := result[..keyLength];
    } else {
      Ends(result);
    }
  }

  // The loop over the blocks.  Their index fits its 32 bits.
  method DeriveBlocks(hmac: HmacObject, salt: seq<byte>, rounds: nat, keyLength: nat)
      returns (result: seq<byte>, ghost n: nat)
    requires hmac.Valid() && !hmac.innerUpdated && hmac.algorithm.Valid() && rounds > 0
    modifies hmac`innerUpdated, hmac`message, hmac.inner, hmac.inner.data
    ensures n <= keyLength && keyLength <= |result|
    ensures result == Blocks(hmac.algorithm, hmac.key, salt, rounds, n)
  {
    ghost var (a, p) := (hmac.algorithm, hmac.key);
    NoBlocks(a, p, salt, rounds);
    hide *;
    result := [];
    var i := 1;
    n := 0;
    while |result| < keyLength
      invariant n <= keyLength && i == n + 1 && hmac.Valid() && !hmac.innerUpdated
      invariant result == Blocks(a, p, salt, rounds, n)
      decreases keyLength - n
    {
      NextBlock(a, p, salt, rounds, n);
      hide *;
      var derived := DeriveBlock(hmac, salt, i, rounds);
      result := result + derived;
      i := i + 1;
      n := n + 1;
    }
  }

  // Every block has at least one byte.
  lemma {:induction false} AtLeast(a: Algorithm, password: seq<byte>, salt: seq<byte>, c: nat, n: nat)
    requires a.Valid() && |password| <= BLOCK && c > 0
    ensures n <= |Blocks(a, password, salt, c, n)|
  {
    hide DerivedBlock;
    if n > 0 {
      AtLeast(a, password, salt, c, n - 1);
    }
  }

  lemma NextBlock(a: Algorithm, password: seq<byte>, salt: seq<byte>, c: nat, n: nat)
    requires a.Valid() && |password| <= BLOCK && c > 0
    ensures n <= |Blocks(a, password, salt, c, n)|
    ensures Blocks(a, password, salt, c, n + 1)
         == Blocks(a, password, salt, c, n) + DerivedBlock(a, password, salt, n + 1, c)
  {
    AtLeast(a, password, salt, c, n);
    hide DerivedBlock;
  }

  lemma NoBlocks(a: Algorithm, password: seq<byte>, salt: seq<byte>, c: nat)
    requires a.Valid() && |password| <= BLOCK && c > 0
    ensures Blocks(a, password, salt, c, 0) == []
  {
  }
}
