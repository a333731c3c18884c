/**
 Base64 (RFC 4648, sections 4 and 5) as the code writes and reads it.
 */
module Base64 {
  import opened Options
  import opened Utf8
  import opened Sequences
  import opened Bits

  type sextet = x: int | 0 <= x < 64

  const PAD: byte := '=' as int
  const NEWLINE: byte := '\n' as int

  // `kBase64CharTable`
  function Letter(v: sextet): byte
  {
    if v < 26 then 'A' as int + v
    else if v < 52 then 'a' as int + (v - 26)
    else if v < 62 then '0' as int + (v - 52)
    else if v == 62 then '+' as int
    else '/' as int
  }

  // `sextet`: a character outside the table throws; one inside it that stands for nothing gives 128.
  function Sextet(ch: byte): Option<byte>
  {
    if ch < '+' as int || ch > 'z' as int then None
    else if 'A' as int <= ch <= 'Z' as int then Some(ch - 'A' as int)
    else if 'a' as int <= ch <= 'z' as int then Some(ch - 'a' as int + 26)
    else if '0' as int <= ch <= '9' as int then Some(ch - '0' as int + 52)
    else if ch == '+' as int then Some(62)
    else if ch == '/' as int then Some(63)
    else Some(128)
  }

  predicate IsWhite(ch: byte)
  {
    ch == ' ' as int || ch == '\t' as int || ch == '\n' as int || ch == '\r' as int
  }

  lemma SextetOfLetter(v: sextet)
    ensures Sextet(Letter(v)) == Some(v) && Letter(v) != PAD && !IsWhite(Letter(v))
    ensures Letter(v) != '-' as int && Letter(v) != '_' as int
  {
  }

  // ---- encoding ----

  // What one turn of the loop takes from the data.
  function Taken(d: seq<byte>): nat
  {
    if |d| < 3 then |d| else 3
  }

  // The four characters for the first three bytes, or for the one or two bytes that are left.
  function Four(d: seq<byte>): (s: seq<byte>)
    requires d != []
    ensures |s| == 4
  {
    var b1, b2 := if |d| > 1 then d[1] else 0, if |d| > 2 then d[2] else 0;
    [Letter(d[0] / 4), Letter(d[0] % 4 * 16 + b1 / 16),
     if |d| > 1 then Letter(b1 % 16 * 4 + b2 / 64) else PAD,
     if |d| > 2 then Letter(b2 % 64) else PAD]
  }

  // The characters without line breaks.
  function Groups(d: seq<byte>): seq<byte>
    decreases |d|
  {
    if d == [] then [] else Four(d) + Groups(d[Taken(d)..])
  }

  // The characters in lines of `w`, when `l` characters are on the line already; no lines when `w` is zero.
  function Wrapped(s: seq<byte>, w: nat, l: nat): seq<byte>
    decreases |s|
  {
    if s == [] then []
    else if 0 < w == l then [NEWLINE, s[0]] + Wrapped(s[1..], w, 1)
    else [s[0]] + Wrapped(s[1..], w, l + 1)
  }

  function Next(w: nat, l: nat): nat
  {
    if 0 < w == l then 1 else l + 1
  }

  function Ending(w: nat): seq<byte>
  {
    if w == 0 then [] else [NEWLINE]
  }

  // `encode_base64`
  function Encoded(d: seq<byte>, w: nat): seq<byte>
  {
    Wrapped(Groups(d), w, 0) + Ending(w)
  }

  /** One character more. */
  lemma WrappedHead(ch: byte, s: seq<byte>, w: nat, l: nat)
    ensures Wrapped([ch] + s, w, l)
            == (if 0 < w == l then [NEWLINE, ch] else [ch]) + Wrapped(s, w, Next(w, l))
  {
    assert ([ch] + s)[1..] == s;
  }

  lemma {:induction false} NotWrapped(s: seq<byte>, l: nat)
    ensures Wrapped(s, 0, l) == s
    decreases |s|
  {
    if s != [] {
      FirstOf(s, []);
      NotWrapped(s[1..], l + 1);
    }
  }

  method EncodeBase64(data: seq<byte>, wrapWidth: nat) returns (result: seq<byte>)
    ensures result == Encoded(data, wrapWidth)
  {
    result := [];
    var n, l := 0, 0;
    Ends(data);
    Unit(Encoded(data, wrapWidth));
    while n < |data|
      invariant n <= |data|
      invariant Encoded(data, wrapWidth) == result + (Wrapped(Groups(data[n..]), wrapWidth, l) + Ending(wrapWidth))
    {
      var s := Four(data[n..]);
      ghost var rest := Groups(data[n..][Taken(data[n..])..]);
      assert Groups(data[n..]) == s + rest;
      assert data[n..][Taken(data[n..])..] == data[n + Taken(data[n..])..];
      n := n + Taken(data[n..]);
      if wrapWidth == 0 {
        NotWrapped(s + rest, l);
        NotWrapped(rest, l);
        Joined(result, s, rest, Ending(wrapWidth));
        result := result + s;
      } else {
        hide *;
        result, l := EncodeGroup(s, rest, wrapWidth, result, l);
      }
    }
    Unit(Ending(wrapWidth));
    Unit(result);
    if wrapWidth != 0 {
      result := result + [NEWLINE];
    }
  }

  // The loop over the four characters.
  method EncodeGroup(s: seq<byte>, ghost rest: seq<byte>, w: nat, before: seq<byte>, column: nat)
    returns (result: seq<byte>, l: nat)
    requires |s| == 4 && w > 0
    ensures before + (Wrapped(s + rest, w, column) + Ending(w)) == result + (Wrapped(rest, w, l) + Ending(w))
  {
    result, l := before, column;
    var i := 0;
    Ends(s);
    while i < 4
      invariant 0 <= i <= 4
      invariant before + (Wrapped(s + rest, w, column) + Ending(w))
             == result + (Wrapped(s[i..] + rest, w, l) + Ending(w))
    {
      hide *;
      Longer(s, i);
      Associate([s[i]], s[i + 1..], rest);
      WrappedHead(s[i], s[i + 1..] + rest, w, l);
      ghost var k, was := l, result;
      if l == w {
        result := result + [NEWLINE];
        l := 0;
      }
      result := result + [s[i]];
      l := l + 1;
      NextIs(w, k);
      Joined(was, if k == w then [NEWLINE, s[i]] else [s[i]], Wrapped(s[i + 1..] + rest, w, l), Ending(w));
      TwoOf(was, NEWLINE, s[i]);
      i := i + 1;
    }
    Ends(s);
    Unit(rest);
  }

  lemma NextIs(w: nat, l: nat)
    requires w > 0
    ensures Next(w, l) == if l == w then 1 else l + 1
  {
  }

  lemma TwoOf<T>(s: seq<T>, a: T, b: T)
    ensures s + [a] + [b] == s + [a, b]
  {
  }

  lemma Joined<T>(a: seq<T>, b: seq<T>, c: seq<T>, d: seq<T>)
    ensures a + ((b + c) + d) == (a + b) + (c + d)
  {
  }


  // ---- the length ----

  // The length the code reserves and asserts at its end.
  function Reserved(n: nat, w: nat): nat
  {
    var m := 4 * (n / 3) + if n % 3 == 0 then 0 else 4;
    if w == 0 then m else m + m / w + 1
  }

  lemma {:induction false} GroupsLength(d: seq<byte>)
    ensures |Groups(d)| == 4 * (|d| / 3) + if |d| % 3 == 0 then 0 else 4
    decreases |d|
  {
    if |d| >= 3 {
      hide Four;
      GroupsLength(d[3..]);
      Thirds(|d| - 3);
    }
  }

  lemma Thirds(n: nat)
    ensures (n + 3) / 3 == n / 3 + 1 && (n + 3) % 3 == n % 3
  {
  }

  lemma {:induction false} WrappedLength(s: seq<byte>, w: nat, l: nat)
    requires 0 < l <= w
    ensures |Wrapped(s, w, l)| == |s| + (l - 1 + |s|) / w
    decreases |s|
  {
    if s == [] {
      OneMore(0, w, 0, l - 1);
    } else if l == w {
      WrappedLength(s[1..], w, 1);
      AddOne(|s| - 1, w);
    } else {
      WrappedLength(s[1..], w, l + 1);
    }
  }

  lemma AddOne(n: nat, w: nat)
    requires w > 0
    ensures (n + w) / w == n / w + 1 && (n + w) % w == n % w
  {
    OneMore(n / w, w, 1, n % w);
  }

  lemma {:induction false} OneMore(q: nat, w: nat, p: nat, r: nat)
    requires r < w
    ensures (q * w + p * w + r) / w == q + p && (q * w + p * w + r) % w == r
  {
    Unique(w, q + p, r, (q * w + p * w + r) / w, (q * w + p * w + r) % w);
  }

  lemma Unique(w: nat, q: nat, r: nat, q': nat, r': nat)
    requires q * w + r == q' * w + r' && r < w && r' < w
    ensures q == q' && r == r'
  {
    Farther(q, q', w);
    Farther(q', q, w);
  }

  lemma {:induction false} Farther(q: nat, p: nat, w: nat)
    ensures q > p ==> q * w >= p * w + w
  {
    if q > p {
      assert q * w == (q - 1) * w + w;
      Farther(q - 1, p, w);
    }
  }

  lemma LastOfLine(m: nat, w: nat)
    requires m > 0 && w > 0
    ensures m / w == (m - 1) / w + if m % w == 0 then 1 else 0
  {
    var q, r := (m - 1) / w, (m - 1) % w;
    assert m == q * w + r + 1;
    QuotientOfNext(m, q, w, r);
  }

  lemma QuotientOfNext(m: nat, q: nat, w: nat, r: nat)
    requires r < w && m == q * w + r + 1
    ensures m / w == q + if m % w == 0 then 1 else 0
  {
    if r == w - 1 {
      OneMore(q, w, 1, 0);
    } else {
      OneMore(q, w, 0, r + 1);
    }
  }

  /** The assertion at the end of `encode_base64` fails exactly when the last line is full. */
  lemma AssertionHolds(d: seq<byte>, w: nat)
    ensures |Encoded(d, w)| == Reserved(|d|, w)
            <==> !(d != [] && w > 0 && |Groups(d)| % w == 0)
  {
    GroupsLength(d);
    var s := Groups(d);
    if w == 0 {
      NotWrapped(s, 0);
    } else if d != [] {
      WrappedLength(s[1..], w, 1);
      LastOfLine(|s|, w);
    } else {
      OneMore(0, w, 0, 0);
    }
  }

  // ---- decoding ----

  // What is cast to a character: the bits of a product and of a sextet that was shifted down.
  function Byte(a: nat, b: nat): byte
  {
    Or(a, b) % 256
  }

  // The bytes that two, three or four sextets stand for.
  function Bytes(x: seq<byte>): seq<byte>
    requires 2 <= |x| <= 4
  {
    [Byte(x[0] as int * 4, x[1] / 16)]
    + (if |x| >= 3 then [Byte(x[1] as int * 16, x[2] / 4)] else [])
    + if |x| == 4 then [Byte(x[2] as int * 64, x[3])] else []
  }

  function Before(x: seq<byte>, o: Option<seq<byte>>): Option<seq<byte>>
  {
    match o
    case None => None
    case Some(y) => Some(x + y)
  }

  // `decode_base64` with the sextets of the group it is in; `None` is the exception.
  function Decoded(s: seq<byte>, x: seq<byte>): Option<seq<byte>>
    requires |x| < 4
    decreases |s|
  {
    if s == [] then
      if x == [] then Some([]) else None
    else if IsWhite(s[0]) then
      Decoded(s[1..], x)
    else if s[0] == PAD then
      if |x| == 2 && |s| > 1 && s[1] == PAD then Before(Bytes(x), Decoded(s[2..], []))
      else if |x| == 3 then Before(Bytes(x), Decoded(s[1..], []))
      else None
    else
      match Sextet(s[0])
      case None => None
      case Some(v) =>
        if |x| == 3 then Before(Bytes(x + [v]), Decoded(s[1..], [])) else Decoded(s[1..], x + [v])
  }

  lemma ByteAdds(c: nat, b: nat, k: nat)
    requires b < Power2(k)
    ensures Byte(c * Power2(k), b) == (c * Power2(k) + b) % 256
  {
    OrAdds(c, b, k);
    hide Or, Power2;
  }

  lemma Powers()
    ensures Power2(2) == 4 && Power2(4) == 16 && Power2(6) == 64
  {
  }

  lemma ShiftedDown(a: byte, b: byte)
    ensures (a % 4 * 16 + b / 16) / 16 == a % 4 && (a % 16 * 4 + b / 64) / 4 == a % 16
  {
  }

  lemma FirstByte(a: byte, b: byte)
    ensures Byte(a / 4 * 4, (a % 4 * 16 + b / 16) / 16) == a
  {
    hide *;
    ShiftedDown(a, b);
    Powers();
    var c, r := a / 4, a % 4;
    ByteAdds(c, r, 2);
    assert c * 4 + r == a;
  }

  lemma SecondByte(a: byte, b: byte, d: byte)
    ensures Byte((a % 4 * 16 + b / 16) * 16, (b % 16 * 4 + d / 64) / 4) == b
  {
    hide *;
    ShiftedDown(b, d);
    Powers();
    var k, c, r := a % 4, b / 16, b % 16;
    assert c * 16 + r == b;
    ByteAdds(k * 16 + c, r, 4);
    assert (k * 16 + c) * 16 + r == 256 * k + b;
  }

  lemma ThirdByte(b: byte, c: byte)
    ensures Byte((b % 16 * 4 + c / 64) * 64, c % 64) == c
  {
    hide *;
    Powers();
    var k, q, r := b % 16, c / 64, c % 64;
    assert q * 64 + r == c;
    ByteAdds(k * 4 + q, r, 6);
    assert (k * 4 + q) * 64 + r == 256 * k + c;
  }

  // The sextets of a group.
  function Sextets(d: seq<byte>): (x: seq<sextet>)
    requires d != []
    ensures |x| == 4
  {
    var b1, b2 := if |d| > 1 then d[1] else 0, if |d| > 2 then d[2] else 0;
    [d[0] / 4, d[0] % 4 * 16 + b1 / 16, b1 % 16 * 4 + b2 / 64, b2 % 64]
  }

  lemma BytesOfSextets(d: seq<byte>)
    requires d != []
    ensures Bytes(Sextets(d)[..Taken(d) + 1]) == d[..Taken(d)]
  {
    var b1, b2 := if |d| > 1 then d[1] else 0, if |d| > 2 then d[2] else 0;
    hide Byte;
    FirstByte(d[0], b1);
    SecondByte(d[0], b1, b2);
    ThirdByte(b1, b2);
  }

  lemma FourIs(d: seq<byte>)
    requires d != []
    ensures Four(d)[0] == Letter(Sextets(d)[0]) && Four(d)[1] == Letter(Sextets(d)[1])
    ensures Four(d)[2] == if |d| > 1 then Letter(Sextets(d)[2]) else PAD
    ensures Four(d)[3] == if |d| > 2 then Letter(Sextets(d)[3]) else PAD
  {
  }

  // A line break before a character is passed over.
  lemma BreakSkipped(ch: byte, s: seq<byte>, w: nat, l: nat, t: seq<byte>, x: seq<byte>)
    requires |x| < 4
    ensures Decoded(Wrapped([ch] + s, w, l) + t, x) == Decoded([ch] + (Wrapped(s, w, Next(w, l)) + t), x)
  {
    WrappedHead(ch, s, w, l);
    var r := Wrapped(s, w, Next(w, l));
    Associate([ch], r, t);
    if 0 < w == l {
      assert [NEWLINE, ch] + r + t == [NEWLINE] + ([ch] + (r + t));
    }
  }

  lemma LetterRead(v: sextet, r: seq<byte>, x: seq<byte>)
    requires |x| < 4
    ensures Decoded([Letter(v)] + r, x)
            == if |x| == 3 then Before(Bytes(x + [v]), Decoded(r, [])) else Decoded(r, x + [v])
  {
    SextetOfLetter(v);
    FirstOf([Letter(v)], r);
    assert ([Letter(v)] + r)[1..] == r;
    hide Letter, Sextet;
  }

  // The letter of a sextet and the line break that may stand before it.
  lemma WrappedRead(v: sextet, s: seq<byte>, w: nat, l: nat, t: seq<byte>, x: seq<byte>)
    requires |x| < 4
    ensures Decoded(Wrapped([Letter(v)] + s, w, l) + t, x)
            == if |x| == 3 then Before(Bytes(x + [v]), Decoded(Wrapped(s, w, Next(w, l)) + t, []))
            else Decoded(Wrapped(s, w, Next(w, l)) + t, x + [v])
  {
    hide *;
    BreakSkipped(Letter(v), s, w, l, t, x);
    LetterRead(v, Wrapped(s, w, Next(w, l)) + t, x);
  }

  lemma FourParts(s: seq<byte>, rest: seq<byte>)
    requires |s| == 4
    ensures s + rest == [s[0]] + ([s[1]] + ([s[2]] + ([s[3]] + rest)))
  {
  }

  function Next4(w: nat, l: nat): nat
  {
    Next(w, Next(w, Next(w, Next(w, l))))
  }

  lemma ThreeRead(d: seq<byte>, rest: seq<byte>, w: nat, l: nat, t: seq<byte>)
    requires |d| >= 3
    ensures Decoded(Wrapped(Four(d) + rest, w, l) + t, [])
            == Before(d[..3], Decoded(Wrapped(rest, w, Next4(w, l)) + t, []))
  {
    var s, x := Four(d), Sextets(d);
    FourIs(d);
    FourParts(s, rest);
    BytesOfSextets(d);
    assert [] + [x[0]] + [x[1]] + [x[2]] + [x[3]] == x[..4];
    assert Taken(d) == 3;
    assert Next4(w, l) == Next(w, Next(w, Next(w, Next(w, l))));
    hide *;
    WrappedRead(x[0], [s[1]] + ([s[2]] + ([s[3]] + rest)), w, l, t, []);
    WrappedRead(x[1], [s[2]] + ([s[3]] + rest), w, Next(w, l), t, [] + [x[0]]);
    WrappedRead(x[2], [s[3]] + rest, w, Next(w, Next(w, l)), t, [] + [x[0]] + [x[1]]);
    WrappedRead(x[3], rest, w, Next(w, Next(w, Next(w, l))), t, [] + [x[0]] + [x[1]] + [x[2]]);
  }

  lemma TwoRead(d: seq<byte>, w: nat, l: nat)
    requires |d| == 2
    ensures Decoded(Wrapped(Four(d), w, l) + Ending(w), []) == Some(d)
  {
    var s, x, t := Four(d), Sextets(d), Ending(w);
    FourIs(d);
    FourParts(s, []);
    Unit(s);
    BytesOfSextets(d);
    Ends(d);
    var y := [] + [x[0]] + [x[1]] + [x[2]];
    assert y == x[..3];
    assert s[3] == PAD && Taken(d) == 2;
    PadRead(t, y);
    EndingRead(w);
    Unit(d);
    var l3 := Next(w, Next(w, Next(w, l)));
    assert Wrapped([], w, Next(w, l3)) + t == t;
    hide *;
    WrappedRead(x[0], [s[1]] + ([s[2]] + ([s[3]] + [])), w, l, t, []);
    WrappedRead(x[1], [s[2]] + ([s[3]] + []), w, Next(w, l), t, [] + [x[0]]);
    WrappedRead(x[2], [s[3]] + [], w, Next(w, Next(w, l)), t, [] + [x[0]] + [x[1]]);
    BreakSkipped(PAD, [], w, l3, t, y);
    BeforeSome(d, []);
  }

  lemma BeforeSome(x: seq<byte>, y: seq<byte>)
    ensures Before(x, Some(y)) == Some(x + y)
  {
  }

  lemma PadRead(t: seq<byte>, x: seq<byte>)
    requires |x| == 3
    ensures Decoded([PAD] + t, x) == Before(Bytes(x), Decoded(t, []))
  {
    assert ([PAD] + t)[1..] == t;
  }

  // The first of two padding characters; the second must follow without a line break.
  lemma PadsRead(t: seq<byte>, x: seq<byte>)
    requires |x| == 2
    ensures Decoded([PAD] + ([PAD] + t), x) == Before(Bytes(x), Decoded(t, []))
    ensures Decoded([PAD] + ([NEWLINE, PAD] + t), x) == None
  {
    assert ([PAD] + ([PAD] + t))[2..] == t;
  }

  lemma EndingRead(w: nat)
    ensures Decoded(Ending(w), []) == Some([])
  {
    if w > 0 {
      assert [NEWLINE][1..] == [];
    }
  }

  lemma OneRead(d: seq<byte>, w: nat, l: nat)
    requires |d| == 1
    ensures Decoded(Wrapped(Four(d), w, l) + Ending(w), [])
            == if 0 < w == Next(w, Next(w, Next(w, l))) then None else Some(d)
  {
    var s, x, t := Four(d), Sextets(d), Ending(w);
    FourIs(d);
    FourParts(s, []);
    Unit(s);
    BytesOfSextets(d);
    Ends(d);
    var y := [] + [x[0]] + [x[1]];
    assert y == x[..2];
    assert s[2] == PAD && s[3] == PAD && Taken(d) == 1;
    var l3 := Next(w, Next(w, Next(w, l)));
    Unit([PAD]);
    assert Wrapped([PAD] + [], w, l3) == if 0 < w == l3 then [NEWLINE, PAD] else [PAD];
    PadsRead(t, y);
    EndingRead(w);
    Unit(d);
    hide *;
    WrappedRead(x[0], [s[1]] + ([s[2]] + ([s[3]] + [])), w, l, t, []);
    WrappedRead(x[1], [s[2]] + ([s[3]] + []), w, Next(w, l), t, [] + [x[0]]);
    BreakSkipped(PAD, [PAD] + [], w, Next(w, Next(w, l)), t, y);
    BeforeSome(d, []);
  }

  // The characters still to come, counted from the start of the line.
  lemma NextModulo(w: nat, l: nat, n: nat)
    requires l <= w && w > 0
    ensures (Next(w, l) + n) % w == (l + 1 + n) % w && 0 < Next(w, l) <= w
  {
    if l == w {
      AddOne(n + 1, w);
    }
  }

  lemma NextModulo4(w: nat, l: nat, n: nat)
    requires l <= w && w > 0
    ensures (Next4(w, l) + n) % w == (l + 4 + n) % w && Next4(w, l) <= w
  {
    NextModulo(w, l, n + 3);
    NextModulo(w, Next(w, l), n + 2);
    NextModulo(w, Next(w, Next(w, l)), n + 1);
    NextModulo(w, Next(w, Next(w, Next(w, l))), n);
    hide Next;
  }

  lemma LastIsBroken(w: nat, l: nat)
    requires l <= w && w > 0
    ensures Next(w, Next(w, Next(w, l))) == w <==> (l + 3) % w == 0
  {
    NextModulo(w, l, 2);
    NextModulo(w, Next(w, l), 1);
    NextModulo(w, Next(w, Next(w, l)), 0);
    var k := Next(w, Next(w, Next(w, l)));
    hide Next;
    if k == w {
      OneMore(0, w, 1, 0);
    } else {
      OneMore(0, w, 0, k);
    }
  }

  // The last of `n` characters that start in column `l` stands at the start of a line.
  predicate Broken(n: nat, w: nat, l: nat)
  {
    n > 0 && w > 0 && (l + (n - 1)) % w == 0
  }

  // The two padding characters that `d` ends in are torn apart.
  predicate Torn(d: seq<byte>, w: nat, l: nat)
  {
    |d| % 3 == 1 && Broken(|Groups(d)|, w, l)
  }

  lemma TornLater(d: seq<byte>, w: nat, l: nat)
    requires |d| >= 3 && (w > 0 ==> l <= w)
    ensures Torn(d, w, l) == Torn(d[3..], w, Next4(w, l))
    ensures w > 0 ==> Next4(w, l) <= w
  {
    GroupsLength(d);
    GroupsLength(d[3..]);
    if w > 0 {
      var n := |Groups(d[3..])|;
      NextModulo4(w, l, if n > 0 then n - 1 else 0);
    }
    hide Next4, Groups;
  }

  lemma TornShort(d: seq<byte>, w: nat, l: nat)
    requires |d| < 3 && (w > 0 ==> l <= w)
    ensures Torn(d, w, l) <==> |d| == 1 && 0 < w == Next(w, Next(w, Next(w, l)))
  {
    GroupsLength(d);
    if |d| == 1 && w > 0 {
      LastIsBroken(w, l);
    }
    hide Next, Groups;
  }

  /** What the decoder makes of what the encoder wrote. */
  lemma {:induction false} DecodedWrapped(d: seq<byte>, w: nat, l: nat)
    requires w > 0 ==> l <= w
    ensures Decoded(Wrapped(Groups(d), w, l) + Ending(w), []) == if Torn(d, w, l) then None else Some(d)
    decreases |d|
  {
    if |d| < 3 {
      TornShort(d, w, l);
      if d == [] {
        Unit(Ending(w));
        EndingRead(w);
      } else {
        assert Groups(d) == Four(d) + [];
        Unit(Four(d));
        hide *;
        if |d| == 1 {
          OneRead(d, w, l);
        } else {
          TwoRead(d, w, l);
        }
      }
    } else {
      var rest := Groups(d[3..]);
      assert Groups(d) == Four(d) + rest;
      assert d[..3] + d[3..] == d;
      hide *;
      TornLater(d, w, l);
      ThreeRead(d, rest, w, l, Ending(w));
      DecodedWrapped(d[3..], w, Next4(w, l));
      BeforeSome(d[..3], d[3..]);
      BeforeNone(d[..3]);
    }
  }

  lemma BeforeNone(x: seq<byte>)
    ensures Before(x, None) == None
  {
  }

  /** Decoding gives the data back, unless a line ends between two padding characters. */
  lemma DecodeEncode(d: seq<byte>, w: nat)
    ensures Decoded(Encoded(d, w), []) == Some(d)
            <==> !(|d| % 3 == 1 && w > 0 && (4 * (|d| / 3) + 3) % w == 0)
  {
    GroupsLength(d);
    DecodedWrapped(d, w, 0);
    hide Wrapped, Groups, Decoded;
  }

  lemma BeforeLaws(x: seq<byte>, y: seq<byte>, o: Option<seq<byte>>)
    ensures Before([], o) == o && Before(x, Before(y, o)) == Before(x + y, o)
  {
    if o.Some? {
      Unit(o.value);
      Associate(x, y, o.value);
    }
  }

  // One character.
  lemma DecodedHead(s: seq<byte>, i: nat, x: seq<byte>)
    requires i < |s| && |x| < 4
    ensures Decoded(s[i..], x)
            == if IsWhite(s[i]) then Decoded(s[i + 1..], x)
            else if s[i] == PAD then
              if |x| == 2 && i + 1 < |s| && s[i + 1] == PAD then Before(Bytes(x), Decoded(s[i + 2..], []))
              else if |x| == 3 then Before(Bytes(x), Decoded(s[i + 1..], []))
              else None
            else match Sextet(s[i])
              case None => None
              case Some(v) =>
                if |x| == 3 then Before(Bytes(x + [v]), Decoded(s[i + 1..], [])) else Decoded(s[i + 1..], x + [v])
  {
    Longer(s, i);
    if i + 1 < |s| {
      Longer(s, i + 1);
    }
    hide Bytes, Sextet, IsWhite;
  }

  /** A byte in lines of three characters: the break tears the padding apart. */
  lemma TornPadding()
    ensures Decoded(Encoded([0], 3), []) == None
  {
  }

  /** Three bytes in a line of four characters: the asserted length is one too many. */
  lemma FullLine()
    ensures |Encoded([0, 0, 0], 4)| == 5 && Reserved(3, 4) == 6
  {
  }

  method DecodeBase64(data: seq<byte>) returns (result: Option<seq<byte>>)
    ensures result == Decoded(data, [])
  {
    var bytes: seq<byte> := [];
    var i := 0;
    Ends(data);
    BeforeLaws([], [], Decoded(data, []));
    while i != |data|
      invariant i <= |data|
      invariant Decoded(data, []) == Before(bytes, Decoded(data[i..], []))
    {
      hide *;
      var x;
      x, i, result := DecodeGroup(data, i);
      if result.None? {
        BeforeNone(bytes);
        return;
      }
      BeforeLaws(bytes, result.value, Decoded(data[i..], []));
      bytes := bytes + result.value;
    }
    Ends(data);
    BeforeSome(bytes, []);
    Unit(bytes);
    result := Some(bytes);
  }

  // One turn of the loop: the bytes of the next group, or none at the end of the data.
  method DecodeGroup(data: seq<byte>, start: nat) returns (x: seq<byte>, i: nat, bytes: Option<seq<byte>>)
    requires start < |data|
    ensures bytes.Some? ==> start < i <= |data|
    ensures Decoded(data[start..], [])
            == if bytes.None? then None else Before(bytes.value, Decoded(data[i..], []))
  {
    x, i := [], start;
    var b, c := 0, 3;
    while b < 4 && i != |data|
      invariant start <= i <= |data| && 0 <= b <= 4
      invariant b < 4 ==> c == 3 && |x| == b && Decoded(data[start..], []) == Decoded(data[i..], x)
      invariant b == 4 ==> start < i && 1 <= c <= 3 && |x| == c + 1
      invariant b == 4 ==> Decoded(data[start..], []) == Before(Bytes(x), Decoded(data[i..], []))
      invariant b == 0 ==> x == []
      invariant i == start ==> b == 0
      decreases |data| - i
    {
      hide *;
      var ch := data[i];
      DecodedHead(data, i, x);
      i := i + 1;
      if IsWhite(ch) {
      } else if ch == PAD {
        if b == 2 && i < |data| && data[i] == PAD {
          i := i + 1;
          c, b := 1, 4;
        } else if b == 3 {
          c, b := 2, 4;
        } else {
          return x, i, None;
        }
      } else {
        match Sextet(ch) {
          case None =>
            return x, i, None;
          case Some(v) =>
            x := x + [v];
            b := b + 1;
        }
      }
    }
    if b == 4 {
      var s := [Byte(x[0] as int * 4, x[1] / 16)];
      if c >= 2 {
        s := s + [Byte(x[1] as int * 16, x[2] / 4)];
      }
      if c == 3 {
        s := s + [Byte(x[2] as int * 64, x[3])];
      }
      assert s == Bytes(x);
      bytes := Some(s);
    } else {
      Ends(data);
      if b != 0 {
        assert Decoded(data[i..], x) == None;
        return x, i, None;
      }
      BeforeLaws([], [], Decoded(data[i..], []));
      bytes := Some([]);
    }
  }

  // ---- the alphabet for addresses ----

  function Replaced(s: seq<byte>, a: byte, b: byte): (r: seq<byte>)
    ensures |r| == |s|
  {
    seq(|s|, i requires 0 <= i < |s| => if s[i] == a then b else s[i])
  }

  // Without the padding at the end.
  function Unpadded(s: seq<byte>): seq<byte>
    decreases |s|
  {
    if s != [] && s[|s| - 1] == PAD then Unpadded(s[..|s| - 1]) else s
  }

  // `encode_base64url`
  function UrlEncoded(d: seq<byte>): seq<byte>
  {
    Replaced(Replaced(Unpadded(Encoded(d, 0)), '+' as int, '-' as int), '/' as int, '_' as int)
  }

  // `decode_base64url`
  function UrlDecoded(s: seq<byte>): Option<seq<byte>>
  {
    var t := Replaced(Replaced(s, '-' as int, '+' as int), '_' as int, '/' as int);
    match |t| % 4
    case 0 => Decoded(t, [])
    case 1 => None
    case 2 => Decoded(t + [PAD, PAD], [])
    case 3 => Decoded(t + [PAD], [])
  }

  function Find(s: seq<byte>, ch: byte, from: nat): (p: nat)
    requires from <= |s|
    ensures from <= p <= |s| && (p < |s| ==> s[p] == ch)
    ensures forall i :: from <= i < p ==> s[i] != ch
    decreases |s| - from
  {
    if from == |s| || s[from] == ch then from else Find(s, ch, from + 1)
  }

  method Replace(s: seq<byte>, a: byte, b: byte) returns (r: seq<byte>)
    ensures r == Replaced(s, a, b)
  {
    r := s;
    var p := Find(r, a, 0);
    while p < |r|
      invariant |r| == |s| && p <= |s| && (p < |s| ==> s[p] == a)
      invariant forall i :: 0 <= i < p ==> r[i] == if s[i] == a then b else s[i]
      invariant forall i :: p <= i < |s| ==> r[i] == s[i]
      decreases |r| - p
    {
      r := r[p := b];
      p := Find(r, a, p + 1);
    }
  }

  method EncodeBase64Url(data: seq<byte>) returns (result: seq<byte>)
    ensures result == UrlEncoded(data)
  {
    result := EncodeBase64(data, 0);
    while result != [] && result[|result| - 1] == PAD
      invariant Unpadded(result) == Unpadded(Encoded(data, 0))
      decreases |result|
    {
      result := result[..|result| - 1];
    }
    result := Replace(result, '+' as int, '-' as int);
    result := Replace(result, '/' as int, '_' as int);
  }

  method DecodeBase64Url(data: seq<byte>) returns (result: Option<seq<byte>>)
    ensures result == UrlDecoded(data)
  {
    var s := Replace(data, '-' as int, '+' as int);
    s := Replace(s, '_' as int, '/' as int);
    match |s| % 4 {
      case 0 =>
      case 1 => return None;
      case 2 => s := s + [PAD, PAD];
      case 3 => s := s + [PAD];
    }
    result := DecodeBase64(s);
  }

  lemma {:induction false} UnpaddedBehind(s: seq<byte>, t: seq<byte>)
    requires s != [] && s[|s| - 1] != PAD
    ensures Unpadded(s + t) == s + Unpadded(t)
    decreases |t|
  {
    if t == [] {
      Unit(s);
    } else {
      assert (s + t)[..|s + t| - 1] == s + t[..|t| - 1];
      UnpaddedBehind(s, t[..|t| - 1]);
    }
  }

  function Padding(n: nat): seq<byte>
  {
    match n % 4
    case 0 => []
    case 1 => []
    case 2 => [PAD, PAD]
    case 3 => [PAD]
  }

  predicate Plain(s: seq<byte>)
  {
    forall i :: 0 <= i < |s| ==> s[i] != '-' as int && s[i] != '_' as int
  }

  lemma FourPlain(d: seq<byte>)
    requires d != []
    ensures Plain(Four(d)) && (|d| >= 3 ==> Four(d)[3] != PAD)
  {
    var x := Sextets(d);
    FourIs(d);
    SextetOfLetter(x[0]);
    SextetOfLetter(x[1]);
    SextetOfLetter(x[2]);
    SextetOfLetter(x[3]);
    hide Letter, Sextets;
  }

  // What was taken off the end is what the length asks for.
  lemma {:induction false} PaddedAgain(d: seq<byte>)
    ensures var u := Unpadded(Groups(d)); |u| % 4 != 1 && Plain(u) && u + Padding(|u|) == Groups(d)
    decreases |d|
  {
    if d == [] {
    } else if |d| >= 3 {
      var t := Groups(d[3..]);
      assert Groups(d) == Four(d) + t;
      hide Groups;
      FourPlain(d);
      PaddedAgain(d[3..]);
      UnpaddedBehind(Four(d), t);
      PaddedBehind(Four(d), Unpadded(t), t);
    } else {
      FourPlain(d);
      assert Groups(d) == Four(d) + [];
      Unit(Four(d));
      ShortPadding(d);
      hide Groups, Four, Unpadded;
    }
  }

  lemma PaddedBehind(f: seq<byte>, u: seq<byte>, t: seq<byte>)
    requires |f| == 4 && Plain(f)
    requires |u| % 4 != 1 && Plain(u) && u + Padding(|u|) == t
    ensures |f + u| % 4 != 1 && Plain(f + u) && (f + u) + Padding(|f + u|) == f + t
  {
    assert |f + u| % 4 == |u| % 4;
    Associate(f, u, Padding(|u|));
  }

  lemma ShortPadding(d: seq<byte>)
    requires |d| == 1 || |d| == 2
    ensures Unpadded(Four(d)) == Four(d)[..|d| + 1]
    ensures Four(d)[..|d| + 1] + Padding(|d| + 1) == Four(d)
  {
    var s, x := Four(d), Sextets(d);
    FourIs(d);
    SextetOfLetter(x[1]);
    SextetOfLetter(x[2]);
    assert s[..3][..2] == s[..2];
    assert Unpadded(s) == Unpadded(s[..3]);
    assert |d| == 1 ==> Unpadded(s[..3]) == Unpadded(s[..2]);
    hide Letter, Sextets, Four;
  }

  lemma ReplacedBack(s: seq<byte>)
    requires Plain(s)
    ensures var r := Replaced(Replaced(s, '+' as int, '-' as int), '/' as int, '_' as int);
            Replaced(Replaced(r, '-' as int, '+' as int), '_' as int, '/' as int) == s
  {
  }

  /** The unpadded form loses nothing, whatever the data. */
  lemma UrlDecodeEncode(d: seq<byte>)
    ensures UrlDecoded(UrlEncoded(d)) == Some(d)
  {
    var s := Groups(d);
    var u := Unpadded(s);
    NotWrapped(s, 0);
    Unit(s);
    assert Encoded(d, 0) == s;
    PaddedAgain(d);
    ReplacedBack(u);
    DecodeEncode(d, 0);
    Unit(u);
    hide Unpadded, Decoded, Groups;
  }
}
