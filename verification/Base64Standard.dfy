/**
 Base64 as RFC 4648 describes it: the alphabet, the groups, the padding, and which texts are refused.
 */
module Base64Standard {
  import opened Options
  import opened Utf8
  import opened Sequences
  import opened Base64

  // Table 1 of section 4.
  const CAPITALS: string := "ABCDEFGHIJKLMNOPQRSTUVWXYZ"
  const SMALL: string := "abcdefghijklmnopqrstuvwxyz"
  const FIGURES: string := "0123456789+/"
  const ALPHABET: string := CAPITALS + SMALL + FIGURES

  lemma CapitalAt(v: nat)
    requires v < 26
    ensures CAPITALS[v] as int == 65 + v
  {
    if v < 13 {
      assert v in {0, 1, 2, 3, 4, 5, 6, 7, 8, 9, 10, 11, 12};
    } else {
      assert v in {13, 14, 15, 16, 17, 18, 19, 20, 21, 22, 23, 24, 25};
    }
  }

  lemma SmallAt(v: nat)
    requires v < 26
    ensures SMALL[v] as int == 97 + v
  {
    if v < 13 {
      assert v in {0, 1, 2, 3, 4, 5, 6, 7, 8, 9, 10, 11, 12};
    } else {
      assert v in {13, 14, 15, 16, 17, 18, 19, 20, 21, 22, 23, 24, 25};
    }
  }

  lemma FigureAt(v: nat)
    requires v < 12
    ensures FIGURES[v] as int == if v < 10 then 48 + v else if v == 10 then 43 else 47
  {
    assert v in {0, 1, 2, 3, 4, 5, 6, 7, 8, 9, 10, 11};
  }

  /** The letters are those of the table. */
  lemma LetterInTable(v: sextet)
    ensures |ALPHABET| == 64 && Letter(v) == ALPHABET[v] as int
  {
    if v < 26 {
      CapitalAt(v);
    } else if v < 52 {
      SmallAt(v - 26);
    } else {
      FigureAt(v - 52);
    }
    var c, m, f := CAPITALS, SMALL, FIGURES;
    assert |c| == 26 && |m| == 26 && |f| == 12 && ALPHABET == c + m + f;
    hide CAPITALS, SMALL, FIGURES;
  }

  // ---- writing ----

  // The letter of the table for six bits.
  function InTable(n: nat): byte
  {
    LetterInTable(n % 64);
    ALPHABET[n % 64] as int
  }

  lemma TableIsLetter(n: nat)
    ensures InTable(n) == Letter(n % 64)
  {
    LetterInTable(n % 64);
    hide Letter, ALPHABET;
  }

  // The 24 bits of three bytes; what is missing at the end counts as zero bits.
  function Bits24(d: seq<byte>): nat
    requires d != []
  {
    0x1_0000 * (d[0] as int) + (if |d| > 1 then 0x100 * (d[1] as int) else 0) + if |d| > 2 then d[2] else 0
  }

  /** They are written in four letters, with padding for those that hold only missing bits. */
  lemma GroupIsWritten(d: seq<byte>)
    requires d != []
    ensures var n := Bits24(d);
      Four(d) == [InTable(n / 0x4_0000), InTable(n / 0x1000), if |d| > 1 then InTable(n / 0x40) else 61,
                  if |d| > 2 then InTable(n) else 61]
  {
    var a, b, c := d[0], if |d| > 1 then d[1] else 0, if |d| > 2 then d[2] else 0;
    assert Bits24(d) == 0x1_0000 * (a as int) + 0x100 * (b as int) + c;
    assert Four(d) == [Letter(a / 4), Letter(a % 4 * 16 + b / 16), if |d| > 1 then Letter(b % 16 * 4 + c / 64) else 61,
                       if |d| > 2 then Letter(c % 64) else 61];
    hide *;
    LettersOf(a, b, c, Bits24(d));
  }

  lemma LettersOf(a: byte, b: byte, c: byte, n: nat)
    requires n == 0x1_0000 * (a as int) + 0x100 * (b as int) + c
    ensures InTable(n / 0x4_0000) == Letter(a / 4) && InTable(n / 0x1000) == Letter(a % 4 * 16 + b / 16)
    ensures InTable(n / 0x40) == Letter(b % 16 * 4 + c / 64) && InTable(n) == Letter(c % 64)
  {
    hide *;
    FourSextets(a, b, c);
    TableIsLetter(n / 0x4_0000);
    TableIsLetter(n / 0x1000);
    TableIsLetter(n / 0x40);
    TableIsLetter(n);
  }

  /** Without lines the text is one such group after the other. */
  lemma {:induction false} GroupsAreWritten(d: seq<byte>, i: nat)
    requires 3 * i < |d|
    ensures 4 * i + 4 <= |Encoded(d, 0)| && Encoded(d, 0)[4 * i..4 * i + 4] == Four(d[3 * i..])
    decreases i
  {
    hide *;
    GroupThenRest(d);
    if i > 0 {
      var rest := d[3..];
      Skip(d, 3, 3 * (i - 1));
      GroupsAreWritten(rest, i - 1);
      Behind(Four(d), Encoded(rest, 0), 4 * i);
    } else {
      Sequences.Ends(d);
      FirstFour(Four(d), Encoded(d[Taken(d)..], 0));
    }
  }

  lemma GroupThenRest(d: seq<byte>)
    requires d != []
    ensures Taken(d) <= |d| && (|d| > 3 ==> Taken(d) == 3)
    ensures Encoded(d, 0) == Four(d) + Encoded(d[Taken(d)..], 0)
  {
    var rest := d[Taken(d)..];
    var f, g := Four(d), Groups(rest);
    assert Groups(d) == f + g;
    NotWrapped(f + g, 0);
    NotWrapped(g, 0);
    assert Encoded(d, 0) == f + g + [] && Encoded(rest, 0) == g + [];
    Unit(f + g);
    Unit(g);
  }

  /** A test vector of section 10: "fo". */
  lemma TestVector()
    ensures Encoded([102, 111], 0) == [90, 109, 56, 61]
  {
  }

  lemma Skip<T>(s: seq<T>, i: nat, j: nat)
    requires i + j <= |s|
    ensures s[i..][j..] == s[i + j..]
  {
  }

  lemma FirstFour(f: seq<byte>, g: seq<byte>)
    requires |f| == 4
    ensures |f + g| >= 4 && (f + g)[0..4] == f
  {
  }

  lemma Behind(f: seq<byte>, g: seq<byte>, k: nat)
    requires |f| == 4 <= k && k <= |g|
    ensures k + 4 <= |f + g| && (f + g)[k..k + 4] == g[k - 4..k]
  {
  }

  lemma FourSextets(a: byte, b: byte, c: byte)
    ensures var n := 0x1_0000 * (a as int) + 0x100 * (b as int) + c;
      && n / 0x4_0000 % 64 == a / 4 && n / 0x1000 % 64 == a % 4 * 16 + b / 16
      && n / 0x40 % 64 == b % 16 * 4 + c / 64 && n % 64 == c % 64
  {
    var n := 0x1_0000 * (a as int) + 0x100 * (b as int) + c;
    Division(n, a / 4, 0x4_0000, 0x1_0000 * (a % 4) + 0x100 * b + c);
    Division(n, 16 * a + b / 16, 0x1000, 0x100 * (b % 16) + c);
    Division(n, 1024 * a + 4 * b + c / 64, 0x40, c % 64);
    Remainder(a / 4, 0, a / 4);
    Remainder(16 * a + b / 16, a / 4, a % 4 * 16 + b / 16);
    Remainder(1024 * a + 4 * b + c / 64, 16 * a + b / 16, b % 16 * 4 + c / 64);
    Remainder(n, 1024 * a + 4 * b + c / 64, c % 64);
  }

  lemma Division(n: nat, q: nat, m: nat, r: nat)
    requires m in {0x4_0000, 0x1000, 0x40} && n == q * m + r && r < m
    ensures n / m == q
  {
  }

  lemma Remainder(n: nat, q: nat, r: nat)
    requires n == 64 * q + r && r < 64
    ensures n % 64 == r
  {
  }

  // ---- lines ----

  // No more than `w` characters before a line feed, with `l` on the line already.
  predicate ShortLines(t: seq<byte>, w: nat, l: nat)
  {
    t == [] || if t[0] == 10 then ShortLines(t[1..], w, 0) else l < w && ShortLines(t[1..], w, l + 1)
  }

  function WithoutFeeds(t: seq<byte>): seq<byte>
  {
    if t == [] then [] else (if t[0] == 10 then [] else [t[0]]) + WithoutFeeds(t[1..])
  }

  /** Wrapping adds only line feeds, and leaves no line longer than asked for. */
  lemma {:induction false} WrappedInLines(s: seq<byte>, w: nat, l: nat)
    requires l <= w && 0 < w && 10 !in s
    ensures ShortLines(Wrapped(s, w, l), w, l) && WithoutFeeds(Wrapped(s, w, l)) == s
    decreases |s|
  {
    if s != [] {
      var c, rest := s[0], s[1..];
      FirstOf(s, []);
      assert c != 10 && forall x :: x in rest ==> x in s;
      if l == w {
        var t := Wrapped(rest, w, 1);
        WrappedInLines(rest, w, 1);
        assert Wrapped(s, w, l) == [10, c] + t;
        assert ([10, c] + t)[1..] == [c] + t && ([c] + t)[1..] == t;
      } else {
        var t := Wrapped(rest, w, l + 1);
        WrappedInLines(rest, w, l + 1);
        assert Wrapped(s, w, l) == [c] + t && ([c] + t)[1..] == t;
      }
    }
  }

  // ---- reading ----

  // Space, tab, line feed and carriage return.
  predicate IsBlank(c: byte)
  {
    c == 32 || c == 9 || c == 10 || c == 13
  }

  // What the table has an index for; some of these characters are not in the alphabet.
  predicate Indexed(c: byte)
  {
    43 <= c <= 122 && c != 61
  }

  function Stripped(s: seq<byte>): seq<byte>
  {
    if s == [] then [] else (if IsBlank(s[0]) then [] else [s[0]]) + Stripped(s[1..])
  }

  // A character of the table, or padding in the last place of a group, or before such padding; `n`
  // characters were read before.
  predicate GroupedAt(t: seq<byte>, n: nat, i: nat)
    requires i < |t|
  {
    Indexed(t[i])
    || (t[i] == 61 && ((n + i) % 4 == 3 || ((n + i) % 4 == 2 && i + 1 < |t| && t[i + 1] == 61)))
  }

  predicate Grouped(t: seq<byte>, n: nat)
  {
    (n + |t|) % 4 == 0 && forall i :: 0 <= i < |t| ==> GroupedAt(t, n, i)
  }

  // The first of two padding characters, with something else than the second right behind it.
  predicate TornAt(s: seq<byte>, n: nat, i: nat)
  {
    i < |s| && s[i] == 61 && (n + |Stripped(s[..i])|) % 4 == 2 && (i + 1 == |s| || s[i + 1] != 61)
  }

  ghost predicate Torn(s: seq<byte>, n: nat)
  {
    exists i: nat :: TornAt(s, n, i)
  }

  lemma GroupedTail(c: byte, t: seq<byte>, n: nat)
    ensures Grouped([c] + t, n) <==>
              (Indexed(c) || (c == 61 && (n % 4 == 3 || (n % 4 == 2 && t != [] && t[0] == 61)))) && Grouped(t, n + 1)
  {
    var s := [c] + t;
    GroupedHead(c, t, n);
    assert n + |s| == n + 1 + |t|;
    hide GroupedAt, Indexed;
    if Grouped(s, n) {
      var m := n + 1;
      forall i | 0 <= i < |t| ensures GroupedAt(t, m, i) {
        assert GroupedAt(s, n, i + 1);
        GroupedLater(c, t, n, i);
      }
      assert GroupedAt(s, n, 0);
    }
    if GroupedAt(s, n, 0) && Grouped(t, n + 1) {
      forall i | 0 <= i < |s| ensures GroupedAt(s, n, i) {
        if i > 0 {
          GroupedLater(c, t, n, i - 1);
        }
      }
    }
  }

  lemma GroupedHead(c: byte, t: seq<byte>, n: nat)
    ensures GroupedAt([c] + t, n, 0)
      <==> Indexed(c) || (c == 61 && (n % 4 == 3 || (n % 4 == 2 && t != [] && t[0] == 61)))
  {
    assert t != [] ==> ([c] + t)[1] == t[0];
    hide Indexed;
  }

  lemma GroupedLater(c: byte, t: seq<byte>, n: nat, i: nat)
    requires i < |t|
    ensures GroupedAt([c] + t, n, i + 1) == GroupedAt(t, n + 1, i)
  {
    assert ([c] + t)[i + 1] == t[i] && n + (i + 1) == n + 1 + i;
    assert i + 1 < |t| ==> ([c] + t)[i + 2] == t[i + 1];
    hide Indexed;
  }

  lemma Around(t: seq<byte>, s: seq<byte>)
    ensures Grouped(t, 4) == Grouped(t, 0) && Torn(s, 4) == Torn(s, 0)
  {
    forall i | 0 <= i < |t| ensures GroupedAt(t, 4, i) == GroupedAt(t, 0, i) {
      FourMore(i);
    }
    FourMore(|t|);
    forall i: nat ensures TornAt(s, 4, i) == TornAt(s, 0, i) {
      if i < |s| {
        FourMore(|Stripped(s[..i])|);
      }
    }
    hide GroupedAt, TornAt;
  }

  lemma FourMore(n: nat)
    ensures (4 + n) % 4 == (0 + n) % 4
  {
  }

  lemma TornTail(s: seq<byte>, n: nat)
    requires s != []
    ensures Torn(s, n) <==> TornAt(s, n, 0) || Torn(s[1..], if IsBlank(s[0]) then n else n + 1)
  {
    var m := if IsBlank(s[0]) then n else n + 1;
    forall i: nat ensures TornAt(s, n, i + 1) == TornAt(s[1..], m, i) {
      if i + 1 < |s| {
        assert s[..i + 1][0] == s[0] && s[..i + 1][1..] == s[1..][..i];
      }
    }
    hide TornAt;
    if i: nat :| TornAt(s, n, i) && i > 0 {
      assert TornAt(s[1..], m, i - 1);
    }
    if i: nat :| TornAt(s[1..], m, i) {
      assert TornAt(s, n, i + 1);
    }
  }

  /**
   A text is decoded exactly when, without its blanks, it is made of groups of four characters with
   padding only at the end of a group, and nothing stands between two characters of padding.
   */
  lemma {:induction false} DecodedExactly(s: seq<byte>, x: seq<byte>)
    requires |x| < 4
    ensures Decoded(s, x).Some? <==> Grouped(Stripped(s), |x|) && !Torn(s, |x|)
    decreases |s|
  {
    var n := |x|;
    if s != [] {
      var c, rest := s[0], s[1..];
      var t := Stripped(rest);
      TornTail(s, n);
      TornHead(s, n);
      GroupedTail(c, t, n);
      Around(t, rest);
      Characters(c);
      assert Stripped(s) == if IsBlank(c) then t else [c] + t;
      assert rest != [] && rest[0] == 61 ==> t == [61] + Stripped(rest[1..]);
      hide Grouped, Torn, TornAt, Bytes, Stripped, Sextet;
      if IsBlank(c) {
        DecodedExactly(rest, x);
      } else if c == 61 && n == 2 && rest != [] && rest[0] == 61 {
        var more := rest[1..];
        assert more == s[2..];
        TornTail(rest, 3);
        GroupedTail(61, Stripped(more), 3);
        Around(Stripped(more), more);
        TornHead(rest, 3);
        DecodedExactly(more, []);
      } else if c == 61 {
        if n == 3 {
          DecodedExactly(rest, []);
        }
      } else if Sextet(c).Some? {
        if n == 3 {
          DecodedExactly(rest, []);
        } else {
          DecodedExactly(rest, x + [Sextet(c).value]);
        }
      }
    }
  }

  lemma TornHead(s: seq<byte>, n: nat)
    requires s != []
    ensures TornAt(s, n, 0) <==> s[0] == 61 && n % 4 == 2 && (|s| == 1 || s[1] != 61)
  {
    assert Stripped(s[..0]) == [];
  }

  lemma Characters(c: byte)
    ensures IsBlank(c) == IsWhite(c) && (Sextet(c).Some? && !IsBlank(c) && c != 61 <==> Indexed(c)) && PAD == 61
  {
  }

  predicate InAlphabet(c: byte)
  {
    exists v :: 0 <= v < 64 && InTable(v) == c
  }

  /** Four commas are decoded, though no comma is in the alphabet. */
  lemma CommasDecoded()
    ensures Decoded([44, 44, 44, 44], []).Some? && !InAlphabet(44)
  {
    var s := [44, 44, 44, 44];
    assert Stripped(s) == s by {
      assert s[1..] == [44, 44, 44] && s[1..][1..] == [44, 44] && s[1..][1..][1..] == [44];
    }
    DecodedExactly(s, []);
    forall v | 0 <= v < 64 ensures InTable(v) != 44 {
      TableIsLetter(v);
    }
  }

  predicate AlphabetCode(c: byte)
  {
    65 <= c <= 90 || 97 <= c <= 122 || 48 <= c <= 57 || c == 43 || c == 47
  }

  lemma LetterCode(v: sextet)
    ensures AlphabetCode(Letter(v))
  {
  }

  lemma CodeLetter(c: byte) returns (v: sextet)
    requires AlphabetCode(c)
    ensures Letter(v) == c
  {
    v := if 65 <= c <= 90 then c - 65 else if c >= 97 then c - 71 else if c >= 48 then c + 4
         else if c == 43 then 62 else 63;
  }

  lemma AlphabetCodes(c: byte)
    ensures InAlphabet(c) <==> AlphabetCode(c)
  {
    hide InTable, Letter, AlphabetCode;
    if v :| 0 <= v < 64 && InTable(v) == c {
      Small(v);
      TableIsLetter(v);
      LetterCode(v);
    }
    if AlphabetCode(c) {
      var v := CodeLetter(c);
      Small(v);
      TableIsLetter(v);
    }
  }

  lemma Small(v: nat)
    ensures v < 64 ==> v % 64 == v
  {
  }

  /** What is decoded without being in the alphabet, and counts as 128. */
  lemma StrayCharacters(c: byte)
    ensures InAlphabet(c) ==> Indexed(c)
    ensures Indexed(c) && !InAlphabet(c) <==> c in {44, 45, 46} || 58 <= c <= 60 || 62 <= c <= 64 || 91 <= c <= 96
    ensures Indexed(c) && !InAlphabet(c) ==> Sextet(c) == Some(128)
  {
    AlphabetCodes(c);
    hide InAlphabet;
  }
}
