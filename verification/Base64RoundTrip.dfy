/** Decoding an encoding gives the data back, whatever is scattered among the symbols. */
module Base64RoundTrip {
  import opened Text
  import opened Base64
  import opened Base64Standard

  /** The four sextets of a 24-bit word. */
  function Split(w: nat): (v: seq<Sextet>)
    requires w < 0x100_0000
    ensures |v| == 4
  {
    [w / 0x4_0000 % 64, w / 0x1000 % 64, w / 64 % 64, w % 64]
  }

  /** The sextets of an encoding, padding left out. */
  function SextetsOf(d: Bytes): seq<Sextet> {
    if |d| == 0 then []
    else if |d| == 1 then Split(Word(d[0], ZERO, ZERO))[..2]
    else if |d| == 2 then Split(Word(d[0], d[1], ZERO))[..3]
    else Split(Word(d[0], d[1], d[2])) + SextetsOf(d[3..])
  }

  lemma OctetsOfWord(b0: Byte, b1: Byte, b2: Byte)
    ensures var v := Split(Word(b0, b1, b2));
      Octet0(v[0], v[1]) == b0 && Octet1(v[1], v[2]) == b1 && Octet2(v[2], v[3]) == b2
  {
    var a, b, c := b0 as int, b1 as int, b2 as int;
    assert Word(b0, b1, b2) == a / 4 * 0x4_0000 + (a % 4 * 16 + b / 16) * 0x1000 + (b % 16 * 4 + c / 64) * 64 + c % 64;
    Digits64(a / 4, a % 4 * 16 + b / 16, b % 16 * 4 + c / 64, c % 64);
    Refit(a, b, c);
  }

  lemma Refit(a: nat, b: nat, c: nat)
    requires a < 256 && b < 256 && c < 256
    ensures a / 4 * 4 + (a % 4 * 16 + b / 16) / 16 == a
    ensures (a % 4 * 16 + b / 16) % 16 * 16 + (b % 16 * 4 + c / 64) / 4 == b
    ensures (b % 16 * 4 + c / 64) % 4 * 64 + c % 64 == c
  {
  }

  lemma {:induction false} UnpackSextetsOf(d: Bytes)
    ensures Unpack(SextetsOf(d)) == d
  {
    hide Split, Word, Octet0, Octet1, Octet2;
    if |d| == 1 {
      OctetsOfWord(d[0], ZERO, ZERO);
    } else if |d| == 2 {
      OctetsOfWord(d[0], d[1], ZERO);
    } else if |d| >= 3 {
      OctetsOfWord(d[0], d[1], d[2]);
      UnpackSextetsOf(d[3..]);
      var v := SextetsOf(d);
      assert v[4..] == SextetsOf(d[3..]);
      assert d == [d[0], d[1], d[2]] + d[3..];
    }
  }

  lemma {:induction false} SextetsOfSymbols(v: seq<Sextet>, rest: string)
    requires |v| <= 4
    ensures Sextets(seq(|v|, i requires 0 <= i < |v| => Sym(v[i])) + rest) == v + Sextets(rest)
    decreases |v|
  {
    hide Sym, Dec, Sextets;
    var t := seq(|v|, i requires 0 <= i < |v| => Sym(v[i]));
    if v == [] {
      assert t + rest == rest;
    } else {
      var tail := seq(|v[1..]|, i requires 0 <= i < |v[1..]| => Sym(v[1..][i]));
      SextetsOfSymbols(v[1..], rest);
      assert t + rest == [Sym(v[0])] + (tail + rest);
      SymbolFirst(v[0], tail + rest);
      assert v == [v[0]] + v[1..];
      Assoc([v[0]], v[1..], Sextets(rest));
    }
  }

  lemma SymbolFirst(n: Sextet, rest: string)
    ensures Sextets([Sym(n)] + rest) == [n] + Sextets(rest)
  {
    hide Sym, Dec;
    DecSym(n);
    assert ([Sym(n)] + rest)[1..] == rest;
  }

  lemma {:induction false} SextetsOfEncode(d: Bytes)
    ensures Sextets(Encode(d)) == SextetsOf(d)
  {
    hide Split, Word, Sym, Dec;
    if |d| == 1 {
      TakeQuad(Word(d[0], ZERO, ZERO), 2, "==");
    } else if |d| == 2 {
      TakeQuad(Word(d[0], d[1], ZERO), 3, "=");
    } else if |d| >= 3 {
      TakeQuad(Word(d[0], d[1], d[2]), 4, Encode(d[3..]));
      SextetsOfEncode(d[3..]);
    }
  }

  lemma TakeQuad(w: nat, k: nat, rest: string)
    requires w < 0x100_0000 && k <= 4
    requires k < 4 ==> rest != "" && rest[0] == '='
    ensures Sextets(Quad(w)[..k] + rest) == Split(w)[..k] + Sextets(rest)
    ensures k == 4 ==> Quad(w)[..k] == Quad(w) && Split(w)[..k] == Split(w)
    ensures k < 4 ==> Sextets(rest) == []
  {
    var v := Split(w)[..k];
    SextetsOfSymbols(v, rest);
    assert Quad(w)[..k] == seq(|v|, i requires 0 <= i < |v| => Sym(v[i]));
  }

  /** The characters of `t` that mean something to the decoder, up to the first '=' or NUL. */
  function Significant(t: string): string {
    if t == "" || Dec(t[0]) == B64EOF then ""
    else (if Dec(t[0]) == B64NOP then "" else [t[0]]) + Significant(t[1..])
  }

  lemma {:induction false} SextetsOfSignificant(t: string)
    ensures Sextets(t) == Sextets(Significant(t))
  {
    if t != "" && Dec(t[0]) != B64EOF {
      SextetsOfSignificant(t[1..]);
      if Dec(t[0]) == B64NOP {
        assert Significant(t) == Significant(t[1..]);
      } else {
        assert Significant(t)[1..] == Significant(t[1..]);
      }
    }
  }

  /**
   * Round trip: any text whose significant characters are those of the encoding decodes to the
   * data, so line breaks and other characters outside the alphabet may stand anywhere in it.
   */
  lemma RoundTrip(d: Bytes, t: string)
    requires Significant(t) == Significant(Encode(d))
    ensures Unpack(Sextets(t)) == d
  {
    SextetsOfSignificant(t);
    SextetsOfSignificant(Encode(d));
    SextetsOfEncode(d);
    UnpackSextetsOf(d);
  }

  /** What the standard makes of some data, a decoder that takes the standard's values gives back. */
  lemma StandardReadBack(d: Bytes)
    ensures Unpack(Sextets(Standard(d))) == d && Sextets(Standard(d)) == Values(Standard(d))
  {
    hide LETTERS;
    EncodeIsStandard(d);
    RoundTrip(d, Standard(d));
    SextetsAreValues(Standard(d));
  }

  /** The letter of a sextet, as the first of the encoding of one byte. */
  lemma FirstLetter(n: nat)
    requires n < 64
    ensures |Encode([(4 * n) as char])| == 4
    ensures Encode([(4 * n) as char])[0] == "ABCDEFGHIJKLMNOPQRSTUVWXYZabcdefghijklmnopqrstuvwxyz0123456789+/"[n]
  {
    hide LETTERS, Encode;
    LetterFirst(n);
    AllLetters();
  }

  lemma LetterFirst(n: nat)
    requires n < 64
    ensures var e := Encode([(4 * n) as char]); |e| == 4 && |LETTERS| == 64 && e[0] == LETTERS[n]
  {
    hide LETTERS, Sym, Word;
    var b := (4 * n) as char;
    SymIsLetter(n);
    QuadIs(b, ZERO, ZERO);
    assert b as int / 4 == n;
  }

  /** The letters of the alphabet, in order, have the values 0 to 63. */
  lemma AlphabetValues()
    ensures Sextets("ABCDEFGHIJKLMNOPQRSTUVWXYZabcdefghijklmnopqrstuvwxyz0123456789+/") == seq(64, i requires 0 <= i < 64 => i)
  {
    hide LETTERS, Sym, Dec;
    SymIsLetter(0);
    LettersFrom(0);
    assert LETTERS[0..] == LETTERS;
    AllLetters();
  }

  lemma AllLetters()
    ensures LETTERS == "ABCDEFGHIJKLMNOPQRSTUVWXYZabcdefghijklmnopqrstuvwxyz0123456789+/"
  {
  }

  lemma {:induction false} LettersFrom(k: nat)
    requires k <= 64 == |LETTERS|
    ensures Sextets(LETTERS[k..]) == seq(64 - k, i requires 0 <= i < 64 - k => i + k)
    decreases 64 - k
  {
    hide LETTERS, Sym, Dec;
    if k == 64 {
    } else {
      SymIsLetter(k);
      DecSym(k);
      LettersFrom(k + 1);
      assert LETTERS[k..][1..] == LETTERS[k + 1..];
    }
  }

  /** A character outside the alphabet, inserted anywhere, does not change what a text decodes to. */
  lemma {:induction false} InsertNoise(a: string, x: char, b: string)
    requires Dec(x) == B64NOP
    ensures Significant(a + [x] + b) == Significant(a + b)
  {
    var t, u := a + [x] + b, a + b;
    if a == "" {
      assert t[1..] == b && u == b;
    } else {
      assert t[1..] == a[1..] + [x] + b && u[1..] == a[1..] + b;
      assert t[0] == u[0] == a[0];
      InsertNoise(a[1..], x, b);
    }
  }

  /** Symbols and padding only: none of them ends a line, and '_' is not among them. */
  lemma {:induction false} EncodeAlphabet(d: Bytes)
    ensures forall c :: c in Encode(d) ==> Dec(c) < 64 || c == '='
  {
    hide Word;
    if |d| >= 3 {
      QuadAlphabet(Word(d[0], d[1], d[2]));
      EncodeAlphabet(d[3..]);
    } else if |d| == 2 {
      QuadAlphabet(Word(d[0], d[1], ZERO));
    } else if |d| == 1 {
      QuadAlphabet(Word(d[0], ZERO, ZERO));
    }
  }

  lemma QuadAlphabet(w: nat)
    requires w < 0x100_0000
    ensures forall i :: 0 <= i < 4 ==> Dec(Quad(w)[i]) < 64
  {
    DecSym(w / 0x4_0000 % 64);
    DecSym(w / 0x1000 % 64);
    DecSym(w / 64 % 64);
    DecSym(w % 64);
  }
}
