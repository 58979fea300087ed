/** The acceptance grammar of `atof` (`stdlib.c`).

    `atof` reads, in order: spaces; an optional `+` or `-`; whole digits; an
    optional `.` or `,` followed by fraction digits; an optional `e` or `E`
    with an optional sign and exponent digits; spaces. Any other character
    left over makes it return 0.0. One counter limits the digits of all three
    runs together to 1000: a digit past the limit is left unread, and being a
    leftover character it makes the whole string fail.

    The input here is the string's bytes before its terminator, so the end
    of the sequence is the `'\0'` the source tests for. `Valid` and
    `Render` state the grammar; `Scan` follows the source's loops and is
    proved to accept exactly the texts of valid parses, and to return the
    parse each text was rendered from. `Meaning` gives the digit values as
    naturals; the double the source computes from them is not modelled. */
module Atof {

  /** A C `char` of the string, as its byte value. */
  newtype Byte = b: int | 0 <= b < 256

  const MaxDigits: nat := 1000

  const Space: Byte := 0x20
  const PlusChar: Byte := 0x2B
  const MinusChar: Byte := 0x2D
  const Comma: Byte := 0x2C
  const Dot: Byte := 0x2E

  predicate IsDigit(c: Byte) {
    0x30 <= c <= 0x39
  }

  predicate IsSeparator(c: Byte) {
    c == Dot || c == Comma
  }

  predicate IsExponentMark(c: Byte) {
    c == 0x65 || c == 0x45
  }

  datatype Sign = NoSign | Plus | Minus

  datatype Fraction = NoFraction | Fraction(separator: Byte, digits: seq<Byte>)

  datatype Exponent = NoExponent | Exponent(mark: Byte, sign: Sign, digits: seq<Byte>)

  /** An accepted string, piece by piece: the number of leading spaces, the
      sign, the whole digits, the fraction, the exponent, and the number of
      trailing spaces. */
  datatype Syntax = Syntax(leading: nat, sign: Sign, whole: seq<Byte>, fraction: Fraction,
                           exponent: Exponent, trailing: nat)

  function SignText(sign: Sign): seq<Byte> {
    match sign
    case NoSign => []
    case Plus => [PlusChar]
    case Minus => [MinusChar]
  }

  function FractionText(f: Fraction): seq<Byte> {
    match f
    case NoFraction => []
    case Fraction(sep, digits) => [sep] + digits
  }

  function ExponentText(e: Exponent): seq<Byte> {
    match e
    case NoExponent => []
    case Exponent(mark, sign, digits) => [mark] + SignText(sign) + digits
  }

  function Spaces(n: nat): (s: seq<Byte>)
    ensures |s| == n
  {
    seq(n, _ => Space)
  }

  function FractionDigits(f: Fraction): seq<Byte> {
    if f.Fraction? then f.digits else []
  }

  function ExponentDigits(e: Exponent): seq<Byte> {
    if e.Exponent? then e.digits else []
  }

  predicate AllDigits(s: seq<Byte>) {
    forall i | 0 <= i < |s| :: IsDigit(s[i])
  }

  /** The strings `atof` accepts, as a grammar: every piece well formed, at
      most 1000 digits in all, and trailing spaces only after something
      other than spaces (otherwise they are leading spaces). */
  predicate Valid(x: Syntax) {
    AllDigits(x.whole)
    && (x.fraction.Fraction? ==> IsSeparator(x.fraction.separator) && AllDigits(x.fraction.digits))
    && (x.exponent.Exponent? ==> IsExponentMark(x.exponent.mark) && AllDigits(x.exponent.digits))
    && |x.whole| + |FractionDigits(x.fraction)| + |ExponentDigits(x.exponent)| <= MaxDigits
    && (x.sign == NoSign && x.whole == [] && x.fraction == NoFraction && x.exponent == NoExponent
        ==> x.trailing == 0)
  }

  /** The text a parse stands for. */
  function Render(x: Syntax): seq<Byte> {
    Spaces(x.leading) + (SignText(x.sign) + (x.whole + (FractionText(x.fraction)
      + (ExponentText(x.exponent) + Spaces(x.trailing)))))
  }

  /** Where the space loop starting at `i` stops. */
  function SpacesEnd(s: seq<Byte>, i: nat): (j: nat)
    requires i <= |s|
    ensures i <= j <= |s| && (j == |s| || s[j] != Space)
    decreases |s| - i
  {
    if i < |s| && s[i] == Space then SpacesEnd(s, i + 1) else i
  }

  /** The characters the space loop passes are spaces. */
  lemma {:induction false} SpacesPiece(s: seq<Byte>, i: nat)
    requires i <= |s|
    ensures s[i..SpacesEnd(s, i)] == Spaces(SpacesEnd(s, i) - i)
    decreases |s| - i
  {
    if i < |s| && s[i] == Space {
      SpacesPiece(s, i + 1);
      assert s[i..SpacesEnd(s, i)] == [Space] + s[i + 1..SpacesEnd(s, i)];
    }
  }

  /** Where a digit loop starting at `i` stops when `budget` more digits
      are allowed. */
  function DigitsEnd(s: seq<Byte>, i: nat, budget: nat): (j: nat)
    requires i <= |s|
    ensures i <= j <= |s| && j - i <= budget
    ensures j - i == budget || j == |s| || !IsDigit(s[j])
    decreases |s| - i
  {
    if i < |s| && budget > 0 && IsDigit(s[i]) then DigitsEnd(s, i + 1, budget - 1) else i
  }

  /** The characters a digit loop passes are digits. */
  lemma {:induction false} DigitsPiece(s: seq<Byte>, i: nat, budget: nat)
    requires i <= |s|
    ensures AllDigits(s[i..DigitsEnd(s, i, budget)])
    decreases |s| - i
  {
    if i < |s| && budget > 0 && IsDigit(s[i]) {
      DigitsPiece(s, i + 1, budget - 1);
      assert s[i..DigitsEnd(s, i, budget)] == [s[i]] + s[i + 1..DigitsEnd(s, i, budget)];
    }
  }

  /** Where an optional sign at `i` ends. */
  function SignEnd(s: seq<Byte>, i: nat): (j: nat)
    requires i <= |s|
    ensures i <= j <= |s| && j <= i + 1
    ensures j == i + 1 <==> i < |s| && (s[i] == PlusChar || s[i] == MinusChar)
  {
    if i < |s| && (s[i] == PlusChar || s[i] == MinusChar) then i + 1 else i
  }

  /** The sign a piece of text of length at most one spells. */
  function SignOf(piece: seq<Byte>): Sign {
    if |piece| == 0 then NoSign else if piece[0] == MinusChar then Minus else Plus
  }

  /** The number of digits in a fraction piece of length `n`. */
  function FractionDigitCount(n: nat): nat {
    if n == 0 then 0 else n - 1
  }

  /** Where the fraction starting at `i` ends when `used` digits have been
      read: after a separator and the digits that follow it, or at `i`. */
  function FractionEnd(s: seq<Byte>, i: nat, used: nat): (j: nat)
    requires i <= |s| && used <= MaxDigits
    ensures i <= j <= |s|
    ensures j == i <==> !(i < |s| && IsSeparator(s[i]))
    ensures used + FractionDigitCount(j - i) <= MaxDigits
  {
    if i < |s| && IsSeparator(s[i]) then DigitsEnd(s, i + 1, MaxDigits - used) else i
  }

  /** The fraction a piece of text spells. */
  function FractionOf(piece: seq<Byte>): Fraction {
    if |piece| == 0 then NoFraction else Fraction(piece[0], piece[1..])
  }

  /** Where the exponent starting at `i` ends when `used` digits have been
      read: after a mark, an optional sign and digits, or at `i`. */
  function ExponentEnd(s: seq<Byte>, i: nat, used: nat): (j: nat)
    requires i <= |s| && used <= MaxDigits
    ensures i <= j <= |s|
    ensures j == i <==> !(i < |s| && IsExponentMark(s[i]))
  {
    if i < |s| && IsExponentMark(s[i]) then DigitsEnd(s, SignEnd(s, i + 1), MaxDigits - used) else i
  }

  /** The exponent a piece of text spells. */
  function ExponentOf(piece: seq<Byte>): Exponent {
    if |piece| == 0 then NoExponent
    else
      var k := SignEnd(piece, 1);
      Exponent(piece[0], SignOf(piece[1..k]), piece[k..])
  }

  /** Where the scanner stands after each piece: the leading spaces, the
      sign, the whole digits, the fraction, the exponent and the trailing
      spaces. */
  datatype Cuts = Cuts(spaces: nat, sign: nat, whole: nat, fraction: nat, exponent: nat, end: nat)

  predicate Ordered(c: Cuts, s: seq<Byte>) {
    c.spaces <= c.sign <= c.whole <= c.fraction <= c.exponent <= c.end <= |s|
  }

  /** `c` records where each of the source's loops stops on `s`, each
      starting where the one before it stopped. */
  predicate Scanned(s: seq<Byte>, c: Cuts) {
    c.spaces == SpacesEnd(s, 0)
    && c.sign <= |s| && c.sign == SignEnd(s, c.spaces)
    && c.whole <= |s| && c.whole == DigitsEnd(s, c.sign, MaxDigits)
    && c.whole - c.sign <= MaxDigits && c.fraction <= |s|
    && c.fraction == FractionEnd(s, c.whole, c.whole - c.sign)
    && c.whole - c.sign + FractionDigitCount(c.fraction - c.whole) <= MaxDigits && c.exponent <= |s|
    && c.exponent == ExponentEnd(s, c.fraction, c.whole - c.sign + FractionDigitCount(c.fraction - c.whole))
    && c.end == SpacesEnd(s, c.exponent)
  }

  /** The positions the source's pointer reaches, stage by stage. */
  function CutsOf(s: seq<Byte>): (c: Cuts)
    ensures Ordered(c, s) && Scanned(s, c)
  {
    var p0 := SpacesEnd(s, 0);
    var p1 := SignEnd(s, p0);
    var p2 := DigitsEnd(s, p1, MaxDigits);
    var p3 := FractionEnd(s, p2, p2 - p1);
    var p4 := ExponentEnd(s, p3, p2 - p1 + FractionDigitCount(p3 - p2));
    Cuts(p0, p1, p2, p3, p4, SpacesEnd(s, p4))
  }

  /** Only one set of cuts fits a string. */
  lemma ScannedUnique(s: seq<Byte>, c: Cuts)
    requires Scanned(s, c)
    ensures c == CutsOf(s)
  {
  }

  /** The parse that the pieces between the cuts spell. */
  function Build(s: seq<Byte>, c: Cuts): Syntax
    requires Ordered(c, s)
  {
    Syntax(c.spaces, SignOf(s[c.spaces..c.sign]), s[c.sign..c.whole], FractionOf(s[c.whole..c.fraction]),
           ExponentOf(s[c.fraction..c.exponent]), c.end - c.exponent)
  }

  /** The scanner of `atof`: the parse of an accepted string, or `None`
      when the trailing-space loop stops before the terminator (the source
      then returns 0.0). */
  function Scan(s: seq<Byte>): Option<Syntax> {
    var c := CutsOf(s);
    if c.end < |s| then None else Some(Build(s, c))
  }

  /** The sign read spells its own text. */
  lemma SignPiece(s: seq<Byte>, i: nat)
    requires i <= |s|
    ensures SignText(SignOf(s[i..SignEnd(s, i)])) == s[i..SignEnd(s, i)]
  {
  }

  /** The fraction read spells its own text, and its digits fit the
      budget. */
  lemma FractionPiece(s: seq<Byte>, i: nat, used: nat, j: nat)
    requires i <= |s| && used <= MaxDigits && j == FractionEnd(s, i, used)
    ensures FractionText(FractionOf(s[i..j])) == s[i..j]
    ensures |FractionDigits(FractionOf(s[i..j]))| == FractionDigitCount(j - i)
    ensures var f := FractionOf(s[i..j]);
            f.Fraction? ==> IsSeparator(f.separator) && AllDigits(f.digits)
  {
    if j > i {
      DigitsPiece(s, i + 1, MaxDigits - used);
      assert s[i..j][1..] == s[i + 1..j];
      assert s[i..j] == [s[i]] + s[i + 1..j];
    }
  }

  /** The exponent read spells its own text, and its digits fit the
      budget. */
  lemma ExponentPiece(s: seq<Byte>, i: nat, used: nat, j: nat)
    requires i <= |s| && used <= MaxDigits && j == ExponentEnd(s, i, used)
    ensures ExponentText(ExponentOf(s[i..j])) == s[i..j]
    ensures used + |ExponentDigits(ExponentOf(s[i..j]))| <= MaxDigits
    ensures var e := ExponentOf(s[i..j]);
            e.Exponent? ==> IsExponentMark(e.mark) && AllDigits(e.digits)
  {
    if j > i {
      var piece := s[i..j];
      var k := SignEnd(s, i + 1);
      assert SignEnd(piece, 1) == k - i by {
        if j > i + 1 {
          assert piece[1] == s[i + 1];
        }
      }
      var e := Exponent(s[i], SignOf(s[i + 1..k]), s[k..j]);
      assert ExponentOf(piece) == e by {
        assert piece[1..k - i] == s[i + 1..k];
        assert piece[k - i..] == s[k..j];
      }
      assert ExponentText(e) == piece by {
        SignPiece(s, i + 1);
        assert piece == [s[i]] + s[i + 1..k] + s[k..j];
      }
      assert AllDigits(e.digits) by {
        DigitsPiece(s, k, MaxDigits - used);
      }
    }
  }

  /** A sequence is the pieces between ordered cuts, joined. */
  lemma Join6(s: seq<Byte>, c: Cuts)
    requires Ordered(c, s) && c.end == |s|
    ensures s == s[..c.spaces] + (s[c.spaces..c.sign] + (s[c.sign..c.whole]
                 + (s[c.whole..c.fraction] + (s[c.fraction..c.exponent] + s[c.exponent..]))))
  {
    assert s[c.fraction..] == s[c.fraction..c.exponent] + s[c.exponent..];
    assert s[c.whole..] == s[c.whole..c.fraction] + s[c.fraction..];
    assert s[c.sign..] == s[c.sign..c.whole] + s[c.whole..];
    assert s[c.spaces..] == s[c.spaces..c.sign] + s[c.sign..];
    assert s == s[..c.spaces] + s[c.spaces..];
  }

  /** Each piece of an accepted string renders as the text between its
      cuts. */
  lemma BuildPieces(s: seq<Byte>, c: Cuts)
    requires Scanned(s, c) && c.end == |s|
    ensures Ordered(c, s)
    ensures Spaces(Build(s, c).leading) == s[..c.spaces]
    ensures SignText(Build(s, c).sign) == s[c.spaces..c.sign]
    ensures Build(s, c).whole == s[c.sign..c.whole]
    ensures FractionText(Build(s, c).fraction) == s[c.whole..c.fraction]
    ensures ExponentText(Build(s, c).exponent) == s[c.fraction..c.exponent]
    ensures Spaces(Build(s, c).trailing) == s[c.exponent..]
  {
    SpacesCuts(s, c);
    SignPiece(s, c.spaces);
    FractionCut(s, c);
    ExponentCut(s, c);
  }

  /** The leading and trailing pieces the cuts give are spaces. */
  lemma SpacesCuts(s: seq<Byte>, c: Cuts)
    requires Scanned(s, c) && c.end == |s|
    ensures s[..c.spaces] == Spaces(c.spaces)
    ensures s[c.exponent..] == Spaces(|s| - c.exponent)
  {
    SpacesPiece(s, 0);
    assert s[0..c.spaces] == s[..c.spaces];
    SpacesPiece(s, c.exponent);
  }

  /** The fraction piece the cuts give reads back as its own text. */
  lemma FractionCut(s: seq<Byte>, c: Cuts)
    requires Scanned(s, c) && c.end == |s|
    ensures Ordered(c, s)
    ensures FractionText(FractionOf(s[c.whole..c.fraction])) == s[c.whole..c.fraction]
  {
    FractionPiece(s, c.whole, c.whole - c.sign, c.fraction);
  }

  /** The exponent piece the cuts give reads back as its own text. */
  lemma ExponentCut(s: seq<Byte>, c: Cuts)
    requires Scanned(s, c) && c.end == |s|
    ensures Ordered(c, s)
    ensures ExponentText(ExponentOf(s[c.fraction..c.exponent])) == s[c.fraction..c.exponent]
  {
    ExponentPiece(s, c.fraction, c.whole - c.sign + FractionDigitCount(c.fraction - c.whole), c.exponent);
  }

  /** An accepted string is the text of its parse. */
  lemma ScanRenders(s: seq<Byte>)
    requires Scan(s).Some?
    ensures Render(Scan(s).value) == s
  {
    var c := CutsOf(s);
    BuildPieces(s, c);
    Join6(s, c);
  }

  /** Every piece of the parse the cuts give is well formed, and the
      digits of all three runs fit the budget. */
  lemma BuildWellFormed(s: seq<Byte>, c: Cuts)
    requires Scanned(s, c) && c.end == |s|
    ensures Ordered(c, s)
    ensures AllDigits(Build(s, c).whole)
    ensures var f := Build(s, c).fraction;
            f.Fraction? ==> IsSeparator(f.separator) && AllDigits(f.digits)
    ensures var e := Build(s, c).exponent;
            e.Exponent? ==> IsExponentMark(e.mark) && AllDigits(e.digits)
    ensures var x := Build(s, c);
            |x.whole| + |FractionDigits(x.fraction)| + |ExponentDigits(x.exponent)| <= MaxDigits
  {
    var x := Build(s, c);
    assert AllDigits(x.whole) by {
      DigitsPiece(s, c.sign, MaxDigits);
    }
    assert |FractionDigits(x.fraction)| == FractionDigitCount(c.fraction - c.whole)
      && (x.fraction.Fraction? ==> IsSeparator(x.fraction.separator) && AllDigits(x.fraction.digits)) by {
      FractionPiece(s, c.whole, c.whole - c.sign, c.fraction);
    }
    assert c.whole - c.sign + FractionDigitCount(c.fraction - c.whole) + |ExponentDigits(x.exponent)| <= MaxDigits
      && (x.exponent.Exponent? ==> IsExponentMark(x.exponent.mark) && AllDigits(x.exponent.digits)) by {
      ExponentPiece(s, c.fraction, c.whole - c.sign + FractionDigitCount(c.fraction - c.whole), c.exponent);
    }
  }

  /** Soundness: what the scanner accepts is a valid parse of the string. */
  lemma ScanSound(s: seq<Byte>)
    requires Scan(s).Some?
    ensures Valid(Scan(s).value) && Render(Scan(s).value) == s
  {
    var c := CutsOf(s);
    var x := Build(s, c);
    ScanRenders(s);
    BuildWellFormed(s, c);
    if x.sign == NoSign && x.whole == [] && x.fraction == NoFraction && x.exponent == NoExponent {
      BuildPieces(s, c);
      assert c.spaces == c.exponent;
    }
  }

  /** The space loop stops at the end of a run of spaces. */
  lemma {:induction false} SpacesEndOf(s: seq<Byte>, i: nat, j: nat)
    requires i <= j <= |s| && s[i..j] == Spaces(j - i)
    requires j == |s| || s[j] != Space
    ensures SpacesEnd(s, i) == j
    decreases j - i
  {
    if i < j {
      assert s[i] == s[i..j][0];
      assert s[i + 1..j] == s[i..j][1..];
      SpacesEndOf(s, i + 1, j);
    }
  }

  /** A digit loop with budget enough stops at the end of a run of
      digits. */
  lemma {:induction false} DigitsEndOf(s: seq<Byte>, i: nat, j: nat, budget: nat)
    requires i <= j <= |s| && AllDigits(s[i..j]) && j - i <= budget
    requires j == |s| || !IsDigit(s[j])
    ensures DigitsEnd(s, i, budget) == j
    decreases j - i
  {
    if i < j {
      assert s[i] == s[i..j][0];
      assert s[i + 1..j] == s[i..j][1..];
      DigitsEndOf(s, i + 1, j, budget - 1);
    }
  }

  /** Reading back the text of a sign gives the sign. */
  lemma SignOfText(sign: Sign)
    ensures SignOf(SignText(sign)) == sign
  {
  }

  /** Reading back the text of a fraction gives the fraction. */
  lemma FractionOfText(f: Fraction)
    ensures FractionOf(FractionText(f)) == f
  {
    if f.Fraction? {
      assert FractionText(f)[1..] == f.digits;
    }
  }

  /** Reading back the text of an exponent gives the exponent. */
  lemma ExponentOfText(e: Exponent)
    requires e.Exponent? ==> AllDigits(e.digits)
    ensures ExponentOf(ExponentText(e)) == e
  {
    if e.Exponent? {
      var piece := ExponentText(e);
      var k := 1 + |SignText(e.sign)|;
      assert SignEnd(piece, 1) == k by {
        if |e.digits| > 0 && e.sign == NoSign {
          assert piece[1] == e.digits[0];
        }
      }
      assert piece[1..k] == SignText(e.sign);
      SignOfText(e.sign);
      assert piece[k..] == e.digits;
    }
  }

  /** The positions where the pieces of a parse meet in its text. */
  function CutsFor(x: Syntax): Cuts {
    var p1 := x.leading + |SignText(x.sign)|;
    var p2 := p1 + |x.whole|;
    var p3 := p2 + |FractionText(x.fraction)|;
    var p4 := p3 + |ExponentText(x.exponent)|;
    Cuts(x.leading, p1, p2, p3, p4, p4 + x.trailing)
  }

  /** `s`, cut at `c`, holds the pieces of `x` in order. */
  predicate Pieces(s: seq<Byte>, c: Cuts, x: Syntax) {
    Ordered(c, s) && c.end == |s|
    && s[..c.spaces] == Spaces(x.leading)
    && s[c.spaces..c.sign] == SignText(x.sign)
    && s[c.sign..c.whole] == x.whole
    && s[c.whole..c.fraction] == FractionText(x.fraction)
    && s[c.fraction..c.exponent] == ExponentText(x.exponent)
    && s[c.exponent..] == Spaces(x.trailing)
  }

  /** A suffix that is `a + rest` splits into `a` and `rest`. */
  lemma Peel(s: seq<Byte>, i: nat, a: seq<Byte>, rest: seq<Byte>)
    requires i <= |s| && s[i..] == a + rest
    ensures s[i..i + |a|] == a && s[i + |a|..] == rest
  {
    assert s[i..i + |a|] == s[i..][..|a|];
    assert s[i + |a|..] == s[i..][|a|..];
  }

  /** The text of a parse, cut at `CutsFor`, gives back its pieces. */
  lemma RenderPieces(x: Syntax)
    ensures Pieces(Render(x), CutsFor(x), x)
  {
    var s := Render(x);
    var c := CutsFor(x);
    var r4 := ExponentText(x.exponent) + Spaces(x.trailing);
    var r3 := FractionText(x.fraction) + r4;
    var r2 := x.whole + r3;
    var r1 := SignText(x.sign) + r2;
    assert s[c.spaces..] == r1 && s[..c.spaces] == Spaces(x.leading) by {
      assert s == Spaces(x.leading) + r1;
      Peel(s, 0, Spaces(x.leading), r1);
      assert s[0..c.spaces] == s[..c.spaces];
    }
    Peel(s, c.spaces, SignText(x.sign), r2);
    Peel(s, c.sign, x.whole, r3);
    Peel(s, c.whole, FractionText(x.fraction), r4);
    Peel(s, c.fraction, ExponentText(x.exponent), Spaces(x.trailing));
  }

  /** The first character of a non-empty piece. */
  lemma FirstOf(s: seq<Byte>, i: nat, j: nat, piece: seq<Byte>)
    requires i < j <= |s| && s[i..j] == piece
    ensures s[i] == piece[0]
  {
    assert s[i] == s[i..j][0];
  }

  /** The character after the leading spaces of a valid parse's text, if
      any, is not a space; after a missing sign it is not a sign. */
  lemma FirstAfterSpaces(s: seq<Byte>, c: Cuts, x: Syntax)
    requires Valid(x) && Pieces(s, c, x)
    ensures c.spaces == |s| || s[c.spaces] != Space
    ensures x.sign == NoSign && c.sign < |s| ==> s[c.sign] != PlusChar && s[c.sign] != MinusChar
  {
    if c.spaces < |s| {
      if c.spaces < c.sign {
        FirstOf(s, c.spaces, c.sign, SignText(x.sign));
      } else if c.sign < c.whole {
        FirstOf(s, c.sign, c.whole, x.whole);
      } else if c.whole < c.fraction {
        FirstOf(s, c.whole, c.fraction, FractionText(x.fraction));
      } else if c.fraction < c.exponent {
        FirstOf(s, c.fraction, c.exponent, ExponentText(x.exponent));
      } else {
        assert false;
      }
    }
  }

  /** The character after the whole digits of a valid parse's text, if
      any, is not a digit, and not a separator unless a fraction follows;
      after the fraction it is not a digit, and not a mark unless an
      exponent follows; after the exponent it is a space. */
  lemma FirstAfterWhole(s: seq<Byte>, c: Cuts, x: Syntax)
    requires Valid(x) && Pieces(s, c, x)
    ensures c.whole == |s| || !IsDigit(s[c.whole])
    ensures c.whole < |s| && x.fraction.NoFraction? ==> !IsSeparator(s[c.whole])
    ensures c.fraction == |s| || !IsDigit(s[c.fraction])
    ensures c.fraction < |s| && x.exponent.NoExponent? ==> !IsExponentMark(s[c.fraction])
    ensures c.exponent == |s| || s[c.exponent] == Space
  {
    if c.exponent < |s| {
      FirstOf(s, c.exponent, |s|, Spaces(x.trailing));
    }
    if c.fraction < c.exponent {
      FirstOf(s, c.fraction, c.exponent, ExponentText(x.exponent));
    }
    if c.whole < c.fraction {
      FirstOf(s, c.whole, c.fraction, FractionText(x.fraction));
    }
  }

  /** The fraction loop passes exactly the fraction's text. */
  lemma FractionEndOf(s: seq<Byte>, c: Cuts, x: Syntax)
    requires Valid(x) && Pieces(s, c, x)
    ensures FractionEnd(s, c.whole, |x.whole|) == c.fraction
  {
    FirstAfterWhole(s, c, x);
    if x.fraction.Fraction? {
      FirstOf(s, c.whole, c.fraction, FractionText(x.fraction));
      assert s[c.whole + 1..c.fraction] == s[c.whole..c.fraction][1..] == x.fraction.digits;
      DigitsEndOf(s, c.whole + 1, c.fraction, MaxDigits - |x.whole|);
    }
  }

  /** The exponent loop passes exactly the exponent's text. */
  lemma ExponentEndOf(s: seq<Byte>, c: Cuts, x: Syntax)
    requires Valid(x) && Pieces(s, c, x)
    ensures ExponentEnd(s, c.fraction, |x.whole| + |FractionDigits(x.fraction)|) == c.exponent
  {
    FirstAfterWhole(s, c, x);
    if x.exponent.Exponent? {
      ExponentEndAt(s, c.fraction, c.exponent, x.exponent, |x.whole| + |FractionDigits(x.fraction)|);
    }
  }

  /** The exponent loop passes exactly an exponent's text when no digit
      follows it. */
  lemma ExponentEndAt(s: seq<Byte>, i: nat, j: nat, e: Exponent, used: nat)
    requires i <= j <= |s| && s[i..j] == ExponentText(e)
    requires e.Exponent? && IsExponentMark(e.mark) && AllDigits(e.digits) && used + |e.digits| <= MaxDigits
    requires j == |s| || s[j] == Space
    ensures ExponentEnd(s, i, used) == j
  {
    var k := i + 1 + |SignText(e.sign)|;
    FirstOf(s, i, j, ExponentText(e));
    assert SignEnd(s, i + 1) == k by {
      if i + 1 < j {
        FirstOf(s, i + 1, j, ExponentText(e)[1..]);
        if e.sign == NoSign {
          assert ExponentText(e)[1] == e.digits[0];
        }
      }
    }
    assert s[k..j] == s[i..j][k - i..] == e.digits;
    DigitsEndOf(s, k, j, MaxDigits - used);
  }

  /** The cuts at which a valid parse's pieces meet are where the
      source's loops stop. */
  lemma PiecesScanned(s: seq<Byte>, c: Cuts, x: Syntax)
    requires Valid(x) && Pieces(s, c, x)
    ensures Scanned(s, c)
  {
    FrontScanned(s, c, x);
    BackScanned(s, c, x);
  }

  /** The space, sign and whole-digit loops stop where the pieces meet. */
  lemma FrontScanned(s: seq<Byte>, c: Cuts, x: Syntax)
    requires Valid(x) && Pieces(s, c, x)
    ensures c.spaces == SpacesEnd(s, 0)
    ensures c.sign == SignEnd(s, c.spaces)
    ensures c.whole == DigitsEnd(s, c.sign, MaxDigits)
  {
    FirstAfterSpaces(s, c, x);
    assert c.spaces == SpacesEnd(s, 0) by {
      assert s[0..c.spaces] == s[..c.spaces];
      SpacesEndOf(s, 0, c.spaces);
    }
    assert c.sign == SignEnd(s, c.spaces) by {
      if c.spaces < c.sign {
        FirstOf(s, c.spaces, c.sign, SignText(x.sign));
      }
    }
    assert c.whole == DigitsEnd(s, c.sign, MaxDigits) by {
      FirstAfterWhole(s, c, x);
      DigitsEndOf(s, c.sign, c.whole, MaxDigits);
    }
  }

  /** The fraction, exponent and trailing-space loops stop where the
      pieces meet. */
  lemma BackScanned(s: seq<Byte>, c: Cuts, x: Syntax)
    requires Valid(x) && Pieces(s, c, x)
    ensures c.fraction == FractionEnd(s, c.whole, c.whole - c.sign)
    ensures c.whole - c.sign + FractionDigitCount(c.fraction - c.whole) <= MaxDigits
    ensures c.exponent == ExponentEnd(s, c.fraction, c.whole - c.sign + FractionDigitCount(c.fraction - c.whole))
    ensures c.end == SpacesEnd(s, c.exponent)
  {
    FractionScanned(s, c, x);
    ExponentScanned(s, c, x);
    TrailingScanned(s, c, x);
  }

  /** The fraction loop stops where the fraction's text ends, within the
      digit budget. */
  lemma FractionScanned(s: seq<Byte>, c: Cuts, x: Syntax)
    requires Valid(x) && Pieces(s, c, x)
    ensures c.fraction == FractionEnd(s, c.whole, c.whole - c.sign)
    ensures c.whole - c.sign == |x.whole|
    ensures FractionDigitCount(c.fraction - c.whole) == |FractionDigits(x.fraction)|
  {
    assert c.whole - c.sign == |x.whole|;
    FractionEndOf(s, c, x);
    assert c.fraction - c.whole == |FractionText(x.fraction)|;
  }

  /** The exponent loop stops where the exponent's text ends. */
  lemma ExponentScanned(s: seq<Byte>, c: Cuts, x: Syntax)
    requires Valid(x) && Pieces(s, c, x)
    ensures c.exponent == ExponentEnd(s, c.fraction, c.whole - c.sign + FractionDigitCount(c.fraction - c.whole))
  {
    FractionScanned(s, c, x);
    ExponentEndOf(s, c, x);
  }

  /** The trailing-space loop stops at the end of the text. */
  lemma TrailingScanned(s: seq<Byte>, c: Cuts, x: Syntax)
    requires Valid(x) && Pieces(s, c, x)
    ensures c.end == SpacesEnd(s, c.exponent)
  {
    assert s[c.exponent..|s|] == s[c.exponent..];
    SpacesEndOf(s, c.exponent, |s|);
  }

  /** The parse the cuts give back is the one whose pieces they hold. */
  lemma BuildPiecesOf(s: seq<Byte>, c: Cuts, x: Syntax)
    requires Valid(x) && Pieces(s, c, x)
    ensures Build(s, c) == x
  {
    SignOfText(x.sign);
    FractionOfText(x.fraction);
    ExponentOfText(x.exponent);
  }

  /** The cuts the scanner finds in the text of a valid parse are where
      its pieces meet. */
  lemma CutsOfRender(x: Syntax)
    requires Valid(x)
    ensures CutsOf(Render(x)) == CutsFor(x)
  {
    RenderPieces(x);
    PiecesScanned(Render(x), CutsFor(x), x);
    ScannedUnique(Render(x), CutsFor(x));
  }

  /** Completeness: every valid parse is what the scanner makes of its own
      text. */
  lemma ScanComplete(x: Syntax)
    requires Valid(x)
    ensures Scan(Render(x)) == Some(x)
  {
    CutsOfRender(x);
    RenderPieces(x);
    BuildPiecesOf(Render(x), CutsFor(x), x);
  }

  /** The strings `atof` accepts are exactly the texts of valid parses. */
  lemma ScanAcceptsExactly(s: seq<Byte>)
    ensures Scan(s).Some? <==> exists x :: Valid(x) && Render(x) == s
  {
    if Scan(s).Some? {
      ScanSound(s);
    }
    if x :| Valid(x) && Render(x) == s {
      ScanComplete(x);
    }
  }

  /** A run of more than 1000 digits is refused: the digit loop stops at
      the limit and the next digit is a leftover character. */
  lemma LongRunRejected(s: seq<Byte>)
    requires |s| > MaxDigits && AllDigits(s)
    ensures Scan(s).None?
  {
    assert IsDigit(s[0]);
    var p2 := DigitsEnd(s, 0, MaxDigits);
    assert IsDigit(s[p2]);
    assert IsDigit(s[MaxDigits]);
    assert CutsOf(s).end == MaxDigits;
  }

  datatype Option<T> = None | Some(value: T)

  /** The digit values of an accepted string: the sign, the whole part and
      exponent as naturals, and the fraction digits one by one. */
  datatype Number = Number(negative: bool, whole: nat, fractionDigits: seq<nat>,
                           exponentNegative: bool, exponent: nat)

  function DigitValue(c: Byte): nat {
    if IsDigit(c) then (c - 0x30) as nat else 0
  }

  /** The value of a digit run, accumulated as the source does:
      `value * 10 + digit` for each digit in turn. */
  function DecimalValue(digits: seq<Byte>): nat {
    if |digits| == 0 then 0 else DecimalValue(digits[..|digits| - 1]) * 10 + DigitValue(digits[|digits| - 1])
  }

  function Pow10(n: nat): (p: nat)
    ensures p >= 1
  {
    if n == 0 then 1 else 10 * Pow10(n - 1)
  }

  /** A run of `n` digits is worth less than 10^n. */
  lemma {:induction false} DecimalValueBound(digits: seq<Byte>)
    ensures DecimalValue(digits) < Pow10(|digits|)
  {
    if |digits| > 0 {
      DecimalValueBound(digits[..|digits| - 1]);
    }
  }

  /** Digits written after others shift them up by one decimal place
      each: the accumulation reads a run positionally. */
  lemma {:induction false} DecimalValueAppend(a: seq<Byte>, b: seq<Byte>)
    ensures DecimalValue(a + b) == DecimalValue(a) * Pow10(|b|) + DecimalValue(b)
    decreases |b|
  {
    if |b| == 0 {
      assert a + b == a;
    } else {
      var b' := b[..|b| - 1];
      assert (a + b)[..|a + b| - 1] == a + b';
      assert (a + b)[|a + b| - 1] == b[|b| - 1];
      DecimalValueAppend(a, b');
    }
  }

  /** Leading zeros do not change a run's value. */
  lemma LeadingZeros(zeros: seq<Byte>, digits: seq<Byte>)
    requires forall i | 0 <= i < |zeros| :: zeros[i] == 0x30
    ensures DecimalValue(zeros + digits) == DecimalValue(digits)
  {
    assert DecimalValue(zeros) == 0 by {
      ZerosValue(zeros);
    }
    DecimalValueAppend(zeros, digits);
  }

  lemma {:induction false} ZerosValue(zeros: seq<Byte>)
    requires forall i | 0 <= i < |zeros| :: zeros[i] == 0x30
    ensures DecimalValue(zeros) == 0
  {
    if |zeros| > 0 {
      ZerosValue(zeros[..|zeros| - 1]);
    }
  }

  /** `atof`'s reading of an accepted parse. */
  function Meaning(x: Syntax): (n: Number)
    ensures n.whole < Pow10(|x.whole|)
    ensures |n.fractionDigits| == |FractionDigits(x.fraction)|
    ensures forall i | 0 <= i < |n.fractionDigits| :: n.fractionDigits[i] < 10
    ensures n.negative <==> x.sign == Minus
    ensures n.exponentNegative <==> x.exponent.Exponent? && x.exponent.sign == Minus
    ensures n.exponent < Pow10(|ExponentDigits(x.exponent)|)
  {
    DecimalValueBound(x.whole);
    DecimalValueBound(ExponentDigits(x.exponent));
    var digits := FractionDigits(x.fraction);
    Number(x.sign == Minus, DecimalValue(x.whole),
           seq(|digits|, i requires 0 <= i < |digits| => DigitValue(digits[i])),
           x.exponent.Exponent? && x.exponent.sign == Minus,
           DecimalValue(ExponentDigits(x.exponent)))
  }

  /** `atof`: the number's digit values, or `None` where the source returns
      0.0 because a character is left over. */
  function Atof(s: seq<Byte>): (r: Option<Number>)
    ensures r.Some? <==> exists x :: Valid(x) && Render(x) == s
    ensures r.Some? ==> exists x :: Valid(x) && Render(x) == s && r.value == Meaning(x)
  {
    ScanAcceptsExactly(s);
    match Scan(s)
    case None => None
    case Some(x) => ScanSound(s); Some(Meaning(x))
  }

  /** A valid parse's text reads back as that parse's number. */
  lemma AtofOfRender(x: Syntax)
    requires Valid(x)
    ensures Atof(Render(x)) == Some(Meaning(x))
  {
    ScanComplete(x);
  }
}
