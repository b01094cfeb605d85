/** Byte sizes with binary suffixes: parsing and canonical printing. */
module MemorySize {
  import opened Wrappers
  import opened Decimal
  import Text

  const KIB: nat := 1024
  const MIB: nat := 1024 * 1024
  const GIB: nat := 1024 * 1024 * 1024
  const TIB: nat := 1024 * 1024 * 1024 * 1024

  datatype ParseError = Empty | UnknownSuffix(text: string) | InvalidNumber

  /** The digits in front of `s`. */
  function Digits(s: string): (r: string)
    ensures |r| <= |s| && r == s[..|r|] && AllDigits(r)
    ensures |r| < |s| ==> !IsDigit(s[|r|])
  {
    if s == [] || !IsDigit(s[0]) then [] else [s[0]] + Digits(s[1..])
  }

  /** A trailing `ib`, else `b`, else `i` is dropped. */
  function DropUnitTail(l: string): string {
    if |l| >= 2 && l[|l| - 2] == 'i' && l[|l| - 1] == 'b' then l[..|l| - 2]
    else if |l| >= 1 && (l[|l| - 1] == 'b' || l[|l| - 1] == 'i') then l[..|l| - 1]
    else l
  }

  /** The single-letter form of a suffix; case and surrounding blanks do not matter. */
  function NormaliseSuffix(raw: string): string {
    DropUnitTail(Text.Lower(Text.Trim(raw)))
  }

  function LetterValue(c: char): Option<nat> {
    if c == 'k' then Some(KIB)
    else if c == 'm' then Some(MIB)
    else if c == 'g' then Some(GIB)
    else if c == 't' then Some(TIB)
    else None
  }

  function Multiplier(raw: string): Option<nat> {
    var letter := NormaliseSuffix(raw);
    if letter == [] then Some(1) else if |letter| == 1 then LetterValue(letter[0]) else None
  }

  /** The product is taken in 64 bits. */
  function Parse(raw: string): Result<nat, ParseError> {
    var s := Text.Trim(raw);
    if s == [] then Err(Empty)
    else
      var num := Digits(s);
      var suffix := s[|num|..];
      if num == [] then Err(UnknownSuffix(s))
      else match ParseUnsigned(num, U64_MAX)
        case None => Err(InvalidNumber)
        case Some(n) =>
          match Multiplier(suffix)
          case None => Err(UnknownSuffix(suffix))
          case Some(m) => Ok((n * m) % (U64_MAX + 1))
  }

  /** The largest unit that divides `b`, with its letter. */
  function Unit(b: nat): (nat, string) {
    if b % TIB == 0 then (TIB, "T")
    else if b % GIB == 0 then (GIB, "G")
    else if b % MIB == 0 then (MIB, "M")
    else if b % KIB == 0 then (KIB, "K")
    else (1, "")
  }

  function Display(b: nat): string {
    if b == 0 then "0" else Render(b / Unit(b).0) + Unit(b).1
  }

  // ----- which suffixes are accepted -----

  /** The spellings of one unit, lower-cased: bare, with `b`, with `i`, with `ib`. */
  predicate Spells(lower: string, letter: string) {
    lower == letter || lower == letter + ['b'] || lower == letter + ['i'] || lower == letter + ['i', 'b']
  }

  /** The units are powers of 1024. */
  lemma UnitsAreBinary()
    ensures LetterValue('k') == Some(Pow2(10)) && LetterValue('m') == Some(Pow2(20))
    ensures LetterValue('g') == Some(Pow2(30)) && LetterValue('t') == Some(Pow2(40))
  {
    assert Pow2(5) == 32;
    assert Pow2(10) == 1024;
    assert Pow2(15) == 32_768;
    assert Pow2(20) == 1_048_576;
    assert Pow2(25) == 33_554_432;
    assert Pow2(30) == 1_073_741_824;
    assert Pow2(35) == 34_359_738_368;
    assert Pow2(40) == 1_099_511_627_776;
  }

  /** Why a spelling is refused: it is blank, it does not start with a digit, its number exceeds 64 bits, or its suffix
      is no unit, in this order. */
  lemma RefusedExactly(raw: string)
    ensures var s := Text.Trim(raw);
      var num := Digits(s);
      var r := Parse(raw);
      && (r == Err(Empty) <==> s == [])
      && (r == Err(InvalidNumber) <==> num != [] && ParseUnsigned(num, U64_MAX) == None)
      && (r.Err? && r.error.UnknownSuffix? <==>
            s != [] && (num == [] || (ParseUnsigned(num, U64_MAX).Some? && Multiplier(s[|num|..]) == None)))
  {
    hide Text.Trim, ParseUnsigned, Multiplier, Digits;
    if Text.Trim(raw) == [] {
      assert Digits([]) == [];
    }
  }

  lemma DropTailTable(lower: string, letter: string)
    requires |letter| <= 1 && (letter != [] ==> letter[0] != 'b' && letter[0] != 'i')
    ensures DropUnitTail(lower) == letter <==> Spells(lower, letter)
  {
    var n := |lower|;
    if DropUnitTail(lower) == letter {
      if n >= 2 && lower[n - 2] == 'i' && lower[n - 1] == 'b' {
        assert lower == lower[..n - 2] + ['i', 'b'];
      } else if n >= 1 {
        assert lower == lower[..n - 1] + [lower[n - 1]];
      }
    }
    assert lower == letter + ['i', 'b'] ==> lower[..n - 2] == letter;
    assert lower == letter + ['i'] || lower == letter + ['b'] ==> lower[..n - 1] == letter;
  }

  predicate IsLetter(c: char) {
    c == 'k' || c == 'm' || c == 'g' || c == 't'
  }

  /** The accepted suffixes, in any case and with blanks around them, and what each multiplies by. */
  lemma MultiplierTable(raw: string)
    ensures var lower := Text.Lower(Text.Trim(raw));
      && (Multiplier(raw) == Some(1) <==> Spells(lower, []))
      && (forall c :: IsLetter(c) && Spells(lower, [c]) ==> Multiplier(raw) == LetterValue(c))
      && (Multiplier(raw) == None <==> !Spells(lower, []) && forall c :: IsLetter(c) ==> !Spells(lower, [c]))
  {
    hide Text.Trim, Text.Lower, Spells, DropUnitTail;
    var lower := Text.Lower(Text.Trim(raw));
    DropTailTable(lower, []);
    forall c | IsLetter(c) ensures DropUnitTail(lower) == [c] <==> Spells(lower, [c]) {
      DropTailTable(lower, [c]);
    }
    var letter := NormaliseSuffix(raw);
    if |letter| == 1 {
      assert letter == [letter[0]];
    }
  }

  // ----- round trip -----

  predicate IsUnit(m: nat, letter: string) {
    (m, letter) == (1, "") || (m, letter) == (KIB, "K") || (m, letter) == (MIB, "M") || (m, letter) == (GIB, "G")
    || (m, letter) == (TIB, "T")
  }

  /** The printed unit divides the size, and no larger unit does. */
  lemma UnitIsLargest(b: nat)
    requires b > 0
    ensures var (m, letter) := Unit(b);
      && IsUnit(m, letter) && b % m == 0 && b == b / m * m
      && forall m': nat, letter': string :: IsUnit(m', letter') && m' > m ==> b % m' != 0
  {
  }

  lemma UnitOne()
    ensures IsUnit(1, "")
  {
  }

  lemma {:induction false} DigitsOf(num: string, suffix: string)
    requires AllDigits(num) && (suffix != [] ==> !IsDigit(suffix[0]))
    ensures Digits(num + suffix) == num
  {
    if num == [] {
      assert num + suffix == suffix;
    } else {
      assert (num + suffix)[1..] == num[1..] + suffix;
      DigitsOf(num[1..], suffix);
    }
  }

  lemma TrimOfSolid(s: string)
    requires s != [] && !Text.IsBlank(s[0]) && !Text.IsBlank(s[|s| - 1])
    ensures Text.Trim(s) == s
  {
    assert Text.TrimStart(s) == s;
    assert Text.TrimEnd(s) == s;
  }

  lemma EmptySuffix()
    ensures NormaliseSuffix([]) == []
  {
  }

  lemma OneLetter(letter: string)
    requires |letter| == 1 && !Text.IsBlank(letter[0])
    requires var c := Text.LowerChar(letter[0]); c != 'b' && c != 'i'
    ensures NormaliseSuffix(letter) == [Text.LowerChar(letter[0])]
  {
    hide Text.Trim;
    TrimOfSolid(letter);
    assert Text.Lower(letter) == [Text.LowerChar(letter[0])];
  }

  lemma LetterMultiplies(m: nat, letter: string)
    requires IsUnit(m, letter)
    ensures Multiplier(letter) == Some(m)
  {
    hide NormaliseSuffix;
    EmptySuffix();
    if letter != [] {
      OneLetter(letter);
    }
  }

  /** A number with a canonical unit letter parses to the product, when it fits 64 bits. */
  lemma ParseScaled(n: nat, m: nat, letter: string)
    requires n <= U64_MAX && IsUnit(m, letter)
    ensures Parse(Render(n) + letter) == Ok((n * m) % (U64_MAX + 1))
  {
    var s := Render(n) + letter;
    hide Text.Trim, Multiplier, Render, Digits, ParseUnsigned;
    assert Text.Trim(s) == s by { Solid(n, letter); TrimOfSolid(s); }
    DigitsOf(Render(n), letter);
    assert s[|Render(n)|..] == letter;
    ParseOfRender(n, U64_MAX);
    LetterMultiplies(m, letter);
  }

  lemma Solid(n: nat, letter: string)
    requires letter == "" || letter == "K" || letter == "M" || letter == "G" || letter == "T"
    ensures var s := Render(n) + letter; s != [] && !Text.IsBlank(s[0]) && !Text.IsBlank(s[|s| - 1])
  {
    hide Render;
    var s := Render(n) + letter;
    assert IsDigit(Render(n)[0]) && IsDigit(Render(n)[|Render(n)| - 1]);
    assert s[0] == Render(n)[0];
  }

  lemma ZeroRoundTrip()
    ensures Parse("0") == Ok(0)
  {
    hide Parse;
    UnitOne();
    ParseScaled(0, 1, "");
    assert Render(0) + "" == "0";
  }

  /** Printing and parsing any 64-bit size gives the size back. */
  lemma DisplayRoundTrip(b: nat)
    requires b <= U64_MAX
    ensures Parse(Display(b)) == Ok(b)
  {
    hide Parse, Unit, IsUnit, Render;
    ZeroRoundTrip();
    if b > 0 {
      UnitIsLargest(b);
      ParseScaled(b / Unit(b).0, Unit(b).0, Unit(b).1);
    }
  }

  /** Any accepted spelling, once printed, is read and printed the same from then on, and its value is the true
      product exactly when that product fits 64 bits. */
  lemma AcceptedSpellingIsStable(raw: string)
    requires Parse(raw).Ok?
    ensures var b := Parse(raw).value; Parse(Display(b)) == Ok(b) && Display(Parse(Display(b)).value) == Display(b)
    ensures var s := Text.Trim(raw); var num := Digits(s);
      && ParseUnsigned(num, U64_MAX).Some? && Multiplier(s[|num|..]).Some?
      && var product := ParseUnsigned(num, U64_MAX).value * Multiplier(s[|num|..]).value;
         (Parse(raw) == Ok(product) <==> product <= U64_MAX)
  {
    hide Text.Trim, Multiplier, Digits, ParseUnsigned, Display;
    DisplayRoundTrip(Parse(raw).value);
  }
}
