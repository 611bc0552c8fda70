/** The Greek numeral test `is_greek_numeral`: one to three numeral
    letters, at most one for each power of ten (units, tens, hundreds) and
    in any order, followed by exactly one numeral sign. The source writes
    it as six alternatives, one per order of the three powers, each with
    its second and third letters optional, followed by the sign class, all
    tested with `fullmatch`. */
module Numerals {

  /** `greek_power_zero`: the units, with stigma in both cases. */
  const PowerZero: set<char> :=
    {'α', 'β', 'γ', 'δ', 'ε', '\U{3DA}', '\U{3DB}', 'ζ', 'η', 'θ'}
  /** `greek_power_one`: the tens, with both koppas in both cases. */
  const PowerOne: set<char> :=
    {'ι', 'κ', 'λ', 'μ', 'ν', 'ξ', 'ο', 'π', '\U{3DE}', '\U{3DF}', '\U{3D8}', '\U{3D9}'}
  /** `greek_power_two`: the hundreds, with sampi in both cases. */
  const PowerTwo: set<char> :=
    {'ρ', 'σ', 'τ', 'υ', 'φ', 'χ', 'ψ', 'ω', '\U{3E0}', '\U{3E1}'}
  /** `apostrophes`: the signs that mark a numeral, the lower keraia for
      thousands among them. */
  const Apostrophes: set<char> :=
    {'\'', '’', '‘', '´', '΄', '`', '\U{2BC}', '͵'}

  /** `[A][B]?[C]?` matched against the whole of `s`. */
  predicate Chain(s: string, a: set<char>, b: set<char>, c: set<char>)
  {
    1 <= |s| <= 3 && s[0] in a
    && (|s| == 2 ==> s[1] in b || s[1] in c)
    && (|s| == 3 ==> s[1] in b && s[2] in c)
  }

  /** The alternation of `greek_numeral` matched against the whole of `s`. */
  predicate Letters(s: string)
  {
    Chain(s, PowerZero, PowerOne, PowerTwo) || Chain(s, PowerZero, PowerTwo, PowerOne)
    || Chain(s, PowerOne, PowerZero, PowerTwo) || Chain(s, PowerOne, PowerTwo, PowerZero)
    || Chain(s, PowerTwo, PowerZero, PowerOne) || Chain(s, PowerTwo, PowerOne, PowerZero)
  }

  /** `is_greek_numeral(word)`: `greek_numeral.fullmatch(word)`. The sign
      class matches one character, so a full match is the alternation on
      everything but the last character, and a sign at the end. */
  predicate IsGreekNumeral(word: string)
  {
    word != [] && word[|word| - 1] in Apostrophes && Letters(word[..|word| - 1])
  }

  /** The numeral letters. */
  const NumeralLetters: set<char> := PowerZero + PowerOne + PowerTwo

  /* Each class lies in its own range of code points, which makes the
     classes cheap to tell apart. */

  predicate ZeroCode(ch: char)
  {
    'α' <= ch <= 'θ' || ch == '\U{3DA}' || ch == '\U{3DB}'
  }

  predicate OneCode(ch: char)
  {
    'ι' <= ch <= 'π' || '\U{3D8}' <= ch <= '\U{3D9}' || '\U{3DE}' <= ch <= '\U{3DF}'
  }

  predicate TwoCode(ch: char)
  {
    'ρ' <= ch <= 'ω' || '\U{3E0}' <= ch <= '\U{3E1}'
  }

  lemma ZeroCodes(ch: char)
    requires ch in PowerZero
    ensures ZeroCode(ch)
  {
  }

  lemma OneCodes(ch: char)
    requires ch in PowerOne
    ensures OneCode(ch)
  {
  }

  lemma TwoCodes(ch: char)
    requires ch in PowerTwo
    ensures TwoCode(ch)
  {
  }

  lemma ApostropheCodes(ch: char)
    requires ch in Apostrophes
    ensures !ZeroCode(ch) && !OneCode(ch) && !TwoCode(ch)
  {
  }

  /** The three classes share no letter, and no numeral sign is a letter. */
  lemma ClassesDisjoint()
    ensures forall ch :: !(ch in PowerZero && ch in PowerOne)
    ensures forall ch :: !(ch in PowerZero && ch in PowerTwo)
    ensures forall ch :: !(ch in PowerOne && ch in PowerTwo)
    ensures forall ch :: !(ch in NumeralLetters && ch in Apostrophes)
  {
    forall ch | ch in PowerZero
      ensures ch !in PowerOne && ch !in PowerTwo && ch !in Apostrophes
    {
      ZeroCodes(ch);
      if ch in PowerOne {
        OneCodes(ch);
      }
      if ch in PowerTwo {
        TwoCodes(ch);
      }
      if ch in Apostrophes {
        ApostropheCodes(ch);
      }
    }
    forall ch | ch in PowerOne
      ensures ch !in PowerTwo && ch !in Apostrophes
    {
      OneCodes(ch);
      if ch in PowerTwo {
        TwoCodes(ch);
      }
      if ch in Apostrophes {
        ApostropheCodes(ch);
      }
    }
    forall ch | ch in PowerTwo
      ensures ch !in Apostrophes
    {
      TwoCodes(ch);
      if ch in Apostrophes {
        ApostropheCodes(ch);
      }
    }
  }

  /** The power of ten a numeral letter stands for: 0 for the units, 1 for
      the tens, 2 for the hundreds. */
  function Power(ch: char): (p: nat)
    requires ch in NumeralLetters
    ensures p <= 2
    ensures p == 0 <==> ch in PowerZero
    ensures p == 1 <==> ch in PowerOne
    ensures p == 2 <==> ch in PowerTwo
  {
    ClassesDisjoint();
    if ch in PowerZero then 0 else if ch in PowerOne then 1 else 2
  }

  /** The reference reading: one to three numeral letters of pairwise
      different powers, then one numeral sign. */
  predicate Numeral(word: string)
  {
    2 <= |word| <= 4 && word[|word| - 1] in Apostrophes
    && (forall k :: 0 <= k < |word| - 1 ==> word[k] in NumeralLetters)
    && (forall j, k :: 0 <= j < k < |word| - 1 ==> Power(word[j]) != Power(word[k]))
  }

  /** The six alternatives accept exactly the strings of one to three
      letters with pairwise different powers. */
  lemma LettersMeans(s: string)
    ensures Letters(s) <==>
              1 <= |s| <= 3
              && (forall k :: 0 <= k < |s| ==> s[k] in NumeralLetters)
              && (forall j, k :: 0 <= j < k < |s| ==> Power(s[j]) != Power(s[k]))
  {
    ClassesDisjoint();
    if 1 <= |s| <= 3 && (forall k :: 0 <= k < |s| ==> s[k] in NumeralLetters) {
      var p0 := Power(s[0]);
      if |s| >= 2 {
        var p1 := Power(s[1]);
        if |s| == 3 {
          var p2 := Power(s[2]);
        }
      }
    }
  }

  /** `is_greek_numeral` accepts exactly the reference numerals. */
  lemma IsGreekNumeralMeans(word: string)
    ensures IsGreekNumeral(word) <==> Numeral(word)
  {
    if word != [] {
      var body := word[..|word| - 1];
      LettersMeans(body);
      assert forall k :: 0 <= k < |body| ==> body[k] == word[k];
    }
  }

  /** A full match leaves nothing over: anything written after a numeral,
      a second sign included, makes the test fail. */
  lemma NothingAfter(word: string, more: string)
    requires IsGreekNumeral(word) && more != []
    ensures !IsGreekNumeral(word + more)
  {
    ClassesDisjoint();
    var w := word + more;
    IsGreekNumeralMeans(w);
    assert w[|word| - 1] == word[|word| - 1];
  }

  /** Without a final sign there is no numeral. */
  lemma NeedsSign(word: string)
    requires word == [] || word[|word| - 1] !in Apostrophes
    ensures !IsGreekNumeral(word)
  {
  }

  /** The numerals of the source's own demonstration are accepted. */
  lemma AcceptedExamples()
    ensures IsGreekNumeral("α'")
    ensures IsGreekNumeral("\U{3E1}`")
    ensures IsGreekNumeral("\U{3E1}\U{3DF}\U{3DB}`")
  {
    assert "α'"[..1] == "α";
    assert "\U{3E1}`"[..1] == "\U{3E1}";
    assert "\U{3E1}\U{3DF}\U{3DB}`"[..3] == "\U{3E1}\U{3DF}\U{3DB}";
  }

  /** Two letters of the same power, the empty string and a bare sign are
      rejected. */
  lemma RejectedExamples()
    ensures !IsGreekNumeral("αβ'")
    ensures !IsGreekNumeral("")
    ensures !IsGreekNumeral("'")
  {
    assert "αβ'"[..2] == "αβ";
    assert "'"[..0] == "";
  }
}
