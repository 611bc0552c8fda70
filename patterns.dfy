/** The static classification table of the syllabifier (its `patterns`
    dictionary) and the two predicates built on it, `is_vowel` and
    `is_consonant`.

    Every pattern is used with Python's `re.match`, which anchors at the
    start of the string only, so each pattern is a PREFIX test. The
    single-letter classes become sets of code points, the two-letter
    diphthong and adscript patterns a test on the first two code points.
    The `vowels` entry is an alternation over a set of strings assembled
    from tables this model does not contain (the macron table and the
    lower-to-upper case table); it is the parameter `vowels` throughout. */
module Patterns {
  import opened Text

  /** First letter of `diphth_y`. */
  const DiphthYFirst: set<char> := {'α', 'ε', 'η', 'ο', 'Α', 'Ε', 'Η', 'Ο'}
  /** Second letter of `diphth_y`. */
  const DiphthYSecond: set<char> := {'ὐ', 'ὔ', 'υ', 'ὑ', 'ύ', 'ὖ', 'ῦ', 'ὕ', 'ὗ', 'ὺ', 'ὒ', 'ὓ'}
  /** First letter of `diphth_i`. */
  const DiphthIFirst: set<char> := {'α', 'ε', 'υ', 'ο', 'Α', 'Ε', 'Υ', 'Ο'}
  /** Second letter of `diphth_i`. */
  const DiphthISecond: set<char> := {'ἰ', 'ί', 'ι', 'ῖ', 'ἴ', 'ἶ', 'ἵ', 'ἱ', 'ἷ', 'ὶ', 'ἲ', 'ἳ'}
  /** The single-letter alternatives of the first group of `adscr_i`; the
      remaining alternative is the two-character `α_`. */
  const AdscriptLong: set<char> :=
    {'η', 'ω', 'ἀ', 'ἠ', 'ὠ', 'ἁ', 'ἡ', 'ὡ', 'ά', 'ή', 'ώ', 'ὰ', 'ὴ', 'ὼ', 'ᾶ', 'ῆ', 'ῶ', 'ὤ',
     'ὥ', 'ὢ', 'ὣ', 'ἄ', 'ἅ', 'ἂ', 'ἃ', 'ἤ', 'ἥ', 'ἣ', 'ἢ', 'ἦ', 'ἧ', 'ἆ', 'ἇ', 'ὧ', 'ὦ'}
  /** `subscr_i`: the 36 precomposed letters with iota subscript. */
  const SubscriptIota: set<char> :=
    {'ᾄ', 'ᾂ', 'ᾆ', 'ᾀ', 'ᾅ', 'ᾃ', 'ᾇ', 'ᾁ', 'ᾴ', 'ᾲ', 'ᾷ', 'ᾳ', 'ᾔ', 'ᾒ', 'ᾖ', 'ᾐ', 'ᾕ', 'ᾓ',
     'ᾗ', 'ᾑ', 'ῄ', 'ῂ', 'ῃ', 'ῇ', 'ᾤ', 'ᾢ', 'ᾦ', 'ᾠ', 'ᾥ', 'ᾣ', 'ᾧ', 'ᾡ', 'ῴ', 'ῲ', 'ῷ', 'ῳ'}
  const Stops: set<char> :=
    {'ϝ', 'β', 'γ', 'δ', 'θ', 'κ', 'π', 'τ', 'φ', 'χ', 'Ϝ', 'Β', 'Γ', 'Δ', 'Θ', 'Κ', 'Π', 'Τ', 'Φ', 'Χ'}
  const Liquids: set<char> := {'λ', 'ρ', 'ῤ', 'ῥ', 'Λ', 'Ῥ'}
  const Nasals: set<char> := {'μ', 'ν', 'Μ', 'Ν'}
  /** `double_cons`: ζ, ξ, ψ in both cases. */
  const DoubleConsonants: set<char> := {'ζ', 'ξ', 'ψ', 'Ζ', 'Ξ', 'Ψ'}
  const Sibilants: set<char> := {'σ', 'ς', 'Σ'}

  /** Every code point some consonant class starts with. */
  const ConsonantLetters: set<char> := Stops + Liquids + Nasals + DoubleConsonants + Sibilants

  /** The vowels written out in the source, one constant per source line;
      the vowel alternation contains each of them as a one-letter string. */
  const VowelsLine1: set<char> :=
    {'α', 'ε', 'η', 'ι', 'ο', 'υ', 'ω', 'ἀ', 'ἁ', 'ἐ', 'ἑ', 'ἠ', 'ἡ', 'ἰ', 'ἱ', 'ὀ', 'ὁ', 'ὐ', 'ὑ', 'ὠ', 'ὡ', 'ά', 'ὰ', 'έ', 'ὲ', 'ή', 'ὴ', 'ό', 'ὸ', 'ί', 'ὶ', 'ὺ', 'ύ', 'ώ', 'ὼ'}
  const VowelsLine2: set<char> :=
    {'ἄ', 'ἅ', 'ἔ', 'ἕ', 'ὄ', 'ὅ', 'ὂ', 'ὃ', 'ἤ', 'ἥ', 'ἴ', 'ἵ', 'ὔ', 'ὕ', 'ὤ', 'ὥ', 'ἂ', 'ἃ', 'ἒ', 'ἓ', 'ἢ', 'ἣ', 'ἲ', 'ἳ', 'ὒ', 'ὓ', 'ὢ', 'ὣ'}
  const VowelsLine3: set<char> :=
    {'ᾶ', 'ῆ', 'ῖ', 'ῦ', 'ῶ', 'ἇ', 'ἆ', 'ἦ', 'ἧ', 'ἶ', 'ἷ', 'ὖ', 'ὗ', 'ὦ', 'ὧ', 'ϋ', 'ϊ', 'ΐ', 'ῒ', 'ῢ', 'ΰ', 'ῗ', 'ῧ'}
  const LiteralVowels: set<char> := VowelsLine1 + VowelsLine2 + VowelsLine3


  /** `re.match(r'[...]', s)` for a one-letter class. */
  predicate StartsIn(s: string, cls: set<char>)
  {
    |s| >= 1 && s[0] in cls
  }

  /** `re.match(patterns['diphth_y'], s)`. */
  predicate DiphthY(s: string)
  {
    |s| >= 2 && s[0] in DiphthYFirst && s[1] in DiphthYSecond
  }

  /** `re.match(patterns['diphth_i'], s)`. */
  predicate DiphthI(s: string)
  {
    |s| >= 2 && s[0] in DiphthIFirst && s[1] in DiphthISecond
  }

  /** `re.match(patterns['adscr_i'], s)`: `α_` or a long vowel, then ι. */
  predicate AdscrI(s: string)
  {
    (|s| >= 3 && s[0] == 'α' && s[1] == '_' && s[2] == 'ι')
    || (|s| >= 2 && s[0] in AdscriptLong && s[1] == 'ι')
  }

  /** `re.match(patterns['vowels'], s)`: some member of the vowel alternation
      is a prefix of `s` (the optional trailing breve or macron of the
      pattern cannot make a prefix match fail). */
  predicate VowelPattern(vowels: set<string>, s: string)
  {
    exists v :: v in vowels && v <= s
  }

  /** The quantity markup: `^` for a short and `_` for a long vowel. */
  const Markup: set<char> := {'^', '_'}

  /** Punctuation and the other non-letter characters the syllabifier meets:
      the word separator `⋮`, the Greek punctuation class and the characters
      of the trailing-character list. */
  const Punctuation: set<char> :=
    {'⋮', '.', ',', ';', ':', '!', '?', '\'', '"', '«', '»', '(', ')', '[', ']', '{', '}', '<', '>',
     '-', '—', '–', '…', '†', '×', '⏑', '⏓', '\\', '\U{B7}', '\U{387}', '\U{37E}', '‘', '’'}

  /* The letter classes placed by code point, which makes their
     disjointness cheap to establish: the consonants occupy the Greek and
     Coptic block apart from its vowels, plus digamma and the three rho
     forms with breathing; every vowel is a letter of the Greek and Coptic
     block (the capitals with tonos included, the ano teleia U+0387 not) or
     of the Greek Extended block, and is not a consonant. */

  predicate ConsonantCode(c: char)
  {
    (('\U{392}' <= c <= '\U{3A8}' || '\U{3B2}' <= c <= '\U{3C8}')
     && c != 'Ε' && c != 'Η' && c != 'Ι' && c != 'Ο' && c != 'Υ'
     && c != 'ε' && c != 'η' && c != 'ι' && c != 'ο' && c != 'υ')
    || c == 'Ϝ' || c == 'ϝ' || c == 'ῤ' || c == 'ῥ' || c == 'Ῥ'
  }

  predicate VowelCode(c: char)
  {
    (c == '\U{386}' || '\U{388}' <= c <= '\U{38A}' || c == '\U{38C}' || '\U{38E}' <= c <= '\U{3CE}'
     || '\U{1F00}' <= c <= '\U{1FFF}')
    && !ConsonantCode(c)
  }

  lemma ConsonantLetterCode(c: char)
    requires c in ConsonantLetters
    ensures ConsonantCode(c)
  {
    if c in Stops {
      StopCode(c);
    } else {
      OtherConsonantCode(c);
    }
  }

  lemma OtherConsonantCode(c: char)
    requires c in Liquids || c in Nasals || c in DoubleConsonants || c in Sibilants
    ensures ConsonantCode(c)
  {
  }

  lemma StopCode(c: char)
    requires c in Stops
    ensures ConsonantCode(c)
  {
  }

  lemma LiteralVowelCode(c: char)
    requires c in LiteralVowels
    ensures VowelCode(c)
  {
    if c in VowelsLine1 {
      Line1Code(c);
    } else if c in VowelsLine2 {
      Line2Code(c);
    } else {
      Line3Code(c);
    }
  }

  lemma Line1Code(c: char)
    requires c in VowelsLine1
    ensures VowelCode(c)
  {
  }

  lemma Line2Code(c: char)
    requires c in VowelsLine2
    ensures VowelCode(c)
  {
  }

  lemma Line3Code(c: char)
    requires c in VowelsLine3
    ensures VowelCode(c)
  {
  }

  lemma VowelStartCode(c: char)
    requires c in AdscriptLong || c in SubscriptIota || c in DiphthYFirst || c in DiphthIFirst
             || c == 'α'
    ensures VowelCode(c)
  {
    if c in AdscriptLong {
      assert VowelCode(c);
    } else if c in SubscriptIota {
      assert VowelCode(c);
    }
  }

  /** A character outside the vowel code points starts no diphthong,
      adscript or subscript pattern. */
  lemma NotAVowelStart(c: char)
    requires !VowelCode(c)
    ensures c !in AdscriptLong && c !in SubscriptIota && c !in DiphthYFirst
            && c !in DiphthIFirst && c != 'α'
  {
    if c in AdscriptLong || c in SubscriptIota || c in DiphthYFirst || c in DiphthIFirst || c == 'α' {
      VowelStartCode(c);
    }
  }

  lemma OtherCode(c: char)
    requires c in Whitespace || c in Punctuation || c in Markup
    ensures !VowelCode(c) && !ConsonantCode(c)
  {
  }

  /** What the model needs of the unseen vowel table: it holds every vowel
      written out in the source, and each of its members is a non-empty
      string that begins with a Greek vowel code point. The macron forms
      and the capitals, with or without tonos, that the source adds begin
      with such a code point. */
  ghost predicate Admissible(vowels: set<string>)
  {
    HoldsLiteralVowels(vowels) && VowelShaped(vowels)
  }

  /** The vowel table holds every vowel written out in the source. */
  ghost predicate HoldsLiteralVowels(vowels: set<string>)
  {
    forall c :: c in LiteralVowels ==> [c] in vowels
  }

  /** Every member of the vowel table is a non-empty string that begins
      with a Greek vowel code point. */
  ghost predicate VowelShaped(vowels: set<string>)
  {
    forall v :: v in vowels ==> v != [] && VowelCode(v[0])
  }

  /** `is_vowel`: markup removed, then any of `vowels`, `diphth_y`,
      `diphth_i`, `adscr_i`, `subscr_i` matches at the start. */
  predicate IsVowel(vowels: set<string>, element: string)
  {
    var clean := StripMarkup(element);
    VowelPattern(vowels, clean) || DiphthY(clean) || DiphthI(clean) || AdscrI(clean)
    || StartsIn(clean, SubscriptIota)
  }

  /** `is_consonant`: markup removed, then any of `stops`, `liquids`,
      `nasals`, `double_cons`, `sibilants` matches at the start. */
  predicate IsConsonant(element: string)
  {
    var clean := StripMarkup(element);
    StartsIn(clean, Stops) || StartsIn(clean, Liquids) || StartsIn(clean, Nasals)
    || StartsIn(clean, DoubleConsonants) || StartsIn(clean, Sibilants)
  }

  /** Whether any entry of `patterns` matches at the start of `s`, markup
      included: the test the scanner applies to a recomposed letter. */
  predicate AnyPattern(vowels: set<string>, s: string)
  {
    VowelPattern(vowels, s) || DiphthY(s) || DiphthI(s) || AdscrI(s) || StartsIn(s, SubscriptIota)
    || StartsIn(s, Stops) || StartsIn(s, Liquids) || StartsIn(s, Nasals)
    || StartsIn(s, DoubleConsonants) || StartsIn(s, Sibilants)
  }

  /** The number of entries of `patterns`. */
  const PatternCount: nat := 10

  /** Entry `k` of `patterns`, in the order of the dictionary, matched at
      the start of `s`. */
  predicate PatternAt(vowels: set<string>, k: nat, s: string)
    requires k < PatternCount
  {
    if k == 0 then DiphthY(s)
    else if k == 1 then DiphthI(s)
    else if k == 2 then AdscrI(s)
    else if k == 3 then StartsIn(s, SubscriptIota)
    else if k == 4 then StartsIn(s, Stops)
    else if k == 5 then StartsIn(s, Liquids)
    else if k == 6 then StartsIn(s, Nasals)
    else if k == 7 then StartsIn(s, DoubleConsonants)
    else if k == 8 then StartsIn(s, Sibilants)
    else VowelPattern(vowels, s)
  }

  /** A pattern that matches makes the search succeed. */
  lemma PatternAtAny(vowels: set<string>, k: nat, s: string)
    requires k < PatternCount && PatternAt(vowels, k, s)
    ensures AnyPattern(vowels, s)
  {
  }

  /** When no entry matches, the search fails. */
  lemma NoPatternAt(vowels: set<string>, s: string)
    requires forall k :: 0 <= k < PatternCount ==> !PatternAt(vowels, k, s)
    ensures !AnyPattern(vowels, s)
  {
    assert !PatternAt(vowels, 0, s) && !PatternAt(vowels, 1, s) && !PatternAt(vowels, 2, s);
    assert !PatternAt(vowels, 3, s) && !PatternAt(vowels, 4, s) && !PatternAt(vowels, 5, s);
    assert !PatternAt(vowels, 6, s) && !PatternAt(vowels, 7, s) && !PatternAt(vowels, 8, s);
    assert !PatternAt(vowels, 9, s);
  }

  /** A consonant is a string whose first non-markup character is a
      consonant letter. */
  lemma IsConsonantMeans(element: string)
    ensures IsConsonant(element) <==>
            (StripMarkup(element) != [] && StripMarkup(element)[0] in ConsonantLetters)
  {
  }

  /** `is_vowel` ignores the markup characters `^` and `_`. */
  lemma IsVowelIgnoresMarkup(vowels: set<string>, s: string)
    ensures IsVowel(vowels, s) == IsVowel(vowels, StripMarkup(s))
  {
    StripMarkupIdempotent(s);
  }

  /** `is_consonant` ignores the markup characters `^` and `_`. */
  lemma IsConsonantIgnoresMarkup(s: string)
    ensures IsConsonant(s) == IsConsonant(StripMarkup(s))
  {
    StripMarkupIdempotent(s);
  }

  /** `is_vowel` only looks at a prefix: what follows cannot undo a match. */
  lemma IsVowelExtends(vowels: set<string>, s: string, t: string)
    requires IsVowel(vowels, s)
    ensures IsVowel(vowels, s + t)
  {
    StripMarkupAppend(s, t);
    var c, c' := StripMarkup(s), StripMarkup(s + t);
    assert c <= c';
    if VowelPattern(vowels, c) {
      var v :| v in vowels && v <= c;
      assert v <= c';
    }
  }

  /** `is_consonant` only looks at a prefix: what follows cannot undo a match. */
  lemma IsConsonantExtends(s: string, t: string)
    requires IsConsonant(s)
    ensures IsConsonant(s + t)
  {
    StripMarkupAppend(s, t);
  }

  /** With an admissible vowel table no element is both a vowel and a
      consonant. */
  lemma VowelsAreNotConsonants(vowels: set<string>, s: string)
    requires VowelShaped(vowels)
    ensures !(IsVowel(vowels, s) && IsConsonant(s))
  {
    var c := StripMarkup(s);
    if IsConsonant(s) {
      IsConsonantMeans(s);
      ConsonantLetterCode(c[0]);
      NotAVowelStart(c[0]);
      forall v | v in vowels
        ensures !(v <= c)
      {
        assert v[0] != c[0];
      }
    }
  }

  /** A single consonant letter is a consonant and, with an admissible vowel
      table, not a vowel. */
  lemma ConsonantLetter(vowels: set<string>, c: char)
    requires VowelShaped(vowels)
    requires c in ConsonantLetters
    ensures IsConsonant([c]) && !IsVowel(vowels, [c])
  {
    ConsonantLetterCode(c);
    StripMarkupSingle(c);
    IsConsonantMeans([c]);
    VowelsAreNotConsonants(vowels, [c]);
  }

  /** A vowel written out in the source is a vowel. */
  lemma LiteralVowel(vowels: set<string>, c: char)
    requires Admissible(vowels)
    requires c in LiteralVowels
    ensures IsVowel(vowels, [c]) && !IsConsonant([c])
  {
    assert StripMarkup([c]) == [c];
    assert [c] in vowels && [c] <= [c];
    VowelsAreNotConsonants(vowels, [c]);
  }

  /** With an admissible vowel table a string that starts with whitespace
      is neither a vowel nor a consonant. */
  lemma WhitespaceUnclassified(vowels: set<string>, s: string)
    requires VowelShaped(vowels)
    requires s != [] && s[0] in Whitespace
    ensures !IsVowel(vowels, s) && !IsConsonant(s)
  {
    OtherCode(s[0]);
    NeitherByCode(vowels, s);
  }

  /** The same for a string that starts with punctuation. */
  lemma PunctuationUnclassified(vowels: set<string>, s: string)
    requires VowelShaped(vowels)
    requires s != [] && s[0] in Punctuation
    ensures !IsVowel(vowels, s) && !IsConsonant(s)
  {
    OtherCode(s[0]);
    NeitherByCode(vowels, s);
  }

  /** A string whose first character is neither markup nor a Greek letter
      is neither a vowel nor a consonant. */
  lemma NeitherByCode(vowels: set<string>, s: string)
    requires VowelShaped(vowels)
    requires s != [] && !VowelCode(s[0]) && !ConsonantCode(s[0]) && s[0] != '^' && s[0] != '_'
    ensures !IsVowel(vowels, s) && !IsConsonant(s)
  {
    NotAVowelStart(s[0]);
    var c := StripMarkup(s);
    assert c == [s[0]] + StripMarkup(s[1..]);
    IsConsonantMeans(s);
    if s[0] in ConsonantLetters {
      ConsonantLetterCode(s[0]);
    }
    forall v | v in vowels
      ensures !(v <= c)
    {
      assert v[0] != c[0];
    }
  }

  /** The admissibility conditions can be met: the literal vowels alone
      form an admissible table. */
  lemma LiteralVowelsAdmissible()
    ensures Admissible(set c | c in LiteralVowels :: [c])
  {
    forall v | v in (set c | c in LiteralVowels :: [c])
      ensures v != [] && VowelCode(v[0])
    {
      var c :| c in LiteralVowels && v == [c];
      LiteralVowelCode(c);
    }
  }

  /** The capitals of the first line of written-out vowels, as the
      upper-case table adds them: the capitals with tonos (U+0386 to
      U+038F) among them. */
  const Line1Capitals: set<char> :=
    {'Α', 'Ε', 'Η', 'Ι', 'Ο', 'Υ', 'Ω', 'Ἀ', 'Ἁ', 'Ἐ', 'Ἑ', 'Ἠ', 'Ἡ', 'Ἰ', 'Ἱ', 'Ὀ', 'Ὁ', 'Ὑ', 'Ὠ', 'Ὡ', 'Ά', 'Ὰ', 'Έ', 'Ὲ', 'Ή', 'Ὴ', 'Ό', 'Ὸ', 'Ί', 'Ὶ', 'Ὺ', 'Ύ', 'Ώ', 'Ὼ'}

  lemma Line1CapitalCode(c: char)
    requires c in Line1Capitals
    ensures VowelCode(c)
  {
  }

  /** A table holding the written-out vowels and their capitals, those
      with tonos included, is admissible. */
  lemma CapitalsAdmissible()
    ensures Admissible((set c | c in LiteralVowels :: [c]) + (set c | c in Line1Capitals :: [c]))
  {
    var lower := set c | c in LiteralVowels :: [c];
    var upper := set c | c in Line1Capitals :: [c];
    forall v | v in lower + upper
      ensures v != [] && VowelCode(v[0])
    {
      if v in lower {
        var c :| c in LiteralVowels && v == [c];
        LiteralVowelCode(c);
      } else {
        var c :| c in Line1Capitals && v == [c];
        Line1CapitalCode(c);
      }
    }
  }

  /** The empty string is no vowel unless the vowel set holds it. */
  lemma EmptyNotVowel(vowels: set<string>)
    requires [] !in vowels
    ensures !IsVowel(vowels, [])
  {
    assert StripMarkup([]) == [];
    forall v | v in vowels
      ensures !(v <= [])
    {
      assert v != [];
    }
  }

  /** Whether the vowel elements `a` and `b` form one nucleus in
      `syllabify`: their concatenation, markup removed, starts with a
      `diphth_y`, `diphth_i` or `adscr_i` pair. */
  predicate Fuses(vowels: set<string>, a: string, b: string)
  {
    IsVowel(vowels, a) && IsVowel(vowels, b)
    && var clean := StripMarkup(a) + StripMarkup(b);
       DiphthY(clean) || DiphthI(clean) || AdscrI(clean)
  }

  /** The characters that `reshuffle_consonants` and `final_reshuffle`
      strip from the end of a syllable besides whitespace. The source
      writes this class as a raw string tested with `in`, so `\u0387`,
      `\u037e`, `\u00b7` and `\n` are not escapes: the class holds the
      backslash, `u`, the digits `0 3 7 8`, the letters `e`, `b`, `n` and
      the brackets, and not the ano teleia, the Greek question mark, the
      middle dot or the newline. */
  const TrailingChars: set<char> :=
    {'[', '\'', '\\', 'u', '0', '3', '8', '7', 'e', 'b', '.', ',', '!', '?', ';', ':', '"', '(', ')',
     ']', '{', '}', '<', '>', '-', '—', '…', 'n', '«', '»', '†', '×', '⏑', '⏓', '–'}

  /** No trailing character is a Greek letter. */
  lemma TrailingCode(c: char)
    requires c in Whitespace || c in TrailingChars
    ensures !ConsonantCode(c) && !VowelCode(c)
  {
  }

  /** The tests the syllabification stages make on syllables and on single
      characters. The stages are stated for any such tests; `Greek` gives
      the ones of the source. */
  datatype Classes = Classes(
    isVowel: string -> bool,
    isConsonant: string -> bool,
    fuses: (string, string) -> bool,
    isDouble: char -> bool,
    isTrailing: char -> bool)

  /** `is_vowel`, `is_consonant`, the diphthong test of `syllabify`, the
      `double_cons` pattern and the trailing-character test of the two
      reshuffles. */
  function Greek(vowels: set<string>): (c: Classes)
    ensures forall s :: c.isVowel(s) == IsVowel(vowels, s)
    ensures forall s :: c.isConsonant(s) == IsConsonant(s)
    ensures forall a, b :: c.fuses(a, b) == Fuses(vowels, a, b)
    ensures forall ch :: c.isDouble(ch) == (ch in DoubleConsonants)
    ensures forall ch :: c.isTrailing(ch) == (ch in Whitespace || ch in TrailingChars)
  {
    Classes(
      s => IsVowel(vowels, s),
      s => IsConsonant(s),
      (a, b) => Fuses(vowels, a, b),
      ch => ch in DoubleConsonants,
      ch => ch in Whitespace || ch in TrailingChars)
  }
}
