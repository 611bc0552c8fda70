/** The examples of the syllabifier's documentation, traced through the
    five stages for a text of precomposed Greek letters and a vowel table
    of the admissible shape. */
module Traces {
  import opened Text
  import opened Patterns
  import opened Segmenter
  import opened Grouper
  import opened Reshuffler
  import opened Final
  import opened Syllabifier

  /** A letter of the Greek and Coptic block or of the Greek Extended
      block. */
  predicate GreekLetter(ch: char)
  {
    '\U{388}' <= ch <= '\U{3CE}' || '\U{1F00}' <= ch <= '\U{1FFF}'
  }

  /** A Unicode database for text that is already composed: decomposition
      and composition change nothing, the Greek letters are the letters
      and there are no combining marks. */
  const Precomposed: Unicode :=
    Unicode(s => s, s => s, ch => GreekLetter(ch), ch => false)

  /** The identity, for a word that is already normalised. */
  const AsIs: string -> string := s => s

  /** No punctuation or markup character is a letter. */
  lemma FillerNotLetter(ch: char)
    requires Filler(ch)
    ensures !GreekLetter(ch)
  {
  }

  lemma PrecomposedSane()
    ensures Sane(Precomposed)
  {
    forall ch | Filler(ch)
      ensures !Precomposed.isLetter(ch)
    {
      FillerNotLetter(ch);
    }
  }

  /** One element per letter. */
  function Singles(t: string): (r: seq<string>)
    ensures |r| == |t|
    ensures forall k :: 0 <= k < |t| ==> r[k] == [t[k]]
  {
    seq(|t|, k requires 0 <= k < |t| => [t[k]])
  }

  /** A letter without marks is an element of its own. */
  lemma LetterStep(t: string, es: seq<string>)
    requires t != [] && GreekLetter(t[0])
    ensures Scan(Precomposed, t, es, []) == Scan(Precomposed, t[1..], es + [[t[0]]], [])
  {
    assert Precomposed.isLetter(t[0]);
    assert MarkRun(Precomposed, t[1..]) == 0;
    ScanLetter(Precomposed, t, 0, es, []);
    assert Precomposed.nfc(t[..1]) == t[..1];
    assert [] + t[..1] == [t[0]];
    assert t[1 + 0..] == t[1..];
  }

  /** A run of letters without marks gives one element for each letter. */
  lemma {:induction false} ScanLetters(a: string, b: string, es: seq<string>)
    requires forall k :: 0 <= k < |a| ==> GreekLetter(a[k])
    ensures Scan(Precomposed, a + b, es, []) == Scan(Precomposed, b, es + Singles(a), [])
    decreases |a|
  {
    if a == [] {
      assert a + b == b;
      assert es + Singles(a) == es;
    } else {
      var t := a + b;
      assert t[0] == a[0] && t[1..] == a[1..] + b;
      LetterStep(t, es);
      ScanLetters(a[1..], b, es + [[a[0]]]);
      assert Singles(a) == [[a[0]]] + Singles(a[1..]);
      AppendAssoc(es, [[a[0]]], Singles(a[1..]));
    }
  }

  /** A punctuation or markup character rides on the last element. */
  lemma RidesOn(ch: char, b: string, es: seq<string>)
    requires Filler(ch) && es != []
    ensures Scan(Precomposed, [ch] + b, es, []) ==
            Scan(Precomposed, b, es[|es| - 1 := es[|es| - 1] + [ch]], [])
  {
    FillerNotLetter(ch);
    var t := [ch] + b;
    assert t[0] == ch && t[1..] == b;
    ScanFiller(Precomposed, t, es, []);
  }

  /** The elements of a word already composed are those the scanner
      finds in it. */
  lemma DividedAsIs(w: string)
    ensures Divided(Precomposed, AsIs, w) == Scan(Precomposed, w, [], [])
  {
  }

  /** The elements of a word of letters only. */
  lemma Letters(w: string)
    requires forall k :: 0 <= k < |w| ==> GreekLetter(w[k])
    ensures Divided(Precomposed, AsIs, w) == Singles(w)
  {
    ScanLetters(w, [], []);
    assert w + [] == w;
  }

  /** The elements with a filler `f` after the letters `a`, followed by the
      letters `b`. */
  lemma LettersFillerLetters(a: string, f: string, b: string)
    requires a != []
    requires forall k :: 0 <= k < |a| ==> GreekLetter(a[k])
    requires forall k :: 0 <= k < |f| ==> Filler(f[k])
    requires forall k :: 0 <= k < |b| ==> GreekLetter(b[k])
    ensures Scan(Precomposed, a + f + b, [], []) ==
            Singles(a[..|a| - 1]) + [[a[|a| - 1]] + f] + Singles(b)
  {
    var e := Singles(a);
    var e' := e[|e| - 1 := e[|e| - 1] + f];
    LettersThenFiller(a, f, b);
    ScanLetters(b, [], e');
    assert b + [] == b;
    SinglesUpdate(a, f);
  }

  /** The letters `a` and the filler `f` riding on the last of them. */
  lemma LettersThenFiller(a: string, f: string, b: string)
    requires a != []
    requires forall k :: 0 <= k < |a| ==> GreekLetter(a[k])
    requires forall k :: 0 <= k < |f| ==> Filler(f[k])
    ensures Scan(Precomposed, a + f + b, [], []) ==
            Scan(Precomposed, b, Singles(a)[|a| - 1 := Singles(a)[|a| - 1] + f], [])
  {
    var e := Singles(a);
    AppendAssoc(a, f, b);
    LettersFirst(a, f + b);
    FillersRide(f, b, e);
  }

  /** The letters `a` at the start of a text give one element each. */
  lemma LettersFirst(a: string, t: string)
    requires forall k :: 0 <= k < |a| ==> GreekLetter(a[k])
    ensures Scan(Precomposed, a + t, [], []) == Scan(Precomposed, t, Singles(a), [])
  {
    ScanLetters(a, t, []);
    assert [] + Singles(a) == Singles(a);
  }

  lemma SinglesUpdate(a: string, f: string)
    requires a != []
    ensures Singles(a)[|a| - 1 := Singles(a)[|a| - 1] + f] ==
            Singles(a[..|a| - 1]) + [[a[|a| - 1]] + f]
  {
    var front := a[..|a| - 1];
    SinglesSnoc(a);
    UpdateLast(Singles(front), [a[|a| - 1]], f);
  }

  lemma SinglesSnoc(a: string)
    requires a != []
    ensures Singles(a) == Singles(a[..|a| - 1]) + [[a[|a| - 1]]]
  {
    var front := a[..|a| - 1];
    forall k | 0 <= k < |front|
      ensures Singles(a)[k] == Singles(front)[k]
    {
      assert front[k] == a[k];
    }
  }

  lemma UpdateLast(xs: seq<string>, y: string, f: string)
    ensures (xs + [y])[|xs| := y + f] == xs + [y + f]
  {
  }

  lemma {:induction false} FillersRide(f: string, b: string, es: seq<string>)
    requires es != []
    requires forall k :: 0 <= k < |f| ==> Filler(f[k])
    ensures Scan(Precomposed, f + b, es, []) ==
            Scan(Precomposed, b, es[|es| - 1 := es[|es| - 1] + f], [])
    decreases |f|
  {
    if f == [] {
      assert f + b == b;
      assert es[|es| - 1] + f == es[|es| - 1];
      assert es[|es| - 1 := es[|es| - 1] + f] == es;
    } else {
      assert f + b == [f[0]] + (f[1..] + b);
      RidesOn(f[0], f[1..] + b, es);
      var es' := es[|es| - 1 := es[|es| - 1] + [f[0]]];
      FillersRide(f[1..], b, es');
      assert es[|es| - 1] + [f[0]] + f[1..] == es[|es| - 1] + f;
      assert es'[|es'| - 1 := es'[|es'| - 1] + f[1..]] == es[|es| - 1 := es[|es| - 1] + f];
    }
  }

  /** The proto-syllables of a word of letters only are the groups of
      its letters. */
  lemma LettersProto(c: Classes, w: string)
    requires w != [] && forall k :: 0 <= k < |w| ==> GreekLetter(w[k])
    ensures ProtoSyllables(Precomposed, c, AsIs, w) == Group(c, Singles(w), [])
  {
    Letters(w);
    ProtoFrom(c, w, Singles(w));
  }

  /** The proto-syllables of a word from its elements, when no element
      holds the separator. */
  lemma ProtoFrom(c: Classes, w: string, es: seq<string>)
    requires Divided(Precomposed, AsIs, w) == es && es != []
    requires forall k :: 0 <= k < |es| ==> Separator !in es[k]
    ensures ProtoSyllables(Precomposed, c, AsIs, w) == Group(c, es, [])
  {
    SplitJoin(es, Separator);
    GroupNonEmpty(c, es, []);
    FilterNonEmptyOfNonEmpty(Group(c, es, []));
  }

  /** The proto-syllables of a word made of the letters `a`, the
      punctuation or spaces `f` and the letters `b`. */
  lemma FillerProto(c: Classes, a: string, f: string, b: string)
    requires a != []
    requires forall k :: 0 <= k < |a| ==> GreekLetter(a[k])
    requires forall k :: 0 <= k < |f| ==> Filler(f[k]) && f[k] != Separator
    requires forall k :: 0 <= k < |b| ==> GreekLetter(b[k])
    ensures ProtoSyllables(Precomposed, c, AsIs, a + f + b) ==
            Group(c, Singles(a[..|a| - 1]) + [[a[|a| - 1]] + f] + Singles(b), [])
  {
    LettersFillerLetters(a, f, b);
    DividedAsIs(a + f + b);
    var front, middle, back := Singles(a[..|a| - 1]), [[a[|a| - 1]] + f], Singles(b);
    var es := front + middle + back;
    forall k | 0 <= k < |es|
      ensures Separator !in es[k]
    {
      if k < |front| {
        assert es[k] == [a[k]];
      } else if k == |front| {
        assert es[k] == [a[|a| - 1]] + f;
      } else {
        assert es[k] == [b[k - |front| - 1]];
      }
    }
    ProtoFrom(c, a + f + b, es);
  }

  /** The run from the proto-syllables, when they reshuffle without
      error. */
  lemma RunFrom(c: Classes, w: string, proto: seq<string>, reshuffled: seq<string>)
    requires w != [] && ProtoSyllables(Precomposed, c, AsIs, w) == proto
    requires Reshuffle(c, proto) == Ok(reshuffled)
    ensures Run(Precomposed, c, AsIs, w) == Syllables(Definitive(c, FinalSyllables(c, reshuffled)))
  {
  }

  /* The facts about the tests that the traces use, stated for any tests
     and proved for the source's. */

  /** No element is both a vowel and a consonant. */
  ghost predicate Exclusive(c: Classes)
  {
    forall s :: !(c.isVowel(s) && c.isConsonant(s))
  }

  /** A consonant that is not a double consonant. */
  ghost predicate Cons(c: Classes, ch: char)
  {
    c.isConsonant([ch]) && !c.isTrailing(ch) && !c.isDouble(ch)
  }

  /** A vowel. */
  ghost predicate Vow(c: Classes, ch: char)
  {
    c.isVowel([ch]) && !c.isTrailing(ch)
  }

  /** The consonants of the traces. */
  ghost predicate KnowsConsonants(c: Classes)
  {
    Cons(c, 'π') && Cons(c, 'τ') && Cons(c, 'ρ') && Cons(c, 'ς')
    && Cons(c, 'μ') && Cons(c, 'δ') && Cons(c, 'ν') && Cons(c, 'λ')
  }

  /** The vowels of the traces. */
  ghost predicate KnowsVowels(c: Classes)
  {
    Vow(c, 'α') && Vow(c, 'ό') && Vow(c, 'ἄ') && Vow(c, 'ι') && Vow(c, 'ε')
    && Vow(c, 'ῆ') && Vow(c, 'ο') && Vow(c, 'ῖ') && Vow(c, 'ἀ')
  }

  /** The diphthongs and the adscript of the traces; only two vowels
      fuse. */
  ghost predicate KnowsFusions(c: Classes)
  {
    (forall a, b :: c.fuses(a, b) ==> c.isVowel(b))
    && c.fuses("ε", "ι") && c.fuses("ῆ", "ι") && c.fuses("ο", "ῖ")
  }

  /** The elements with a space or a middle dot, and the two characters. */
  ghost predicate KnowsOthers(c: Classes)
  {
    c.isConsonant("ς ") && c.isConsonant("ς· ")
    && c.isTrailing(' ') && !c.isTrailing('·') && !c.isConsonant("·")
  }

  /** Everything the traces ask of the tests. */
  ghost predicate Knows(c: Classes)
  {
    Exclusive(c) && KnowsConsonants(c) && KnowsVowels(c) && KnowsFusions(c) && KnowsOthers(c)
  }

  lemma GreekExclusive(vowels: set<string>)
    requires VowelShaped(vowels)
    ensures Exclusive(Greek(vowels))
  {
    forall s
      ensures !(IsVowel(vowels, s) && IsConsonant(s))
    {
      VowelsAreNotConsonants(vowels, s);
    }
  }

  lemma GreekCons(ch: char)
    requires ch in ConsonantLetters && ch !in DoubleConsonants
    ensures forall vowels :: Cons(Greek(vowels), ch)
  {
    ConsonantLetterCode(ch);
    StripMarkupSingle(ch);
    IsConsonantMeans([ch]);
    if ch in Whitespace || ch in TrailingChars {
      TrailingCode(ch);
    }
  }

  lemma GreekVow(vowels: set<string>, ch: char)
    requires HoldsLiteralVowels(vowels)
    requires ch in LiteralVowels
    ensures Vow(Greek(vowels), ch)
  {
    LiteralVowelCode(ch);
    VowelStays(ch);
    OneLetterVowel(vowels, ch);
  }

  /** A vowel code point is not stripped. */
  lemma VowelStays(ch: char)
    requires VowelCode(ch)
    ensures ch !in Whitespace && ch !in TrailingChars
  {
    if ch in Whitespace || ch in TrailingChars {
      TrailingCode(ch);
    }
  }

  /** A one-letter member of the vowel table is a vowel. */
  lemma OneLetterVowel(vowels: set<string>, ch: char)
    requires [ch] in vowels && ch != '^' && ch != '_'
    ensures IsVowel(vowels, [ch])
  {
    StripMarkupSingle(ch);
    assert [ch] <= [ch];
  }

  lemma FuseOf(vowels: set<string>, a: char, b: char)
    requires IsVowel(vowels, [a]) && IsVowel(vowels, [b])
    requires DiphthI([a, b]) || AdscrI([a, b])
    ensures Fuses(vowels, [a], [b])
  {
    StripMarkupSingle(a);
    StripMarkupSingle(b);
    assert [a] + [b] == [a, b];
  }

  lemma GreekFuse(vowels: set<string>, a: char, b: char)
    requires HoldsLiteralVowels(vowels)
    requires a in LiteralVowels && b in LiteralVowels
    requires DiphthI([a, b]) || AdscrI([a, b])
    ensures Greek(vowels).fuses([a], [b])
  {
    GreekVow(vowels, a);
    GreekVow(vowels, b);
    FuseOf(vowels, a, b);
  }

  lemma GreekFuses(vowels: set<string>)
    requires HoldsLiteralVowels(vowels)
    ensures KnowsFusions(Greek(vowels))
  {
    GreekFuse(vowels, 'ε', 'ι');
    GreekFuse(vowels, 'ῆ', 'ι');
    GreekFuse(vowels, 'ο', 'ῖ');
  }

  /** The sigma before a space or a middle dot is a consonant. */
  lemma SigmaThen(t: string)
    ensures IsConsonant("ς" + t)
  {
    StripMarkupSingle('ς');
    IsConsonantMeans("ς");
    IsConsonantExtends("ς", t);
  }

  /** The middle dot is no consonant. */
  lemma MiddleDotNoConsonant()
    ensures !IsConsonant("·")
  {
    StripMarkupSingle('·');
    IsConsonantMeans("·");
    if '·' in ConsonantLetters {
      ConsonantLetterCode('·');
    }
  }

  /** The trailing characters are ASCII, a few Latin-1 signs, or general
      punctuation and technical signs. */
  lemma TrailingPlace(ch: char)
    requires ch in TrailingChars
    ensures ch < '\U{80}' || ch == '«' || ch == '»' || ch == '×' || ch >= '\U{2000}'
  {
  }

  /** The middle dot is not stripped. */
  lemma MiddleDotStays()
    ensures '·' !in Whitespace && '·' !in TrailingChars
  {
    if '·' in TrailingChars {
      TrailingPlace('·');
    }
  }

  lemma GreekOthers(vowels: set<string>)
    ensures KnowsOthers(Greek(vowels))
  {
    SigmaThen(" ");
    SigmaThen("· ");
    assert "ς" + " " == "ς " && "ς" + "· " == "ς· ";
    MiddleDotNoConsonant();
    MiddleDotStays();
  }

  lemma GreekConsonants(vowels: set<string>)
    ensures KnowsConsonants(Greek(vowels))
  {
    GreekCons('π');
    GreekCons('τ');
    GreekCons('ρ');
    GreekCons('ς');
    GreekCons('μ');
    GreekCons('δ');
    GreekCons('ν');
    GreekCons('λ');
  }

  lemma GreekVowels(vowels: set<string>)
    requires HoldsLiteralVowels(vowels)
    ensures KnowsVowels(Greek(vowels))
  {
    GreekVow(vowels, 'α');
    GreekVow(vowels, 'ό');
    GreekVow(vowels, 'ἄ');
    GreekVow(vowels, 'ι');
    GreekVow(vowels, 'ε');
    GreekVow(vowels, 'ῆ');
    GreekVow(vowels, 'ο');
    GreekVow(vowels, 'ῖ');
    GreekVow(vowels, 'ἀ');
  }

  /** The source's tests know what the traces ask. */
  lemma GreekKnows(vowels: set<string>)
    requires Admissible(vowels)
    ensures Knows(Greek(vowels))
  {
    GreekExclusive(vowels);
    GreekConsonants(vowels);
    GreekVowels(vowels);
    GreekFuses(vowels);
    GreekOthers(vowels);
  }

  /* πατρός: π α τ ρ ό ς, grouped π | ατρ | ός, reshuffled π | ατ | ρός,
     left alone by the final pass, and merged into πατ | ρός. */

  lemma PatrosProto(c: Classes)
    ensures ProtoSyllables(Precomposed, c, AsIs, "πατρός") == Group(c, ["π", "α", "τ", "ρ", "ό", "ς"], [])
  {
    LettersProto(c, "πατρός");
    PatrosLetters();
  }

  lemma PatrosLetters()
    ensures Singles("πατρός") == ["π", "α", "τ", "ρ", "ό", "ς"]
  {
  }

  lemma PatrosGroup(c: Classes)
    requires Knows(c)
    ensures Group(c, ["π", "α", "τ", "ρ", "ό", "ς"], []) == ["π", "ατρ", "ός"]
  {
    assert Group(c, ["π", "α", "τ", "ρ", "ό", "ς"], []) == Group(c, ["α", "τ", "ρ", "ό", "ς"], "π");
    assert Group(c, ["α", "τ", "ρ", "ό", "ς"], "π") == ["π"] + Group(c, ["τ", "ρ", "ό", "ς"], "α");
    PatrosGroupTail(c);
  }

  lemma PatrosGroupTail(c: Classes)
    requires Knows(c)
    ensures Group(c, ["τ", "ρ", "ό", "ς"], "α") == ["ατρ", "ός"]
  {
    assert "α" + "τ" == "ατ" && "ατ" + "ρ" == "ατρ" && "ό" + "ς" == "ός";
    assert Group(c, ["τ", "ρ", "ό", "ς"], "α") == Group(c, ["ρ", "ό", "ς"], "ατ");
    assert Group(c, ["ρ", "ό", "ς"], "ατ") == Group(c, ["ό", "ς"], "ατρ");
    assert Group(c, ["ό", "ς"], "ατρ") == ["ατρ"] + Group(c, ["ς"], "ό");
    assert Group(c, ["ς"], "ό") == Group(c, [], "ός");
  }

  lemma PatrosStarts(c: Classes)
    requires Knows(c)
    ensures Step(c, ["π", "ατρ", "ός"], 0, []) == Ok(Round("π", []))
  {
    assert Body(c, "π") == "π" && Trailing(c, "π") == [];
  }

  lemma PatrosMoves(c: Classes)
    requires Knows(c)
    ensures Step(c, ["π", "ατρ", "ός"], 1, []) == Ok(Round("ατ", "ρ"))
  {
    assert Body(c, "ατρ") == "ατρ" && Trailing(c, "ατρ") == [];
    assert Body(c, "ός") == "ός";
    assert RStrip("ός") == "ός";
    var s1 := [] + Body(c, "ατρ");
    assert s1 == "ατρ";
    assert s1[..|s1| - 1] == "ατ";
    assert [s1[|s1| - 1]] + Trailing(c, "ατρ") == "ρ";
  }

  lemma PatrosEnds(c: Classes)
    requires Knows(c)
    ensures Step(c, ["π", "ατρ", "ός"], 2, "ρ") == Ok(Round("ρός", []))
  {
    assert Body(c, "ός") == "ός" && Trailing(c, "ός") == [];
    assert "ρ" + "ός" == "ρός";
    assert "ρός" + [] == "ρός";
  }

  lemma PatrosReshuffle(c: Classes)
    requires Knows(c)
    ensures Reshuffle(c, ["π", "ατρ", "ός"]) == Ok(["π", "ατ", "ρός"])
  {
    var ss := ["π", "ατρ", "ός"];
    PatrosStarts(c);
    PatrosMoves(c);
    PatrosEnds(c);
    assert [] + ["π"] == ["π"] && ["π"] + ["ατ"] == ["π", "ατ"];
    assert ["π", "ατ"] + ["ρός"] == ["π", "ατ", "ρός"];
    assert Shuffle(c, ss, 0, [], []) == Shuffle(c, ss, 1, ["π"], []);
    assert Shuffle(c, ss, 1, ["π"], []) == Shuffle(c, ss, 2, ["π", "ατ"], "ρ");
    assert Shuffle(c, ss, 2, ["π", "ατ"], "ρ") == Shuffle(c, ss, 3, ["π", "ατ", "ρός"], []);
  }

  lemma PatrosFinal(c: Classes)
    requires Knows(c)
    ensures FinalSyllables(c, ["π", "ατ", "ρός"]) == ["π", "ατ", "ρός"]
  {
    assert Body(c, "π") == "π" && Body(c, "ατ") == "ατ";
    assert Coda(c, "π") <= 1;
    assert Coda(c, "ατ") <= 1;
    FinalUnchanged(c, ["π", "ατ", "ρός"]);
  }

  lemma PatrosDefinitive(c: Classes)
    requires Knows(c)
    ensures Definitive(c, ["π", "ατ", "ρός"]) == ["πατ", "ρός"]
  {
    var final := ["π", "ατ", "ρός"];
    assert final[2..] == ["ρός"];
    assert final[0] + final[1] == "πατ";
    assert [final[0] + final[1]] + final[2..] == ["πατ", "ρός"];
  }

  lemma PatrosRun(c: Classes)
    requires Knows(c)
    ensures Run(Precomposed, c, AsIs, "πατρός") == Syllables(["πατ", "ρός"])
  {
    PatrosProto(c);
    PatrosGroup(c);
    PatrosReshuffle(c);
    RunFrom(c, "πατρός", ["π", "ατρ", "ός"], ["π", "ατ", "ρός"]);
    PatrosFinal(c);
    PatrosDefinitive(c);
  }

  /** `syllabifier('πατρός')` is `['πατ', 'ρός']`. */
  lemma Patros(vowels: set<string>)
    requires Admissible(vowels)
    ensures Pipeline(Precomposed, vowels, AsIs, "πατρός") == Syllables(["πατ", "ρός"])
  {
    GreekKnows(vowels);
    PatrosRun(Greek(vowels));
  }

  /* ἄμμι: ἄ μ μ ι, grouped ἄμμ | ι, reshuffled ἄμ | μι, and left alone
     by the last two stages. */

  lemma AmmiProto(c: Classes)
    ensures ProtoSyllables(Precomposed, c, AsIs, "ἄμμι") == Group(c, ["ἄ", "μ", "μ", "ι"], [])
  {
    LettersProto(c, "ἄμμι");
    AmmiLetters();
  }

  lemma AmmiLetters()
    ensures Singles("ἄμμι") == ["ἄ", "μ", "μ", "ι"]
  {
  }

  lemma AmmiGroup(c: Classes)
    requires Knows(c)
    ensures Group(c, ["ἄ", "μ", "μ", "ι"], []) == ["ἄμμ", "ι"]
  {
    assert "ἄ" + "μ" == "ἄμ" && "ἄμ" + "μ" == "ἄμμ";
    assert Group(c, ["ἄ", "μ", "μ", "ι"], []) == Group(c, ["μ", "μ", "ι"], "ἄ");
    assert Group(c, ["μ", "μ", "ι"], "ἄ") == Group(c, ["μ", "ι"], "ἄμ");
    assert Group(c, ["μ", "ι"], "ἄμ") == Group(c, ["ι"], "ἄμμ");
    assert Group(c, ["ι"], "ἄμμ") == ["ἄμμ"] + Group(c, [], "ι");
  }

  lemma AmmiMoves(c: Classes)
    requires Knows(c)
    ensures Step(c, ["ἄμμ", "ι"], 0, []) == Ok(Round("ἄμ", "μ"))
  {
    assert Body(c, "ἄμμ") == "ἄμμ" && Trailing(c, "ἄμμ") == [];
    assert Body(c, "ι") == "ι" && RStrip("ι") == "ι";
    var s0 := [] + Body(c, "ἄμμ");
    assert s0 == "ἄμμ";
    assert s0[..|s0| - 1] == "ἄμ";
    assert [s0[|s0| - 1]] + Trailing(c, "ἄμμ") == "μ";
  }

  lemma AmmiEnds(c: Classes)
    requires Knows(c)
    ensures Step(c, ["ἄμμ", "ι"], 1, "μ") == Ok(Round("μι", []))
  {
    assert Body(c, "ι") == "ι" && Trailing(c, "ι") == [];
    assert "μ" + "ι" == "μι";
    assert "μι" + [] == "μι";
  }

  lemma AmmiReshuffle(c: Classes)
    requires Knows(c)
    ensures Reshuffle(c, ["ἄμμ", "ι"]) == Ok(["ἄμ", "μι"])
  {
    var ss := ["ἄμμ", "ι"];
    AmmiMoves(c);
    AmmiEnds(c);
    assert [] + ["ἄμ"] == ["ἄμ"] && ["ἄμ"] + ["μι"] == ["ἄμ", "μι"];
    assert Shuffle(c, ss, 0, [], []) == Shuffle(c, ss, 1, ["ἄμ"], "μ");
    assert Shuffle(c, ss, 1, ["ἄμ"], "μ") == Shuffle(c, ss, 2, ["ἄμ", "μι"], []);
  }

  lemma AmmiFinal(c: Classes)
    requires Knows(c)
    ensures FinalSyllables(c, ["ἄμ", "μι"]) == ["ἄμ", "μι"]
    ensures Definitive(c, ["ἄμ", "μι"]) == ["ἄμ", "μι"]
  {
    assert Body(c, "ἄμ") == "ἄμ";
    assert Coda(c, "ἄ") == 0;
    assert Coda(c, "ἄμ") <= 1;
    FinalUnchanged(c, ["ἄμ", "μι"]);
  }

  lemma AmmiRun(c: Classes)
    requires Knows(c)
    ensures Run(Precomposed, c, AsIs, "ἄμμι") == Syllables(["ἄμ", "μι"])
  {
    AmmiProto(c);
    AmmiGroup(c);
    AmmiReshuffle(c);
    RunFrom(c, "ἄμμι", ["ἄμμ", "ι"], ["ἄμ", "μι"]);
    AmmiFinal(c);
  }

  /** `syllabifier('ἄμμι')` is `['ἄμ', 'μι']`. */
  lemma Ammi(vowels: set<string>)
    requires Admissible(vowels)
    ensures Pipeline(Precomposed, vowels, AsIs, "ἄμμι") == Syllables(["ἄμ", "μι"])
  {
    GreekKnows(vowels);
    AmmiRun(Greek(vowels));
  }

  /* δεινῆι: δ ε ι ν ῆ ι, grouped δ | ειν | ῆι with the diphthong ει and
     the adscript ῆι, reshuffled δ | ει | νῆι, and merged into δει | νῆι. */

  lemma DeineiProto(c: Classes)
    ensures ProtoSyllables(Precomposed, c, AsIs, "δεινῆι") == Group(c, ["δ", "ε", "ι", "ν", "ῆ", "ι"], [])
  {
    LettersProto(c, "δεινῆι");
    DeineiLetters();
  }

  lemma DeineiLetters()
    ensures Singles("δεινῆι") == ["δ", "ε", "ι", "ν", "ῆ", "ι"]
  {
  }

  lemma DeineiGroup(c: Classes)
    requires Knows(c)
    ensures Group(c, ["δ", "ε", "ι", "ν", "ῆ", "ι"], []) == ["δ", "ειν", "ῆι"]
  {
    assert "ε" + "ι" == "ει" && "ει" + "ν" == "ειν" && "ῆ" + "ι" == "ῆι";
    assert Group(c, ["δ", "ε", "ι", "ν", "ῆ", "ι"], []) == Group(c, ["ε", "ι", "ν", "ῆ", "ι"], "δ");
    assert Group(c, ["ε", "ι", "ν", "ῆ", "ι"], "δ") == ["δ"] + Group(c, ["ν", "ῆ", "ι"], "ει");
    assert Group(c, ["ν", "ῆ", "ι"], "ει") == Group(c, ["ῆ", "ι"], "ειν");
    assert Group(c, ["ῆ", "ι"], "ειν") == ["ειν"] + Group(c, [], "ῆι");
  }

  lemma DeineiStarts(c: Classes)
    requires Knows(c)
    ensures Step(c, ["δ", "ειν", "ῆι"], 0, []) == Ok(Round("δ", []))
  {
    assert Body(c, "δ") == "δ" && Trailing(c, "δ") == [];
  }

  lemma DeineiMoves(c: Classes)
    requires Knows(c)
    ensures Step(c, ["δ", "ειν", "ῆι"], 1, []) == Ok(Round("ει", "ν"))
  {
    assert Body(c, "ειν") == "ειν" && Trailing(c, "ειν") == [];
    assert Body(c, "ῆι") == "ῆι" && RStrip("ῆι") == "ῆι";
    var s1 := [] + Body(c, "ειν");
    assert s1 == "ειν";
    assert s1[..|s1| - 1] == "ει";
    assert [s1[|s1| - 1]] + Trailing(c, "ειν") == "ν";
  }

  lemma DeineiEnds(c: Classes)
    requires Knows(c)
    ensures Step(c, ["δ", "ειν", "ῆι"], 2, "ν") == Ok(Round("νῆι", []))
  {
    assert Body(c, "ῆι") == "ῆι" && Trailing(c, "ῆι") == [];
    assert "ν" + "ῆι" == "νῆι";
    assert "νῆι" + [] == "νῆι";
  }

  lemma DeineiReshuffle(c: Classes)
    requires Knows(c)
    ensures Reshuffle(c, ["δ", "ειν", "ῆι"]) == Ok(["δ", "ει", "νῆι"])
  {
    var ss := ["δ", "ειν", "ῆι"];
    DeineiStarts(c);
    DeineiMoves(c);
    DeineiEnds(c);
    assert [] + ["δ"] == ["δ"] && ["δ"] + ["ει"] == ["δ", "ει"];
    assert ["δ", "ει"] + ["νῆι"] == ["δ", "ει", "νῆι"];
    assert Shuffle(c, ss, 0, [], []) == Shuffle(c, ss, 1, ["δ"], []);
    assert Shuffle(c, ss, 1, ["δ"], []) == Shuffle(c, ss, 2, ["δ", "ει"], "ν");
    assert Shuffle(c, ss, 2, ["δ", "ει"], "ν") == Shuffle(c, ss, 3, ["δ", "ει", "νῆι"], []);
  }

  lemma DeineiFinal(c: Classes)
    requires Knows(c)
    ensures FinalSyllables(c, ["δ", "ει", "νῆι"]) == ["δ", "ει", "νῆι"]
  {
    assert Body(c, "δ") == "δ" && Body(c, "ει") == "ει";
    assert Coda(c, "δ") <= 1;
    assert Coda(c, "ει") == 0;
    FinalUnchanged(c, ["δ", "ει", "νῆι"]);
  }

  lemma DeineiDefinitive(c: Classes)
    requires Knows(c)
    ensures Definitive(c, ["δ", "ει", "νῆι"]) == ["δει", "νῆι"]
  {
    var final := ["δ", "ει", "νῆι"];
    assert final[2..] == ["νῆι"];
    assert final[0] + final[1] == "δει";
    assert [final[0] + final[1]] + final[2..] == ["δει", "νῆι"];
  }

  lemma DeineiRun(c: Classes)
    requires Knows(c)
    ensures Run(Precomposed, c, AsIs, "δεινῆι") == Syllables(["δει", "νῆι"])
  {
    DeineiProto(c);
    DeineiGroup(c);
    DeineiReshuffle(c);
    RunFrom(c, "δεινῆι", ["δ", "ειν", "ῆι"], ["δ", "ει", "νῆι"]);
    DeineiFinal(c);
    DeineiDefinitive(c);
  }

  /** `syllabifier('δεινῆι')` is `['δει', 'νῆι']`. */
  lemma Deinei(vowels: set<string>)
    requires Admissible(vowels)
    ensures Pipeline(Precomposed, vowels, AsIs, "δεινῆι") == Syllables(["δει", "νῆι"])
  {
    GreekKnows(vowels);
    DeineiRun(Greek(vowels));
  }

  /* τοῖος ἀλλ: τ ο ῖ ο ς+space ἀ λ λ, the space riding on the sigma;
     grouped τ | οῖ | ος+space | ἀλλ, the sigma and its space moved onto
     ἀλλ, and the τ merged into οῖ. */

  lemma ToiosProto(c: Classes)
    ensures ProtoSyllables(Precomposed, c, AsIs, "τοῖος ἀλλ") ==
            Group(c, ["τ", "ο", "ῖ", "ο", "ς ", "ἀ", "λ", "λ"], [])
  {
    FillerProto(c, "τοῖος", " ", "ἀλλ");
    ToiosPieces();
  }

  lemma ToiosPieces()
    ensures "τοῖος" + " " + "ἀλλ" == "τοῖος ἀλλ"
    ensures Singles("τοῖος"[..4]) + [["τοῖος"[4]] + " "] + Singles("ἀλλ") ==
            ["τ", "ο", "ῖ", "ο", "ς ", "ἀ", "λ", "λ"]
  {
    assert "τοῖος"[..4] == "τοῖο";
    assert Singles("τοῖο") == ["τ", "ο", "ῖ", "ο"];
    assert Singles("ἀλλ") == ["ἀ", "λ", "λ"];
    assert ['ς'] + " " == "ς ";
  }

  /** The groups of `τ ο ῖ ο` followed by the element `last` and `ἀ λ λ`,
      for an element that is not a vowel. */
  lemma ToiosGroup(c: Classes, last: string)
    requires Knows(c) && !c.isVowel(last)
    ensures Group(c, ["τ", "ο", "ῖ", "ο", last, "ἀ", "λ", "λ"], []) == ["τ", "οῖ", "ο" + last, "ἀλλ"]
  {
    assert "ο" + "ῖ" == "οῖ";
    assert Group(c, ["τ", "ο", "ῖ", "ο", last, "ἀ", "λ", "λ"], []) ==
           Group(c, ["ο", "ῖ", "ο", last, "ἀ", "λ", "λ"], "τ");
    assert Group(c, ["ο", "ῖ", "ο", last, "ἀ", "λ", "λ"], "τ") ==
           ["τ"] + Group(c, ["ο", last, "ἀ", "λ", "λ"], "οῖ");
    ToiosGroupTail(c, last);
  }

  lemma ToiosGroupTail(c: Classes, last: string)
    requires Knows(c) && !c.isVowel(last)
    ensures Group(c, ["ο", last, "ἀ", "λ", "λ"], "οῖ") == ["οῖ", "ο" + last, "ἀλλ"]
  {
    assert "ἀ" + "λ" == "ἀλ" && "ἀλ" + "λ" == "ἀλλ";
    assert Group(c, ["ο", last, "ἀ", "λ", "λ"], "οῖ") == ["οῖ"] + Group(c, [last, "ἀ", "λ", "λ"], "ο");
    assert Group(c, [last, "ἀ", "λ", "λ"], "ο") == Group(c, ["ἀ", "λ", "λ"], "ο" + last);
    assert Group(c, ["ἀ", "λ", "λ"], "ο" + last) == ["ο" + last] + Group(c, ["λ", "λ"], "ἀ");
    assert Group(c, ["λ", "λ"], "ἀ") == Group(c, ["λ"], "ἀλ");
    assert Group(c, ["λ"], "ἀλ") == Group(c, [], "ἀλλ");
  }

  lemma ToiosGroupSpace(c: Classes)
    requires Knows(c)
    ensures Group(c, ["τ", "ο", "ῖ", "ο", "ς ", "ἀ", "λ", "λ"], []) == ["τ", "οῖ", "ος ", "ἀλλ"]
  {
    assert !c.isVowel("ς ");
    ToiosGroup(c, "ς ");
    assert "ο" + "ς " == "ος ";
  }

  /** The first round over `τ | οῖ | x | ἀλλ`: the τ on its own. */
  lemma ToiosStarts(c: Classes, x: string)
    requires Knows(c)
    ensures Step(c, ["τ", "οῖ", x, "ἀλλ"], 0, []) == Ok(Round("τ", []))
  {
    assert Body(c, "τ") == "τ" && Trailing(c, "τ") == [];
  }

  /** The second round: οῖ kept whole, as it ends in a vowel. */
  lemma ToiosKeeps(c: Classes, x: string)
    requires Knows(c)
    ensures Step(c, ["τ", "οῖ", x, "ἀλλ"], 1, []) == Ok(Round("οῖ", []))
  {
    assert Body(c, "οῖ") == "οῖ" && Trailing(c, "οῖ") == [];
    assert [] + "οῖ" == "οῖ" && "οῖ" + [] == "οῖ";
    assert !c.isConsonant(["οῖ"[1]]);
  }

  /** The space after the sigma is set aside. */
  lemma SigmaSpaceBody(c: Classes)
    requires Knows(c)
    ensures Body(c, "ος ") == "ος" && Trailing(c, "ος ") == " "
  {
    assert "ος "[..2] == "ος";
    assert Body(c, "ος") == "ος";
  }

  lemma ToiosMoves(c: Classes)
    requires Knows(c)
    ensures Step(c, ["τ", "οῖ", "ος ", "ἀλλ"], 2, []) == Ok(Round("ο", "ς "))
  {
    SigmaSpaceBody(c);
    assert RStrip("ἀλλ") == "ἀλλ";
    var s2 := [] + Body(c, "ος ");
    assert s2 == "ος";
    assert s2[..|s2| - 1] == "ο";
    assert [s2[|s2| - 1]] + Trailing(c, "ος ") == "ς ";
  }

  lemma ToiosEnds(c: Classes, x: string, carry: string)
    requires Knows(c)
    ensures Step(c, ["τ", "οῖ", x, "ἀλλ"], 3, carry) == Ok(Round(carry + "ἀλλ", []))
  {
    assert Body(c, "ἀλλ") == "ἀλλ" && Trailing(c, "ἀλλ") == [];
    assert carry + "ἀλλ" + [] == carry + "ἀλλ";
  }

  /** The first two rounds over `τ | οῖ | x | ἀλλ`. */
  lemma ToiosOpens(c: Classes, x: string)
    requires Knows(c)
    ensures Shuffle(c, ["τ", "οῖ", x, "ἀλλ"], 0, [], []) == Shuffle(c, ["τ", "οῖ", x, "ἀλλ"], 2, ["τ", "οῖ"], [])
  {
    var ss := ["τ", "οῖ", x, "ἀλλ"];
    ToiosStarts(c, x);
    ToiosKeeps(c, x);
    assert [] + ["τ"] == ["τ"] && ["τ"] + ["οῖ"] == ["τ", "οῖ"];
    assert Shuffle(c, ss, 0, [], []) == Shuffle(c, ss, 1, ["τ"], []);
  }

  lemma ToiosReshuffle(c: Classes)
    requires Knows(c)
    ensures Reshuffle(c, ["τ", "οῖ", "ος ", "ἀλλ"]) == Ok(["τ", "οῖ", "ο", "ς ἀλλ"])
  {
    var ss := ["τ", "οῖ", "ος ", "ἀλλ"];
    ToiosOpens(c, "ος ");
    ToiosMoves(c);
    ToiosEnds(c, "ος ", "ς ");
    assert "ς " + "ἀλλ" == "ς ἀλλ";
    assert ["τ", "οῖ"] + ["ο"] == ["τ", "οῖ", "ο"];
    assert ["τ", "οῖ", "ο"] + ["ς ἀλλ"] == ["τ", "οῖ", "ο", "ς ἀλλ"];
    assert Shuffle(c, ss, 2, ["τ", "οῖ"], []) == Shuffle(c, ss, 3, ["τ", "οῖ", "ο"], "ς ");
    assert Shuffle(c, ss, 3, ["τ", "οῖ", "ο"], "ς ") == Shuffle(c, ss, 4, ["τ", "οῖ", "ο", "ς ἀλλ"], []);
  }

  lemma ToiosFinal(c: Classes)
    requires Knows(c)
    ensures FinalSyllables(c, ["τ", "οῖ", "ο", "ς ἀλλ"]) == ["τ", "οῖ", "ο", "ς ἀλλ"]
  {
    assert Body(c, "τ") == "τ" && Body(c, "οῖ") == "οῖ" && Body(c, "ο") == "ο";
    assert Coda(c, "τ") <= 1;
    assert Coda(c, "οῖ") == 0;
    assert Coda(c, "ο") == 0;
    FinalUnchanged(c, ["τ", "οῖ", "ο", "ς ἀλλ"]);
  }

  lemma ToiosDefinitive(c: Classes)
    requires Knows(c)
    ensures Definitive(c, ["τ", "οῖ", "ο", "ς ἀλλ"]) == ["τοῖ", "ο", "ς ἀλλ"]
  {
    var final := ["τ", "οῖ", "ο", "ς ἀλλ"];
    assert final[2..] == ["ο", "ς ἀλλ"];
    assert final[0] + final[1] == "τοῖ";
    assert [final[0] + final[1]] + final[2..] == ["τοῖ", "ο", "ς ἀλλ"];
  }

  lemma ToiosRun(c: Classes)
    requires Knows(c)
    ensures Run(Precomposed, c, AsIs, "τοῖος ἀλλ") == Syllables(["τοῖ", "ο", "ς ἀλλ"])
  {
    ToiosProto(c);
    ToiosGroupSpace(c);
    ToiosReshuffle(c);
    RunFrom(c, "τοῖος ἀλλ", ["τ", "οῖ", "ος ", "ἀλλ"], ["τ", "οῖ", "ο", "ς ἀλλ"]);
    ToiosFinal(c);
    ToiosDefinitive(c);
  }

  /** `syllabifier('τοῖος ἀλλ')` is `['τοῖ', 'ο', 'ς ἀλλ']`. */
  lemma Toios(vowels: set<string>)
    requires Admissible(vowels)
    ensures Pipeline(Precomposed, vowels, AsIs, "τοῖος ἀλλ") == Syllables(["τοῖ", "ο", "ς ἀλλ"])
  {
    GreekKnows(vowels);
    ToiosRun(Greek(vowels));
  }

  /* τοῖος· ἀλλ: the same word with a middle dot after the sigma. The dot
     is not among the characters the reshuffles set aside, so the sigma is
     not seen as the end of its syllable and stays where it is; the
     result is the one the source's own notes record. */

  lemma DotProto(c: Classes)
    ensures ProtoSyllables(Precomposed, c, AsIs, "τοῖος· ἀλλ") ==
            Group(c, ["τ", "ο", "ῖ", "ο", "ς· ", "ἀ", "λ", "λ"], [])
  {
    FillerProto(c, "τοῖος", "· ", "ἀλλ");
    DotPieces();
  }

  lemma DotPieces()
    ensures "τοῖος" + "· " + "ἀλλ" == "τοῖος· ἀλλ"
    ensures Singles("τοῖος"[..4]) + [["τοῖος"[4]] + "· "] + Singles("ἀλλ") ==
            ["τ", "ο", "ῖ", "ο", "ς· ", "ἀ", "λ", "λ"]
  {
    assert "τοῖος"[..4] == "τοῖο";
    assert Singles("τοῖο") == ["τ", "ο", "ῖ", "ο"];
    assert Singles("ἀλλ") == ["ἀ", "λ", "λ"];
    assert ['ς'] + "· " == "ς· ";
  }

  lemma DotGroup(c: Classes)
    requires Knows(c)
    ensures Group(c, ["τ", "ο", "ῖ", "ο", "ς· ", "ἀ", "λ", "λ"], []) == ["τ", "οῖ", "ος· ", "ἀλλ"]
  {
    assert !c.isVowel("ς· ");
    ToiosGroup(c, "ς· ");
    assert "ο" + "ς· " == "ος· ";
  }

  /** Only the space after the middle dot is set aside. */
  lemma DotBody(c: Classes)
    requires Knows(c)
    ensures Body(c, "ος· ") == "ος·" && Trailing(c, "ος· ") == " "
  {
    assert "ος· "[..3] == "ος·";
    assert Body(c, "ος·") == "ος·";
  }

  lemma DotStays(c: Classes)
    requires Knows(c)
    ensures Step(c, ["τ", "οῖ", "ος· ", "ἀλλ"], 2, []) == Ok(Round("ος· ", []))
  {
    DotBody(c);
    var s2 := [] + Body(c, "ος· ");
    assert s2 == "ος·";
    assert [s2[|s2| - 1]] == "·";
    assert s2 + Trailing(c, "ος· ") == "ος· ";
  }

  lemma DotReshuffle(c: Classes)
    requires Knows(c)
    ensures Reshuffle(c, ["τ", "οῖ", "ος· ", "ἀλλ"]) == Ok(["τ", "οῖ", "ος· ", "ἀλλ"])
  {
    var ss := ["τ", "οῖ", "ος· ", "ἀλλ"];
    ToiosOpens(c, "ος· ");
    DotStays(c);
    ToiosEnds(c, "ος· ", []);
    assert [] + "ἀλλ" == "ἀλλ";
    assert ["τ", "οῖ"] + ["ος· "] == ["τ", "οῖ", "ος· "];
    assert ["τ", "οῖ", "ος· "] + ["ἀλλ"] == ["τ", "οῖ", "ος· ", "ἀλλ"];
    assert Shuffle(c, ss, 2, ["τ", "οῖ"], []) == Shuffle(c, ss, 3, ["τ", "οῖ", "ος· "], []);
    assert Shuffle(c, ss, 3, ["τ", "οῖ", "ος· "], []) == Shuffle(c, ss, 4, ["τ", "οῖ", "ος· ", "ἀλλ"], []);
  }

  lemma DotFinal(c: Classes)
    requires Knows(c)
    ensures FinalSyllables(c, ["τ", "οῖ", "ος· ", "ἀλλ"]) == ["τ", "οῖ", "ος· ", "ἀλλ"]
  {
    DotBody(c);
    assert Body(c, "τ") == "τ" && Body(c, "οῖ") == "οῖ";
    assert Coda(c, "τ") <= 1;
    assert Coda(c, "οῖ") == 0;
    assert Coda(c, "ος·") == 0;
    FinalUnchanged(c, ["τ", "οῖ", "ος· ", "ἀλλ"]);
  }

  lemma DotDefinitive(c: Classes)
    requires Knows(c)
    ensures Definitive(c, ["τ", "οῖ", "ος· ", "ἀλλ"]) == ["τοῖ", "ος· ", "ἀλλ"]
  {
    var final := ["τ", "οῖ", "ος· ", "ἀλλ"];
    assert final[2..] == ["ος· ", "ἀλλ"];
    assert final[0] + final[1] == "τοῖ";
    assert [final[0] + final[1]] + final[2..] == ["τοῖ", "ος· ", "ἀλλ"];
  }

  lemma DotRun(c: Classes)
    requires Knows(c)
    ensures Run(Precomposed, c, AsIs, "τοῖος· ἀλλ") == Syllables(["τοῖ", "ος· ", "ἀλλ"])
  {
    DotProto(c);
    DotGroup(c);
    DotReshuffle(c);
    RunFrom(c, "τοῖος· ἀλλ", ["τ", "οῖ", "ος· ", "ἀλλ"], ["τ", "οῖ", "ος· ", "ἀλλ"]);
    DotFinal(c);
    DotDefinitive(c);
  }

  /** `syllabifier('τοῖος· ἀλλ')` is `['τοῖ', 'ος· ', 'ἀλλ']`: the sigma
      stays with its syllable because of the middle dot. */
  lemma ToiosWithDot(vowels: set<string>)
    requires Admissible(vowels)
    ensures Pipeline(Precomposed, vowels, AsIs, "τοῖος· ἀλλ") == Syllables(["τοῖ", "ος· ", "ἀλλ"])
  {
    GreekKnows(vowels);
    DotRun(Greek(vowels));
  }
}
