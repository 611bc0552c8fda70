/** `syllabifier(string)`: the five stages in a row. The word is first
    normalised by `normalize_word`, which is not part of this model and is
    the parameter `normalizeWord`; the Unicode database is the parameter
    `u` and the vowel table the parameter `vowels`, as in the stages. */
module Syllabifier {
  import opened Text
  import opened Patterns
  import opened Segmenter
  import opened Grouper
  import opened Reshuffler
  import opened Final

  /** What `syllabifier` gives back: `None` for an empty argument, the
      `IndexError` that `reshuffle_consonants` can raise, or the list of
      syllables. */
  datatype Outcome = NoInput | Raised | Syllables(value: seq<string>)

  /** The elements of the normalised word. */
  function Divided(u: Unicode, normalizeWord: string -> string, word: string): seq<string>
  {
    Divide(u, normalizeWord(word))
  }

  /** The proto-syllables: the elements joined on `⋮` and grouped. */
  function ProtoSyllables(u: Unicode, c: Classes, normalizeWord: string -> string, word: string): seq<string>
  {
    Syllabify(c, Join(Divided(u, normalizeWord, word), Separator))
  }

  /** The five stages for the tests `c`. */
  function Run(u: Unicode, c: Classes, normalizeWord: string -> string, word: string): Outcome
  {
    if word == [] then NoInput
    else
      match Reshuffle(c, ProtoSyllables(u, c, normalizeWord, word))
      case IndexError => Raised
      case Ok(reshuffled) => Syllables(Definitive(c, FinalSyllables(c, reshuffled)))
  }

  /** `syllabifier(word)`: the five stages for the source's tests. */
  function Pipeline(u: Unicode, vowels: set<string>, normalizeWord: string -> string, word: string): Outcome
  {
    Run(u, Greek(vowels), normalizeWord, word)
  }

  /** `syllabifier(word)`, stage by stage as the source calls them; the
      list that `final_reshuffle` writes into is an array here. */
  method SyllabifyWord(u: Unicode, vowels: set<string>, normalizeWord: string -> string, word: string)
    returns (outcome: Outcome)
    requires Sane(u)
    ensures outcome == Pipeline(u, vowels, normalizeWord, word)
  {
    if word == [] {
      return NoInput;
    }
    var c := Greek(vowels);
    var normalized := normalizeWord(word);
    var divided := DivideIntoElements(u, vowels, normalized);
    var joined := Join(divided, Separator);
    var syllabified := SyllabifyText(c, joined);
    assert syllabified == ProtoSyllables(u, c, normalizeWord, word);
    var reshuffled := ReshuffleConsonants(c, syllabified);
    if reshuffled.IndexError? {
      return Raised;
    }
    var final := FinalStage(c, reshuffled.value);
    outcome := Syllables(Definitive(c, final));
  }

  /** `final_reshuffle` on a fresh list holding the syllables. */
  method FinalStage(c: Classes, syllables: seq<string>) returns (final: seq<string>)
    ensures final == FinalSyllables(c, syllables)
  {
    var a := new string[|syllables|](k requires 0 <= k < |syllables| => syllables[k]);
    assert a[..] == syllables;
    final := FinalReshuffle(c, a);
  }

  /** An empty argument gives `None`, and only an empty argument. */
  lemma EmptyWord(u: Unicode, c: Classes, normalizeWord: string -> string, word: string)
    ensures Run(u, c, normalizeWord, word) == NoInput <==> word == []
  {
  }

  /** From the elements to the final syllables no character is lost: all
      the characters of the elements are in the syllables, the cluster
      branch of `reshuffle_consonants` being the only place that can add
      one. The number of syllables is that of the proto-syllables, less
      one when the first is merged into the second. */
  lemma RunKeepsCharacters(u: Unicode, c: Classes, normalizeWord: string -> string, word: string)
    requires Sane(u)
    requires forall k :: 0 <= k < |Divided(u, normalizeWord, word)| ==>
               Separator !in Divided(u, normalizeWord, word)[k]
    ensures Run(u, c, normalizeWord, word).Syllables? ==>
              var r := Run(u, c, normalizeWord, word).value;
              multiset(Concat(Divided(u, normalizeWord, word))) <= multiset(Concat(r))
              && (|r| == |ProtoSyllables(u, c, normalizeWord, word)|
                  || |r| == |ProtoSyllables(u, c, normalizeWord, word)| - 1)
  {
    var d := u.nfd(normalizeWord(word));
    var elements := Divided(u, normalizeWord, word);
    ScanIsElements(u, d);
    ElementsNonEmpty(u, d);
    SyllabifyJoined(c, elements);
    var proto := ProtoSyllables(u, c, normalizeWord, word);
    assert Concat(proto) == Concat(elements);
    if word != [] && Reshuffle(c, proto).Ok? {
      StagesKeep(c, proto);
    }
  }

  /** The last three stages keep every character and the number of
      syllables, up to the merge of the first two. */
  lemma StagesKeep(c: Classes, proto: seq<string>)
    requires Reshuffle(c, proto).Ok?
    ensures var r := Definitive(c, FinalSyllables(c, Reshuffle(c, proto).value));
            multiset(Concat(proto)) <= multiset(Concat(r))
            && (|r| == |proto| || |r| == |proto| - 1)
  {
    var reshuffled := Reshuffle(c, proto).value;
    ReshuffleKeepsCharacters(c, proto);
    ReshuffleLength(c, proto);
    FinalKeepsCharacters(c, reshuffled);
    FinalReshuffleRounds(c, reshuffled);
  }

  /** With every proto-syllable holding a letter part, no `IndexError` is
      raised; a first proto-syllable made only of trailing characters
      raises one. */
  lemma RunRaises(u: Unicode, c: Classes, normalizeWord: string -> string, word: string)
    requires StripsWhitespace(c) && word != []
    ensures var proto := ProtoSyllables(u, c, normalizeWord, word);
            (forall k :: 0 <= k < |proto| ==> Body(c, proto[k]) != []) ==>
              Run(u, c, normalizeWord, word).Syllables?
    ensures var proto := ProtoSyllables(u, c, normalizeWord, word);
            proto != [] && Body(c, proto[0]) == [] ==> Run(u, c, normalizeWord, word) == Raised
  {
    ReshuffleErrors(c, ProtoSyllables(u, c, normalizeWord, word));
  }

  /** The source's tests strip whitespace. */
  lemma GreekStripsWhitespace(vowels: set<string>)
    ensures StripsWhitespace(Greek(vowels))
  {
  }
}
