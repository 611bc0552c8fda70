# Ancient Greek syllabifier and numeral test, in Dafny

This project models the syllabifier of `grc_utils` and its Greek numeral
test, and proves properties of the model.

The syllabifier (`syllabifier(string)`) runs five stages in a row:

1. `divide_into_elements` decomposes the word. It cuts the word into
   elements: one per base letter with its combining marks (recomposed), or
   one per other non-punctuation character. Punctuation and markup ride on
   the element before them. Punctuation at the very start is attached to
   the first element.
2. The elements are joined on `⋮`. `syllabify` splits them again and
   groups them into proto-syllables. Each vowel element, or pair of vowel
   elements forming a diphthong or adscript, opens a syllable. Every other
   element is added to the syllable being built.
3. `reshuffle_consonants` moves consonants across syllable boundaries:
   - one consonant before a vowel moves on, together with the trailing
     punctuation;
   - a cluster keeps its first consonant;
   - an initial syllable that does not open with a vowel keeps its letters
     before the first vowel, with its trailing characters, and carries the
     rest onto the next.
4. `final_reshuffle` makes a syllable ending in several consonants keep
   one. It pushes the rest onto the next entry of the list, in place.
5. `definitive_syllables` merges a first syllable that does not open with
   a vowel into the second.

`is_greek_numeral` accepts one to three numeral letters, at most one per
power of ten and in any order, followed by exactly one numeral sign.

## Files

- `text.dfy` (module `Text`): the string operations the source relies on:
  - `''.join`, `str.split`, `str.rstrip`;
  - `str.replace(…, 1)` and the search behind it;
  - the removal of markup;
  - the list comprehension that drops empty syllables.
- `patterns.dfy` (module `Patterns`): the `patterns` table, `is_vowel` and
  `is_consonant`, the diphthong test of `syllabify`, and the
  trailing-character class of the two reshuffles. The datatype `Classes`
  bundles these tests so the stage lemmas can be stated for any tests;
  `Greek(vowels)` gives the source's tests.
- `segmenter.dfy` (module `Segmenter`): `divide_into_elements`, as the
  imperative scanner of the source. It is proved equal to a fold (`Scan`)
  and to a reference reading (`Elements`, a text as a gap followed by
  units).
- `grouper.dfy` (module `Grouper`): `syllabify`, as a `while` loop proved
  equal to the fold `Group`. `GroupElements` is the same grouping on lists
  of elements.
- `reshuffler.dfy` (module `Reshuffler`): `reshuffle_consonants`, as a
  `for` loop over rounds, each proved equal to the function `Step`.
- `final.dfy` (module `Final`): `final_reshuffle`, as a loop that writes
  into an array as the source writes into its argument; and
  `definitive_syllables`.
- `syllabifier.dfy` (module `Syllabifier`): `syllabifier`, the five stages
  as one method and as one function.
- `numerals.dfy` (module `Numerals`): the numeral letter classes, the
  numeral signs and `is_greek_numeral`.
- `traces.dfy` (module `Traces`): the examples of the syllabifier's
  documentation, proved for a text of precomposed letters. The middle-dot
  behaviour the documentation lists as a bug is among them.

## Parameters

These are parameters of the model rather than parts of it:

- The Unicode database (`unicodedata.normalize`, `unicodedata.category`)
  is the datatype `Segmenter.Unicode`. It holds four functions, and
  `Sane(u)` states the three facts about them the proofs use.
- `normalize_word` is supplied as the function `normalizeWord`.
- The vowel table, built from `macrons_map` and `VOWELS_LOWER_TO_UPPER`,
  is the set `vowels`. `Admissible(vowels)` states that it holds every
  vowel written out in the source and that every member begins with a
  Greek vowel code point: a lower-case or capital vowel of the Greek and
  Coptic block (capitals with tonos included), or any code point of the
  Greek Extended block that is not a consonant.

## Model

| member | source | states |
|---|---|---|
| Text.FilterNonEmpty | grc_utils/syllabifier.py:227 | the kept syllables are non-empty and taken from the input; no character is lost; the list does not grow |
| Text.FilterNonEmptyOfNonEmpty | grc_utils/syllabifier.py:227 | a list without an empty syllable passes through unchanged |
| Text.SplitJoin | grc_utils/syllabifier.py:189 | splitting on `⋮` the join on `⋮` of entries without `⋮` gives the entries back |
| Text.RStrip | grc_utils/syllabifier.py:261 | `rstrip()` gives the longest prefix not ending in whitespace: all it removes is whitespace |
| Text.Find | grc_utils/syllabifier.py:276 | the search of `str.replace`: the first position where the pattern occurs, or -1 exactly when it occurs nowhere |
| Text.StripMarkup | grc_utils/syllabifier.py:175 | no `^` or `_` is left, and the string does not grow |
| Text.StripMarkupAppend | grc_utils/syllabifier.py:175 | removing the markup distributes over concatenation |
| Text.StripMarkupNoMarkup | grc_utils/syllabifier.py:175 | a string without `^` or `_` is left unchanged, so with the append lemma every other character is kept in order |
| Text.StripMarkupIdempotent | grc_utils/syllabifier.py:175 | removing the markup twice is removing it once |
| Patterns.IsVowelIgnoresMarkup | grc_utils/syllabifier.py:173-176 | `is_vowel` gives the same answer with and without the markup |
| Patterns.IsConsonantIgnoresMarkup | grc_utils/syllabifier.py:178-181 | `is_consonant` gives the same answer with and without the markup |
| Patterns.IsVowelExtends | grc_utils/syllabifier.py:176 | `re.match` anchors only at the start: a vowel stays a vowel when anything is appended |
| Patterns.IsConsonantExtends | grc_utils/syllabifier.py:181 | a consonant stays a consonant when anything is appended |
| Patterns.VowelsAreNotConsonants | grc_utils/syllabifier.py:67-78 | with an admissible vowel table, no element is both a vowel and a consonant |
| Patterns.ConsonantLetter | grc_utils/syllabifier.py:72-76 | every letter of the five consonant classes is a consonant and not a vowel |
| Patterns.LiteralVowel | grc_utils/syllabifier.py:53-55 | every vowel written out in the source is a vowel and not a consonant |
| Patterns.WhitespaceUnclassified | grc_utils/syllabifier.py:173-181 | an element opening with whitespace is neither a vowel nor a consonant |
| Patterns.PunctuationUnclassified | grc_utils/syllabifier.py:173-181 | an element opening with punctuation is neither a vowel nor a consonant |
| Patterns.LiteralVowelsAdmissible | grc_utils/syllabifier.py:52-58 | the vowels written out in the source already form an admissible table |
| Patterns.CapitalsAdmissible | grc_utils/syllabifier.py:57-63 | the table stays admissible with the upper-case forms of the first line of vowels added, capitals with tonos included |
| Patterns.EmptyNotVowel | grc_utils/syllabifier.py:173-176 | the empty string is not a vowel when the table has no empty entry |
| Patterns.TrailingCode | grc_utils/syllabifier.py:244 | no character of the trailing class is a Greek letter |
| Segmenter.MarkRun | grc_utils/syllabifier.py:113-115 | the combining marks after a base letter: all marks, and the character after them is not a mark |
| Segmenter.CollectMarks | grc_utils/syllabifier.py:112-115 | the inner loop collects exactly that run of marks and stops after it |
| Segmenter.MatchesPattern | grc_utils/syllabifier.py:119-135 | the loop over the ten patterns, in the order of the dictionary and stopping at the first match, reports a match exactly when some pattern matches the recomposed letter |
| Segmenter.TakeLetter | grc_utils/syllabifier.py:107-142 | a letter with its marks becomes one new element carrying the leading buffer; the scan goes on after it |
| Segmenter.AttachFiller | grc_utils/syllabifier.py:145-161 | punctuation and markup go on the last element, or into the leading buffer when there is none |
| Segmenter.TakeOther | grc_utils/syllabifier.py:162-169 | a stray mark is dropped; any other character becomes an element carrying the leading buffer |
| Segmenter.ScanMarkupAt | grc_utils/syllabifier.py:130-133 | taking the markup after a matched letter at once gives what the markup branch would give next |
| Segmenter.DivideIntoElements | grc_utils/syllabifier.py:84-171 | the scanner returns the elements of the reference reading of the decomposed text |
| Segmenter.ScanIsElements | grc_utils/syllabifier.py:84-171 | the fold of the scanner agrees with the reference reading (a gap before the first start, then one unit per start) |
| Segmenter.ElementsCount | grc_utils/syllabifier.py:105-169 | there is one element per character that opens one (a letter, or anything not punctuation, markup or mark) |
| Segmenter.NoStartNoElements | grc_utils/syllabifier.py:99-103 | a text of punctuation, markup and marks only gives no element, so the leading buffer is lost |
| Segmenter.LeadingPunctuationFirst | grc_utils/syllabifier.py:99-103 | punctuation at the start of the text is a prefix of the first element |
| Segmenter.ElementsConcat | grc_utils/syllabifier.py:84-171 | the elements spell the decomposed text with its stray marks dropped and its letters recomposed |
| Segmenter.ElementsNonEmpty | grc_utils/syllabifier.py:134-168 | no element is empty |
| Grouper.Emit | grc_utils/syllabifier.py:224-225 | the syllable being built is appended exactly when it is non-empty |
| Grouper.SyllabifyText | grc_utils/syllabifier.py:183-229 | the loop of `syllabify` computes the fold over the elements, filtered of empty syllables |
| Grouper.GroupConcat | grc_utils/syllabifier.py:193-225 | the syllables spell the syllable being built followed by all remaining elements |
| Grouper.GroupNonEmpty | grc_utils/syllabifier.py:208-225 | no syllable the loop emits is empty |
| Grouper.GroupVowelInitial | grc_utils/syllabifier.py:195-219 | every syllable after the first opens with a vowel, and so does the first once a vowel has been seen |
| Grouper.GroupWithoutVowels | grc_utils/syllabifier.py:220-225 | without a vowel element the text is at most one syllable, the whole text |
| Grouper.GroupElementsFlatten | grc_utils/syllabifier.py:193-225 | the groups partition the elements in order |
| Grouper.GroupElementsShape | grc_utils/syllabifier.py:195-223 | the groups are an optional onset without vowels, then syllables, each a vowel or fused pair followed only by non-vowels |
| Grouper.GroupIsGroupElements | grc_utils/syllabifier.py:193-225 | the syllables are the groups of elements, spelt out |
| Grouper.SyllabifyJoined | grc_utils/syllabifier.py:183-229 | on a joined divided text, `syllabify` gives the spelt-out groups: same text, vowel-initial after the first |
| Grouper.GreekSound | grc_utils/syllabifier.py:173-176 | the source's tests meet the soundness facts used for the grouping |
| Reshuffler.Body | grc_utils/syllabifier.py:243-246 | the letter part: the longest prefix not ending in a trailing character; what remains is all trailing |
| Reshuffler.Trailing | grc_utils/syllabifier.py:243-246 | the stripped trailing characters, which put back after the letter part give the syllable |
| Reshuffler.SplitTrailing | grc_utils/syllabifier.py:243-246 | the stripping loop gives the letter part and the trailing characters |
| Reshuffler.FirstVowel | grc_utils/syllabifier.py:250 | the index of the first vowel character, or the length when there is none |
| Reshuffler.ConsonantsOf | grc_utils/syllabifier.py:272 | `filter(is_consonant, …)`: consonant characters only, drawn from the syllable |
| Reshuffler.ConsonantsOfCount | grc_utils/syllabifier.py:272 | the filter keeps each consonant as many times as it occurs and drops every other character |
| Reshuffler.ConsonantsOfAppend | grc_utils/syllabifier.py:272 | the filter distributes over concatenation, so the consonants keep their order |
| Reshuffler.ConsonantsOfConsonants | grc_utils/syllabifier.py:272 | a string of consonants passes the filter unchanged |
| Reshuffler.Settle | grc_utils/syllabifier.py:280-282 | a remaining carry goes onto the last syllable; with no syllable it is an `IndexError` |
| Reshuffler.ReshuffleConsonants | grc_utils/syllabifier.py:231-284 | the loop computes the fold of the rounds, `IndexError` included |
| Reshuffler.ReshuffleRound | grc_utils/syllabifier.py:239-278 | one round, initial syllable and later syllables, as the function `Step` |
| Reshuffler.LaterRound | grc_utils/syllabifier.py:255-278 | the round on a later syllable, all its branches |
| Reshuffler.ReshuffleLength | grc_utils/syllabifier.py:239-284 | a successful reshuffle keeps the number of syllables |
| Reshuffler.ReshuffleErrors | grc_utils/syllabifier.py:248-262 | an `IndexError` is raised for a first syllable of trailing characters only, and never when every syllable has a letter part |
| Reshuffler.StepFirstSyllable | grc_utils/syllabifier.py:248-253 | an initial syllable not opening with a vowel emits its part before the first vowel, with the trailing characters, and carries the rest |
| Reshuffler.StepBeforeVowel | grc_utils/syllabifier.py:260-269 | before a vowel, a final double consonant stays; any other final consonant moves on with the trailing characters |
| Reshuffler.ClusterKeeps | grc_utils/syllabifier.py:271-276 | the cluster branch loses no character |
| Reshuffler.StepKeepsCharacters | grc_utils/syllabifier.py:239-278 | a round loses no character of the carry and the syllable |
| Reshuffler.SettleConcat | grc_utils/syllabifier.py:280-282 | settling the carry appends it to the text |
| Reshuffler.ReshuffleKeepsCharacters | grc_utils/syllabifier.py:231-284 | every character of the proto-syllables is in the reshuffled syllables |
| Final.Coda | grc_utils/syllabifier.py:300-303 | the number of consonants ending the letter part: all consonants, the one before them not |
| Final.CountCoda | grc_utils/syllabifier.py:300-303 | the counting loop gives that number |
| Final.CutCoda | grc_utils/syllabifier.py:297-313 | the last entry is passed on unchanged |
| Final.CutCodaMeans | grc_utils/syllabifier.py:297-313 | a syllable with more than one final consonant, not the last, keeps one (with its trailing characters) and pushes the others; otherwise it passes unchanged |
| Final.CutCodaKeeps | grc_utils/syllabifier.py:305-309 | a round keeps the characters of its syllable, in order when there are no trailing characters |
| Final.CutLeavesOneConsonant | grc_utils/syllabifier.py:305-309 | the emitted syllable ends in at most one consonant and keeps its trailing characters |
| Final.GreekConsonantsStay | grc_utils/syllabifier.py:244 | no consonant is stripped as a trailing character |
| Final.ReshuffleEntry | grc_utils/syllabifier.py:289-313 | one round: it emits the cut syllable and writes the pushed consonants into the next entry, changing nothing else |
| Final.FinalReshuffle | grc_utils/syllabifier.py:286-315 | the loop gives the syllables of the pass and leaves the list as the pass rewrote it |
| Final.FinalKeepsCharacters | grc_utils/syllabifier.py:286-315 | the final syllables hold exactly the characters of the input |
| Final.FinalReshuffleRounds | grc_utils/syllabifier.py:289-313 | same length; each output is the cut of the entry as rewritten, each entry is the pushed consonants prepended to the original, and the last passes unchanged |
| Final.FinalLeavesOneConsonant | grc_utils/syllabifier.py:298-309 | every syllable but the last ends in at most one consonant |
| Final.FinalUnchanged | grc_utils/syllabifier.py:310-313 | a list whose syllables end in at most one consonant is left as it is |
| Final.FinalIdempotent | grc_utils/syllabifier.py:286-315 | a second final reshuffle changes nothing |
| Final.Definitive | grc_utils/syllabifier.py:317-326 | the text is kept; the list shrinks by one exactly when the first syllable is non-empty, does not open with a vowel and has a successor, and then the two are merged |
| Syllabifier.SyllabifyWord | grc_utils/syllabifier.py:332-363 | the stages called in a row give the outcome of the composed function |
| Syllabifier.FinalStage | grc_utils/syllabifier.py:358 | `final_reshuffle` on a fresh list gives the final syllables |
| Syllabifier.RunKeepsCharacters | grc_utils/syllabifier.py:332-363 | every character of the elements is in the syllables; their number is that of the proto-syllables, or one less |
| Syllabifier.StagesKeep | grc_utils/syllabifier.py:355-361 | the last three stages keep every character and the count up to the merge |
| Syllabifier.RunRaises | grc_utils/syllabifier.py:248-262 | no `IndexError` when every proto-syllable has a letter part; one when the first has none |
| Traces.PrecomposedSane | grc_utils/syllabifier.py:107-113 | the database of precomposed Greek text meets the three facts |
| Traces.Patros | grc_utils/syllabifier.py:4-6 | `πατρός` gives `πατ`, `ρός` |
| Traces.Ammi | grc_utils/syllabifier.py:7-8 | `ἄμμι` gives `ἄμ`, `μι` |
| Traces.Deinei | grc_utils/syllabifier.py:10-12 | `δεινῆι` gives `δει`, `νῆι` |
| Traces.Toios | grc_utils/syllabifier.py:23 | `τοῖος ἀλλ` gives `τοῖ`, `ο`, `ς ἀλλ` |
| Traces.ToiosWithDot | grc_utils/syllabifier.py:20-34 | `τοῖος· ἀλλ` gives `τοῖ`, `ος· `, `ἀλλ`, the middle-dot behaviour recorded as a bug |
| Numerals.ClassesDisjoint | build/lib/grc_utils/grc_numerals.py:11-25 | the three power classes share no letter, and no numeral sign is a numeral letter |
| Numerals.Power | build/lib/grc_utils/grc_numerals.py:22-25 | the power of ten a numeral letter stands for, 0, 1 or 2, exactly by its class |
| Numerals.LettersMeans | build/lib/grc_utils/grc_numerals.py:27-33 | the six alternatives accept exactly one to three numeral letters of pairwise different powers |
| Numerals.IsGreekNumeralMeans | build/lib/grc_utils/grc_numerals.py:27-37 | `is_greek_numeral` holds exactly for one to three letters of different powers followed by one sign |
| Numerals.NothingAfter | build/lib/grc_utils/grc_numerals.py:36-37 | `fullmatch`: anything appended to a numeral, a second sign included, makes the test fail |
| Numerals.NeedsSign | build/lib/grc_utils/grc_numerals.py:34-37 | without a final sign there is no numeral |
| Numerals.AcceptedExamples | build/lib/grc_utils/grc_numerals.py:42-44 | `α'`, and `ϡ` and `ϡϟϛ` each followed by a grave accent, are numerals |
| Numerals.RejectedExamples | build/lib/grc_utils/grc_numerals.py:27-37 | two letters of the same power, the empty string and a bare sign are not |

## Left out

- Unicode normalisation and general categories (`unicodedata`) are not
  modelled; they are the parameter `Unicode`. The examples use a database
  of precomposed Greek text, in which composing and decomposing change
  nothing.
- `normalize_word` (in `utils.py`) is not part of this model; it is a
  parameter.
- The vowel table is a parameter, constrained by `Admissible`. It is built
  from `macrons_map` and the upper-case table, which are not part of this
  model.
- The `debug` flag and its `print` calls are left out; they do not change
  the result.
- Regular expressions are not modelled as such. Each pattern is written
  as the predicate on strings it matches at the start (`re.match`). The
  numeral pattern is written as the predicate its `fullmatch` accepts.
- The `IndexError` that `reshuffle_consonants` can raise is modelled as an
  `Outcome` value (`Raised`), not as an exception.
- The trailing class of the two reshuffles is a raw string tested with
  `in`. It is modelled literally: its escapes are backslash, `u` and digit
  characters, and the middle dot, ano teleia and Greek question mark are
  not in it. This is what produces the middle-dot behaviour traced by
  `Traces.ToiosWithDot`.
- Reshuffler.ReshuffleKeepsCharacters: states multiset inclusion, not
  equality. The cluster branch replaces the cluster in the syllable by its
  first consonant only when the cluster occurs there as a substring, and
  carries the rest in any case, so a character can be duplicated.
- Syllabifier.RunKeepsCharacters: multiset inclusion for the same reason.
- `definitive_syllables` mutates its argument (the `+=` and the `pop`);
  `Final.Definitive` models it on values, since the list is not used again
  after the call.
- The docstring of the numeral module also promises upper-case numerals.
  The letter classes hold lower-case letters only, apart from the
  upper-case stigma, koppas and sampi, so the model follows the classes.
- The thousands reading of the lower keraia `͵` is not modelled; the
  source treats it as one more numeral sign, and so does the model.
