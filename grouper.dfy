/** `syllabify`: the elements of a divided text, joined by `⋮`, are split
    again and grouped into proto-syllables. Every vowel element opens a new
    syllable (fused with the next element when the two form a diphthong or
    an adscript), and every other element is added to the syllable being
    built. */
module Grouper {
  import opened Text
  import opened Patterns

  /** The element separator of the divided text. */
  const Separator: char := '⋮'

  /** What the source's `is_vowel` gives the grouping: it never holds of
      the empty string, and a string that opens with a vowel still does
      when something is appended; fused elements are vowels. */
  ghost predicate VowelTestSound(c: Classes)
  {
    !c.isVowel([])
    && (forall s, t :: c.isVowel(s) ==> c.isVowel(s + t))
    && (forall a, b :: c.fuses(a, b) ==> c.isVowel(a))
  }

  /** The source's tests are sound as long as no vowel is empty. */
  lemma GreekSound(vowels: set<string>)
    requires [] !in vowels
    ensures VowelTestSound(Greek(vowels))
  {
    EmptyNotVowel(vowels);
    forall s, t | IsVowel(vowels, s)
      ensures IsVowel(vowels, s + t)
    {
      IsVowelExtends(vowels, s, t);
    }
  }

  /** `if current_syllable: syllables.append(current_syllable)`. */
  function Emit(cur: string): (r: seq<string>)
    ensures |r| <= 1 && (r == [] <==> cur == [])
    ensures Concat(r) == cur
  {
    if cur == [] then [] else [cur]
  }

  /** The loop of `syllabify` as a fold over the elements still to be read,
      with the syllable being built: the syllables it emits from here on,
      the last one included. */
  function Group(c: Classes, es: seq<string>, cur: string): seq<string>
    decreases |es|
  {
    if es == [] then Emit(cur)
    else if c.isVowel(es[0]) then
      if |es| >= 2 && c.fuses(es[0], es[1]) then
        Emit(cur) + Group(c, es[2..], es[0] + es[1])
      else
        Emit(cur) + Group(c, es[1..], es[0])
    else
      Group(c, es[1..], cur + es[0])
  }

  /** `syllabify(divided_text)`. */
  function Syllabify(c: Classes, dividedText: string): seq<string>
  {
    FilterNonEmpty(Group(c, Split(dividedText, Separator), []))
  }

  /** `syllabify(divided_text)`, the loop as the source writes it. */
  method SyllabifyText(c: Classes, dividedText: string) returns (syllables: seq<string>)
    ensures syllables == Syllabify(c, dividedText)
  {
    var elements := Split(dividedText, Separator);
    syllables := [];
    var cur := "";
    var i := 0;
    while i < |elements|
      invariant 0 <= i <= |elements|
      invariant syllables + Group(c, elements[i..], cur) == Group(c, elements, [])
      decreases |elements| - i
    {
      var element := elements[i];
      if c.isVowel(element) && i + 1 < |elements| && c.fuses(element, elements[i + 1]) {
        FusedAt(c, elements, i, cur);
        EmitBefore(syllables, cur, Group(c, elements[i + 2..], element + elements[i + 1]));
        if cur != [] {
          syllables := syllables + [cur];
        }
        cur := element + elements[i + 1];
        i := i + 2;
      } else if c.isVowel(element) {
        VowelAt(c, elements, i, cur);
        EmitBefore(syllables, cur, Group(c, elements[i + 1..], element));
        if cur != [] {
          syllables := syllables + [cur];
        }
        cur := element;
        i := i + 1;
      } else {
        OtherAt(c, elements, i, cur);
        cur := cur + element;
        i := i + 1;
      }
    }
    assert elements[i..] == [];
    EmitBefore(syllables, cur, []);
    if cur != [] {
      syllables := syllables + [cur];
    }
    assert syllables + [] == syllables;
    syllables := FilterNonEmpty(syllables);
  }

  /** The syllable being built, emitted before the syllables `g`. */
  lemma EmitBefore(done: seq<string>, cur: string, g: seq<string>)
    ensures done + (Emit(cur) + g) == (if cur != [] then done + [cur] else done) + g
  {
    if cur == [] {
      assert Emit(cur) + g == g;
    }
  }

  /* One round of the loop at element `i`, for each of its branches. */

  lemma FusedAt(c: Classes, es: seq<string>, i: nat, cur: string)
    requires i + 1 < |es| && c.isVowel(es[i]) && c.fuses(es[i], es[i + 1])
    ensures Group(c, es[i..], cur) == Emit(cur) + Group(c, es[i + 2..], es[i] + es[i + 1])
  {
    assert es[i..][0] == es[i] && es[i..][1] == es[i + 1];
    assert es[i..][2..] == es[i + 2..];
  }

  lemma VowelAt(c: Classes, es: seq<string>, i: nat, cur: string)
    requires i < |es| && c.isVowel(es[i]) && !(i + 1 < |es| && c.fuses(es[i], es[i + 1]))
    ensures Group(c, es[i..], cur) == Emit(cur) + Group(c, es[i + 1..], es[i])
  {
    assert es[i..][0] == es[i];
    if i + 1 < |es| {
      assert es[i..][1] == es[i + 1];
    }
    assert es[i..][1..] == es[i + 1..];
  }

  lemma OtherAt(c: Classes, es: seq<string>, i: nat, cur: string)
    requires i < |es| && !c.isVowel(es[i])
    ensures Group(c, es[i..], cur) == Group(c, es[i + 1..], cur + es[i])
  {
    assert es[i..][0] == es[i];
    assert es[i..][1..] == es[i + 1..];
  }

  /** Grouping keeps the text: the syllables spell the pending syllable
      and the elements, in order. */
  lemma {:induction false} GroupConcat(c: Classes, es: seq<string>, cur: string)
    ensures Concat(Group(c, es, cur)) == cur + Concat(es)
    decreases |es|, 1
  {
    if es == [] {
    } else if c.isVowel(es[0]) && |es| >= 2 && c.fuses(es[0], es[1]) {
      GroupConcatFused(c, es, cur);
    } else if c.isVowel(es[0]) {
      GroupConcatSingle(c, es, cur);
    } else {
      GroupConcatOther(c, es, cur);
    }
  }

  lemma {:induction false} GroupConcatFused(c: Classes, es: seq<string>, cur: string)
    requires |es| >= 2 && c.isVowel(es[0]) && c.fuses(es[0], es[1])
    ensures Concat(Group(c, es, cur)) == cur + Concat(es)
    decreases |es|, 0
  {
    var g := Group(c, es[2..], es[0] + es[1]);
    assert Group(c, es, cur) == Emit(cur) + g;
    assert Concat(g) == Concat(es) by {
      GroupConcat(c, es[2..], es[0] + es[1]);
      ConcatFrom(es, 0);
      ConcatFrom(es, 1);
      assert es[0..] == es;
    }
    EmitConcat(cur, g);
  }

  lemma {:induction false} GroupConcatSingle(c: Classes, es: seq<string>, cur: string)
    requires es != [] && c.isVowel(es[0]) && !(|es| >= 2 && c.fuses(es[0], es[1]))
    ensures Concat(Group(c, es, cur)) == cur + Concat(es)
    decreases |es|, 0
  {
    var g := Group(c, es[1..], es[0]);
    assert Group(c, es, cur) == Emit(cur) + g;
    assert Concat(g) == Concat(es) by {
      GroupConcat(c, es[1..], es[0]);
      ConcatFrom(es, 0);
      assert es[0..] == es;
    }
    EmitConcat(cur, g);
  }

  lemma {:induction false} GroupConcatOther(c: Classes, es: seq<string>, cur: string)
    requires es != [] && !c.isVowel(es[0])
    ensures Concat(Group(c, es, cur)) == cur + Concat(es)
    decreases |es|, 0
  {
    assert Group(c, es, cur) == Group(c, es[1..], cur + es[0]);
    GroupConcat(c, es[1..], cur + es[0]);
    ConcatFrom(es, 0);
    assert es[0..] == es;
  }

  lemma EmitConcat(cur: string, g: seq<string>)
    ensures Concat(Emit(cur) + g) == cur + Concat(g)
  {
    ConcatAppend(Emit(cur), g);
  }

  /** No syllable is empty, so the final filter of `syllabify` removes
      nothing. */
  lemma {:induction false} GroupNonEmpty(c: Classes, es: seq<string>, cur: string)
    ensures forall k :: 0 <= k < |Group(c, es, cur)| ==> Group(c, es, cur)[k] != []
    decreases |es|
  {
    if es != [] {
      if c.isVowel(es[0]) {
        if |es| >= 2 && c.fuses(es[0], es[1]) {
          GroupNonEmpty(c, es[2..], es[0] + es[1]);
        } else {
          GroupNonEmpty(c, es[1..], es[0]);
        }
      } else {
        GroupNonEmpty(c, es[1..], cur + es[0]);
      }
    }
  }

  /** Whether every string of `xs` opens with a vowel. */
  predicate AllVowels(c: Classes, xs: seq<string>)
  {
    forall k :: 0 <= k < |xs| ==> c.isVowel(xs[k])
  }

  lemma AllVowelsCons(c: Classes, x: string, xs: seq<string>)
    requires c.isVowel(x) && AllVowels(c, xs)
    ensures AllVowels(c, [x] + xs)
  {
  }

  lemma AllVowelsTail(c: Classes, xs: seq<string>)
    requires xs != [] && AllVowels(c, xs)
    ensures AllVowels(c, xs[1..])
  {
  }

  /** Every syllable after the first opens with a vowel, and so does the
      first when the pending syllable does. */
  lemma {:induction false} GroupVowelInitial(c: Classes, es: seq<string>, cur: string)
    requires VowelTestSound(c)
    ensures Group(c, es, cur) == [] || AllVowels(c, Group(c, es, cur)[1..])
    ensures c.isVowel(cur) ==>
              Group(c, es, cur) != [] && AllVowels(c, Group(c, es, cur))
    decreases |es|
  {
    if es == [] {
    } else if c.isVowel(es[0]) {
      var next: string;
      var g: seq<string>;
      if |es| >= 2 && c.fuses(es[0], es[1]) {
        next := es[0] + es[1];
        assert c.isVowel(es[0] + es[1]);
        GroupVowelInitial(c, es[2..], next);
        g := Group(c, es[2..], next);
      } else {
        next := es[0];
        GroupVowelInitial(c, es[1..], next);
        g := Group(c, es[1..], next);
      }
      assert Group(c, es, cur) == Emit(cur) + g;
      if cur == [] {
        assert Emit(cur) + g == g;
        AllVowelsTail(c, g);
      } else {
        assert Emit(cur) + g == [cur] + g;
        assert ([cur] + g)[1..] == g;
        if c.isVowel(cur) {
          AllVowelsCons(c, cur, g);
        }
      }
    } else {
      if c.isVowel(cur) {
        assert c.isVowel(cur + es[0]);
      }
      GroupVowelInitial(c, es[1..], cur + es[0]);
    }
  }

  /** Whether no element is a vowel. */
  predicate NoVowel(c: Classes, es: seq<string>)
  {
    forall k :: 0 <= k < |es| ==> !c.isVowel(es[k])
  }

  /** Without a vowel element the whole text is at most one syllable. */
  lemma {:induction false} GroupWithoutVowels(c: Classes, es: seq<string>, cur: string)
    requires NoVowel(c, es)
    ensures Group(c, es, cur) == Emit(cur + Concat(es))
    decreases |es|
  {
    if es != [] {
      GroupWithoutVowels(c, es[1..], cur + es[0]);
      ConcatCons(es[0], es[1..]);
      assert [es[0]] + es[1..] == es;
      AppendAssoc(cur, es[0], Concat(es[1..]));
    } else {
      assert cur + Concat(es) == cur;
    }
  }

  /* The grouping stated on the elements themselves: a partition of the
     element list into an optional onset of non-vowel elements followed by
     syllables, each a nucleus and then non-vowel elements. */

  /** A syllable: one vowel element, or two that fuse, then only non-vowel
      elements. */
  predicate SyllableShape(c: Classes, g: seq<string>)
  {
    g != [] && c.isVowel(g[0])
    && ((forall k :: 1 <= k < |g| ==> !c.isVowel(g[k]))
        || (|g| >= 2 && c.fuses(g[0], g[1]) && forall k :: 2 <= k < |g| ==> !c.isVowel(g[k])))
  }

  /** A leading stretch with no vowel element. */
  predicate OnsetShape(c: Classes, g: seq<string>)
  {
    g != [] && NoVowel(c, g)
  }

  /** What the syllable being built can be: nothing yet, an onset, or a
      syllable. */
  predicate Pending(c: Classes, cur: seq<string>)
  {
    cur == [] || OnsetShape(c, cur) || SyllableShape(c, cur)
  }

  /** Whether every group is a syllable. */
  predicate AllSyllables(c: Classes, gs: seq<seq<string>>)
  {
    forall k :: 0 <= k < |gs| ==> SyllableShape(c, gs[k])
  }

  /** Whether the groups are an optional onset followed by syllables. */
  predicate Shaped(c: Classes, gs: seq<seq<string>>)
  {
    gs == [] || ((OnsetShape(c, gs[0]) || SyllableShape(c, gs[0])) && AllSyllables(c, gs[1..]))
  }

  /** The fold of `Group` on lists of elements instead of strings. */
  function GroupElements(c: Classes, es: seq<string>, cur: seq<string>): seq<seq<string>>
    decreases |es|
  {
    var emit: seq<seq<string>> := if cur == [] then [] else [cur];
    if es == [] then emit
    else if c.isVowel(es[0]) then
      if |es| >= 2 && c.fuses(es[0], es[1]) then
        emit + GroupElements(c, es[2..], [es[0], es[1]])
      else
        emit + GroupElements(c, es[1..], [es[0]])
    else
      GroupElements(c, es[1..], cur + [es[0]])
  }

  /** The groups partition the elements, in order. */
  lemma {:induction false} GroupElementsFlatten(c: Classes, es: seq<string>, cur: seq<string>)
    ensures Flatten(GroupElements(c, es, cur)) == cur + es
    decreases |es|
  {
    var emit: seq<seq<string>> := if cur == [] then [] else [cur];
    assert Flatten(emit) == cur;
    if es == [] {
      assert cur + es == cur;
    } else if c.isVowel(es[0]) {
      if |es| >= 2 && c.fuses(es[0], es[1]) {
        GroupElementsFlatten(c, es[2..], [es[0], es[1]]);
        FlattenAppend(emit, GroupElements(c, es[2..], [es[0], es[1]]));
        assert cur + ([es[0], es[1]] + es[2..]) == cur + es;
      } else {
        GroupElementsFlatten(c, es[1..], [es[0]]);
        FlattenAppend(emit, GroupElements(c, es[1..], [es[0]]));
        assert cur + ([es[0]] + es[1..]) == cur + es;
      }
    } else {
      GroupElementsFlatten(c, es[1..], cur + [es[0]]);
      assert (cur + [es[0]]) + es[1..] == cur + es;
    }
  }

  /** A non-vowel element keeps the shape of the syllable being built. */
  lemma PendingExtend(c: Classes, cur: seq<string>, e: string)
    requires Pending(c, cur) && !c.isVowel(e)
    ensures Pending(c, cur + [e]) && cur + [e] != []
    ensures SyllableShape(c, cur) ==> SyllableShape(c, cur + [e])
  {
    var ext := cur + [e];
    assert ext[|cur|] == e;
    if cur == [] {
      assert OnsetShape(c, ext);
    } else if OnsetShape(c, cur) {
      assert forall k :: 0 <= k < |ext| ==> ext[k] == (if k < |cur| then cur[k] else e);
      assert OnsetShape(c, ext);
    }
    if SyllableShape(c, cur) {
      assert forall k :: 0 <= k < |ext| ==> ext[k] == (if k < |cur| then cur[k] else e);
      assert ext[0] == cur[0];
      if |cur| >= 2 {
        assert ext[1] == cur[1];
      }
    }
  }

  lemma AllSyllablesCons(c: Classes, g: seq<string>, gs: seq<seq<string>>)
    requires SyllableShape(c, g) && AllSyllables(c, gs)
    ensures AllSyllables(c, [g] + gs)
  {
  }

  lemma AllSyllablesShaped(c: Classes, gs: seq<seq<string>>)
    requires AllSyllables(c, gs)
    ensures Shaped(c, gs)
  {
  }

  /** The groups are an optional onset followed by syllables, and only
      syllables once the one being built is a syllable. */
  lemma {:induction false} GroupElementsShape(c: Classes, es: seq<string>, cur: seq<string>)
    requires Pending(c, cur)
    ensures Shaped(c, GroupElements(c, es, cur))
    ensures SyllableShape(c, cur) ==>
              GroupElements(c, es, cur) != [] && AllSyllables(c, GroupElements(c, es, cur))
    decreases |es|
  {
    var emit: seq<seq<string>> := if cur == [] then [] else [cur];
    if es == [] {
      assert GroupElements(c, es, cur) == emit;
    } else if c.isVowel(es[0]) {
      var next: seq<string>;
      var rest: seq<seq<string>>;
      if |es| >= 2 && c.fuses(es[0], es[1]) {
        next := [es[0], es[1]];
        assert SyllableShape(c, next);
        GroupElementsShape(c, es[2..], next);
        rest := GroupElements(c, es[2..], next);
      } else {
        next := [es[0]];
        assert SyllableShape(c, next);
        GroupElementsShape(c, es[1..], next);
        rest := GroupElements(c, es[1..], next);
      }
      assert GroupElements(c, es, cur) == emit + rest;
      if cur == [] {
        assert emit + rest == rest;
        AllSyllablesShaped(c, rest);
      } else {
        assert emit + rest == [cur] + rest;
        assert ([cur] + rest)[1..] == rest;
        if SyllableShape(c, cur) {
          AllSyllablesCons(c, cur, rest);
        }
      }
    } else {
      PendingExtend(c, cur, es[0]);
      GroupElementsShape(c, es[1..], cur + [es[0]]);
    }
  }

  lemma {:induction false} FlattenAppend(a: seq<seq<string>>, b: seq<seq<string>>)
    ensures Flatten(a + b) == Flatten(a) + Flatten(b)
  {
    if a != [] {
      FlattenAppend(a[1..], b);
      assert (a + b)[1..] == a[1..] + b;
    } else {
      assert a + b == b;
    }
  }

  function ConcatEach(gs: seq<seq<string>>): (r: seq<string>)
    ensures |r| == |gs|
    ensures forall k :: 0 <= k < |gs| ==> r[k] == Concat(gs[k])
  {
    if gs == [] then [] else [Concat(gs[0])] + ConcatEach(gs[1..])
  }

  /** Whether every element is non-empty, as every element of a divided
      text is. */
  predicate AllNonEmpty(es: seq<string>)
  {
    forall k :: 0 <= k < |es| ==> es[k] != []
  }

  lemma {:induction false} ConcatNonEmpty(es: seq<string>)
    requires AllNonEmpty(es) && es != []
    ensures Concat(es) != []
  {
    assert Concat(es) == Concat(es[..|es| - 1]) + es[|es| - 1];
  }

  /** The syllables are exactly the groups of elements, each spelt out. */
  lemma {:induction false} GroupIsGroupElements(c: Classes, es: seq<string>, cur: seq<string>)
    requires AllNonEmpty(es) && AllNonEmpty(cur)
    ensures Group(c, es, Concat(cur)) == ConcatEach(GroupElements(c, es, cur))
    decreases |es|, 1
  {
    if es == [] {
      EmitSpelt(cur);
    } else if c.isVowel(es[0]) && |es| >= 2 && c.fuses(es[0], es[1]) {
      GroupIsGroupElementsFused(c, es, cur);
    } else if c.isVowel(es[0]) {
      GroupIsGroupElementsSingle(c, es, cur);
    } else {
      GroupIsGroupElementsOther(c, es, cur);
    }
  }

  lemma EmitSpelt(cur: seq<string>)
    requires AllNonEmpty(cur)
    ensures Emit(Concat(cur)) == ConcatEach(if cur == [] then [] else [cur])
  {
    if cur != [] {
      ConcatNonEmpty(cur);
    }
  }

  /** One fused step of both folds. */
  lemma FusedStep(c: Classes, es: seq<string>, cur: seq<string>)
    requires |es| >= 2 && c.isVowel(es[0]) && c.fuses(es[0], es[1])
    ensures GroupElements(c, es, cur)
            == (if cur == [] then [] else [cur]) + GroupElements(c, es[2..], [es[0], es[1]])
    ensures Group(c, es, Concat(cur)) == Emit(Concat(cur)) + Group(c, es[2..], es[0] + es[1])
  {
  }

  lemma {:induction false} GroupIsGroupElementsFused(c: Classes, es: seq<string>, cur: seq<string>)
    requires AllNonEmpty(es) && AllNonEmpty(cur)
    requires |es| >= 2 && c.isVowel(es[0]) && c.fuses(es[0], es[1])
    ensures Group(c, es, Concat(cur)) == ConcatEach(GroupElements(c, es, cur))
    decreases |es|, 0
  {
    var e := es[0];
    var spelt := Concat(cur);
    var emit: seq<seq<string>> := if cur == [] then [] else [cur];
    var g := GroupElements(c, es[2..], [e, es[1]]);
    assert Group(c, es[2..], e + es[1]) == ConcatEach(g) by {
      GroupIsGroupElements(c, es[2..], [e, es[1]]);
      ConcatPair(e, es[1]);
    }
    assert Group(c, es, spelt) == ConcatEach(emit) + ConcatEach(g) by {
      FusedStep(c, es, cur);
      EmitSpelt(cur);
    }
    assert GroupElements(c, es, cur) == emit + g by {
      FusedStep(c, es, cur);
    }
    ConcatEachAppend(emit, g);
  }

  lemma {:induction false} GroupIsGroupElementsSingle(c: Classes, es: seq<string>, cur: seq<string>)
    requires AllNonEmpty(es) && AllNonEmpty(cur)
    requires es != [] && c.isVowel(es[0]) && !(|es| >= 2 && c.fuses(es[0], es[1]))
    ensures Group(c, es, Concat(cur)) == ConcatEach(GroupElements(c, es, cur))
    decreases |es|, 0
  {
    var e := es[0];
    var spelt := Concat(cur);
    var emit: seq<seq<string>> := if cur == [] then [] else [cur];
    EmitSpelt(cur);
    var g := GroupElements(c, es[1..], [e]);
    assert GroupElements(c, es, cur) == emit + g;
    assert Group(c, es, spelt) == Emit(spelt) + Group(c, es[1..], e);
    GroupIsGroupElements(c, es[1..], [e]);
    assert Concat([e]) == [] + e == e;
    ConcatEachAppend(emit, g);
  }

  lemma {:induction false} GroupIsGroupElementsOther(c: Classes, es: seq<string>, cur: seq<string>)
    requires AllNonEmpty(es) && AllNonEmpty(cur)
    requires es != [] && !c.isVowel(es[0])
    ensures Group(c, es, Concat(cur)) == ConcatEach(GroupElements(c, es, cur))
    decreases |es|, 0
  {
    var e := es[0];
    var spelt := Concat(cur);
    assert GroupElements(c, es, cur) == GroupElements(c, es[1..], cur + [e]);
    assert Group(c, es, spelt) == Group(c, es[1..], spelt + e);
    assert AllNonEmpty(cur + [e]);
    GroupIsGroupElements(c, es[1..], cur + [e]);
    assert (cur + [e])[..|cur|] == cur;
    assert Concat(cur + [e]) == spelt + e;
  }

  lemma {:induction false} ConcatEachAppend(a: seq<seq<string>>, b: seq<seq<string>>)
    ensures ConcatEach(a + b) == ConcatEach(a) + ConcatEach(b)
  {
  }

  /** `syllabify` undoes the join on `⋮`: on a divided text it returns the
      grouping of its elements, spelt out, and spells the same text. */
  lemma SyllabifyJoined(c: Classes, elements: seq<string>)
    requires AllNonEmpty(elements)
    requires forall k :: 0 <= k < |elements| ==> Separator !in elements[k]
    ensures Syllabify(c, Join(elements, Separator)) == ConcatEach(GroupElements(c, elements, []))
    ensures Flatten(GroupElements(c, elements, [])) == elements
    ensures Shaped(c, GroupElements(c, elements, []))
    ensures Concat(Syllabify(c, Join(elements, Separator))) == Concat(elements)
    ensures VowelTestSound(c) && Syllabify(c, Join(elements, Separator)) != [] ==>
              AllVowels(c, Syllabify(c, Join(elements, Separator))[1..])
  {
    var r := Syllabify(c, Join(elements, Separator));
    if elements == [] {
      assert Split(Join(elements, Separator), Separator) == [[]];
      assert Group(c, [[]], []) == [];
      assert r == [];
    } else {
      SplitJoin(elements, Separator);
      GroupNonEmpty(c, elements, []);
      FilterNonEmptyOfNonEmpty(Group(c, elements, []));
      GroupIsGroupElements(c, elements, []);
      GroupElementsShape(c, elements, []);
      GroupElementsFlatten(c, elements, []);
      GroupConcat(c, elements, []);
      if VowelTestSound(c) {
        GroupVowelInitial(c, elements, []);
      }
    }
  }
}
