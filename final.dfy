/** `final_reshuffle` and `definitive_syllables`, the last two stages.

    `final_reshuffle` walks the syllables once more: a syllable that is not
    the last and whose letter part ends in more than one consonant keeps
    the first of them and pushes the others onto the front of the next
    entry of the list it is walking, writing that entry in place, so the
    round on the next syllable sees the pushed consonants.
    `definitive_syllables` then merges a first syllable that does not open
    with a vowel into the second. */
module Final {
  import opened Text
  import opened Patterns
  import opened Reshuffler

  /** The number of consonants at the end of `s`. */
  function Coda(c: Classes, s: string): (k: nat)
    ensures k <= |s|
    ensures forall j :: |s| - k <= j < |s| ==> c.isConsonant([s[j]])
    ensures k < |s| ==> !c.isConsonant([s[|s| - 1 - k]])
    decreases |s|
  {
    if s != [] && c.isConsonant([s[|s| - 1]]) then 1 + Coda(c, s[..|s| - 1]) else 0
  }

  /** What a round appends to the result, and the consonants it pushes onto
      the next entry (none when it writes nothing). */
  datatype Cut = Cut(emit: string, pushed: string)

  /** The round of `final_reshuffle` on the syllable `s`; `last` tells
      whether `s` is the last entry of the list. */
  function CutCoda(c: Classes, s: string, last: bool): (r: Cut)
    ensures last ==> r == Cut(s, [])
  {
    var body := Body(c, s);
    if body != [] && !last && c.isConsonant([body[|body| - 1]]) && Coda(c, body) > 1 then
      var keep := |body| - (Coda(c, body) - 1);
      Cut(body[..keep] + Trailing(c, s), body[keep..])
    else
      Cut(s, [])
  }

  /** The rounds of `final_reshuffle`, each given by `cut`, from entry `i`
      of the list `xs` as it stands: the syllables they append, and the
      list once they are done. */
  function Pass(cut: (string, bool) -> Cut, xs: seq<string>, i: nat): (seq<string>, seq<string>)
    requires i <= |xs|
    decreases |xs| - i
  {
    if i == |xs| then ([], xs)
    else
      var rest := Pass(cut, Push(cut, xs, i), i + 1);
      ([cut(xs[i], i == |xs| - 1).emit] + rest.0, rest.1)
  }

  /** The list after the round on entry `i` has written its pushed
      consonants into entry `i + 1`. */
  function Push(cut: (string, bool) -> Cut, xs: seq<string>, i: nat): (r: seq<string>)
    requires i < |xs|
    ensures |r| == |xs|
  {
    var pushed := cut(xs[i], i == |xs| - 1).pushed;
    if pushed != [] && i + 1 < |xs| then xs[i + 1 := pushed + xs[i + 1]] else xs
  }

  /** The round of the source. */
  function Round(c: Classes): (cut: (string, bool) -> Cut)
    ensures forall s, last :: cut(s, last) == CutCoda(c, s, last)
  {
    (s, last) => CutCoda(c, s, last)
  }

  /** The list `final_reshuffle(xs)` returns. */
  function FinalSyllables(c: Classes, xs: seq<string>): seq<string>
  {
    Pass(Round(c), xs, 0).0
  }

  /** The list `xs` after `final_reshuffle(xs)` has written into it. */
  function Rewritten(c: Classes, xs: seq<string>): seq<string>
  {
    Pass(Round(c), xs, 0).1
  }

  /** The counting loop of `final_reshuffle`. */
  method CountCoda(c: Classes, syllable: string) returns (count: nat)
    ensures count == Coda(c, syllable)
  {
    count := 0;
    while count < |syllable| && c.isConsonant([syllable[|syllable| - (count + 1)]])
      invariant count <= |syllable|
      invariant forall j :: |syllable| - count <= j < |syllable| ==> c.isConsonant([syllable[j]])
      decreases |syllable| - count
    {
      count := count + 1;
    }
    CodaIs(c, syllable, count);
  }

  lemma {:induction false} CodaIs(c: Classes, s: string, k: nat)
    requires k <= |s|
    requires forall j :: |s| - k <= j < |s| ==> c.isConsonant([s[j]])
    requires k == |s| || !c.isConsonant([s[|s| - 1 - k]])
    ensures Coda(c, s) == k
    decreases k
  {
    if k > 0 {
      var s' := s[..|s| - 1];
      assert forall j :: |s'| - (k - 1) <= j < |s'| ==> s'[j] == s[j];
      CodaIs(c, s', k - 1);
    }
  }

  /** One round of `final_reshuffle`: the syllable it appends for entry
      `i`, after writing the pushed consonants into entry `i + 1`. */
  method ReshuffleEntry(c: Classes, a: array<string>, i: nat) returns (emit: string)
    requires i < a.Length
    modifies a
    ensures emit == CutCoda(c, old(a[i]), i == a.Length - 1).emit
    ensures a[..] == Push(Round(c), old(a[..]), i)
  {
    var syllable, trailing := SplitTrailing(c, a[i]);
    emit := a[i];
    if syllable != [] && i < a.Length - 1 && c.isConsonant([syllable[|syllable| - 1]]) {
      var next := a[i + 1];
      var count := CountCoda(c, syllable);
      if count > 1 {
        var split := count - 1;
        emit := syllable[..|syllable| - split] + trailing;
        a[i + 1] := syllable[|syllable| - split..] + next;
      }
    }
  }

  /** `final_reshuffle(a)`, writing into `a` as the source writes into its
      argument. */
  method FinalReshuffle(c: Classes, a: array<string>) returns (final: seq<string>)
    modifies a
    ensures final == FinalSyllables(c, old(a[..]))
    ensures a[..] == Rewritten(c, old(a[..]))
  {
    ghost var xs := a[..];
    final := [];
    for i := 0 to a.Length
      invariant a[..] == Written(Round(c), xs, i)
      invariant final == Emitted(Round(c), xs, i)
    {
      var emit := ReshuffleEntry(c, a, i);
      final := final + [emit];
    }
    PassAfter(Round(c), xs, a.Length);
  }

  /* What a round does to one syllable. */

  /** A round either leaves the syllable as it is, or, on a syllable that
      is not the last and whose letter part ends in `k > 1` consonants,
      keeps the letters up to the first of those consonants with the
      trailing characters, and pushes the other `k - 1` consonants. */
  lemma CutCodaMeans(c: Classes, s: string, last: bool)
    ensures var body := Body(c, s);
            var r := CutCoda(c, s, last);
            (last || Coda(c, body) <= 1 ==> r == Cut(s, []))
            && (!last && Coda(c, body) > 1 ==>
                  var keep := |body| - (Coda(c, body) - 1);
                  r.emit == body[..keep] + Trailing(c, s)
                  && r.pushed == body[keep..] && |r.pushed| == Coda(c, body) - 1
                  && Coda(c, body[..keep]) == 1)
  {
    var body := Body(c, s);
    if Coda(c, body) > 1 {
      CodaKept(c, body);
    }
  }

  /** Cutting after the first consonant of a coda of several leaves a coda
      of one. */
  lemma CodaKept(c: Classes, b: string)
    requires Coda(c, b) > 1
    ensures var t := b[..|b| - (Coda(c, b) - 1)];
            t != [] && c.isConsonant([t[|t| - 1]]) && Coda(c, t) == 1
  {
    var keep := |b| - (Coda(c, b) - 1);
    var t := b[..keep];
    assert t[keep - 1] == b[keep - 1];
    if keep >= 2 {
      assert t[keep - 2] == b[keep - 2];
    }
    CodaIs(c, t, 1);
  }

  /** A round loses no character and adds none; when the syllable has no
      trailing characters it is simply cut in two. */
  lemma CutCodaKeeps(c: Classes, s: string, last: bool)
    ensures var r := CutCoda(c, s, last);
            multiset(r.emit + r.pushed) == multiset(s)
            && (Trailing(c, s) == [] ==> r.emit + r.pushed == s)
  {
    var body := Body(c, s);
    var r := CutCoda(c, s, last);
    if r.pushed != [] {
      SplitKeeps(body, |body| - (Coda(c, body) - 1), Trailing(c, s));
    }
  }

  /** Cutting `body` at `keep` and putting the trailing characters after
      the first part keeps every character. */
  lemma SplitKeeps(body: string, keep: nat, tr: string)
    requires keep <= |body|
    ensures multiset(body[..keep] + tr + body[keep..]) == multiset(body + tr)
    ensures tr == [] ==> body[..keep] + tr + body[keep..] == body + tr
  {
    assert body == body[..keep] + body[keep..];
    if tr == [] {
      assert body[..keep] + tr == body[..keep];
    }
  }

  /** No consonant is among the trailing characters. */
  ghost predicate ConsonantsStay(c: Classes)
  {
    forall ch :: c.isConsonant([ch]) ==> !c.isTrailing(ch)
  }

  lemma GreekConsonantsStay(vowels: set<string>)
    ensures ConsonantsStay(Greek(vowels))
  {
    forall ch | IsConsonant([ch])
      ensures !(ch in Whitespace || ch in TrailingChars)
    {
      IsConsonantMeans([ch]);
      assert StripMarkup([ch]) == [ch];
      ConsonantLetterCode(ch);
      if ch in Whitespace || ch in TrailingChars {
        TrailingCode(ch);
      }
    }
  }

  lemma {:induction false} BodyOfTrailed(c: Classes, b: string, tr: string)
    requires b == [] || !c.isTrailing(b[|b| - 1])
    requires forall k :: 0 <= k < |tr| ==> c.isTrailing(tr[k])
    ensures Body(c, b + tr) == b
    decreases |tr|
  {
    if tr == [] {
      assert b + tr == b;
    } else {
      assert (b + tr)[..|b + tr| - 1] == b + tr[..|tr| - 1];
      BodyOfTrailed(c, b, tr[..|tr| - 1]);
    }
  }

  /** What a round appends for a syllable that is not the last has at most
      one consonant at the end of its letter part, and the trailing
      characters of the syllable. */
  lemma CutLeavesOneConsonant(c: Classes, s: string)
    requires ConsonantsStay(c)
    ensures var emit := CutCoda(c, s, false).emit;
            Coda(c, Body(c, emit)) <= 1 && Trailing(c, emit) == Trailing(c, s)
  {
    var body := Body(c, s);
    if Coda(c, body) > 1 {
      var kept := body[..|body| - (Coda(c, body) - 1)];
      assert CutCoda(c, s, false).emit == kept + Trailing(c, s);
      CodaKept(c, body);
      TrailedBody(c, kept, Trailing(c, s));
    }
  }

  /** Trailing characters put after letters ending in a consonant are
      still told apart from them. */
  lemma TrailedBody(c: Classes, kept: string, tr: string)
    requires ConsonantsStay(c)
    requires kept != [] && c.isConsonant([kept[|kept| - 1]])
    requires forall k :: 0 <= k < |tr| ==> c.isTrailing(tr[k])
    ensures Body(c, kept + tr) == kept && Trailing(c, kept + tr) == tr
  {
    BodyOfTrailed(c, kept, tr);
    assert (kept + tr)[|kept|..] == tr;
  }

  /* What the whole pass does, for any round that keeps the characters
     of its syllable and pushes nothing from the last one. */

  ghost predicate Conserving(cut: (string, bool) -> Cut)
  {
    (forall s, last :: multiset(cut(s, last).emit + cut(s, last).pushed) == multiset(s))
    && (forall s :: cut(s, true).pushed == [])
  }

  /** The round of the source is conserving. */
  lemma RoundConserving(c: Classes)
    ensures Conserving(Round(c))
  {
    forall s, last
      ensures multiset(CutCoda(c, s, last).emit + CutCoda(c, s, last).pushed) == multiset(s)
    {
      CutCodaKeeps(c, s, last);
    }
  }

  /** The list once the rounds on its first `i` entries have written. */
  function Written(cut: (string, bool) -> Cut, xs: seq<string>, i: nat): (r: seq<string>)
    requires i <= |xs|
    ensures |r| == |xs|
  {
    if i == 0 then xs else Push(cut, Written(cut, xs, i - 1), i - 1)
  }

  /** The syllables those rounds have appended. */
  function Emitted(cut: (string, bool) -> Cut, xs: seq<string>, i: nat): seq<string>
    requires i <= |xs|
  {
    if i == 0 then []
    else Emitted(cut, xs, i - 1) + [cut(Written(cut, xs, i - 1)[i - 1], i - 1 == |xs| - 1).emit]
  }

  /** The pass is the first `i` rounds followed by the pass from `i`. */
  lemma {:induction false} PassAfter(cut: (string, bool) -> Cut, xs: seq<string>, i: nat)
    requires i <= |xs|
    ensures Emitted(cut, xs, i) + Pass(cut, Written(cut, xs, i), i).0 == Pass(cut, xs, 0).0
    ensures Pass(cut, Written(cut, xs, i), i).1 == Pass(cut, xs, 0).1
  {
    if i > 0 {
      PassAfter(cut, xs, i - 1);
      var w := Written(cut, xs, i - 1);
      PassStep(cut, w, i - 1);
      AppendAssoc(Emitted(cut, xs, i - 1), [cut(w[i - 1], i - 1 == |xs| - 1).emit], Pass(cut, Written(cut, xs, i), i).0);
    }
  }

  lemma PassStep(cut: (string, bool) -> Cut, xs: seq<string>, i: nat)
    requires i < |xs|
    ensures Pass(cut, xs, i).0 == [cut(xs[i], i == |xs| - 1).emit] + Pass(cut, Push(cut, xs, i), i + 1).0
    ensures Pass(cut, xs, i).1 == Pass(cut, Push(cut, xs, i), i + 1).1
  {
  }

  /** The round on entry `i` writes entry `i + 1` at most. */
  lemma PushAt(cut: (string, bool) -> Cut, xs: seq<string>, i: nat)
    requires i < |xs|
    ensures forall j :: 0 <= j < |xs| && j != i + 1 ==> Push(cut, xs, i)[j] == xs[j]
    ensures i + 1 < |xs| ==> Push(cut, xs, i)[i + 1] == cut(xs[i], false).pushed + xs[i + 1]
  {
  }

  /** The entries after `i` once the round on entry `i` has written. */
  lemma PushConcat(cut: (string, bool) -> Cut, xs: seq<string>, i: nat)
    requires i < |xs| && Conserving(cut)
    ensures Concat(Push(cut, xs, i)[i + 1..]) == cut(xs[i], i == |xs| - 1).pushed + Concat(xs[i + 1..])
  {
    var pushed := cut(xs[i], i == |xs| - 1).pushed;
    var ys := Push(cut, xs, i);
    if pushed == [] {
      assert pushed + Concat(xs[i + 1..]) == Concat(xs[i + 1..]);
    } else {
      assert i + 1 < |xs|;
      assert ys[i + 1..] == [pushed + xs[i + 1]] + xs[i + 2..];
      assert xs[i + 1..] == [xs[i + 1]] + xs[i + 2..];
      ConcatCons(pushed + xs[i + 1], xs[i + 2..]);
      ConcatCons(xs[i + 1], xs[i + 2..]);
      AppendAssoc(pushed, xs[i + 1], Concat(xs[i + 2..]));
    }
  }

  lemma RoundKeepsText(emit: string, pushed: string, x: string, rest: string, more: string)
    requires multiset(emit + pushed) == multiset(x)
    requires multiset(more) == multiset(pushed + rest)
    ensures multiset(emit + more) == multiset(x + rest)
  {
    assert multiset(emit + more) == multiset(emit) + multiset(pushed) + multiset(rest);
  }

  lemma {:induction false} PassKeeps(cut: (string, bool) -> Cut, xs: seq<string>, i: nat)
    requires i <= |xs| && Conserving(cut)
    ensures multiset(Concat(Pass(cut, xs, i).0)) == multiset(Concat(xs[i..]))
    decreases |xs| - i
  {
    if i == |xs| {
      assert xs[i..] == [];
    } else {
      PassKeeps(cut, Push(cut, xs, i), i + 1);
      PassKeepsStep(cut, xs, i);
    }
  }

  /** The round on entry `i` keeps the text when the rounds after it do. */
  lemma PassKeepsStep(cut: (string, bool) -> Cut, xs: seq<string>, i: nat)
    requires i < |xs| && Conserving(cut)
    requires var ys := Push(cut, xs, i);
             multiset(Concat(Pass(cut, ys, i + 1).0)) == multiset(Concat(ys[i + 1..]))
    ensures multiset(Concat(Pass(cut, xs, i).0)) == multiset(Concat(xs[i..]))
  {
    var r := cut(xs[i], i == |xs| - 1);
    var rest := Pass(cut, Push(cut, xs, i), i + 1).0;
    assert Concat(Pass(cut, xs, i).0) == r.emit + Concat(rest) by {
      PassStep(cut, xs, i);
      ConcatCons(r.emit, rest);
    }
    assert multiset(Concat(rest)) == multiset(r.pushed + Concat(xs[i + 1..])) by {
      PushConcat(cut, xs, i);
    }
    ConcatFrom(xs, i);
    RoundKeepsText(r.emit, r.pushed, xs[i], Concat(xs[i + 1..]), Concat(rest));
  }

  /** `final_reshuffle` loses no character and adds none. */
  lemma FinalKeepsCharacters(c: Classes, xs: seq<string>)
    ensures multiset(Concat(FinalSyllables(c, xs))) == multiset(Concat(xs))
  {
    RoundConserving(c);
    PassKeeps(Round(c), xs, 0);
    assert xs[0..] == xs;
  }

  /** The pass from entry `i` on appends one syllable per entry and keeps
      the number of entries. */
  lemma {:induction false} PassLength(cut: (string, bool) -> Cut, xs: seq<string>, i: nat)
    requires i <= |xs|
    ensures |Pass(cut, xs, i).0| == |xs| - i && |Pass(cut, xs, i).1| == |xs|
    decreases |xs| - i
  {
    if i < |xs| {
      PassStep(cut, xs, i);
      PassLength(cut, Push(cut, xs, i), i + 1);
    }
  }

  /** The pass from entry `i` on writes no entry up to `i`. */
  lemma {:induction false} PassPrefix(cut: (string, bool) -> Cut, xs: seq<string>, i: nat)
    requires i <= |xs|
    ensures |Pass(cut, xs, i).1| == |xs|
    ensures forall j :: 0 <= j <= i && j < |xs| ==> Pass(cut, xs, i).1[j] == xs[j]
    decreases |xs| - i
  {
    PassLength(cut, xs, i);
    if i < |xs| {
      PassStep(cut, xs, i);
      PushAt(cut, xs, i);
      PassPrefix(cut, Push(cut, xs, i), i + 1);
    }
  }

  /** The syllable the pass appends for entry `i + k` is the round on that
      entry as the list holds it once the pass is over. */
  lemma {:induction false} PassEmits(cut: (string, bool) -> Cut, xs: seq<string>, i: nat)
    requires i <= |xs|
    ensures |Pass(cut, xs, i).0| == |xs| - i && |Pass(cut, xs, i).1| == |xs|
    ensures var p := Pass(cut, xs, i);
            forall k :: 0 <= k < |p.0| ==> p.0[k] == cut(p.1[i + k], i + k == |xs| - 1).emit
    decreases |xs| - i
  {
    PassLength(cut, xs, i);
    if i < |xs| {
      var ys := Push(cut, xs, i);
      PassStep(cut, xs, i);
      PassEmits(cut, ys, i + 1);
      var p, q := Pass(cut, xs, i), Pass(cut, ys, i + 1);
      forall k | 0 <= k < |p.0|
        ensures p.0[k] == cut(p.1[i + k], i + k == |xs| - 1).emit
      {
        if k == 0 {
          PushAt(cut, xs, i);
          PassPrefix(cut, ys, i + 1);
          assert p.1[i] == ys[i] == xs[i];
        } else {
          assert p.0[k] == q.0[k - 1];
          assert i + k == (i + 1) + (k - 1);
        }
      }
    }
  }

  /** Entry `j + 1` of the list once the pass is over is the original one
      with the consonants pushed by the round on entry `j` in front. */
  lemma {:induction false} PassPushes(cut: (string, bool) -> Cut, xs: seq<string>, i: nat)
    requires i <= |xs|
    ensures |Pass(cut, xs, i).1| == |xs|
    ensures var m := Pass(cut, xs, i).1;
            forall j :: i <= j < |xs| - 1 ==> m[j + 1] == cut(m[j], false).pushed + xs[j + 1]
    decreases |xs| - i
  {
    PassLength(cut, xs, i);
    if i < |xs| {
      var ys := Push(cut, xs, i);
      PassStep(cut, xs, i);
      PushAt(cut, xs, i);
      PassPushes(cut, ys, i + 1);
      if i + 1 < |xs| {
        PassPrefix(cut, ys, i + 1);
      }
    }
  }

  /** `final_reshuffle(xs)` appends one syllable per entry; entry `j + 1`
      of the list is written by the round on entry `j` before it is read,
      and the round on the last entry appends it unchanged. */
  lemma FinalReshuffleRounds(c: Classes, xs: seq<string>)
    ensures var out, m := FinalSyllables(c, xs), Rewritten(c, xs);
            |out| == |xs| && |m| == |xs|
            && (xs != [] ==> m[0] == xs[0])
            && (forall j :: 0 <= j < |xs| ==> out[j] == CutCoda(c, m[j], j == |xs| - 1).emit)
            && (forall j :: 0 <= j < |xs| - 1 ==> m[j + 1] == CutCoda(c, m[j], false).pushed + xs[j + 1])
            && (xs != [] ==> out[|xs| - 1] == m[|xs| - 1])
  {
    PassPrefix(Round(c), xs, 0);
    PassEmits(Round(c), xs, 0);
    PassPushes(Round(c), xs, 0);
  }

  /** After `final_reshuffle`, no syllable but the last ends its letter
      part in more than one consonant, and each keeps its trailing
      characters. */
  lemma FinalLeavesOneConsonant(c: Classes, xs: seq<string>)
    requires ConsonantsStay(c)
    ensures |FinalSyllables(c, xs)| == |xs| && |Rewritten(c, xs)| == |xs|
    ensures forall j :: 0 <= j < |xs| - 1 ==>
              Coda(c, Body(c, FinalSyllables(c, xs)[j])) <= 1
              && Trailing(c, FinalSyllables(c, xs)[j]) == Trailing(c, Rewritten(c, xs)[j])
  {
    FinalReshuffleRounds(c, xs);
    forall j | 0 <= j < |xs| - 1
      ensures Coda(c, Body(c, FinalSyllables(c, xs)[j])) <= 1
              && Trailing(c, FinalSyllables(c, xs)[j]) == Trailing(c, Rewritten(c, xs)[j])
    {
      CutLeavesOneConsonant(c, Rewritten(c, xs)[j]);
    }
  }

  /** A list in which no syllable but the last ends its letter part in
      more than one consonant is left as it is, and nothing is written
      into it. */
  lemma FinalUnchanged(c: Classes, xs: seq<string>)
    requires forall j :: 0 <= j < |xs| - 1 ==> Coda(c, Body(c, xs[j])) <= 1
    ensures FinalSyllables(c, xs) == xs && Rewritten(c, xs) == xs
  {
    FinalReshuffleRounds(c, xs);
    var out, m := FinalSyllables(c, xs), Rewritten(c, xs);
    var j := 0;
    while j < |xs|
      invariant j <= |xs|
      invariant forall k :: 0 <= k < j ==> m[k] == xs[k] && out[k] == xs[k]
      invariant j < |xs| ==> m[j] == xs[j]
    {
      if j < |xs| - 1 {
        assert CutCoda(c, xs[j], false) == Cut(xs[j], []);
      }
      j := j + 1;
    }
  }

  /** `final_reshuffle` is idempotent: a second pass finds nothing to
      move. */
  lemma FinalIdempotent(c: Classes, xs: seq<string>)
    requires ConsonantsStay(c)
    ensures FinalSyllables(c, FinalSyllables(c, xs)) == FinalSyllables(c, xs)
  {
    FinalLeavesOneConsonant(c, xs);
    FinalUnchanged(c, FinalSyllables(c, xs));
  }

  /** `definitive_syllables(xs)`: a first syllable that is not empty and
      does not open with a vowel absorbs the second, when there is one. */
  function Definitive(c: Classes, xs: seq<string>): (r: seq<string>)
    ensures Concat(r) == Concat(xs)
    ensures |r| == |xs| - 1 <==> |xs| > 1 && xs[0] != [] && !c.isVowel([xs[0][0]])
    ensures |r| == |xs| ==> r == xs
    ensures |r| != |xs| ==> |xs| > 1 && r == [xs[0] + xs[1]] + xs[2..]
  {
    if xs != [] && xs[0] != [] && !c.isVowel([xs[0][0]]) && |xs| > 1 then
      MergeKeepsText(xs);
      [xs[0] + xs[1]] + xs[2..]
    else
      xs
  }

  /** Merging the first two syllables keeps the text. */
  lemma {:induction false} MergeKeepsText(xs: seq<string>)
    requires |xs| > 1
    ensures Concat([xs[0] + xs[1]] + xs[2..]) == Concat(xs)
  {
    ConcatCons(xs[0] + xs[1], xs[2..]);
    ConcatCons(xs[1], xs[2..]);
    ConcatCons(xs[0], xs[1..]);
    assert xs == [xs[0]] + xs[1..];
    assert xs[1..] == [xs[1]] + xs[2..];
  }
}
