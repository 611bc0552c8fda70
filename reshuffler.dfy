/** `reshuffle_consonants`: a left-to-right pass over the syllables that
    moves the last consonant of a syllable to the front of the next one
    when that one opens with a vowel (a final ζ, ξ or ψ stays), cuts a
    leading consonant-only stretch off the first syllable, and splits a
    cluster before a syllable that does not open with a vowel. Trailing
    whitespace and punctuation are set aside first and put back after. */
module Reshuffler {
  import opened Text
  import opened Patterns

  /** The outcome of a stage that can fail with Python's `IndexError`. */
  datatype Result<T> = Ok(value: T) | IndexError

  /** The letter part of a syllable: the longest prefix that does not end
      in a trailing character. */
  function Body(c: Classes, s: string): (b: string)
    ensures b <= s
    ensures b == [] || !c.isTrailing(b[|b| - 1])
    ensures forall k :: |b| <= k < |s| ==> c.isTrailing(s[k])
    decreases |s|
  {
    if s != [] && c.isTrailing(s[|s| - 1]) then Body(c, s[..|s| - 1]) else s
  }

  /** The trailing characters of a syllable, in their order. */
  function Trailing(c: Classes, s: string): (t: string)
    ensures Body(c, s) + t == s
    ensures forall k :: 0 <= k < |t| ==> c.isTrailing(t[k])
  {
    s[|Body(c, s)|..]
  }

  /** The stripping loop at the head of both reshuffles. */
  method SplitTrailing(c: Classes, syllable: string) returns (body: string, trailing: string)
    ensures body == Body(c, syllable) && trailing == Trailing(c, syllable)
  {
    body := syllable;
    trailing := "";
    while body != [] && c.isTrailing(body[|body| - 1])
      invariant body + trailing == syllable
      invariant Body(c, body) == Body(c, syllable)
      decreases |body|
    {
      AppendAssoc(body[..|body| - 1], [body[|body| - 1]], trailing);
      assert body[..|body| - 1] + [body[|body| - 1]] == body;
      trailing := [body[|body| - 1]] + trailing;
      body := body[..|body| - 1];
    }
    assert syllable[|body|..] == trailing;
  }

  /** `next((index for index, char in enumerate(s) if is_vowel(char)), len(s))`. */
  function FirstVowel(c: Classes, s: string): (v: nat)
    ensures v <= |s|
    ensures forall k :: 0 <= k < v ==> !c.isVowel([s[k]])
    ensures v < |s| ==> c.isVowel([s[v]])
    decreases |s|
  {
    if s == [] then 0
    else if c.isVowel([s[0]]) then 0
    else 1 + FirstVowel(c, s[1..])
  }

  /** `''.join(filter(is_consonant, s))`: the consonants of `s`, in order. */
  function ConsonantsOf(c: Classes, s: string): (r: string)
    ensures |r| <= |s|
    ensures forall k :: 0 <= k < |r| ==> c.isConsonant([r[k]])
    ensures multiset(r) <= multiset(s)
    decreases |s|
  {
    if s == [] then []
    else
      assert s == [s[0]] + s[1..];
      (if c.isConsonant([s[0]]) then [s[0]] else []) + ConsonantsOf(c, s[1..])
  }

  /** The filter distributes over concatenation, so with the one-letter
      case it keeps the consonants in their order. */
  lemma {:induction false} ConsonantsOfAppend(c: Classes, a: string, b: string)
    ensures ConsonantsOf(c, a + b) == ConsonantsOf(c, a) + ConsonantsOf(c, b)
    decreases |a|
  {
    if a == [] {
      assert a + b == b;
    } else {
      assert (a + b)[1..] == a[1..] + b;
      ConsonantsOfAppend(c, a[1..], b);
    }
  }

  /** The filter keeps every consonant as often as it occurs, and nothing else. */
  lemma {:induction false} ConsonantsOfCount(c: Classes, s: string)
    ensures forall ch :: multiset(ConsonantsOf(c, s))[ch] == if c.isConsonant([ch]) then multiset(s)[ch] else 0
    decreases |s|
  {
    if s != [] {
      ConsonantsOfCount(c, s[1..]);
      assert s == [s[0]] + s[1..];
      assert multiset(s) == multiset([s[0]]) + multiset(s[1..]);
    }
  }

  /** A string of consonants is its own filter. */
  lemma {:induction false} ConsonantsOfConsonants(c: Classes, s: string)
    requires forall k :: 0 <= k < |s| ==> c.isConsonant([s[k]])
    ensures ConsonantsOf(c, s) == s
    decreases |s|
  {
    if s != [] {
      ConsonantsOfConsonants(c, s[1..]);
    }
  }

  /** What one round of the loop appends, and the carry it leaves. */
  datatype Round = Round(emit: string, carry: string)

  /** One round of the loop of `reshuffle_consonants` on syllable `i`, with
      the carry left by the round before. */
  function Step(c: Classes, ss: seq<string>, i: nat, carry: string): Result<Round>
    requires i < |ss|
  {
    var body := Body(c, ss[i]);
    var trailing := Trailing(c, ss[i]);
    if i == 0 && (body == [] || !c.isVowel([body[0]])) then
      if body == [] then IndexError
      else
        var v := FirstVowel(c, body);
        Ok(Round(body[..v] + trailing, body[v..]))
    else Later(c, ss, i, carry + body, trailing)
  }

  /** A round on a syllable that is not a first one opening without a
      vowel: `s` is the carry followed by the letter part. */
  function Later(c: Classes, ss: seq<string>, i: nat, s: string, trailing: string): Result<Round>
    requires i < |ss|
  {
    if i < |ss| - 1 then
      if s == [] then IndexError
      else if !c.isConsonant([s[|s| - 1]]) then Ok(Round(s + trailing, []))
      else
        var next := RStrip(ss[i + 1]);
        if next == [] then IndexError
        else if c.isVowel([next[0]]) then
          if c.isDouble(s[|s| - 1]) then Ok(Round(s + trailing, []))
          else Ok(Round(s[..|s| - 1], [s[|s| - 1]] + trailing))
        else
          var cluster := ConsonantsOf(c, s);
          if |cluster| > 1 then
            Ok(Round(ReplaceFirst(s, cluster, cluster[..1]), cluster[1..] + trailing))
          else
            Ok(Round(s + trailing, []))
    else
      Ok(Round(s + trailing, []))
  }

  /** `if carry_over: reshuffled_syllables[-1] += carry_over`. */
  function Settle(out: seq<string>, carry: string): (r: Result<seq<string>>)
    ensures carry == [] ==> r == Ok(out)
    ensures carry != [] && out != [] ==>
              r.Ok? && |r.value| == |out| && r.value[..|out| - 1] == out[..|out| - 1]
              && r.value[|out| - 1] == out[|out| - 1] + carry
    ensures out == [] && carry != [] ==> r == IndexError
  {
    if carry == [] then Ok(out)
    else if out == [] then IndexError
    else Ok(out[|out| - 1 := out[|out| - 1] + carry])
  }

  /** The loop of `reshuffle_consonants` from syllable `i` on, with the
      syllables appended so far and the carry. */
  function Shuffle(c: Classes, ss: seq<string>, i: nat, out: seq<string>, carry: string): Result<seq<string>>
    requires i <= |ss|
    decreases |ss| - i
  {
    if i == |ss| then Settle(out, carry)
    else
      match Step(c, ss, i, carry)
      case IndexError => IndexError
      case Ok(round) => Shuffle(c, ss, i + 1, out + [round.emit], round.carry)
  }

  /** `reshuffle_consonants(syllables)`. */
  function Reshuffle(c: Classes, ss: seq<string>): Result<seq<string>>
  {
    Shuffle(c, ss, 0, [], [])
  }

  /** `reshuffle_consonants(syllables)`, the loop as the source writes it. */
  method ReshuffleConsonants(c: Classes, syllables: seq<string>) returns (r: Result<seq<string>>)
    ensures r == Reshuffle(c, syllables)
  {
    var out: seq<string> := [];
    var carry := "";
    for i := 0 to |syllables|
      invariant Shuffle(c, syllables, i, out, carry) == Reshuffle(c, syllables)
    {
      var round := ReshuffleRound(c, syllables, i, carry);
      if round.IndexError? {
        return IndexError;
      }
      out := out + [round.value.emit];
      carry := round.value.carry;
    }
    if carry != [] {
      if out == [] {
        return IndexError;
      }
      out := out[|out| - 1 := out[|out| - 1] + carry];
    }
    r := Ok(out);
  }

  /** The body of the loop of `reshuffle_consonants` for syllable `i`: what
      it appends and the carry it leaves, or the `IndexError` it raises. */
  method ReshuffleRound(c: Classes, syllables: seq<string>, i: nat, carry: string) returns (r: Result<Round>)
    requires i < |syllables|
    ensures r == Step(c, syllables, i, carry)
  {
    var syllable, trailing := SplitTrailing(c, syllables[i]);
    if i == 0 && (syllable == [] || !c.isVowel([syllable[0]])) {
      if syllable == [] {
        return IndexError;
      }
      var v := FirstVowel(c, syllable);
      return Ok(Round(syllable[..v] + trailing, syllable[v..]));
    }
    r := LaterRound(c, syllables, i, carry + syllable, trailing);
  }

  /** The rest of the round: `syllable` already holds the carry. */
  method LaterRound(c: Classes, syllables: seq<string>, i: nat, syllable: string, trailing: string)
    returns (r: Result<Round>)
    requires i < |syllables|
    ensures r == Later(c, syllables, i, syllable, trailing)
  {
    if i < |syllables| - 1 {
      if syllable == [] {
        return IndexError;
      }
      var last := syllable[|syllable| - 1];
      if c.isConsonant([last]) {
        var next := RStrip(syllables[i + 1]);
        if next == [] {
          return IndexError;
        }
        if c.isVowel([next[0]]) {
          if !c.isDouble(last) {
            // the consonant moves on, taking the trailing characters along
            return Ok(Round(syllable[..|syllable| - 1], [last] + trailing));
          }
        } else {
          var cluster := ConsonantsOf(c, syllable);
          if |cluster| > 1 {
            // all but the first consonant of the cluster move on
            return Ok(Round(ReplaceFirst(syllable, cluster, cluster[..1]), cluster[1..] + trailing));
          }
        }
      }
    }
    r := Ok(Round(syllable + trailing, ""));
  }

  /** One append per round: the number of syllables is kept. */
  lemma {:induction false} ShuffleLength(c: Classes, ss: seq<string>, i: nat, out: seq<string>, carry: string)
    requires i <= |ss|
    ensures Shuffle(c, ss, i, out, carry).Ok? ==> |Shuffle(c, ss, i, out, carry).value| == |out| + |ss| - i
    decreases |ss| - i
  {
    if i < |ss| && Shuffle(c, ss, i, out, carry).Ok? {
      ShuffleRound(c, ss, i, out, carry);
      var round := Step(c, ss, i, carry).value;
      ShuffleLength(c, ss, i + 1, out + [round.emit], round.carry);
    }
  }

  lemma ReshuffleLength(c: Classes, ss: seq<string>)
    ensures Reshuffle(c, ss).Ok? ==> |Reshuffle(c, ss).value| == |ss|
  {
    ShuffleLength(c, ss, 0, [], []);
  }

  /** Whitespace is among the trailing characters, as in the source. */
  ghost predicate StripsWhitespace(c: Classes)
  {
    forall ch :: ch in Whitespace ==> c.isTrailing(ch)
  }

  lemma {:induction false} AllTrailing(c: Classes, s: string)
    requires forall k :: 0 <= k < |s| ==> c.isTrailing(s[k])
    ensures Body(c, s) == []
    decreases |s|
  {
    if s != [] {
      AllTrailing(c, s[..|s| - 1]);
    }
  }

  /** A syllable with a letter part keeps something after `rstrip()`. */
  lemma BodyInsideRStrip(c: Classes, s: string)
    requires StripsWhitespace(c) && Body(c, s) != []
    ensures RStrip(s) != []
  {
    if RStrip(s) == [] {
      AllTrailing(c, s);
    }
  }

  /** The rounds go through as long as every syllable has a letter part. */
  lemma {:induction false} ShuffleSucceeds(c: Classes, ss: seq<string>, i: nat, out: seq<string>, carry: string)
    requires StripsWhitespace(c)
    requires i <= |ss| && |out| == i && (i == 0 ==> carry == [])
    requires forall k :: 0 <= k < |ss| ==> Body(c, ss[k]) != []
    ensures Shuffle(c, ss, i, out, carry).Ok?
    decreases |ss| - i
  {
    if i < |ss| {
      StepSucceeds(c, ss, i, carry);
      var round := Step(c, ss, i, carry).value;
      ShuffleSucceeds(c, ss, i + 1, out + [round.emit], round.carry);
    }
  }

  /** A round on a syllable with a letter part, before a syllable with
      one, goes through. */
  lemma StepSucceeds(c: Classes, ss: seq<string>, i: nat, carry: string)
    requires StripsWhitespace(c)
    requires i < |ss| && (i == 0 ==> carry == [])
    requires Body(c, ss[i]) != [] && (i + 1 < |ss| ==> Body(c, ss[i + 1]) != [])
    ensures Step(c, ss, i, carry).Ok?
  {
    if i + 1 < |ss| {
      BodyInsideRStrip(c, ss[i + 1]);
    }
  }

  /** `reshuffle_consonants` raises `IndexError` on a first syllable with no
      letter part, and never when every syllable has one. */
  lemma ReshuffleErrors(c: Classes, ss: seq<string>)
    requires StripsWhitespace(c)
    ensures ss != [] && Body(c, ss[0]) == [] ==> Reshuffle(c, ss) == IndexError
    ensures (forall k :: 0 <= k < |ss| ==> Body(c, ss[k]) != []) ==> Reshuffle(c, ss).Ok?
  {
    if forall k :: 0 <= k < |ss| ==> Body(c, ss[k]) != [] {
      ShuffleSucceeds(c, ss, 0, [], []);
    }
  }

  /** The first round on a first syllable that opens with a non-vowel: the
      letters before its first vowel, with the trailing characters, stay
      as a syllable of their own, and the rest, from that vowel on, is
      carried to the next syllable. */
  lemma StepFirstSyllable(c: Classes, ss: seq<string>)
    requires ss != [] && Body(c, ss[0]) != [] && !c.isVowel([Body(c, ss[0])[0]])
    ensures Step(c, ss, 0, []).Ok?
    ensures var body := Body(c, ss[0]);
            var r := Step(c, ss, 0, []).value;
            |r.carry| < |body|
            && r.emit == body[..|body| - |r.carry|] + Trailing(c, ss[0])
            && r.carry == body[|body| - |r.carry|..]
            && (forall k :: 0 <= k < |body| - |r.carry| ==> !c.isVowel([body[k]]))
            && (r.carry == [] || c.isVowel([r.carry[0]]))
  {
    var body := Body(c, ss[0]);
    var v := FirstVowel(c, body);
    assert |body[v..]| == |body| - v;
    if v < |body| {
      assert body[v..][0] == body[v];
    }
  }

  /** When the next syllable opens with a vowel, a final ζ, ξ or ψ stays
      where it is, and any other final consonant moves to the front of the
      next syllable together with the trailing characters; either way the
      text is unchanged. */
  lemma StepBeforeVowel(c: Classes, ss: seq<string>, i: nat, carry: string)
    requires i + 1 < |ss|
    requires i > 0 || (Body(c, ss[0]) != [] && c.isVowel([Body(c, ss[0])[0]]))
    requires carry + Body(c, ss[i]) != []
    requires c.isConsonant([(carry + Body(c, ss[i]))[|carry + Body(c, ss[i])| - 1]])
    requires RStrip(ss[i + 1]) != [] && c.isVowel([RStrip(ss[i + 1])[0]])
    ensures Step(c, ss, i, carry).Ok?
    ensures var s := carry + Body(c, ss[i]);
            var r := Step(c, ss, i, carry).value;
            (c.isDouble(s[|s| - 1]) ==> r.emit == carry + ss[i] && r.carry == [])
            && (!c.isDouble(s[|s| - 1]) ==>
                  r.emit == s[..|s| - 1] && r.carry == [s[|s| - 1]] + Trailing(c, ss[i]))
    ensures Step(c, ss, i, carry).value.emit + Step(c, ss, i, carry).value.carry == carry + ss[i]
  {
    var body := Body(c, ss[i]);
    var s := carry + body;
    var tr := Trailing(c, ss[i]);
    AppendAssoc(carry, body, tr);
    AppendAssoc(s[..|s| - 1], [s[|s| - 1]], tr);
    assert s[..|s| - 1] + [s[|s| - 1]] == s;
  }

  /** Cutting the letter part at `v` and putting the trailing characters
      in between keeps the characters. */
  lemma CutKeeps(body: string, v: nat, tr: string)
    requires v <= |body|
    ensures multiset(body + tr) == multiset(body[..v] + tr + body[v..])
  {
    assert body == body[..v] + body[v..];
  }

  lemma Rearranged(a: string, h: string, t: string, b: string, tr: string)
    ensures multiset(a + (h + t) + b + tr) == multiset(a + h + b + (t + tr))
  {
    calc {
      multiset(a + (h + t) + b + tr);
      multiset(a) + multiset(h) + multiset(t) + multiset(b) + multiset(tr);
      multiset(a + h + b + (t + tr));
    }
  }

  /** Replacing the first occurrence of a cluster by its first consonant,
      then appending the rest of the cluster, loses no character. */
  lemma ClusterKeeps(s: string, cluster: string, tr: string)
    requires |cluster| >= 1
    ensures multiset(s + tr) <= multiset(ReplaceFirst(s, cluster, cluster[..1]) + (cluster[1..] + tr))
  {
    if Find(s, cluster) >= 0 {
      ClusterFoundKeeps(s, cluster, tr, Find(s, cluster));
    } else {
      assert ReplaceFirst(s, cluster, cluster[..1]) == s;
    }
  }

  lemma ClusterFoundKeeps(s: string, cluster: string, tr: string, p: nat)
    requires |cluster| >= 1 && OccursAt(s, cluster, p)
    requires ReplaceFirst(s, cluster, cluster[..1]) == s[..p] + cluster[..1] + s[p + |cluster|..]
    ensures multiset(s + tr) == multiset(ReplaceFirst(s, cluster, cluster[..1]) + (cluster[1..] + tr))
  {
    var h, t := cluster[..1], cluster[1..];
    assert cluster == h + t;
    var a, b := s[..p], s[p + |cluster|..];
    assert s == a + (h + t) + b by {
      assert s[p..p + |cluster|] == cluster;
      assert s == s[..p] + s[p..p + |cluster|] + s[p + |cluster|..];
    }
    Rearranged(a, h, t, b, tr);
  }

  /** No character is lost in a round; the cluster branch can add some,
      when the consonants of the syllable are not contiguous and the
      replacement finds nothing to replace. */
  lemma StepKeepsCharacters(c: Classes, ss: seq<string>, i: nat, carry: string)
    requires i < |ss| && (i == 0 ==> carry == [])
    requires Step(c, ss, i, carry).Ok?
    ensures multiset(carry + ss[i])
            <= multiset(Step(c, ss, i, carry).value.emit + Step(c, ss, i, carry).value.carry)
  {
    var body := Body(c, ss[i]);
    var tr := Trailing(c, ss[i]);
    var r := Step(c, ss, i, carry).value;
    var s := carry + body;
    assert carry + ss[i] == s + tr by {
      AppendAssoc(carry, body, tr);
    }
    if i == 0 && (body == [] || !c.isVowel([body[0]])) {
      CutKeeps(body, FirstVowel(c, body), tr);
    } else if i < |ss| - 1 && c.isConsonant([s[|s| - 1]]) && !c.isVowel([RStrip(ss[i + 1])[0]])
              && |ConsonantsOf(c, s)| > 1 {
      ClusterKeeps(s, ConsonantsOf(c, s), tr);
    } else if i < |ss| - 1 && c.isConsonant([s[|s| - 1]]) && c.isVowel([RStrip(ss[i + 1])[0]])
              && !c.isDouble(s[|s| - 1]) {
      AppendAssoc(s[..|s| - 1], [s[|s| - 1]], tr);
      assert s[..|s| - 1] + [s[|s| - 1]] == s;
    }
  }

  /** The carry is added to the last syllable, so the text is the one built
      so far followed by the carry. */
  lemma SettleConcat(out: seq<string>, carry: string)
    requires Settle(out, carry).Ok?
    ensures Concat(Settle(out, carry).value) == Concat(out) + carry
  {
    if carry != [] {
      var r := Settle(out, carry).value;
      assert r[..|r| - 1] == out[..|out| - 1];
      AppendAssoc(Concat(out[..|out| - 1]), out[|out| - 1], carry);
    } else {
      assert Concat(out) + carry == Concat(out);
    }
  }

  lemma RoundKeeps(done: string, carry: string, x: string, rest: string, emit: string, carry': string)
    requires multiset(carry + x) <= multiset(emit + carry')
    ensures multiset(done + carry + (x + rest)) <= multiset(done + emit + carry' + rest)
  {
    assert multiset(done + carry + (x + rest)) == multiset(done) + multiset(carry + x) + multiset(rest);
    assert multiset(done + emit + carry' + rest) == multiset(done) + multiset(emit + carry') + multiset(rest);
  }

  /** The concatenations on either side of round `i`. */
  lemma ConcatAround(ss: seq<string>, i: nat, out: seq<string>, emit: string)
    requires i < |ss|
    ensures Concat(ss[i..]) == ss[i] + Concat(ss[i + 1..])
    ensures Concat(out + [emit]) == Concat(out) + emit
  {
    ConcatFrom(ss, i);
    assert (out + [emit])[..|out|] == out;
  }

  /** A round that keeps its characters, followed by rounds that keep
      theirs, keeps them. */
  lemma KeepsAcross(ss: seq<string>, i: nat, out: seq<string>, carry: string,
                    emit: string, carry': string, result: multiset<char>)
    requires i < |ss|
    requires multiset(carry + ss[i]) <= multiset(emit + carry')
    requires multiset(Concat(out + [emit]) + carry' + Concat(ss[i + 1..])) <= result
    ensures multiset(Concat(out) + carry + Concat(ss[i..])) <= result
  {
    ConcatAround(ss, i, out, emit);
    RoundKeeps(Concat(out), carry, ss[i], Concat(ss[i + 1..]), emit, carry');
  }

  lemma {:induction false} ShuffleKeepsCharacters(c: Classes, ss: seq<string>, i: nat, out: seq<string>, carry: string)
    requires i <= |ss| && (i == 0 ==> carry == [])
    requires Shuffle(c, ss, i, out, carry).Ok?
    ensures multiset(Concat(out) + carry + Concat(ss[i..]))
            <= multiset(Concat(Shuffle(c, ss, i, out, carry).value))
    decreases |ss| - i, 1
  {
    if i == |ss| {
      SettleKeeps(c, ss, i, out, carry);
    } else {
      RoundThenKeeps(c, ss, i, out, carry);
    }
  }

  lemma {:induction false} RoundThenKeeps(c: Classes, ss: seq<string>, i: nat, out: seq<string>, carry: string)
    requires i < |ss| && (i == 0 ==> carry == [])
    requires Shuffle(c, ss, i, out, carry).Ok?
    ensures multiset(Concat(out) + carry + Concat(ss[i..]))
            <= multiset(Concat(Shuffle(c, ss, i, out, carry).value))
    decreases |ss| - i, 0
  {
    ShuffleRound(c, ss, i, out, carry);
    var round := Step(c, ss, i, carry).value;
    StepKeepsCharacters(c, ss, i, carry);
    ShuffleKeepsCharacters(c, ss, i + 1, out + [round.emit], round.carry);
    KeepsAcross(ss, i, out, carry, round.emit, round.carry,
                multiset(Concat(Shuffle(c, ss, i, out, carry).value)));
  }

  /** The loop has gone through every syllable: what is left is the carry. */
  lemma SettleKeeps(c: Classes, ss: seq<string>, i: nat, out: seq<string>, carry: string)
    requires i == |ss| && Shuffle(c, ss, i, out, carry).Ok?
    ensures multiset(Concat(out) + carry + Concat(ss[i..]))
            <= multiset(Concat(Shuffle(c, ss, i, out, carry).value))
  {
    SettleConcat(out, carry);
    assert ss[i..] == [];
    assert Concat(out) + carry + Concat(ss[i..]) == Concat(out) + carry;
  }

  /** A round that goes through hands its syllable and carry to the next. */
  lemma ShuffleRound(c: Classes, ss: seq<string>, i: nat, out: seq<string>, carry: string)
    requires i < |ss| && Shuffle(c, ss, i, out, carry).Ok?
    ensures Step(c, ss, i, carry).Ok?
    ensures Shuffle(c, ss, i, out, carry) ==
            Shuffle(c, ss, i + 1, out + [Step(c, ss, i, carry).value.emit], Step(c, ss, i, carry).value.carry)
  {
  }

  /** No character of the input is lost by `reshuffle_consonants`. */
  lemma ReshuffleKeepsCharacters(c: Classes, ss: seq<string>)
    requires Reshuffle(c, ss).Ok?
    ensures multiset(Concat(ss)) <= multiset(Concat(Reshuffle(c, ss).value))
  {
    ShuffleKeepsCharacters(c, ss, 0, [], []);
    assert ss[0..] == ss;
    assert Concat([]) + [] + Concat(ss) == Concat(ss);
  }
}
