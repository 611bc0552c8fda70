/** `divide_into_elements`: the scanner that cuts a text into elements, one
    per base letter (with its combining marks) or other non-punctuation
    character, punctuation and markup riding on the element before them.

    The Unicode database enters only through the four operations of
    `Unicode`: canonical decomposition and composition, and the two
    general-category tests "is a letter" (`L*`) and "is a combining mark"
    (`M*`). */
module Segmenter {
  import opened Text
  import opened Patterns

  datatype Unicode = Unicode(
    nfd: string -> string,
    nfc: string -> string,
    isLetter: char -> bool,
    isMark: char -> bool)

  /** The three facts about the Unicode database the scanner relies on:
      no punctuation or markup character is a letter, no character is both
      a letter and a mark, and composing a non-empty string gives a
      non-empty string. */
  ghost predicate Sane(u: Unicode)
  {
    (forall c :: Filler(c) ==> !u.isLetter(c))
    && (forall c :: !(u.isLetter(c) && u.isMark(c)))
    && (forall s: string :: s != [] ==> u.nfc(s) != [])
  }

  /** The character class `greek_punctuation` of the scanner. */
  const GreekPunctuation: set<char> :=
    {'‘', '’', '\'', '\U{387}', '\U{37E}', '\U{B7}', '.', ',', '!', '?', ';', ':', '"', '(', ')',
     '[', ']', '{', '}', '<', '>', '-', '—', '…', '\n', '«', '»', '†', '×', '⏑', '⏓', '–'}

  /** The markup characters the scanner attaches to the preceding element. */
  const MarkupChars: set<char> := {'^', '_', ' '}

  /** A character that rides on the element before it. */
  predicate Filler(c: char)
  {
    c in GreekPunctuation || c in MarkupChars
  }

  /** A character that opens a new element: a letter, or anything that is
      neither punctuation, markup nor a combining mark. */
  predicate IsStart(u: Unicode, c: char)
  {
    u.isLetter(c) || !(Filler(c) || u.isMark(c))
  }

  /** The number of combining marks at the start of `t`. */
  function MarkRun(u: Unicode, t: string): (m: nat)
    ensures m <= |t|
    ensures forall k :: 0 <= k < m ==> u.isMark(t[k])
    ensures m < |t| ==> !u.isMark(t[m])
  {
    if t != [] && u.isMark(t[0]) then 1 + MarkRun(u, t[1..]) else 0
  }

  /** The scanner as a fold over the rest `t` of the decomposed text, with
      the elements built so far and the buffer of leading punctuation: the
      loop of the source without its index. */
  function Scan(u: Unicode, t: string, es: seq<string>, lead: string): seq<string>
    decreases |t|
  {
    if t == [] then es
    else if u.isLetter(t[0]) then
      var m := MarkRun(u, t[1..]);
      Scan(u, t[1 + m..], es + [lead + u.nfc(t[..1 + m])], [])
    else if Filler(t[0]) then
      if es == [] then Scan(u, t[1..], [], lead + [t[0]])
      else Scan(u, t[1..], es[|es| - 1 := es[|es| - 1] + [t[0]]], lead)
    else if u.isMark(t[0]) then Scan(u, t[1..], es, lead)
    else Scan(u, t[1..], es + [lead + [t[0]]], [])
  }

  /* The reference reading: a text is a stretch of non-starting characters
     followed by units, each a core (a recomposed letter with its marks, or
     one other character) and the punctuation and markup after it. */

  datatype Unit = Unit(core: string, tail: string)

  /** The index of the first character of `t` that opens an element. */
  function FirstStart(u: Unicode, t: string): (j: nat)
    ensures j <= |t|
    ensures forall k :: 0 <= k < j ==> !IsStart(u, t[k])
    ensures j < |t| ==> IsStart(u, t[j])
  {
    if t == [] || IsStart(u, t[0]) then 0 else 1 + FirstStart(u, t[1..])
  }

  /** The punctuation and markup of a stretch without starts; the stray
      combining marks in it are dropped. */
  function Gap(s: string): (g: string)
    ensures forall k :: 0 <= k < |g| ==> Filler(g[k])
    ensures |g| <= |s|
  {
    if s == [] then [] else (if Filler(s[0]) then [s[0]] else []) + Gap(s[1..])
  }

  /** The length of the core that starts `t`. */
  function CoreLen(u: Unicode, t: string): (n: nat)
    requires t != []
    ensures 1 <= n <= |t|
  {
    if u.isLetter(t[0]) then 1 + MarkRun(u, t[1..]) else 1
  }

  /** The core that starts `t`: a letter and its marks recomposed, or the
      single character. */
  function Core(u: Unicode, t: string): string
    requires t != []
  {
    if u.isLetter(t[0]) then u.nfc(t[..CoreLen(u, t)]) else [t[0]]
  }

  /** The units of a text that is empty or begins with a start. */
  function Units(u: Unicode, t: string): seq<Unit>
    requires t == [] || IsStart(u, t[0])
    decreases |t|
  {
    if t == [] then []
    else
      var rest := t[CoreLen(u, t)..];
      var j := FirstStart(u, rest);
      [Unit(Core(u, t), Gap(rest[..j]))] + Units(u, rest[j..])
  }

  function ShowAll(us: seq<Unit>): seq<string>
  {
    if us == [] then [] else [us[0].core + us[0].tail] + ShowAll(us[1..])
  }

  /** The elements of the decomposed text `d`: one per unit, the first one
      prefixed with whatever punctuation and markup precede the first start;
      no element at all when there is no start. */
  function Elements(u: Unicode, d: string): seq<string>
  {
    var j := FirstStart(u, d);
    var us := Units(u, d[j..]);
    if us == [] then [] else [Gap(d[..j]) + us[0].core + us[0].tail] + ShowAll(us[1..])
  }

  /** `divide_into_elements` as a function of the text. */
  function Divide(u: Unicode, text: string): seq<string>
  {
    Scan(u, u.nfd(text), [], [])
  }

  /* The fold agrees with the reference reading. */

  lemma {:induction false} ScanGap(u: Unicode, s: string, t: string, es: seq<string>, lead: string)
    requires forall k :: 0 <= k < |s| ==> !IsStart(u, s[k])
    ensures es == [] ==> Scan(u, s + t, es, lead) == Scan(u, t, [], lead + Gap(s))
    ensures es != [] ==>
              Scan(u, s + t, es, lead) == Scan(u, t, es[|es| - 1 := es[|es| - 1] + Gap(s)], lead)
    decreases |s|
  {
    if s == [] {
      assert s + t == t;
      assert lead + Gap(s) == lead;
      if es != [] {
        assert es[|es| - 1] + Gap(s) == es[|es| - 1];
        assert es[|es| - 1 := es[|es| - 1] + Gap(s)] == es;
      }
    } else {
      var c := s[0];
      assert (s + t)[0] == c;
      assert (s + t)[1..] == s[1..] + t;
      if Filler(c) {
        assert Gap(s) == [c] + Gap(s[1..]);
        if es == [] {
          ScanGap(u, s[1..], t, [], lead + [c]);
          assert lead + [c] + Gap(s[1..]) == lead + Gap(s);
        } else {
          var es' := es[|es| - 1 := es[|es| - 1] + [c]];
          ScanGap(u, s[1..], t, es', lead);
          assert es'[|es'| - 1] + Gap(s[1..]) == es[|es| - 1] + Gap(s);
          assert es'[|es'| - 1 := es'[|es'| - 1] + Gap(s[1..])] == es[|es| - 1 := es[|es| - 1] + Gap(s)];
        }
      } else {
        assert Gap(s) == Gap(s[1..]);
        ScanGap(u, s[1..], t, es, lead);
      }
    }
  }

  /** A stretch without starts after an element is appended to it. */
  lemma ScanGapAfter(u: Unicode, s: string, t: string, es: seq<string>, last: string)
    requires forall k :: 0 <= k < |s| ==> !IsStart(u, s[k])
    ensures Scan(u, s + t, es + [last], []) == Scan(u, t, es + [last + Gap(s)], [])
  {
    ScanGap(u, s, t, es + [last], []);
    assert (es + [last])[|es| := last + Gap(s)] == es + [last + Gap(s)];
  }

  /** One step of the fold at a start: the core becomes a new element. */
  lemma ScanCore(u: Unicode, t: string, es: seq<string>, lead: string)
    requires t != [] && IsStart(u, t[0])
    ensures Scan(u, t, es, lead) == Scan(u, t[CoreLen(u, t)..], es + [lead + Core(u, t)], [])
  {
  }

  /** The units of a non-empty text: its core, then the gap up to the next
      start, then the units of the remainder. */
  lemma UnitsCons(u: Unicode, t: string)
    requires t != [] && IsStart(u, t[0])
    ensures var rest := t[CoreLen(u, t)..];
            var j := FirstStart(u, rest);
            ShowAll(Units(u, t)) == [Core(u, t) + Gap(rest[..j])] + ShowAll(Units(u, rest[j..]))
  {
  }

  lemma {:induction false} ScanUnits(u: Unicode, t: string, es: seq<string>)
    requires es != []
    requires t == [] || IsStart(u, t[0])
    ensures Scan(u, t, es, []) == es + ShowAll(Units(u, t))
    decreases |t|
  {
    if t == [] {
      assert es + [] == es;
    } else {
      var rest := t[CoreLen(u, t)..];
      var j := FirstStart(u, rest);
      var shown := Core(u, t) + Gap(rest[..j]);
      ScanOneUnit(u, t, es);
      FirstStartRest(u, rest);
      ScanUnits(u, rest[j..], es + [shown]);
      UnitsCons(u, t);
      AppendAssoc(es, [shown], ShowAll(Units(u, rest[j..])));
    }
  }

  /** One unit of the fold after the first element: its core and the gap
      after it become one element. */
  lemma ScanOneUnit(u: Unicode, t: string, es: seq<string>)
    requires es != []
    requires t != [] && IsStart(u, t[0])
    ensures var rest := t[CoreLen(u, t)..];
            var j := FirstStart(u, rest);
            Scan(u, t, es, []) == Scan(u, rest[j..], es + [Core(u, t) + Gap(rest[..j])], [])
  {
    var rest := t[CoreLen(u, t)..];
    var j := FirstStart(u, rest);
    var core := Core(u, t);
    var g := Gap(rest[..j]);
    assert Scan(u, t, es, []) == Scan(u, rest, es + [core], []) by {
      ScanCore(u, t, es, []);
      assert [] + core == core;
    }
    assert Scan(u, rest, es + [core], []) == Scan(u, rest[j..], es + [core + g], []) by {
      assert rest == rest[..j] + rest[j..];
      ScanGapAfter(u, rest[..j], rest[j..], es, core);
    }
  }

  lemma ScanUnitsLead(u: Unicode, t: string, lead: string)
    requires t == [] || IsStart(u, t[0])
    ensures var us := Units(u, t);
            Scan(u, t, [], lead)
            == if us == [] then [] else [lead + us[0].core + us[0].tail] + ShowAll(us[1..])
  {
    if t != [] {
      var rest := t[CoreLen(u, t)..];
      var j := FirstStart(u, rest);
      var core := Core(u, t);
      var g := Gap(rest[..j]);
      ScanCore(u, t, [], lead);
      assert [] + [lead + core] == [lead + core];
      assert Scan(u, t, [], lead) == Scan(u, rest, [lead + core], []);
      assert rest == rest[..j] + rest[j..];
      ScanGap(u, rest[..j], rest[j..], [lead + core], []);
      assert [lead + core][0 := lead + core + g] == [lead + core + g];
      assert Scan(u, rest, [lead + core], []) == Scan(u, rest[j..], [lead + core + g], []);
      ScanUnits(u, rest[j..], [lead + core + g]);
      var us := Units(u, t);
      assert us == [Unit(core, g)] + Units(u, rest[j..]);
      assert us[1..] == Units(u, rest[j..]);
    }
  }

  /** The scanner produces exactly the reference elements. */
  lemma ScanIsElements(u: Unicode, d: string)
    ensures Scan(u, d, [], []) == Elements(u, d)
  {
    var j := FirstStart(u, d);
    assert d == d[..j] + d[j..];
    ScanGap(u, d[..j], d[j..], [], []);
    assert [] + Gap(d[..j]) == Gap(d[..j]);
    ScanUnitsLead(u, d[j..], Gap(d[..j]));
  }

  /* What the reference reading says. */

  /** The number of characters of `t` that open an element. */
  function CountStarts(u: Unicode, t: string): nat
  {
    if t == [] then 0 else (if IsStart(u, t[0]) then 1 else 0) + CountStarts(u, t[1..])
  }

  lemma {:induction false} CountStartsAppend(u: Unicode, a: string, b: string)
    ensures CountStarts(u, a + b) == CountStarts(u, a) + CountStarts(u, b)
  {
    if a == [] {
      assert a + b == b;
    } else {
      assert (a + b)[1..] == a[1..] + b;
      CountStartsAppend(u, a[1..], b);
    }
  }

  lemma {:induction false} NoStarts(u: Unicode, s: string)
    requires forall k :: 0 <= k < |s| ==> !IsStart(u, s[k])
    ensures CountStarts(u, s) == 0
  {
    if s != [] {
      NoStarts(u, s[1..]);
    }
  }

  lemma {:induction false} UnitsCount(u: Unicode, t: string)
    requires Sane(u)
    requires t == [] || IsStart(u, t[0])
    ensures |Units(u, t)| == CountStarts(u, t)
    decreases |t|
  {
    if t != [] {
      var rest := t[CoreLen(u, t)..];
      var j := FirstStart(u, rest);
      assert CountStarts(u, t) == 1 + CountStarts(u, rest[j..]) by {
        UnitStarts(u, t);
      }
      FirstStartRest(u, rest);
      UnitsCount(u, rest[j..]);
    }
  }

  /** A unit holds exactly one start, its first character. */
  lemma UnitStarts(u: Unicode, t: string)
    requires Sane(u)
    requires t != [] && IsStart(u, t[0])
    ensures var rest := t[CoreLen(u, t)..];
            CountStarts(u, t) == 1 + CountStarts(u, rest[FirstStart(u, rest)..])
  {
    var n := CoreLen(u, t);
    var rest := t[n..];
    var j := FirstStart(u, rest);
    assert t == t[..n] + (rest[..j] + rest[j..]);
    CountStartsAppend(u, t[..n], rest[..j] + rest[j..]);
    CountStartsAppend(u, rest[..j], rest[j..]);
    NoStarts(u, rest[..j]);
    CoreStarts(u, t);
  }

  /** The core of a unit holds one start: the letter, its marks being none. */
  lemma CoreStarts(u: Unicode, t: string)
    requires Sane(u)
    requires t != [] && IsStart(u, t[0])
    ensures CountStarts(u, t[..CoreLen(u, t)]) == 1
  {
    var n := CoreLen(u, t);
    assert t[..n] == [t[0]] + t[1..n];
    CountStartsAppend(u, [t[0]], t[1..n]);
    assert forall k :: 0 <= k < |t[1..n]| ==> !IsStart(u, t[1..n][k]) by {
      forall k | 0 <= k < |t[1..n]|
        ensures !IsStart(u, t[1..n][k])
      {
        assert u.isMark(t[1 + k]);
      }
    }
    NoStarts(u, t[1..n]);
  }

  /** Each letter (with the marks after it) and each other starting
      character yields exactly one element. */
  lemma ElementsCount(u: Unicode, d: string)
    requires Sane(u)
    ensures |Elements(u, d)| == CountStarts(u, d)
  {
    var j := FirstStart(u, d);
    assert d == d[..j] + d[j..];
    CountStartsAppend(u, d[..j], d[j..]);
    NoStarts(u, d[..j]);
    UnitsCount(u, d[j..]);
    var us := Units(u, d[j..]);
    if us != [] {
      ShowAllLength(us[1..]);
    }
  }

  lemma ShowAllLength(us: seq<Unit>)
    ensures |ShowAll(us)| == |us|
  {
  }

  /** A text without a start gives no element at all: its punctuation is
      lost. */
  lemma NoStartNoElements(u: Unicode, d: string)
    requires forall k :: 0 <= k < |d| ==> !IsStart(u, d[k])
    ensures Elements(u, d) == []
  {
    assert d[FirstStart(u, d)..] == [];
  }

  /** Punctuation at the very start of the text is prefixed to the first
      element. */
  lemma LeadingPunctuationFirst(u: Unicode, d: string, p: string)
    requires p <= d
    requires forall k :: 0 <= k < |p| ==> p[k] in GreekPunctuation && !u.isLetter(p[k])
    requires exists k :: 0 <= k < |d| && IsStart(u, d[k])
    ensures Elements(u, d) != [] && p <= Elements(u, d)[0]
  {
    PunctuationFills(u, p);
    var j := FirstStart(u, d);
    FirstStartPast(u, d, p);
    ElementsHead(u, d);
    assert d[..j] == p + d[|p|..j];
    GapAppend(p, d[|p|..j]);
    GapOfFillers(p);
  }

  lemma PunctuationFills(u: Unicode, p: string)
    requires forall k :: 0 <= k < |p| ==> p[k] in GreekPunctuation && !u.isLetter(p[k])
    ensures forall k :: 0 <= k < |p| ==> Filler(p[k]) && !IsStart(u, p[k])
  {
  }

  /** A prefix without starts lies before the first start. */
  lemma FirstStartPast(u: Unicode, d: string, p: string)
    requires p <= d
    requires forall k :: 0 <= k < |p| ==> !IsStart(u, p[k])
    requires exists k :: 0 <= k < |d| && IsStart(u, d[k])
    ensures |p| <= FirstStart(u, d) < |d|
  {
    assert forall k :: 0 <= k < |p| ==> d[k] == p[k];
  }

  /** With a start in the text, the first element is the leading gap
      followed by the first unit. */
  lemma ElementsHead(u: Unicode, d: string)
    requires FirstStart(u, d) < |d|
    ensures var j := FirstStart(u, d);
            var us := Units(u, d[j..]);
            us != [] && Elements(u, d) != []
            && Elements(u, d)[0] == Gap(d[..j]) + (us[0].core + us[0].tail)
  {
    var j := FirstStart(u, d);
    var us := Units(u, d[j..]);
    assert us != [];
    AppendAssoc(Gap(d[..j]), us[0].core, us[0].tail);
  }

  lemma {:induction false} GapAppend(a: string, b: string)
    ensures Gap(a + b) == Gap(a) + Gap(b)
  {
    if a == [] {
      assert a + b == b;
    } else {
      assert (a + b)[1..] == a[1..] + b;
      GapAppend(a[1..], b);
    }
  }

  lemma {:induction false} GapOfFillers(s: string)
    requires forall k :: 0 <= k < |s| ==> Filler(s[k])
    ensures Gap(s) == s
  {
    if s != [] {
      GapOfFillers(s[1..]);
      assert [s[0]] + s[1..] == s;
    }
  }

  /** What follows the first start is empty or begins with a start. */
  lemma FirstStartRest(u: Unicode, s: string)
    ensures var j := FirstStart(u, s);
            s[j..] == [] || IsStart(u, s[j..][0])
  {
    var j := FirstStart(u, s);
    if j < |s| {
      assert s[j..][0] == s[j];
    }
  }

  lemma CoreNonEmpty(u: Unicode, t: string)
    requires Sane(u)
    requires t != []
    ensures Core(u, t) != []
  {
    if u.isLetter(t[0]) {
      assert t[..CoreLen(u, t)] != [];
    }
  }

  lemma UnitsHead(u: Unicode, t: string)
    requires t != [] && IsStart(u, t[0])
    ensures var rest := t[CoreLen(u, t)..];
            var j := FirstStart(u, rest);
            (rest[j..] == [] || IsStart(u, rest[j..][0]))
            && Units(u, t) == [Unit(Core(u, t), Gap(rest[..j]))] + Units(u, rest[j..])
  {
    FirstStartRest(u, t[CoreLen(u, t)..]);
  }

  /** Every unit's tail consists of punctuation and markup only, and, with a
      composition that keeps text, its core is not empty. */
  lemma {:induction false} UnitsFacts(u: Unicode, t: string)
    requires Sane(u)
    requires t == [] || IsStart(u, t[0])
    ensures forall k :: 0 <= k < |Units(u, t)| ==> Units(u, t)[k].core != []
    ensures forall k, i :: 0 <= k < |Units(u, t)| && 0 <= i < |Units(u, t)[k].tail| ==>
              Filler(Units(u, t)[k].tail[i])
    decreases |t|
  {
    if t != [] {
      var rest := t[CoreLen(u, t)..];
      var j := FirstStart(u, rest);
      UnitsHead(u, t);
      CoreNonEmpty(u, t);
      UnitsFacts(u, rest[j..]);
      UnitsFactsCons(Unit(Core(u, t), Gap(rest[..j])), Units(u, rest[j..]));
    }
  }

  lemma UnitsFactsCons(x: Unit, us: seq<Unit>)
    requires x.core != [] && forall i :: 0 <= i < |x.tail| ==> Filler(x.tail[i])
    requires forall k :: 0 <= k < |us| ==> us[k].core != []
    requires forall k, i :: 0 <= k < |us| && 0 <= i < |us[k].tail| ==> Filler(us[k].tail[i])
    ensures forall k :: 0 <= k < |[x] + us| ==> ([x] + us)[k].core != []
    ensures forall k, i :: 0 <= k < |[x] + us| && 0 <= i < |([x] + us)[k].tail| ==>
              Filler(([x] + us)[k].tail[i])
  {
    forall k | 1 <= k < |[x] + us|
      ensures ([x] + us)[k] == us[k - 1]
    {
    }
  }

  /** Nothing but stray combining marks is lost: with a start in the text,
      the elements concatenate to the text with each letter's marks
      recomposed. */
  function Render(u: Unicode, t: string): string
    decreases |t|
  {
    if t == [] then []
    else if u.isLetter(t[0]) then
      var n := 1 + MarkRun(u, t[1..]);
      u.nfc(t[..n]) + Render(u, t[n..])
    else if Filler(t[0]) || !u.isMark(t[0]) then [t[0]] + Render(u, t[1..])
    else Render(u, t[1..])
  }

  lemma {:induction false} RenderGap(u: Unicode, s: string, t: string)
    requires forall k :: 0 <= k < |s| ==> !IsStart(u, s[k])
    ensures Render(u, s + t) == Gap(s) + Render(u, t)
    decreases |s|
  {
    if s == [] {
      assert s + t == t;
    } else {
      assert (s + t)[0] == s[0];
      assert (s + t)[1..] == s[1..] + t;
      RenderGap(u, s[1..], t);
    }
  }

  /** At a start, rendering emits the core first. */
  lemma RenderCore(u: Unicode, t: string)
    requires t != [] && IsStart(u, t[0])
    ensures Render(u, t) == Core(u, t) + Render(u, t[CoreLen(u, t)..])
  {
  }

  /** Rendering a text that begins with a start: its core, the gap after
      it, then the rest. */
  lemma RenderStep(u: Unicode, t: string)
    requires t != [] && IsStart(u, t[0])
    ensures var rest := t[CoreLen(u, t)..];
            var j := FirstStart(u, rest);
            Render(u, t) == Core(u, t) + (Gap(rest[..j]) + Render(u, rest[j..]))
  {
    var rest := t[CoreLen(u, t)..];
    var j := FirstStart(u, rest);
    RenderCore(u, t);
    assert rest == rest[..j] + rest[j..];
    RenderGap(u, rest[..j], rest[j..]);
  }

  /** The concatenated units of a text that begins with a start. */
  lemma ConcatUnitsStep(u: Unicode, t: string)
    requires t != [] && IsStart(u, t[0])
    ensures var rest := t[CoreLen(u, t)..];
            var j := FirstStart(u, rest);
            Concat(ShowAll(Units(u, t)))
            == (Core(u, t) + Gap(rest[..j])) + Concat(ShowAll(Units(u, rest[j..])))
  {
    var rest := t[CoreLen(u, t)..];
    var j := FirstStart(u, rest);
    FirstStartRest(u, rest);
    UnitsCons(u, t);
    ConcatCons(Core(u, t) + Gap(rest[..j]), ShowAll(Units(u, rest[j..])));
  }

  lemma {:induction false} RenderUnits(u: Unicode, t: string)
    requires t == [] || IsStart(u, t[0])
    ensures Render(u, t) == Concat(ShowAll(Units(u, t)))
    decreases |t|
  {
    if t != [] {
      var rest := t[CoreLen(u, t)..];
      var j := FirstStart(u, rest);
      FirstStartRest(u, rest);
      RenderUnits(u, rest[j..]);
      RenderStep(u, t);
      ConcatUnitsStep(u, t);
      AppendAssoc(Core(u, t), Gap(rest[..j]), Render(u, rest[j..]));
    }
  }

  lemma ElementsConcat(u: Unicode, d: string)
    requires exists k :: 0 <= k < |d| && IsStart(u, d[k])
    ensures Concat(Elements(u, d)) == Render(u, d)
  {
    var j := FirstStart(u, d);
    assert j < |d|;
    var g := Gap(d[..j]);
    var us := Units(u, d[j..]);
    assert Concat(Elements(u, d)) == g + Concat(ShowAll(us)) by {
      ElementsShape(u, d);
      HeadPrefixed(g, us);
    }
    assert Concat(ShowAll(us)) == Render(u, d[j..]) by {
      FirstStartRest(u, d);
      RenderUnits(u, d[j..]);
    }
    RenderSplit(u, d, j);
  }

  /** With a start in the text, the elements are the leading gap glued to
      the first unit, then the other units. */
  lemma ElementsShape(u: Unicode, d: string)
    requires FirstStart(u, d) < |d|
    ensures var j := FirstStart(u, d);
            var us := Units(u, d[j..]);
            us != [] && Elements(u, d) == [Gap(d[..j]) + us[0].core + us[0].tail] + ShowAll(us[1..])
  {
  }

  /** Rendering a text whose first `j` characters are no start. */
  lemma RenderSplit(u: Unicode, d: string, j: nat)
    requires j <= |d|
    requires forall k :: 0 <= k < j ==> !IsStart(u, d[k])
    ensures Render(u, d) == Gap(d[..j]) + Render(u, d[j..])
  {
    assert d == d[..j] + d[j..];
    RenderGap(u, d[..j], d[j..]);
  }

  /** Prefixing the first shown unit with `g` prefixes the whole text. */
  lemma HeadPrefixed(g: string, us: seq<Unit>)
    requires us != []
    ensures Concat([g + us[0].core + us[0].tail] + ShowAll(us[1..])) == g + Concat(ShowAll(us))
  {
    var first := us[0].core + us[0].tail;
    var others := ShowAll(us[1..]);
    assert ShowAll(us) == [first] + others;
    AppendAssoc(g, us[0].core, us[0].tail);
    ConcatCons(g + first, others);
    ConcatCons(first, others);
    AppendAssoc(g, first, Concat(others));
  }

  /** With a composition that keeps text, every element is non-empty. */
  lemma ElementsNonEmpty(u: Unicode, d: string)
    requires Sane(u)
    ensures forall k :: 0 <= k < |Elements(u, d)| ==> Elements(u, d)[k] != []
  {
    var j := FirstStart(u, d);
    FirstStartRest(u, d);
    var us := Units(u, d[j..]);
    UnitsFacts(u, d[j..]);
    if us != [] {
      ShowAllNonEmpty(us[1..]);
    }
  }

  lemma {:induction false} ShowAllNonEmpty(us: seq<Unit>)
    requires forall k :: 0 <= k < |us| ==> us[k].core != []
    ensures |ShowAll(us)| == |us|
    ensures forall k :: 0 <= k < |us| ==> ShowAll(us)[k] != []
  {
    if us != [] {
      ShowAllNonEmpty(us[1..]);
    }
  }

  /* Single steps of the fold, one per branch of the loop body. */

  lemma ScanLetter(u: Unicode, t: string, m: nat, es: seq<string>, lead: string)
    requires t != [] && u.isLetter(t[0])
    requires m == MarkRun(u, t[1..])
    ensures Scan(u, t, es, lead) == Scan(u, t[1 + m..], es + [lead + u.nfc(t[..1 + m])], [])
  {
  }

  lemma ScanFiller(u: Unicode, t: string, es: seq<string>, lead: string)
    requires t != [] && !u.isLetter(t[0]) && Filler(t[0])
    ensures es == [] ==> Scan(u, t, es, lead) == Scan(u, t[1..], [], lead + [t[0]])
    ensures es != [] ==>
              Scan(u, t, es, lead) == Scan(u, t[1..], es[|es| - 1 := es[|es| - 1] + [t[0]]], lead)
  {
  }

  lemma ScanOther(u: Unicode, t: string, es: seq<string>, lead: string)
    requires t != [] && !u.isLetter(t[0]) && !Filler(t[0])
    ensures u.isMark(t[0]) ==> Scan(u, t, es, lead) == Scan(u, t[1..], es, lead)
    ensures !u.isMark(t[0]) ==> Scan(u, t, es, lead) == Scan(u, t[1..], es + [lead + [t[0]]], [])
  {
  }

  /** The inner loop of the scanner: the combining marks from index `i` on,
      and the index just after them. */
  method CollectMarks(u: Unicode, d: string, i: nat) returns (marks: string, j: nat)
    requires i <= |d|
    ensures i <= j <= |d|
    ensures marks == d[i..j]
    ensures j - i == MarkRun(u, d[i..])
  {
    j := i;
    marks := "";
    while j < |d| && u.isMark(d[j])
      invariant i <= j <= |d|
      invariant marks == d[i..j]
      invariant forall k :: i <= k < j ==> u.isMark(d[k])
      decreases |d| - j
    {
      assert d[i..j + 1] == d[i..j] + [d[j]];
      marks := marks + [d[j]];
      j := j + 1;
    }
    MarkRunIs(u, d[i..], j - i);
  }

  /** The letter branch of the scanner: the letter at `i` with its marks,
      recomposed, becomes a new element carrying the leading punctuation,
      and one markup character right after a recomposed vowel or consonant
      is taken along with it. */
  method TakeLetter(u: Unicode, vowels: set<string>, d: string, i: nat,
                    elements: seq<string>, lead: string)
    returns (next: nat, elements': seq<string>)
    requires Sane(u)
    requires i < |d| && u.isLetter(d[i])
    ensures i < next <= |d|
    ensures |elements'| == |elements| + 1
    ensures Scan(u, d[next..], elements', []) == Scan(u, d[i..], elements, lead)
  {
    var marks, j := CollectMarks(u, d, i + 1);
    var recomposed := u.nfc([d[i]] + marks);
    var element := lead + recomposed;
    assert Scan(u, d[i..], elements, lead) == Scan(u, d[j..], elements + [element], []) by {
      ScanLetterAt(u, d, i, j, marks, elements, lead);
    }
    next := j;
    var matched := MatchesPattern(vowels, recomposed);
    if matched && next < |d| && d[next] in MarkupChars {
      assert Scan(u, d[next..], elements + [element], []) == Scan(u, d[next + 1..], elements + [element + [d[next]]], []) by {
        ScanMarkupAt(u, d, next, elements, element);
      }
      element := element + [d[next]];
      next := next + 1;
    }
    elements' := elements + [element];
  }

  /** The search over `patterns.values()` that stops at the first pattern
      matching at the start of `s`: whether there is one. */
  method MatchesPattern(vowels: set<string>, s: string) returns (matched: bool)
    ensures matched == AnyPattern(vowels, s)
  {
    matched := false;
    var k := 0;
    while k < PatternCount
      invariant k <= PatternCount && !matched
      invariant forall j :: 0 <= j < k ==> !PatternAt(vowels, j, s)
    {
      if PatternAt(vowels, k, s) {
        PatternAtAny(vowels, k, s);
        matched := true;
        break;
      }
      k := k + 1;
    }
    if !matched {
      NoPatternAt(vowels, s);
    }
  }

  /** The letter at `i` and the marks up to `j` become one element. */
  lemma ScanLetterAt(u: Unicode, d: string, i: nat, j: nat, marks: string, es: seq<string>, lead: string)
    requires i < j <= |d| && u.isLetter(d[i])
    requires marks == d[i + 1..j] && j - i - 1 == MarkRun(u, d[i + 1..])
    ensures Scan(u, d[i..], es, lead) == Scan(u, d[j..], es + [lead + u.nfc([d[i]] + marks)], [])
  {
    assert d[i..][1..] == d[i + 1..];
    ScanLetter(u, d[i..], j - i - 1, es, lead);
    assert d[i..][..j - i] == [d[i]] + d[i + 1..j];
    assert d[i..][j - i..] == d[j..];
  }

  /** A markup character after an element is appended to it. */
  lemma ScanMarkupAt(u: Unicode, d: string, n: nat, es: seq<string>, e: string)
    requires Sane(u)
    requires n < |d| && d[n] in MarkupChars
    ensures Scan(u, d[n..], es + [e], []) == Scan(u, d[n + 1..], es + [e + [d[n]]], [])
  {
    assert Filler(d[n]) && !u.isLetter(d[n]);
    ScanFiller(u, d[n..], es + [e], []);
    assert d[n..][1..] == d[n + 1..];
    assert (es + [e])[|es| := e + [d[n]]] == es + [e + [d[n]]];
  }

  /** `divide_into_elements(text)`. The index `i` grows on every round of
      each loop, which is what the `decreases` clauses record. */
  method DivideIntoElements(u: Unicode, vowels: set<string>, text: string)
    returns (elements: seq<string>)
    requires Sane(u)
    ensures elements == Divide(u, text)
    ensures elements == Elements(u, u.nfd(text))
  {
    var d := u.nfd(text);
    elements := [];
    var i := 0;
    var lead := "";
    while i < |d| && d[i] in GreekPunctuation
      invariant 0 <= i <= |d|
      invariant Scan(u, d[i..], [], lead) == Divide(u, text)
      decreases |d| - i
    {
      FillerAt(u, d, i, [], lead);
      lead := lead + [d[i]];
      i := i + 1;
    }
    while i < |d|
      invariant 0 <= i <= |d|
      invariant elements != [] ==> lead == []
      invariant Scan(u, d[i..], elements, lead) == Divide(u, text)
      decreases |d| - i
    {
      if u.isLetter(d[i]) {
        i, elements := TakeLetter(u, vowels, d, i, elements, lead);
        lead := "";
      } else if d[i] in GreekPunctuation || d[i] in MarkupChars {
        elements, lead := AttachFiller(u, d, i, elements, lead);
        i := i + 1;
      } else {
        elements, lead := TakeOther(u, d, i, elements, lead);
        i := i + 1;
      }
    }
    assert d[i..] == [];
    ScanIsElements(u, d);
  }

  /** The punctuation and markup branch of the scanner: the character at
      `i` goes to the last element, or to the leading buffer while there is
      no element yet. */
  method AttachFiller(u: Unicode, d: string, i: nat, elements: seq<string>, lead: string)
    returns (elements': seq<string>, lead': string)
    requires Sane(u)
    requires i < |d| && Filler(d[i])
    ensures elements != [] ==>
              elements' == elements[|elements| - 1 := elements[|elements| - 1] + [d[i]]] && lead' == lead
    ensures elements == [] ==> elements' == [] && lead' == lead + [d[i]]
    ensures Scan(u, d[i + 1..], elements', lead') == Scan(u, d[i..], elements, lead)
  {
    FillerAt(u, d, i, elements, lead);
    if elements != [] {
      elements' := elements[|elements| - 1 := elements[|elements| - 1] + [d[i]]];
      lead' := lead;
    } else {
      elements' := elements;
      lead' := lead + [d[i]];
    }
  }

  /** The last branch of the scanner: a stray combining mark is dropped,
      any other character becomes an element carrying the leading buffer. */
  method TakeOther(u: Unicode, d: string, i: nat, elements: seq<string>, lead: string)
    returns (elements': seq<string>, lead': string)
    requires i < |d| && !u.isLetter(d[i]) && !Filler(d[i])
    ensures u.isMark(d[i]) ==> elements' == elements && lead' == lead
    ensures !u.isMark(d[i]) ==> elements' == elements + [lead + [d[i]]] && lead' == []
    ensures Scan(u, d[i + 1..], elements', lead') == Scan(u, d[i..], elements, lead)
  {
    OtherAt(u, d, i, elements, lead);
    elements', lead' := elements, lead;
    if !u.isMark(d[i]) {
      var element := lead + [d[i]];
      lead' := "";
      elements' := elements + [element];
    }
  }

  /** The punctuation or markup character at `i`, as one step of the fold. */
  lemma FillerAt(u: Unicode, d: string, i: nat, es: seq<string>, lead: string)
    requires Sane(u)
    requires i < |d| && Filler(d[i])
    ensures es == [] ==> Scan(u, d[i..], es, lead) == Scan(u, d[i + 1..], [], lead + [d[i]])
    ensures es != [] ==>
              Scan(u, d[i..], es, lead) == Scan(u, d[i + 1..], es[|es| - 1 := es[|es| - 1] + [d[i]]], lead)
  {
    ScanFiller(u, d[i..], es, lead);
    assert d[i..][1..] == d[i + 1..];
  }

  /** Any other character at `i`, as one step of the fold. */
  lemma OtherAt(u: Unicode, d: string, i: nat, es: seq<string>, lead: string)
    requires i < |d| && !u.isLetter(d[i]) && !Filler(d[i])
    ensures u.isMark(d[i]) ==> Scan(u, d[i..], es, lead) == Scan(u, d[i + 1..], es, lead)
    ensures !u.isMark(d[i]) ==> Scan(u, d[i..], es, lead) == Scan(u, d[i + 1..], es + [lead + [d[i]]], [])
  {
    ScanOther(u, d[i..], es, lead);
    assert d[i..][1..] == d[i + 1..];
  }

  lemma {:induction false} MarkRunIs(u: Unicode, t: string, m: nat)
    requires m <= |t|
    requires forall k :: 0 <= k < m ==> u.isMark(t[k])
    requires m == |t| || !u.isMark(t[m])
    ensures MarkRun(u, t) == m
  {
    if m > 0 {
      MarkRunIs(u, t[1..], m - 1);
    }
  }
}
