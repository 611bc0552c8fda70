/** The pieces of Python's `str` and `list` behaviour that the syllabifier
    relies on: `''.join`, `sep.join`, `str.split`, `str.rstrip`, `str.isspace`,
    `str.replace` and the list comprehension `[s for s in xs if s]`.
    A Python `str` is a sequence of code points, here `seq<char>`. */
module Text {

  /** The code points for which Python's `str.isspace()` holds; `str.rstrip()`
      without arguments strips exactly these. */
  const Whitespace: set<char> :=
    {'\U{9}', '\n', '\U{B}', '\U{C}', '\U{D}', '\U{1C}', '\U{1D}', '\U{1E}', '\U{1F}',
     '\U{20}', '\U{85}', '\U{A0}', '\U{1680}', '\U{2000}', '\U{2001}', '\U{2002}',
     '\U{2003}', '\U{2004}', '\U{2005}', '\U{2006}', '\U{2007}', '\U{2008}', '\U{2009}',
     '\U{200A}', '\U{2028}', '\U{2029}', '\U{202F}', '\U{205F}', '\U{3000}'}

  /** `''.join(xs)`. */
  function Concat(xs: seq<string>): string
  {
    if xs == [] then [] else Concat(xs[..|xs| - 1]) + xs[|xs| - 1]
  }

  lemma {:induction false} ConcatAppend(a: seq<string>, b: seq<string>)
    ensures Concat(a + b) == Concat(a) + Concat(b)
  {
    if b == [] {
      assert a + b == a;
    } else {
      ConcatAppend(a, b[..|b| - 1]);
      assert (a + b)[..|a + b| - 1] == a + b[..|b| - 1];
    }
  }

  lemma {:induction false} ConcatCons(x: string, xs: seq<string>)
    ensures Concat([x] + xs) == x + Concat(xs)
  {
    ConcatAppend([x], xs);
    assert [x][..0] == [];
  }

  /** The text from entry `i` on starts with entry `i`. */
  lemma ConcatFrom(xs: seq<string>, i: nat)
    requires i < |xs|
    ensures Concat(xs[i..]) == xs[i] + Concat(xs[i + 1..])
  {
    ConcatCons(xs[i], xs[i + 1..]);
    assert [xs[i]] + xs[i + 1..] == xs[i..];
  }

  lemma ConcatPair(x: string, y: string)
    ensures Concat([x, y]) == x + y
  {
    assert [x, y][..1] == [x];
    assert Concat([x]) == x by {
      assert [x][..0] == [];
    }
  }

  lemma AppendAssoc<T>(a: seq<T>, b: seq<T>, c: seq<T>)
    ensures (a + b) + c == a + (b + c)
  {
  }

  /** Flattens a list of lists, keeping the order. */
  function Flatten<T>(xss: seq<seq<T>>): seq<T>
  {
    if xss == [] then [] else xss[0] + Flatten(xss[1..])
  }

  /** The concatenation of every string of `xs` that is not empty:
      `[s for s in xs if s]`. */
  function FilterNonEmpty(xs: seq<string>): (r: seq<string>)
    ensures forall k :: 0 <= k < |r| ==> r[k] != []
    ensures forall k :: 0 <= k < |r| ==> r[k] in xs
    ensures Concat(r) == Concat(xs)
    ensures |r| <= |xs|
  {
    if xs == [] then []
    else
      var front := xs[..|xs| - 1];
      var r := FilterNonEmpty(front);
      assert forall s :: s in front ==> s in xs;
      if xs[|xs| - 1] == [] then
        assert Concat(xs) == Concat(front) + [];
        r
      else
        assert (r + [xs[|xs| - 1]])[..|r|] == r;
        r + [xs[|xs| - 1]]
  }

  lemma {:induction false} FilterNonEmptyAppend(a: seq<string>, b: seq<string>)
    ensures FilterNonEmpty(a + b) == FilterNonEmpty(a) + FilterNonEmpty(b)
  {
    if b != [] {
      FilterNonEmptyAppend(a, b[..|b| - 1]);
      assert (a + b)[..|a + b| - 1] == a + b[..|b| - 1];
    } else {
      assert a + b == a;
    }
  }

  lemma {:induction false} FilterNonEmptyOfNonEmpty(xs: seq<string>)
    requires forall k :: 0 <= k < |xs| ==> xs[k] != []
    ensures FilterNonEmpty(xs) == xs
  {
    if xs != [] {
      var front, last := xs[..|xs| - 1], xs[|xs| - 1];
      assert forall k :: 0 <= k < |front| ==> front[k] != [] by {
        forall k | 0 <= k < |front|
          ensures front[k] != []
        {
          assert front[k] == xs[k];
        }
      }
      FilterNonEmptyOfNonEmpty(front);
      assert xs == front + [last];
      FilterNonEmptyAppend(front, [last]);
      FilterNonEmptyOne(last);
    }
  }

  lemma FilterNonEmptyOne(x: string)
    requires x != []
    ensures FilterNonEmpty([x]) == [x]
  {
    assert [x][..0] == [];
  }

  /** `s.replace('^', '').replace('_', '')`: the quantity markup removed. */
  function StripMarkup(s: string): (r: string)
    ensures forall k :: 0 <= k < |r| ==> r[k] != '^' && r[k] != '_'
    ensures |r| <= |s|
  {
    if s == [] then []
    else (if s[0] == '^' || s[0] == '_' then [] else [s[0]]) + StripMarkup(s[1..])
  }

  lemma {:induction false} StripMarkupAppend(a: string, b: string)
    ensures StripMarkup(a + b) == StripMarkup(a) + StripMarkup(b)
  {
    if a != [] {
      StripMarkupAppend(a[1..], b);
      assert (a + b)[1..] == a[1..] + b;
    } else {
      assert a + b == b;
    }
  }

  lemma {:induction false} StripMarkupNoMarkup(s: string)
    requires forall k :: 0 <= k < |s| ==> s[k] != '^' && s[k] != '_'
    ensures StripMarkup(s) == s
  {
    if s != [] {
      StripMarkupNoMarkup(s[1..]);
    }
  }

  lemma StripMarkupSingle(c: char)
    requires c != '^' && c != '_'
    ensures StripMarkup([c]) == [c]
  {
  }

  /** Stripping is idempotent. */
  lemma StripMarkupIdempotent(s: string)
    ensures StripMarkup(StripMarkup(s)) == StripMarkup(s)
  {
    StripMarkupNoMarkup(StripMarkup(s));
  }

  /** `sep.join(xs)`. */
  function Join(xs: seq<string>, sep: char): string
  {
    if xs == [] then []
    else if |xs| == 1 then xs[0]
    else xs[0] + [sep] + Join(xs[1..], sep)
  }

  /** `s.split(sep)` for a one-character separator: the pieces between the
      separators, so an empty string splits into one empty piece. */
  function Split(s: string, sep: char): (r: seq<string>)
    ensures |r| >= 1
    decreases |s|
  {
    if s == [] then [[]]
    else if s[0] == sep then [[]] + Split(s[1..], sep)
    else
      var t := Split(s[1..], sep);
      [[s[0]] + t[0]] + t[1..]
  }

  lemma {:induction false} SplitWithoutSeparator(x: string, sep: char)
    requires sep !in x
    ensures Split(x, sep) == [x]
  {
    if x != [] {
      SplitWithoutSeparator(x[1..], sep);
      assert [x[0]] + x[1..] == x;
    }
  }

  lemma {:induction false} SplitAtSeparator(x: string, y: string, sep: char)
    requires sep !in x
    ensures Split(x + [sep] + y, sep) == [x] + Split(y, sep)
  {
    if x == [] {
      assert x + [sep] + y == [sep] + y;
    } else {
      SplitAtSeparator(x[1..], y, sep);
      assert (x + [sep] + y)[1..] == x[1..] + [sep] + y;
      assert [x[0]] + x[1..] == x;
    }
  }

  /** Splitting a join gives back the parts, as long as there is at least
      one part and no part contains the separator. */
  lemma {:induction false} SplitJoin(xs: seq<string>, sep: char)
    requires xs != []
    requires forall k :: 0 <= k < |xs| ==> sep !in xs[k]
    ensures Split(Join(xs, sep), sep) == xs
  {
    if |xs| == 1 {
      SplitWithoutSeparator(xs[0], sep);
    } else {
      SplitJoin(xs[1..], sep);
      SplitAtSeparator(xs[0], Join(xs[1..], sep), sep);
    }
  }

  /** `s.rstrip()`: the longest prefix of `s` that does not end in whitespace. */
  function RStrip(s: string): (r: string)
    ensures r <= s
    ensures r == [] || r[|r| - 1] !in Whitespace
    ensures forall k :: |r| <= k < |s| ==> s[k] in Whitespace
    decreases |s|
  {
    if s != [] && s[|s| - 1] in Whitespace then RStrip(s[..|s| - 1]) else s
  }

  /** Whether `pat` occurs in `s` starting at index `k`. */
  predicate OccursAt(s: string, pat: string, k: int)
  {
    0 <= k <= |s| - |pat| && s[k..k + |pat|] == pat
  }

  /** Whether `pat` occurs in `s` as a contiguous substring. */
  predicate Occurs(s: string, pat: string)
  {
    exists k :: 0 <= k <= |s| - |pat| && OccursAt(s, pat, k)
  }

  /** An occurrence one place further into `s` is an occurrence in `s[1..]`. */
  lemma OccursAtShift(s: string, pat: string, k: nat)
    requires s != []
    ensures OccursAt(s, pat, k + 1) <==> OccursAt(s[1..], pat, k)
  {
    if k + 1 <= |s| - |pat| {
      assert s[1..][k..k + |pat|] == s[k + 1..k + 1 + |pat|];
    }
  }

  /** Without an occurrence at the front, `pat` occurs in `s` exactly when
      it occurs in `s[1..]`. */
  lemma OccursShift(s: string, pat: string)
    requires s != [] && !OccursAt(s, pat, 0)
    ensures Occurs(s, pat) <==> Occurs(s[1..], pat)
  {
    if Occurs(s, pat) {
      var k :| 0 <= k <= |s| - |pat| && OccursAt(s, pat, k);
      assert k != 0;
      OccursAtShift(s, pat, k - 1);
    }
    if Occurs(s[1..], pat) {
      var k :| 0 <= k <= |s[1..]| - |pat| && OccursAt(s[1..], pat, k);
      OccursAtShift(s, pat, k);
    }
  }

  /** `s.find(pat)`: the first index at which `pat` occurs, or -1. */
  function Find(s: string, pat: string): (p: int)
    ensures -1 <= p
    ensures p == -1 <==> !Occurs(s, pat)
    ensures p >= 0 ==> OccursAt(s, pat, p)
    ensures forall q :: 0 <= q < p ==> !OccursAt(s, pat, q)
    decreases |s|
  {
    if |s| < |pat| then -1
    else if s[..|pat|] == pat then
      assert OccursAt(s, pat, 0);
      0
    else
      var q := Find(s[1..], pat);
      OccursShift(s, pat);
      forall k | 1 <= k <= q
        ensures !OccursAt(s, pat, k)
      {
        OccursAtShift(s, pat, k - 1);
      }
      if q >= 0 then
        OccursAtShift(s, pat, q);
        q + 1
      else
        -1
  }

  /** `s.replace(pat, rep, 1)`: the first occurrence of `pat`, if any, is
      replaced by `rep`. */
  function ReplaceFirst(s: string, pat: string, rep: string): string
  {
    var p := Find(s, pat);
    if p == -1 then s else s[..p] + rep + s[p + |pat|..]
  }
}
