/**
 * `clean_text` (server.py:30-31): `re.sub(r'\s+', ' ', text).strip()`.
 * Every run of whitespace becomes one space, then the ends are trimmed.
 */
module Normalize {
  import opened PyStr

  /** Whitespace at `i` is a plain space and is not followed by more. */
  predicate SpaceOkAt(s: string, i: int)
    requires 0 <= i < |s|
  {
    IsSpace(s[i]) ==> s[i] == ' ' && (i + 1 < |s| ==> !IsSpace(s[i + 1]))
  }

  /** The only whitespace is the plain space, and never two in a row. */
  predicate SingleSpaced(s: string) {
    forall i | 0 <= i < |s| :: SpaceOkAt(s, i)
  }

  /** What `clean_text` promises of its output. */
  predicate IsClean(s: string) {
    NoEdgeSpace(s) && SingleSpaced(s)
  }

  /** The characters of `s` that are not whitespace, in order. */
  function NonSpace(s: string): string {
    if s == [] then [] else (if IsSpace(s[0]) then [] else [s[0]]) + NonSpace(s[1..])
  }

  lemma {:induction false} NonSpaceAppend(a: string, b: string)
    ensures NonSpace(a + b) == NonSpace(a) + NonSpace(b)
  {
    if a == [] {
      assert a + b == b;
    } else {
      assert (a + b)[0] == a[0] && (a + b)[1..] == a[1..] + b;
      NonSpaceAppend(a[1..], b);
    }
  }

  lemma {:induction false} NonSpaceTrimStart(s: string)
    ensures NonSpace(TrimStart(s)) == NonSpace(s)
    decreases |s|
  {
    if s != [] && IsSpace(s[0]) {
      TrimStartStep(s);
      NonSpaceTrimStart(s[1..]);
    } else {
      TrimStartNoop(s);
    }
  }

  lemma {:induction false} NonSpaceTrimEnd(s: string)
    ensures NonSpace(TrimEnd(s)) == NonSpace(s)
    decreases |s|
  {
    if s != [] && IsSpace(s[|s| - 1]) {
      var n := |s| - 1;
      Cut(s, n);
      NonSpaceAppend(s[..n], s[n..]);
      assert NonSpace(s[n..]) == [] by { assert s[n..][1..] == []; }
      TrimEndStep(s);
      NonSpaceTrimEnd(s[..n]);
    } else {
      TrimEndNoop(s);
    }
  }

  /** Removing whitespace at the ends keeps every other character. */
  lemma NonSpaceStrip(s: string)
    ensures NonSpace(Strip(s)) == NonSpace(s)
  {
    NonSpaceTrimStart(s);
    NonSpaceTrimEnd(TrimStart(s));
  }

  lemma SingleSpacedSlice(s: string, lo: nat, hi: nat)
    requires lo <= hi <= |s| && SingleSpaced(s)
    ensures SingleSpaced(s[lo..hi])
  {
    forall i | 0 <= i < hi - lo ensures SpaceOkAt(s[lo..hi], i) {
      assert SpaceOkAt(s, lo + i);
    }
  }

  lemma SingleSpacedCons(c: char, x: string)
    requires SingleSpaced(x)
    requires IsSpace(c) ==> c == ' ' && (x == [] || !IsSpace(x[0]))
    ensures SingleSpaced([c] + x)
  {
    forall i | 1 <= i < |x| + 1 ensures SpaceOkAt([c] + x, i) { assert SpaceOkAt(x, i - 1); }
    assert SpaceOkAt([c] + x, 0);
  }

  /** `re.sub(r'\s+', ' ', s)`: each maximal run of whitespace becomes one space. */
  function Collapse(s: string): (r: string)
    ensures |r| <= |s| && (r == [] <==> s == [])
    ensures r != [] ==> (IsSpace(r[0]) <==> IsSpace(s[0]))
    decreases |s|
  {
    if s == [] then []
    else if IsSpace(s[0]) then
      [' '] + Collapse(TrimStart(s))
    else
      [s[0]] + Collapse(s[1..])
  }

  /** The output of the substitution has no run of whitespace longer than
      one character, and that character is a space. */
  lemma {:induction false} CollapseSingleSpaced(s: string)
    ensures SingleSpaced(Collapse(s))
    decreases |s|
  {
    if s != [] {
      if IsSpace(s[0]) {
        var t := TrimStart(s);
        CollapseSingleSpaced(t);
        SingleSpacedCons(' ', Collapse(t));
      } else {
        CollapseSingleSpaced(s[1..]);
        SingleSpacedCons(s[0], Collapse(s[1..]));
      }
    }
  }

  /** The substitution only ever rewrites whitespace. */
  lemma {:induction false} CollapseNonSpace(s: string)
    ensures NonSpace(Collapse(s)) == NonSpace(s)
    decreases |s|
  {
    if s != [] {
      if IsSpace(s[0]) {
        var t := TrimStart(s);
        CollapseNonSpace(t);
        NonSpaceTrimStart(s);
        NonSpaceAppend([' '], Collapse(t));
      } else {
        CollapseNonSpace(s[1..]);
        NonSpaceAppend([s[0]], Collapse(s[1..]));
      }
    }
  }

  /** `clean_text(s)` */
  function CleanText(s: string): (r: string)
    ensures IsClean(r)
    ensures NonSpace(r) == NonSpace(s)
  {
    var c := Collapse(s);
    CollapseSingleSpaced(s);
    CollapseNonSpace(s);
    NonSpaceStrip(c);
    StripKeepsSingleSpaced(c);
    Strip(c)
  }

  lemma StripKeepsSingleSpaced(c: string)
    requires SingleSpaced(c)
    ensures SingleSpaced(Strip(c))
  {
    SingleSpacedSlice(c, LeadingSpace(c), |c|);
    assert c[LeadingSpace(c)..|c|] == TrimStart(c);
    SingleSpacedSlice(TrimStart(c), 0, TrailingStart(TrimStart(c)));
  }

  // ------------------------------------------- the reference definition

  /** Index of the first whitespace character of `s`, or `|s|`. */
  function WordEnd(s: string): (i: nat)
    ensures i <= |s| && NoSpace(s[..i])
    ensures forall j | 0 <= j < i :: !IsSpace(s[j])
    ensures i < |s| ==> IsSpace(s[i])
  {
    if s == [] || IsSpace(s[0]) then 0
    else
      var j := WordEnd(s[1..]);
      assert s[..j + 1] == [s[0]] + s[1..][..j];
      j + 1
  }

  /** Python's `s.split()` with no argument: the maximal runs of
      non-whitespace, in order. */
  function Words(s: string): (r: seq<string>)
    ensures forall k | 0 <= k < |r| :: r[k] != [] && NoSpace(r[k])
    decreases |s|
  {
    var t := TrimStart(s);
    if t == [] then []
    else
      var n := WordEnd(t);
      [t[..n]] + Words(t[n..])
  }

  lemma {:induction false} CollapseWord(w: string, u: string)
    requires NoSpace(w)
    ensures Collapse(w + u) == w + Collapse(u)
  {
    if w != [] {
      assert (w + u)[0] == w[0] && !IsSpace(w[0]);
      assert (w + u)[1..] == w[1..] + u;
      assert Collapse(w + u) == [w[0]] + Collapse(w[1..] + u);
      assert NoSpace(w[1..]) by {
        forall i | 0 <= i < |w| - 1 ensures !IsSpace(w[1..][i]) { assert w[1..][i] == w[i + 1]; }
      }
      CollapseWord(w[1..], u);
      assert w == [w[0]] + w[1..];
    } else {
      assert w + u == u;
    }
  }

  lemma {:induction false} TrimEndAppend(a: string, b: string)
    requires !AllSpace(b)
    ensures TrimEnd(a + b) == a + TrimEnd(b)
    decreases |b|
  {
    assert (a + b)[|a + b| - 1] == b[|b| - 1];
    if IsSpace(b[|b| - 1]) {
      assert (a + b)[..|a + b| - 1] == a + b[..|b| - 1];
      assert !AllSpace(b[..|b| - 1]) by {
        var i :| 0 <= i < |b| && !IsSpace(b[i]);
        assert b[..|b| - 1][i] == b[i];
      }
      TrimEndStep(a + b);
      TrimEndStep(b);
      TrimEndAppend(a, b[..|b| - 1]);
    } else {
      TrimEndNoop(a + b);
      TrimEndNoop(b);
    }
  }

  lemma StripLeadingSpace(x: string)
    requires x == [] || !IsSpace(x[0])
    ensures Strip([' '] + x) == Strip(x)
  {
    TrimStartStep([' '] + x);
    assert ([' '] + x)[1..] == x;
    TrimStartNoop(x);
  }

  lemma StripBetweenWords(w: string, x: string)
    requires w != [] && NoSpace(w) && x != [] && !IsSpace(x[0])
    ensures Strip(w + [' '] + x) == w + [' '] + Strip(x)
  {
    assert (w + [' '] + x)[0] == w[0];
    TrimStartNoop(w + [' '] + x);
    TrimStartNoop(x);
    TrimEndAppend(w + [' '], x);
  }

  lemma StripWordSpace(w: string)
    requires w != [] && NoSpace(w)
    ensures Strip(w + [' ']) == w
  {
    assert (w + [' '])[0] == w[0];
    TrimStartNoop(w + [' ']);
    TrimEndStep(w + [' ']);
    assert (w + [' '])[..|w|] == w;
    TrimEndNoop(w);
  }

  /** `clean_text(s) == " ".join(s.split())`: collapsing and stripping is
      the same as splitting into words and joining them with one space. */
  lemma {:induction false} CleanTextIsJoinedWords(s: string)
    ensures CleanText(s) == Join(Words(s), " ")
    decreases |s|, 1
  {
    var t := TrimStart(s);
    if t == [] {
      JoinedWordsBlank(s);
    } else if IsSpace(s[0]) {
      assert Collapse(s) == [' '] + Collapse(t);
      StripLeadingSpace(Collapse(t));
      TrimStartNoop(t);
      assert Words(s) == Words(t);
      CleanTextIsJoinedWords(t);
    } else {
      JoinedWordsFromWord(s);
    }
  }

  lemma JoinedWordsBlank(s: string)
    requires TrimStart(s) == []
    ensures CleanText(s) == Join(Words(s), " ")
  {
    assert AllSpace(s);
    assert AllSpace(Collapse(s)) by {
      if s != [] { assert Collapse(s) == [' '] + Collapse(TrimStart(s)); }
    }
    StripEmptyIff(Collapse(s));
  }

  lemma {:induction false} JoinedWordsFromWord(s: string)
    requires s != [] && !IsSpace(s[0])
    ensures CleanText(s) == Join(Words(s), " ")
    decreases |s|, 0
  {
    var rest := s[WordEnd(s)..];
    if rest == [] {
      JoinedWordsOneWord(s);
    } else if TrimStart(rest) == [] {
      JoinedWordsLastWord(s);
    } else {
      CleanTextIsJoinedWords(TrimStart(rest));
      JoinedWordsMoreWords(s);
    }
  }

  lemma JoinedWordsOneWord(s: string)
    requires s != [] && !IsSpace(s[0]) && s[WordEnd(s)..] == []
    ensures CleanText(s) == Join(Words(s), " ")
  {
    WordsOfWordStart(s);
    StripOfStripped(s[..WordEnd(s)]);
  }

  lemma JoinedWordsLastWord(s: string)
    requires s != [] && !IsSpace(s[0])
    requires s[WordEnd(s)..] != [] && TrimStart(s[WordEnd(s)..]) == []
    ensures CleanText(s) == Join(Words(s), " ")
  {
    var rest := s[WordEnd(s)..];
    WordsOfWordStart(s);
    WordsOfSpaceStart(rest);
    StripWordSpace(s[..WordEnd(s)]);
  }

  lemma JoinedWordsMoreWords(s: string)
    requires s != [] && !IsSpace(s[0])
    requires s[WordEnd(s)..] != [] && TrimStart(s[WordEnd(s)..]) != []
    requires var t := TrimStart(s[WordEnd(s)..]); CleanText(t) == Join(Words(t), " ")
    ensures CleanText(s) == Join(Words(s), " ")
  {
    var w, t := s[..WordEnd(s)], TrimStart(s[WordEnd(s)..]);
    FirstWordThenSpace(s);
    WordStartShape(t);
    JoinedWordsGlue(w, Collapse(t), Words(t));
  }

  lemma FirstWordThenSpace(s: string)
    requires s != [] && !IsSpace(s[0]) && s[WordEnd(s)..] != []
    ensures var w, t := s[..WordEnd(s)], TrimStart(s[WordEnd(s)..]);
      Collapse(s) == w + [' '] + Collapse(t) && Words(s) == [w] + Words(t)
      && (t != [] ==> !IsSpace(t[0]))
  {
    var w, rest := s[..WordEnd(s)], s[WordEnd(s)..];
    var t := TrimStart(rest);
    WordsOfWordStart(s);
    WordsOfSpaceStart(rest);
    if t != [] {
      assert t[0] == rest[LeadingSpace(rest)];
    }
    Assoc(w, [' '], Collapse(t));
  }

  lemma WordStartShape(t: string)
    requires t != [] && !IsSpace(t[0])
    ensures Collapse(t) != [] && !IsSpace(Collapse(t)[0]) && Words(t) != []
  {
    WordsOfWordStart(t);
    assert WordEnd(t) > 0;
    assert Collapse(t)[0] == t[0];
  }

  lemma JoinedWordsGlue(w: string, x: string, ws: seq<string>)
    requires w != [] && NoSpace(w) && x != [] && !IsSpace(x[0]) && ws != []
    requires Strip(x) == Join(ws, " ")
    ensures Strip(w + [' '] + x) == Join([w] + ws, " ")
  {
    StripBetweenWords(w, x);
    assert ([w] + ws)[1..] == ws;
  }

  /** Splitting off the first word of `s`. */
  lemma WordsOfWordStart(s: string)
    requires s != [] && !IsSpace(s[0])
    ensures Words(s) == [s[..WordEnd(s)]] + Words(s[WordEnd(s)..])
    ensures Collapse(s) == s[..WordEnd(s)] + Collapse(s[WordEnd(s)..])
  {
    Cut(s, WordEnd(s));
    TrimStartNoop(s);
    CollapseWord(s[..WordEnd(s)], s[WordEnd(s)..]);
  }

  lemma WordsOfSpaceStart(r: string)
    requires r != [] && IsSpace(r[0])
    ensures Words(r) == Words(TrimStart(r))
    ensures Collapse(r) == [' '] + Collapse(TrimStart(r))
  {
    TrimStartNoop(TrimStart(r));
  }

  // ----------------------------------------------------------- idempotence

  lemma {:induction false} CollapseOfSingleSpaced(s: string)
    requires SingleSpaced(s)
    ensures Collapse(s) == s
    decreases |s|
  {
    if s != [] {
      SingleSpacedSlice(s, 1, |s|);
      assert s[1..|s|] == s[1..];
      if IsSpace(s[0]) {
        assert SpaceOkAt(s, 0);
        TrimStartStep(s);
        TrimStartNoop(s[1..]);
      }
      CollapseOfSingleSpaced(s[1..]);
    }
  }

  /** Cleaning an already clean string changes nothing. */
  lemma CleanTextOfClean(s: string)
    requires IsClean(s)
    ensures CleanText(s) == s
  {
    CollapseOfSingleSpaced(s);
    StripOfStripped(s);
  }

  /** `clean_text(clean_text(s)) == clean_text(s)` */
  lemma CleanTextIdempotent(s: string)
    ensures CleanText(CleanText(s)) == CleanText(s)
  {
    CleanTextOfClean(CleanText(s));
  }
}
