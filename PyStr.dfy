/**
 * The Python `str` operations the server's text processing is built from:
 * whitespace and line-break classes, `strip`, `in`, `startswith`, `find`,
 * `split(sep)`, `sep.join`, `replace(old, "")`, `splitlines()` and the
 * prefix slice `s[:n]`. Strings are sequences of Unicode code points, as
 * Python's `str` is.
 */
module PyStr {
  import opened Wrappers

  /** Python's `str.isspace()` for one character, which is also what the
      regular expression `\s` matches in a `str` pattern. */
  predicate IsSpace(c: char) {
    c == ' ' || ('\t' <= c <= '\r') || ('\U{1C}' <= c <= '\U{1F}')
    || c == '\U{85}' || c == '\U{A0}' || c == '\U{1680}'
    || ('\U{2000}' <= c <= '\U{200A}') || c == '\U{2028}' || c == '\U{2029}'
    || c == '\U{202F}' || c == '\U{205F}' || c == '\U{3000}'
  }

  /** The characters at which `str.splitlines()` ends a line
      (a carriage return followed by a line feed counts as one break). */
  predicate IsLineBreak(c: char) {
    ('\n' <= c <= '\r') || ('\U{1C}' <= c <= '\U{1E}')
    || c == '\U{85}' || c == '\U{2028}' || c == '\U{2029}'
  }

  predicate AllSpace(s: string) {
    forall i | 0 <= i < |s| :: IsSpace(s[i])
  }

  predicate NoSpace(s: string) {
    forall i | 0 <= i < |s| :: !IsSpace(s[i])
  }

  predicate NoBreak(s: string) {
    forall i | 0 <= i < |s| :: !IsLineBreak(s[i])
  }

  /** Neither end of `s` is whitespace: what `strip()` leaves behind. */
  predicate NoEdgeSpace(s: string) {
    s == [] || (!IsSpace(s[0]) && !IsSpace(s[|s| - 1]))
  }

  /** A sequence is its prefix followed by the rest. */
  lemma Cut<T>(s: seq<T>, k: nat)
    requires k <= |s|
    ensures s == s[..k] + s[k..]
  {
  }

  lemma Assoc<T>(a: seq<T>, b: seq<T>, c: seq<T>)
    ensures a + b + c == a + (b + c)
  {
  }

  // ---------------------------------------------------------------- strip

  /** Number of whitespace characters at the start of `s`. */
  function LeadingSpace(s: string): (n: nat)
    ensures n <= |s|
    ensures forall j | 0 <= j < n :: IsSpace(s[j])
    ensures n < |s| ==> !IsSpace(s[n])
  {
    if s != [] && IsSpace(s[0]) then 1 + LeadingSpace(s[1..]) else 0
  }

  /** Index at which the whitespace at the end of `s` starts. */
  function TrailingStart(s: string): (n: nat)
    ensures n <= |s|
    ensures forall j | n <= j < |s| :: IsSpace(s[j])
    ensures n > 0 ==> !IsSpace(s[n - 1])
  {
    if s != [] && IsSpace(s[|s| - 1]) then TrailingStart(s[..|s| - 1]) else |s|
  }

  /** `s.lstrip()` */
  function TrimStart(s: string): string {
    s[LeadingSpace(s)..]
  }

  /** `s.rstrip()` */
  function TrimEnd(s: string): string {
    s[..TrailingStart(s)]
  }

  lemma TrimStartStep(s: string)
    requires s != [] && IsSpace(s[0])
    ensures TrimStart(s) == TrimStart(s[1..])
  {
    assert s[1..][LeadingSpace(s[1..])..] == s[1 + LeadingSpace(s[1..])..];
  }

  lemma TrimStartNoop(s: string)
    requires s == [] || !IsSpace(s[0])
    ensures TrimStart(s) == s
  {
  }

  lemma TrimEndStep(s: string)
    requires s != [] && IsSpace(s[|s| - 1])
    ensures TrimEnd(s) == TrimEnd(s[..|s| - 1])
  {
  }

  lemma TrimEndNoop(s: string)
    requires s == [] || !IsSpace(s[|s| - 1])
    ensures TrimEnd(s) == s
  {
  }

  /** `r` is `s` with the whitespace `s[..k]` and `s[k + |r|..]` cut off. */
  ghost predicate StrippedAt(s: string, r: string, k: nat) {
    k + |r| <= |s| && s[k..k + |r|] == r && AllSpace(s[..k]) && AllSpace(s[k + |r|..])
  }

  /** `s.strip()`: the whitespace at both ends removed. */
  function Strip(s: string): (r: string)
    ensures |r| <= |s| && NoEdgeSpace(r)
  {
    TrimEnd(TrimStart(s))
  }

  /** `strip()` removes whitespace at the two ends and touches nothing else. */
  lemma StripCutsSpaceOnly(s: string)
    ensures exists k: nat :: StrippedAt(s, Strip(s), k)
  {
    var k := LeadingSpace(s);
    var t := s[k..];
    var e := TrailingStart(t);
    assert t[..e] == s[k..k + e];
    assert t[e..] == s[k + e..];
    assert StrippedAt(s, Strip(s), k);
  }

  lemma StripOfStripped(s: string)
    requires NoEdgeSpace(s)
    ensures Strip(s) == s
  {
  }

  /** `l.strip()` is falsy exactly when `l` is all whitespace. */
  lemma StripEmptyIff(s: string)
    ensures Strip(s) == [] <==> AllSpace(s)
  {
    var k := LeadingSpace(s);
    if k < |s| {
      assert TrailingStart(s[k..]) > 0;
    }
  }

  // ------------------------------------------------------ search (`in`, `find`)

  /** `p` occurs in `s` starting at index `i`. */
  predicate StartsAt(s: string, i: int, p: string) {
    0 <= i && i + |p| <= |s| && s[i..i + |p|] == p
  }

  /** `s.startswith(p)` */
  predicate StartsWith(s: string, p: string) {
    StartsAt(s, 0, p)
  }

  /** `p in s` */
  predicate Contains(s: string, p: string) {
    exists i | 0 <= i <= |s| :: StartsAt(s, i, p)
  }

  /** No occurrence of `p` in `s` starts before index `n`. */
  predicate NoneBefore(s: string, p: string, n: int) {
    forall j | 0 <= j < n :: !StartsAt(s, j, p)
  }

  lemma StartsAtTail(s: string, i: int, p: string)
    requires s != [] && 0 <= i
    ensures StartsAt(s[1..], i, p) <==> StartsAt(s, i + 1, p)
  {
    if i + |p| <= |s| - 1 {
      assert s[1..][i..i + |p|] == s[i + 1..i + 1 + |p|];
    }
  }

  /** An occurrence inside a slice is an occurrence in the whole string. */
  lemma StartsAtSlice(s: string, lo: int, hi: int, j: int, p: string)
    requires 0 <= lo <= hi <= |s| && StartsAt(s[lo..hi], j, p)
    ensures StartsAt(s, lo + j, p)
  {
    forall k | 0 <= k < |p| ensures s[lo + j..lo + j + |p|][k] == p[k] {
      assert s[lo..hi][j..j + |p|][k] == p[k];
    }
  }

  /** A piece of a string without `p` has no `p` either. */
  lemma NotContainsSlice(s: string, lo: int, hi: int, p: string)
    requires 0 <= lo <= hi <= |s| && !Contains(s, p)
    ensures !Contains(s[lo..hi], p)
  {
    if Contains(s[lo..hi], p) {
      var j :| 0 <= j <= |s[lo..hi]| && StartsAt(s[lo..hi], j, p);
      StartsAtSlice(s, lo, hi, j, p);
      assert false;
    }
  }

  /** `s.find(p)`, with -1 written as None: the first index at which `p` occurs. */
  function Find(s: string, p: string): (r: Option<nat>)
    ensures r.Some? ==> r.value + |p| <= |s|
    decreases |s|
  {
    if StartsAt(s, 0, p) then Some(0)
    else if s == [] then None
    else
      var t := Find(s[1..], p);
      if t.Some? then Some(t.value + 1) else None
  }

  /** `find` gives the first index at which `p` occurs, and None exactly
      when `p` does not occur. */
  lemma {:induction false} FindSpec(s: string, p: string)
    ensures Find(s, p).Some? ==> StartsAt(s, Find(s, p).value, p) && NoneBefore(s, p, Find(s, p).value)
    ensures Find(s, p).None? <==> !Contains(s, p)
    decreases |s|
  {
    if !StartsAt(s, 0, p) && s != [] {
      FindSpec(s[1..], p);
      forall j | 0 <= j ensures StartsAt(s[1..], j, p) <==> StartsAt(s, j + 1, p) {
        StartsAtTail(s, j, p);
      }
      var t := Find(s[1..], p);
      if t.Some? {
        forall j | 0 <= j < t.value + 1 ensures !StartsAt(s, j, p) {
          if 1 <= j { assert !StartsAt(s[1..], j - 1, p); }
        }
      } else {
        forall i | 0 <= i <= |s| ensures !StartsAt(s, i, p) {
          if 1 <= i { assert !StartsAt(s[1..], i - 1, p); }
        }
      }
    }
  }

  // ------------------------------------------------------------ split / join

  /** `sep.join(xs)` */
  function Join(xs: seq<string>, sep: string): string {
    if |xs| == 0 then []
    else if |xs| == 1 then xs[0]
    else xs[0] + sep + Join(xs[1..], sep)
  }

  lemma JoinCons(x: string, xs: seq<string>, sep: string)
    requires xs != []
    ensures Join([x] + xs, sep) == x + sep + Join(xs, sep)
  {
    assert ([x] + xs)[1..] == xs;
  }

  /** `s.split(sep)`: the pieces between the occurrences of `sep`, each found
      by searching on from the end of the previous one. */
  function Split(s: string, sep: string): (r: seq<string>)
    requires sep != []
    ensures |r| >= 1
    decreases |s|
  {
    var f := Find(s, sep);
    if f.None? then [s] else [s[..f.value]] + Split(s[f.value + |sep|..], sep)
  }

  /** There is more than one piece exactly when the separator occurs. */
  lemma SplitMoreThanOne(s: string, sep: string)
    requires sep != []
    ensures |Split(s, sep)| > 1 <==> Contains(s, sep)
  {
    FindSpec(s, sep);
  }

  /** Joining the pieces of a split with the separator gives the string
      back, and no piece contains the separator. */
  lemma {:induction false} SplitJoin(s: string, sep: string)
    requires sep != []
    ensures Join(Split(s, sep), sep) == s
    ensures forall k | 0 <= k < |Split(s, sep)| :: !Contains(Split(s, sep)[k], sep)
    decreases |s|
  {
    var f := Find(s, sep);
    FindSpec(s, sep);
    if f.None? {
      SplitNoSeparator(s, sep);
    } else {
      var k := f.value;
      assert StartsAt(s, k, sep);
      var t := s[k + |sep|..];
      SplitAtFirst(s, sep, k);
      SplitJoin(t, sep);
      assert UpTo(s, sep) == s[..k];
      JoinPieces(s, sep, k, Split(t, sep));
    }
  }

  lemma JoinPieces(s: string, sep: string, k: nat, rest: seq<string>)
    requires k + |sep| <= |s| && StartsAt(s, k, sep) && !Contains(s[..k], sep)
    requires rest != [] && Join(rest, sep) == s[k + |sep|..]
    requires forall j | 0 <= j < |rest| :: !Contains(rest[j], sep)
    ensures Join([s[..k]] + rest, sep) == s
    ensures forall j | 0 <= j < |rest| + 1 :: !Contains(([s[..k]] + rest)[j], sep)
  {
    JoinCons(s[..k], rest, sep);
    assert s == s[..k] + sep + s[k + |sep|..];
    forall j | 0 <= j < |rest| + 1 ensures !Contains(([s[..k]] + rest)[j], sep) {
      if j > 0 { assert ([s[..k]] + rest)[j] == rest[j - 1]; }
    }
  }

  /** The piece of `s` before the first `sep` (all of `s` if there is none). */
  function UpTo(s: string, sep: string): (r: string)
    requires sep != []
    ensures |r| <= |s| && r == s[..|r|] && !Contains(r, sep)
    ensures |r| == |s| || StartsAt(s, |r|, sep)
    ensures NoneBefore(s, sep, |r|)
  {
    FindSpec(s, sep);
    match Find(s, sep)
    case None => s
    case Some(i) =>
      assert !Contains(s[..i], sep) by {
        if Contains(s[..i], sep) {
          var j :| 0 <= j <= i && StartsAt(s[..i], j, sep);
          StartsAtSlice(s, 0, i, j, sep);
          assert false;
        }
      }
      s[..i]
  }

  /** What follows the first `sep` in `s`. */
  function AfterFirst(s: string, sep: string): (r: string)
    requires Contains(s, sep)
    ensures exists i: nat :: StartsAt(s, i, sep) && NoneBefore(s, sep, i) && r == s[i + |sep|..]
  {
    FindSpec(s, sep);
    var i := Find(s, sep).value;
    s[i + |sep|..]
  }

  /** `s.split(sep)[0]` is the text before the first separator and, when there
      is one, `s.split(sep)[1]` is the text between the first and the second. */
  lemma SplitPieces(s: string, sep: string)
    requires sep != []
    ensures Split(s, sep)[0] == UpTo(s, sep)
    ensures Contains(s, sep) ==> Split(s, sep)[1] == UpTo(AfterFirst(s, sep), sep)
  {
  }

  /** The last piece of `s.split(sep)` is the text after the last separator
      (all of `s` when there is none); `i` is where it starts. */
  lemma {:induction false} SplitLastPiece(s: string, sep: string) returns (i: nat)
    requires sep != []
    ensures i <= |s| && Last(Split(s, sep)) == s[i..]
    ensures |Split(s, sep)| > 1 ==> i >= |sep| && StartsAt(s, i - |sep|, sep)
    decreases |s|
  {
    var f := Find(s, sep);
    FindSpec(s, sep);
    if f.None? {
      SplitNoSeparator(s, sep);
      i := 0;
    } else {
      var k := f.value;
      assert StartsAt(s, k, sep);
      var t := s[k + |sep|..];
      SplitAtFirst(s, sep, k);
      var rest := Split(t, sep);
      if |rest| == 1 {
        SplitSingle(t, sep);
        i := LastPieceAfterFirst(s, sep, k, rest);
      } else {
        var j := SplitLastPiece(t, sep);
        i := LastPieceAfterLater(s, sep, k, rest, j);
      }
    }
  }

  lemma SplitNoSeparator(s: string, sep: string)
    requires sep != [] && Find(s, sep).None?
    ensures Split(s, sep) == [s] && s[0..] == s
  {
  }

  lemma SplitSingle(s: string, sep: string)
    requires sep != [] && |Split(s, sep)| == 1
    ensures Split(s, sep) == [s]
  {
    assert Find(s, sep).None?;
  }

  /** With a one-character separator the pieces are the only separator-free
      texts that give the string back when joined: `split` is determined by
      `SplitJoin`'s two properties. */
  lemma {:induction false} SplitUnique(s: string, c: char, fields: seq<string>)
    requires fields != [] && Join(fields, [c]) == s
    requires forall k | 0 <= k < |fields| :: !Contains(fields[k], [c])
    ensures Split(s, [c]) == fields
    decreases |fields|
  {
    if |fields| == 1 {
      FindSpec(s, [c]);
      SplitNoSeparator(s, [c]);
    } else {
      var f, rest := fields[0], fields[1..];
      assert fields == [f] + rest;
      JoinCons(f, rest, [c]);
      var t := Join(rest, [c]);
      assert forall k | 0 <= k < |rest| :: !Contains(rest[k], [c]) by {
        forall k | 0 <= k < |rest| ensures !Contains(rest[k], [c]) { assert rest[k] == fields[k + 1]; }
      }
      SplitUnique(t, c, rest);
      FirstSeparatorAfter(f, c, t);
      SplitAtFirst(s, [c], |f|);
      assert s[|f| + 1..] == t;
      assert s[..|f|] == f;
    }
  }

  /** In `f + [c] + t` with no `c` in `f`, the first `c` is the one after `f`. */
  lemma FirstSeparatorAfter(f: string, c: char, t: string)
    requires !Contains(f, [c])
    ensures Find(f + [c] + t, [c]) == Some(|f|)
  {
    var s := f + [c] + t;
    FindSpec(s, [c]);
    assert s[|f|..|f| + 1] == [c];
    assert StartsAt(s, |f|, [c]);
    forall j | 0 <= j < |f| ensures !StartsAt(s, j, [c]) {
      assert s[j..j + 1] == f[j..j + 1];
      assert !StartsAt(f, j, [c]);
    }
  }

  lemma SplitAtFirst(s: string, sep: string, k: nat)
    requires sep != [] && Find(s, sep) == Some(k) && k + |sep| <= |s|
    ensures Split(s, sep) == [s[..k]] + Split(s[k + |sep|..], sep)
  {
  }

  lemma LastPieceAfterFirst(s: string, sep: string, k: nat, rest: seq<string>) returns (i: nat)
    requires sep != [] && k + |sep| <= |s| && StartsAt(s, k, sep) && rest == [s[k + |sep|..]]
    ensures i <= |s| && Last([s[..k]] + rest) == s[i..]
    ensures i >= |sep| && StartsAt(s, i - |sep|, sep)
  {
    i := k + |sep|;
  }

  lemma LastPieceAfterLater(s: string, sep: string, k: nat, rest: seq<string>, j: nat) returns (i: nat)
    requires sep != [] && k + |sep| <= |s| && rest != []
    requires var t := s[k + |sep|..];
      j <= |t| && Last(rest) == t[j..] && j >= |sep| && StartsAt(t, j - |sep|, sep)
    ensures i <= |s| && Last([s[..k]] + rest) == s[i..]
    ensures i >= |sep| && StartsAt(s, i - |sep|, sep)
  {
    var off := k + |sep|;
    var t := s[off..];
    assert t[j..] == s[off + j..];
    assert s[off..|s|] == t;
    StartsAtSlice(s, off, |s|, j - |sep|, sep);
    i := off + j;
  }

  function Last<T>(s: seq<T>): T
    requires s != []
  {
    s[|s| - 1]
  }

  /** Number of occurrences of the character `c` in `s`. */
  function CountChar(s: string, c: char): nat {
    if s == [] then 0 else (if s[0] == c then 1 else 0) + CountChar(s[1..], c)
  }

  lemma CountCharAppend(a: string, b: string, c: char)
    ensures CountChar(a + b, c) == CountChar(a, c) + CountChar(b, c)
  {
    if a != [] {
      assert (a + b)[0] == a[0];
      assert (a + b)[1..] == a[1..] + b;
      CountCharAppend(a[1..], b, c);
    } else {
      assert a + b == b;
    }
  }

  lemma CountCharAbsent(s: string, c: char)
    requires !Contains(s, [c])
    ensures CountChar(s, c) == 0
  {
    if s != [] {
      assert !StartsAt(s, 0, [c]) && s[0..1] == [s[0]];
      NotContainsSlice(s, 1, |s|, [c]);
      assert s[1..|s|] == s[1..];
      CountCharAbsent(s[1..], c);
    }
  }

  /** Splitting on a single character gives one more field than there are
      occurrences of that character. */
  lemma {:induction false} SplitCharCount(s: string, c: char)
    ensures |Split(s, [c])| == CountChar(s, c) + 1
    decreases |s|
  {
    var f := Find(s, [c]);
    FindSpec(s, [c]);
    if f.None? {
      SplitNoSeparator(s, [c]);
      CountCharAbsent(s, c);
    } else {
      var i := f.value;
      assert StartsAt(s, i, [c]);
      var rest := s[i + 1..];
      SplitAtFirst(s, [c], i);
      SplitCharCount(rest, c);
      assert s == s[..i] + [c] + rest;
      CountCharAppend(s[..i] + [c], rest, c);
      CountCharAppend(s[..i], [c], c);
      assert UpTo(s, [c]) == s[..i];
      CountCharAbsent(s[..i], c);
    }
  }

  // ------------------------------------------------------- replace(old, "")

  /** `s.replace(p, "")`: occurrences of `p` found left to right, without
      overlapping, and deleted. */
  function RemoveAll(s: string, p: string): (r: string)
    requires p != []
    ensures |r| <= |s|
    decreases |s|
  {
    if s == [] then []
    else if StartsAt(s, 0, p) then RemoveAll(s[|p|..], p)
    else [s[0]] + RemoveAll(s[1..], p)
  }

  /** Removing a substring that does not occur leaves the string as it is. */
  lemma {:induction false} RemoveAllAbsent(s: string, p: string)
    requires p != [] && !Contains(s, p)
    ensures RemoveAll(s, p) == s
    decreases |s|
  {
    if s != [] {
      assert !StartsAt(s, 0, p);
      NotContainsPreserved(s, p);
      RemoveAllAbsent(s[1..], p);
    }
  }

  lemma NotContainsPreserved(s: string, p: string)
    requires s != [] && !Contains(s, p)
    ensures !Contains(s[1..], p)
  {
    NotContainsSlice(s, 1, |s|, p);
    assert s[1..|s|] == s[1..];
  }

  lemma {:induction false} RemoveAllPrefix(s: string, p: string, n: nat)
    requires p != [] && n <= |s| && NoneBefore(s, p, n)
    ensures RemoveAll(s, p) == s[..n] + RemoveAll(s[n..], p)
    decreases n
  {
    if n > 0 {
      assert !StartsAt(s, 0, p);
      NoneBeforeTail(s, p, n);
      RemoveAllPrefix(s[1..], p, n - 1);
      ConsPrefix(s, n, RemoveAll(s[n..], p));
    }
  }

  lemma NoneBeforeTail(s: string, p: string, n: nat)
    requires 0 < n <= |s| && NoneBefore(s, p, n)
    ensures NoneBefore(s[1..], p, n - 1)
  {
    forall j | 0 <= j < n - 1 ensures !StartsAt(s[1..], j, p) { StartsAtTail(s, j, p); }
  }

  lemma ConsPrefix(s: string, n: nat, x: string)
    requires 0 < n <= |s|
    ensures s[..n] + x == [s[0]] + (s[1..][..n - 1] + x)
    ensures s[1..][n - 1..] == s[n..]
  {
    assert s[..n] == [s[0]] + s[1..][..n - 1];
  }

  /** Python's identity `s.replace(p, "") == "".join(s.split(p))`. */
  lemma {:induction false} RemoveAllIsJoinOfSplit(s: string, p: string)
    requires p != []
    ensures RemoveAll(s, p) == Join(Split(s, p), "")
    decreases |s|
  {
    var f := Find(s, p);
    FindSpec(s, p);
    if f.None? {
      SplitNoSeparator(s, p);
      RemoveAllAbsent(s, p);
    } else {
      var i := f.value;
      assert StartsAt(s, i, p);
      var rest := s[i + |p|..];
      SplitAtFirst(s, p, i);
      RemoveAllAtFirst(s, p, i);
      RemoveAllIsJoinOfSplit(rest, p);
      JoinCons(s[..i], Split(rest, p), "");
      assert s[..i] + "" == s[..i];
    }
  }

  lemma RemoveAllAtFirst(s: string, p: string, i: nat)
    requires p != [] && StartsAt(s, i, p) && NoneBefore(s, p, i)
    ensures RemoveAll(s, p) == s[..i] + RemoveAll(s[i + |p|..], p)
  {
    RemoveAllPrefix(s, p, i);
    assert s[i..][|p|..] == s[i + |p|..];
    assert StartsAt(s[i..], 0, p) by { assert s[i..][..|p|] == s[i..i + |p|]; }
  }

  // ------------------------------------------------------------ splitlines

  /** Index of the first line break in `s`, or `|s|`. */
  function LineEnd(s: string): (i: nat)
    ensures i <= |s| && NoBreak(s[..i])
    ensures forall k | 0 <= k < i :: !IsLineBreak(s[k])
    ensures i < |s| ==> IsLineBreak(s[i])
  {
    if s == [] || IsLineBreak(s[0]) then 0
    else
      var j := LineEnd(s[1..]);
      assert s[..j + 1] == [s[0]] + s[1..][..j];
      j + 1
  }

  /** Width of the line break at `i`: 2 for "\r\n", 1 otherwise. */
  function BreakWidth(s: string, i: nat): (w: nat)
    requires i < |s|
    ensures 1 <= w && i + w <= |s|
  {
    if s[i] == '\r' && i + 1 < |s| && s[i + 1] == '\n' then 2 else 1
  }

  /** `s.splitlines()`: the lines without their terminators; a break at the
      very end does not start another line, and "" has no lines. */
  function SplitLines(s: string): (r: seq<string>)
    ensures forall k | 0 <= k < |r| :: NoBreak(r[k])
    ensures r == [] <==> s == []
    decreases |s|
  {
    if s == [] then []
    else
      var i := LineEnd(s);
      if i == |s| then [s]
      else [s[..i]] + SplitLines(s[i + BreakWidth(s, i)..])
  }

  /** Lines without breaks, the last one not empty, come back from
      `splitlines()` after being joined with "\n". */
  lemma {:induction false} SplitLinesJoin(ls: seq<string>)
    requires forall k | 0 <= k < |ls| :: NoBreak(ls[k])
    requires ls != [] ==> ls[|ls| - 1] != []
    ensures SplitLines(Join(ls, "\n")) == ls
  {
    if |ls| == 1 {
      assert LineEnd(ls[0]) == |ls[0]|;
    } else if |ls| > 1 {
      var a, t := ls[0], Join(ls[1..], "\n");
      SplitLinesJoin(ls[1..]);
      SplitLinesOfLine(a, t);
    }
  }

  /** A line without breaks, then "\n", then more: the first line is split
      off and the rest is split on. */
  lemma SplitLinesOfLine(a: string, t: string)
    requires NoBreak(a) && t != []
    ensures SplitLines(a + "\n" + t) == [a] + SplitLines(t)
  {
    var s := a + "\n" + t;
    assert forall k | 0 <= k < |a| :: s[k] == a[k];
    assert IsLineBreak(s[|a|]);
    var i := LineEnd(s);
    assert i == |a|;
    assert BreakWidth(s, i) == 1;
    assert s[i + 1..] == t;
    assert s[..i] == a;
  }

  // ----------------------------------------------------------------- slices

  /** `s[:n]` */
  function Prefix(s: string, n: nat): (r: string)
    ensures |r| == if |s| <= n then |s| else n
    ensures r == s[..|r|]
  {
    if |s| <= n then s else s[..n]
  }
}
