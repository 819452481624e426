/** Python string operations the author lookup relies on, over `seq<char>`:
    `str.lower`, `str.strip`, `str.split()`, `" ".join`, `str.replace(c, "")`,
    the regular expression substitution of `\s+` by one space, `in` on
    strings and `str.startswith`. */
module Strings {

  /** The characters for which Python's `str.isspace()` holds; `str.strip()`,
      `str.split()` and the regular expression class `\s` all use this set. */
  predicate IsSpace(c: char) {
    || c == ' ' || c == '\t' || c == '\n' || c == '\U{000B}' || c == '\U{000C}' || c == '\r'
    || ('\U{001C}' <= c <= '\U{001F}') || c == '\U{0085}' || c == '\U{00A0}' || c == '\U{1680}'
    || ('\U{2000}' <= c <= '\U{200A}') || c == '\U{2028}' || c == '\U{2029}' || c == '\U{202F}'
    || c == '\U{205F}' || c == '\U{3000}'
  }

  predicate IsUpper(c: char) {
    'A' <= c <= 'Z'
  }

  /** No character of `s` is white space. */
  predicate NoSpace(s: string) {
    forall i :: 0 <= i < |s| ==> !IsSpace(s[i])
  }

  function LowerChar(c: char): (d: char)
    ensures !IsUpper(d)
    ensures IsSpace(d) == IsSpace(c)
    ensures !IsUpper(c) ==> d == c
    ensures d == ',' <==> c == ','
  {
    if IsUpper(c) then (c as int - 'A' as int + 'a' as int) as char else c
  }

  /** `s.lower()`, for the ASCII letters. */
  function Lower(s: string): (r: string)
    ensures |r| == |s|
    ensures forall i :: 0 <= i < |s| ==> r[i] == LowerChar(s[i])
  {
    seq(|s|, i requires 0 <= i < |s| => LowerChar(s[i]))
  }

  /** `s.lstrip()`: the suffix of `s` left after its leading white space. */
  function StripLeft(s: string): (r: string)
    ensures |r| <= |s|
    ensures r == [] || !IsSpace(r[0])
    ensures forall i :: 0 <= i < |s| - |r| ==> IsSpace(s[i])
    decreases |s|
  {
    if s != [] && IsSpace(s[0]) then StripLeft(s[1..]) else s
  }

  lemma {:induction false} StripLeftIsSuffix(s: string)
    ensures StripLeft(s) == s[|s| - |StripLeft(s)|..]
    decreases |s|
  {
    if s != [] && IsSpace(s[0]) {
      StripLeftIsSuffix(s[1..]);
    }
  }

  /** `s.rstrip()`: the prefix of `s` left after its trailing white space. */
  function StripRight(s: string): (r: string)
    ensures |r| <= |s|
    ensures r == [] || !IsSpace(r[|r| - 1])
    ensures forall i :: |r| <= i < |s| ==> IsSpace(s[i])
    decreases |s|
  {
    if s != [] && IsSpace(s[|s| - 1]) then StripRight(s[..|s| - 1]) else s
  }

  lemma {:induction false} StripRightIsPrefix(s: string)
    ensures StripRight(s) == s[..|StripRight(s)|]
    decreases |s|
  {
    if s != [] && IsSpace(s[|s| - 1]) {
      StripRightIsPrefix(s[..|s| - 1]);
    }
  }

  /** `s.strip()` */
  function Strip(s: string): string {
    StripRight(StripLeft(s))
  }

  /** What `s.strip()` keeps is one contiguous slice of `s`. */
  lemma StripIsSlice(s: string)
    ensures |s| - |StripLeft(s)| + |Strip(s)| <= |s|
    ensures Strip(s) == s[|s| - |StripLeft(s)|..|s| - |StripLeft(s)| + |Strip(s)|]
    ensures forall c :: c in Strip(s) ==> c in s
  {
    StripLeftIsSuffix(s);
    StripRightIsPrefix(StripLeft(s));
  }

  /** `s.replace(c, "")`: every occurrence of `c` removed, the rest kept in order. */
  function RemoveAll(s: string, c: char): (r: string)
    ensures c !in r
    ensures forall d :: d in r <==> d in s && d != c
    ensures c !in s ==> r == s
  {
    if s == [] then []
    else if s[0] == c then RemoveAll(s[1..], c)
    else [s[0]] + RemoveAll(s[1..], c)
  }

  /** The longest prefix of `s` without white space. */
  function Word(s: string): (w: string)
    ensures |w| <= |s| && w == s[..|w|]
    ensures NoSpace(w)
    ensures |w| < |s| ==> IsSpace(s[|w|])
  {
    if s == [] || IsSpace(s[0]) then [] else [s[0]] + Word(s[1..])
  }

  /** `s.split()`: the maximal runs of non-white-space characters, in order. */
  function Words(s: string): (ws: seq<string>)
    ensures forall k :: 0 <= k < |ws| ==> ws[k] != [] && NoSpace(ws[k])
    decreases |s|
  {
    var t := StripLeft(s);
    if t == [] then []
    else
      var w := Word(t);
      [w] + Words(t[|w|..])
  }

  /** `" ".join(ws)` */
  function JoinSpace(ws: seq<string>): string {
    if ws == [] then []
    else if |ws| == 1 then ws[0]
    else ws[0] + " " + JoinSpace(ws[1..])
  }

  /** `re.sub(r"\s+", " ", s)`: every maximal run of white space becomes one blank. */
  function CollapseSpaces(s: string): (r: string)
    ensures forall i :: 0 <= i < |r| ==> r[i] == ' ' || r[i] in s
    ensures forall i :: 0 <= i < |r| && IsSpace(r[i]) ==> r[i] == ' '
    ensures forall i :: 0 < i < |r| && IsSpace(r[i]) ==> !IsSpace(r[i - 1])
    ensures s != [] ==> r != [] && IsSpace(r[0]) == IsSpace(s[0])
    decreases |s|
  {
    if s == [] then []
    else if IsSpace(s[0]) then
      StripLeftIsSuffix(s[1..]);
      " " + CollapseSpaces(StripLeft(s[1..]))
    else [s[0]] + CollapseSpaces(s[1..])
  }

  /** `sub in s` */
  predicate Contains(s: string, sub: string) {
    exists i :: 0 <= i <= |s| - |sub| && OccursAt(s, sub, i)
  }

  predicate OccursAt(s: string, sub: string, i: int)
    requires 0 <= i <= |s| - |sub|
  {
    s[i..i + |sub|] == sub
  }

  /** `s.startswith(p)` */
  predicate StartsWith(s: string, p: string) {
    |p| <= |s| && s[..|p|] == p
  }

  // ---------------------------------------------------------------------
  // How the operations relate to one another

  lemma StripLeftIdempotent(s: string)
    ensures StripLeft(StripLeft(s)) == StripLeft(s)
  {
  }

  /** `s.split()` ignores leading white space. */
  lemma WordsStripLeft(s: string)
    ensures Words(StripLeft(s)) == Words(s)
  {
    StripLeftIdempotent(s);
  }

  lemma {:induction false} StripLeftAppend(a: string, b: string)
    requires StripLeft(a) != []
    ensures StripLeft(a + b) == StripLeft(a) + b
    decreases |a|
  {
    if IsSpace(a[0]) {
      assert (a + b)[1..] == a[1..] + b;
      StripLeftAppend(a[1..], b);
    }
  }

  lemma {:induction false} WordAppend(x: string, y: string)
    ensures Word(x + y) == if |Word(x)| < |x| then Word(x) else x + Word(y)
    decreases |x|
  {
    if x == [] {
      assert x + y == y;
    } else if !IsSpace(x[0]) {
      assert (x + y)[1..] == x[1..] + y;
      WordAppend(x[1..], y);
    }
  }

  predicate AllSpace(s: string) {
    forall i :: 0 <= i < |s| ==> IsSpace(s[i])
  }

  /** `s.split()` ignores trailing white space. */
  lemma {:induction false} WordsAppendSpace(a: string, r: string)
    requires AllSpace(r)
    ensures Words(a + r) == Words(a)
    decreases |a|
  {
    var t := StripLeft(a);
    if t == [] {
      StripLeftAllSpace(a + r);
    } else {
      StripLeftAppend(a, r);
      assert StripLeft(a + r) == t + r;
      var w := Word(t);
      WordAppend(t, r);
      if |w| < |t| {
        assert Word(t + r) == w;
        assert (t + r)[|w|..] == t[|w|..] + r;
        WordsAppendSpace(t[|w|..], r);
      } else {
        assert w == t;
        if r != [] {
          assert Word(r) == [];
        }
        assert Word(t + r) == w;
        assert (t + r)[|w|..] == r;
        assert t[|w|..] == [];
        StripLeftAllSpace(r);
        StripLeftAllSpace([]);
      }
    }
  }

  lemma StripLeftAllSpace(s: string)
    ensures StripLeft(s) == [] <==> AllSpace(s)
  {
  }

  lemma WordsStripRight(s: string)
    ensures Words(StripRight(s)) == Words(s)
  {
    var a := StripRight(s);
    StripRightIsPrefix(s);
    var r := s[|a|..];
    assert s == a + r;
    assert AllSpace(r) by {
      forall i | 0 <= i < |r| ensures IsSpace(r[i]) {
        assert r[i] == s[|a| + i];
      }
    }
    WordsAppendSpace(a, r);
  }

  /** `s.strip().split() == s.split()` */
  lemma WordsStrip(s: string)
    ensures Words(Strip(s)) == Words(s)
  {
    WordsStripRight(StripLeft(s));
    WordsStripLeft(s);
  }

  lemma {:induction false} CollapseNoSpacePrefix(w: string, rest: string)
    requires NoSpace(w)
    ensures CollapseSpaces(w + rest) == w + CollapseSpaces(rest)
    decreases |w|
  {
    if w == [] {
      assert w + rest == rest;
    } else {
      assert (w + rest)[1..] == w[1..] + rest;
      CollapseNoSpacePrefix(w[1..], rest);
    }
  }

  lemma {:induction false} StripRightAppend(a: string, b: string)
    requires exists i :: 0 <= i < |b| && !IsSpace(b[i])
    ensures StripRight(a + b) == a + StripRight(b)
    decreases |b|
  {
    var n := |b| - 1;
    if IsSpace(b[n]) {
      assert (a + b)[..|a + b| - 1] == a + b[..n];
      var i :| 0 <= i < |b| && !IsSpace(b[i]);
      assert i < n && b[..n][i] == b[i];
      StripRightAppend(a, b[..n]);
    }
  }

  /** After a word comes either nothing or a run of white space, which the
      collapsing turns into one blank and the splitting skips. */
  lemma CollapseAtSpace(rest: string)
    requires rest != [] && IsSpace(rest[0])
    ensures CollapseSpaces(rest) == " " + CollapseSpaces(StripLeft(rest))
    ensures Words(rest) == Words(StripLeft(rest))
  {
    assert StripLeft(rest) == StripLeft(rest[1..]);
    WordsStripLeft(rest);
  }

  /** A word followed by white space collapses to the word, one blank, and
      the collapsed text after the white space. */
  lemma CollapseWordAtSpace(w: string, rest: string)
    requires NoSpace(w) && rest != [] && IsSpace(rest[0])
    ensures CollapseSpaces(w + rest) == (w + " ") + CollapseSpaces(StripLeft(rest))
    ensures Words(rest) == Words(StripLeft(rest))
  {
    CollapseNoSpacePrefix(w, rest);
    CollapseAtSpace(rest);
    assert w + (" " + CollapseSpaces(StripLeft(rest))) == (w + " ") + CollapseSpaces(StripLeft(rest));
  }

  lemma StripRightWordBlank(w: string)
    requires w != [] && NoSpace(w)
    ensures StripRight(w + " ") == w
  {
    assert (w + " ")[..|w|] == w;
  }

  lemma JoinStep(w: string, t2: string)
    requires t2 != [] && !IsSpace(t2[0])
    requires StripRight(CollapseSpaces(t2)) == JoinSpace(Words(t2))
    ensures StripRight((w + " ") + CollapseSpaces(t2)) == JoinSpace([w] + Words(t2))
  {
    var c := CollapseSpaces(t2);
    StripRightAppend(w + " ", c);
    var ws := Words(t2);
    assert ws != [] by {
      assert StripLeft(t2) == t2;
    }
    assert ([w] + ws)[1..] == ws;
  }

  /** The words of a string that starts with a word: that word, then the
      words of what follows it. */
  lemma WordsStartingWithWord(t: string)
    requires t != [] && !IsSpace(t[0])
    ensures Words(t) == [Word(t)] + Words(t[|Word(t)|..])
  {
    assert StripLeft(t) == t;
  }

  /** The collapsed text of a string that starts with a word, stripped on the
      right, is its words joined by single blanks. */
  lemma {:induction false} CollapseStartingWithWord(t: string)
    requires t == [] || !IsSpace(t[0])
    ensures StripRight(CollapseSpaces(t)) == JoinSpace(Words(t))
    decreases |t|
  {
    if t != [] {
      var w := Word(t);
      var rest := t[|w|..];
      assert t == w + rest;
      WordsStartingWithWord(t);
      if rest == [] {
        CollapseNoSpacePrefix(w, rest);
        assert Words(t) == [w];
        assert CollapseSpaces(t) == w;
      } else {
        var t2 := StripLeft(rest);
        CollapseWordAtSpace(w, rest);
        assert Words(t) == [w] + Words(t2);
        if t2 == [] {
          StripRightWordBlank(w);
        } else {
          CollapseStartingWithWord(t2);
          JoinStep(w, t2);
        }
      }
    }
  }

  lemma StripLeftCollapse(z: string)
    ensures StripLeft(CollapseSpaces(z)) == CollapseSpaces(StripLeft(z))
  {
    if z != [] && IsSpace(z[0]) {
      var t := StripLeft(z[1..]);
      assert StripLeft(z) == t;
      assert CollapseSpaces(z) == " " + CollapseSpaces(t);
      assert (" " + CollapseSpaces(t))[1..] == CollapseSpaces(t);
    }
  }

  /** Replacing white-space runs by one blank and stripping gives the same text
      as splitting into words and joining them with one blank. */
  lemma StripCollapseIsJoinWords(z: string)
    ensures Strip(CollapseSpaces(z)) == JoinSpace(Words(z))
  {
    StripLeftCollapse(z);
    CollapseStartingWithWord(StripLeft(z));
    WordsStripLeft(z);
  }

  lemma {:induction false} LowerStripLeft(s: string)
    ensures Lower(StripLeft(s)) == StripLeft(Lower(s))
    decreases |s|
  {
    if s != [] && IsSpace(s[0]) {
      assert Lower(s)[1..] == Lower(s[1..]);
      LowerStripLeft(s[1..]);
    }
  }

  lemma {:induction false} LowerStripRight(s: string)
    ensures Lower(StripRight(s)) == StripRight(Lower(s))
    decreases |s|
  {
    if s != [] && IsSpace(s[|s| - 1]) {
      assert Lower(s)[..|s| - 1] == Lower(s[..|s| - 1]);
      LowerStripRight(s[..|s| - 1]);
    }
  }

  lemma LowerStrip(s: string)
    ensures Lower(Strip(s)) == Strip(Lower(s))
  {
    LowerStripLeft(s);
    LowerStripRight(StripLeft(s));
  }

  lemma LowerAppend(a: string, b: string)
    ensures Lower(a + b) == Lower(a) + Lower(b)
  {
  }

  lemma {:induction false} LowerCollapse(s: string)
    ensures Lower(CollapseSpaces(s)) == CollapseSpaces(Lower(s))
    decreases |s|
  {
    if s != [] {
      var ls := Lower(s);
      assert ls[1..] == Lower(s[1..]);
      if IsSpace(s[0]) {
        var t := StripLeft(s[1..]);
        LowerStripLeft(s[1..]);
        LowerCollapse(t);
        LowerAppend(" ", CollapseSpaces(t));
      } else {
        LowerCollapse(s[1..]);
        LowerAppend([s[0]], CollapseSpaces(s[1..]));
      }
    }
  }

  /** Collapsing leaves alone a text whose only white space is single blanks
      each followed by a non-blank. */
  lemma {:induction false} CollapseSingleSpaced(s: string)
    requires forall i :: 0 <= i < |s| && IsSpace(s[i]) ==> s[i] == ' '
    requires forall i :: 0 < i < |s| && IsSpace(s[i]) ==> !IsSpace(s[i - 1])
    ensures CollapseSpaces(s) == s
    decreases |s|
  {
    if s != [] {
      var tail := s[1..];
      forall i | 0 <= i < |tail| && IsSpace(tail[i]) ensures tail[i] == ' ' {
        assert tail[i] == s[i + 1];
      }
      forall i | 0 < i < |tail| && IsSpace(tail[i]) ensures !IsSpace(tail[i - 1]) {
        assert tail[i] == s[i + 1] && tail[i - 1] == s[i];
      }
      CollapseSingleSpaced(tail);
      assert s == [s[0]] + tail;
      if IsSpace(s[0]) {
        assert tail == [] || !IsSpace(tail[0]) by {
          if tail != [] { assert tail[0] == s[1]; }
        }
        assert StripLeft(tail) == tail;
        assert CollapseSpaces(s) == " " + tail;
      } else {
        assert CollapseSpaces(s) == [s[0]] + tail;
      }
    }
  }
}
