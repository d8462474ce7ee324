/** The few string operations of Python's `str` that the tools rely on:
    `isspace`, `strip`, `startswith` and `split` on a single character. */
module Text {

  /** Python's `str.isspace()` for one character. It is also the class that
      the regular expression `\s` matches in a `str` pattern, so `strip()`
      and `re.sub(r'\s+', ...)` agree on what whitespace is. */
  predicate IsSpace(c: char) {
    || c == ' '
    || ('\t' <= c <= '\r')
    || ('\U{1c}' <= c <= '\U{1f}')
    || c == '\U{85}'
    || c == '\U{a0}'
    || c == '\U{1680}'
    || ('\U{2000}' <= c <= '\U{200a}')
    || c == '\U{2028}'
    || c == '\U{2029}'
    || c == '\U{202f}'
    || c == '\U{205f}'
    || c == '\U{3000}'
  }

  /** Neither the first nor the last character is whitespace. */
  predicate Trimmed(s: string) {
    s == [] || (!IsSpace(s[0]) && !IsSpace(s[|s| - 1]))
  }

  /** How many whitespace characters `s` starts with. */
  function LeadingSpaces(s: string): (n: nat)
    ensures n <= |s|
    ensures forall i :: 0 <= i < n ==> IsSpace(s[i])
    ensures n < |s| ==> !IsSpace(s[n])
  {
    if s == [] || !IsSpace(s[0]) then 0
    else
      var n := LeadingSpaces(s[1..]);
      assert forall i :: 1 <= i <= n ==> s[i] == s[1..][i - 1];
      1 + n
  }

  /** `s.lstrip()`: drops the leading whitespace and nothing else. */
  function LStrip(s: string): (r: string)
    ensures |r| <= |s|
    ensures forall i :: 0 <= i < |r| ==> r[i] == s[|s| - |r| + i]
    ensures r == [] || !IsSpace(r[0])
    ensures forall i :: 0 <= i < |s| - |r| ==> IsSpace(s[i])
    ensures s == [] || !IsSpace(s[0]) ==> r == s
  {
    s[LeadingSpaces(s)..]
  }

  /** `s.rstrip()`: drops the trailing whitespace and nothing else. */
  function RStrip(s: string): (r: string)
    ensures |r| <= |s| && r == s[..|r|]
    ensures r == [] || !IsSpace(r[|r| - 1])
    ensures forall i :: |r| <= i < |s| ==> IsSpace(s[i])
    ensures s == [] || !IsSpace(s[|s| - 1]) ==> r == s
  {
    if s != [] && IsSpace(s[|s| - 1]) then
      var r := RStrip(s[..|s| - 1]);
      assert forall i :: |r| <= i < |s| - 1 ==> s[i] == s[..|s| - 1][i];
      r
    else s
  }

  /** `s.strip()`: what is left of `s` once its leading run of whitespace
      (the first `LeadingSpaces(s)` characters) and its trailing run are
      dropped. */
  function Strip(s: string): (r: string)
    ensures Trimmed(r)
    ensures |r| <= |s|
    ensures forall c :: c in r ==> c in s
    ensures Trimmed(s) ==> r == s
    ensures LeadingSpaces(s) + |r| <= |s|
    ensures r == s[LeadingSpaces(s)..LeadingSpaces(s) + |r|]
    ensures forall i :: LeadingSpaces(s) + |r| <= i < |s| ==> IsSpace(s[i])
  {
    var l := LStrip(s);
    var r := RStrip(l);
    assert r != [] ==> r[0] == l[0];
    assert forall c :: c in r ==> c in l;
    assert l == s[LeadingSpaces(s)..] && r == l[..|r|];
    DropTake(s, LeadingSpaces(s), |r|);
    r
  }

  /** How many non-whitespace characters `s` starts with. */
  function WordLength(s: string): (n: nat)
    ensures n <= |s|
    ensures forall i :: 0 <= i < n ==> !IsSpace(s[i])
    ensures n < |s| ==> IsSpace(s[n])
  {
    if s == [] || IsSpace(s[0]) then 0
    else
      var n := WordLength(s[1..]);
      assert forall i :: 1 <= i <= n ==> s[i] == s[1..][i - 1];
      1 + n
  }

  /** `s.split()` with no separator: the maximal runs of non-whitespace
      characters, in order; whitespace at either end yields no empty word. */
  function Words(s: string): seq<string>
    decreases |s|
  {
    var t := LStrip(s);
    if t == [] then []
    else
      var n := WordLength(t);
      [t[..n]] + Words(t[n..])
  }

  /** A word ends where the first whitespace character is; what follows it
      does not matter. */
  lemma WordLengthAppend(x: string, y: string)
    requires WordLength(x) < |x| || y == [] || IsSpace(y[0])
    ensures WordLength(x + y) == WordLength(x)
    decreases |x|
  {
    if x == [] {
      assert x + y == y;
    } else {
      assert (x + y)[0] == x[0];
      if !IsSpace(x[0]) {
        SliceAppend(x, y, 1);
        WordLengthAppend(x[1..], y);
      }
    }
  }

  /** Dropping one leading whitespace character leaves the `lstrip()` alone. */
  lemma LStripSpace(s: string)
    requires s != [] && IsSpace(s[0])
    ensures LStrip(s) == LStrip(s[1..])
  {
    assert LeadingSpaces(s) == 1 + LeadingSpaces(s[1..]);
    DropDrop(s, 1, LeadingSpaces(s[1..]));
  }

  /** A string and its `lstrip()` have the same words. */
  lemma WordsOfLStrip(s: string)
    ensures Words(LStrip(s)) == Words(s)
  {
    assert LStrip(LStrip(s)) == LStrip(s);
  }

  /** Words are read after the leading whitespace. */
  lemma WordsSpace(s: string)
    requires s != [] && IsSpace(s[0])
    ensures Words(s) == Words(s[1..])
  {
    LStripSpace(s);
  }

  /** The words from a whitespace character on are the words after the
      whitespace run it starts. */
  lemma WordsSkipSpace(t: string, w: nat)
    requires w < |t| && IsSpace(t[w])
    ensures Words(t[w..]) == Words(LStrip(t[w + 1..]))
  {
    WordsSpace(t[w..]);
    DropDrop(t, w, 1);
    WordsOfLStrip(t[w + 1..]);
  }

  /** A string that starts with a word: that word, then the words of the rest. */
  lemma WordsWord(s: string)
    requires s != [] && !IsSpace(s[0])
    ensures Words(s) == [s[..WordLength(s)]] + Words(s[WordLength(s)..])
  {
    assert LStrip(s) == s;
  }

  /** Slicing twice from the front is slicing once. */
  lemma DropDrop(s: string, a: nat, b: nat)
    requires a + b <= |s|
    ensures s[a..][b..] == s[a + b..]
  {
  }

  /** A prefix of a suffix is a middle slice. */
  lemma DropTake(s: string, a: nat, n: nat)
    requires a + n <= |s|
    ensures s[a..][..n] == s[a..a + n]
  {
  }

  /** A non-empty prefix is the first character, then a prefix of the rest. */
  lemma TakeFirst(s: string, n: nat)
    requires 1 <= n <= |s|
    ensures s[..n] == [s[0]] + s[1..][..n - 1]
  {
  }

  /** A string is its prefix followed by the matching suffix. */
  lemma SplitAt(s: string, n: nat)
    requires n <= |s|
    ensures s == s[..n] + s[n..]
  {
  }

  /** Slicing `x + y` at an index inside `x`. */
  lemma SliceAppend(x: string, y: string, m: nat)
    requires m <= |x|
    ensures (x + y)[..m] == x[..m]
    ensures (x + y)[m..] == x[m..] + y
  {
  }

  /** Trailing whitespace does not change the words. */
  lemma {:induction false} WordsAppendSpaces(x: string, y: string)
    requires forall i :: 0 <= i < |y| ==> IsSpace(y[i])
    ensures Words(x + y) == Words(x)
    decreases |x|
  {
    if y == [] {
      assert x + y == x;
    } else if x == [] {
      assert x + y == y;
      assert LeadingSpaces(y) == |y|;
    } else if IsSpace(x[0]) {
      SliceAppend(x, y, 1);
      WordsSpace(x + y);
      WordsSpace(x);
      WordsAppendSpaces(x[1..], y);
    } else {
      var m := WordLength(x);
      WordLengthAppend(x, y);
      WordsWord(x + y);
      WordsWord(x);
      SliceAppend(x, y, m);
      WordsAppendSpaces(x[m..], y);
    }
  }

  /** `s.strip().split() == s.split()`. */
  lemma WordsStrip(s: string)
    ensures Words(Strip(s)) == Words(s)
  {
    var l := LStrip(s);
    var r := Strip(s);
    assert LStrip(l) == l;
    assert Words(l) == Words(s);
    SplitAt(l, |r|);
    WordsAppendSpaces(r, l[|r|..]);
  }

  /** `s.startswith(prefix)`. */
  predicate StartsWith(s: string, prefix: string) {
    |prefix| <= |s| && s[..|prefix|] == prefix
  }

  /** How many times `c` occurs in `s` (`s.count(c)`). */
  function Occurrences(s: string, c: char): nat {
    if s == [] then 0 else (if s[0] == c then 1 else 0) + Occurrences(s[1..], c)
  }

  /** `s.split(sep)` for a one-character separator: every occurrence of `sep`
      ends one piece and starts the next, so empty pieces are kept. */
  function Split(s: string, sep: char): (parts: seq<string>)
    ensures |parts| == Occurrences(s, sep) + 1
    ensures forall i :: 0 <= i < |parts| ==> sep !in parts[i]
  {
    if s == [] then [""]
    else
      var rest := Split(s[1..], sep);
      if s[0] == sep then [""] + rest else [[s[0]] + rest[0]] + rest[1..]
  }

  /** `sep.join(parts)`. */
  function Join(parts: seq<string>, sep: char): string
    requires |parts| >= 1
  {
    if |parts| == 1 then parts[0] else parts[0] + [sep] + Join(parts[1..], sep)
  }

  /** Concatenation is associative. */
  lemma ConcatAssoc(a: string, b: string, c: string)
    ensures a + (b + c) == a + b + c
  {
  }

  /** Joining a first piece in front of at least one more. */
  lemma JoinCons(first: string, rest: seq<string>, sep: char)
    requires rest != []
    ensures Join([first] + rest, sep) == first + [sep] + Join(rest, sep)
  {
    assert ([first] + rest)[1..] == rest;
  }

  /** Splitting loses nothing: joining the pieces with the separator gives
      the string back. */
  lemma {:induction false} JoinSplit(s: string, sep: char)
    ensures Join(Split(s, sep), sep) == s
  {
    if s != [] {
      var rest := Split(s[1..], sep);
      JoinSplit(s[1..], sep);
      if s[0] == sep {
        assert Split(s, sep)[1..] == rest;
      } else if |rest| == 1 {
        assert Split(s, sep) == [[s[0]] + rest[0]];
      } else {
        var parts := Split(s, sep);
        assert parts[1..] == rest[1..];
        assert Join(rest, sep) == rest[0] + [sep] + Join(rest[1..], sep);
      }
    }
  }
}
