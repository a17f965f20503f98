/** The parts of Python's `str` that the relay's message parsing relies on:
    `str.isspace`, `str.split()` with and without `maxsplit`, `str.startswith`
    and `" ".join`. */
module Text {

  /** Python's `str.isspace()`: the characters `str.split()` without a
      separator splits on: space, tab, line feed and carriage return among
      them, and nothing above U+3000. */
  predicate IsSpace(c: char): (b: bool)
    ensures c == ' ' || c == '\t' || c == '\n' || c == '\r' ==> b
    ensures b ==> c as int <= 0x3000
  {
    || c == ' '
    || ('\t' <= c <= '\r')
    || ('\U{1C}' <= c <= '\U{1F}')
    || c == '\U{85}'
    || c == '\U{A0}'
    || c == '\U{1680}'
    || ('\U{2000}' <= c <= '\U{200A}')
    || c == '\U{2028}'
    || c == '\U{2029}'
    || c == '\U{202F}'
    || c == '\U{205F}'
    || c == '\U{3000}'
  }

  /** A non-empty run of characters none of which is whitespace. */
  predicate IsWord(w: string) {
    w != [] && forall i :: 0 <= i < |w| ==> !IsSpace(w[i])
  }

  /** Number of leading whitespace characters of `s`: `s[SpaceLength(s)..]`
      is `s.lstrip()`. */
  function SpaceLength(s: string): (n: nat)
    ensures n <= |s|
    ensures forall i :: 0 <= i < n ==> IsSpace(s[i])
    ensures n < |s| ==> !IsSpace(s[n])
  {
    if s != [] && IsSpace(s[0]) then 1 + SpaceLength(s[1..]) else 0
  }

  /** Length of the longest prefix of `s` without whitespace. */
  function WordLength(s: string): (n: nat)
    ensures n <= |s|
    ensures forall i :: 0 <= i < n ==> !IsSpace(s[i])
    ensures n < |s| ==> IsSpace(s[n])
  {
    if s == [] || IsSpace(s[0]) then 0 else 1 + WordLength(s[1..])
  }

  /** `s.split()`: the maximal runs of non-whitespace, in order. */
  function Split(s: string): (parts: seq<string>)
    ensures forall i :: 0 <= i < |parts| ==> IsWord(parts[i])
    decreases |s|
  {
    var t := s[SpaceLength(s)..];
    if t == [] then []
    else
      var n := WordLength(t);
      [t[..n]] + Split(t[n..])
  }

  /** `s.split(maxsplit=k)`: at most `k` words are split off; whatever
      follows them, less its leading whitespace, is the last part, kept
      verbatim (trailing whitespace included). */
  function SplitMax(s: string, k: nat): (parts: seq<string>)
    ensures |parts| <= k + 1
    ensures forall i :: 0 <= i < |parts| ==> parts[i] != [] && !IsSpace(parts[i][0])
    decreases |s|
  {
    var t := s[SpaceLength(s)..];
    if t == [] then []
    else if k == 0 then [t]
    else
      var n := WordLength(t);
      [t[..n]] + SplitMax(t[n..], k - 1)
  }

  /** The relay's identifier test `x.split() == [x]`: it accepts exactly
      the non-empty strings without whitespace. */
  predicate IsToken(x: string): (b: bool)
    ensures b <==> IsWord(x)
  {
    TokenIffWord(x);
    Split(x) == [x]
  }

  /** `s.startswith(p)`: `s` is `p` followed by something. */
  predicate StartsWith(s: string, p: string): (b: bool)
    ensures b ==> |p| <= |s| && s == p + s[|p|..]
    ensures forall t :: s == p + t ==> b
  {
    |p| <= |s| && s[..|p|] == p
  }

  /** `" ".join(parts)`: the first part comes first, a space follows it
      when more parts come, and there is a separator between each two. */
  function Join(parts: seq<string>): (s: string)
    ensures |parts| > 0 ==> StartsWith(s, parts[0])
    ensures |parts| > 1 ==> |parts[0]| < |s| && s[|parts[0]|] == ' '
    ensures |s| + 1 >= |parts|
  {
    if |parts| == 0 then ""
    else if |parts| == 1 then parts[0]
    else parts[0] + " " + Join(parts[1..])
  }

  /** A word followed by whitespace (or nothing) ends exactly where the word ends. */
  lemma WordLengthOfWord(w: string, rest: string)
    requires IsWord(w)
    requires rest == [] || IsSpace(rest[0])
    ensures WordLength(w + rest) == |w|
  {
    var s := w + rest;
    assert forall i :: 0 <= i < |w| ==> s[i] == w[i] && !IsSpace(s[i]);
    assert |w| < |s| ==> s[|w|] == rest[0] && IsSpace(s[|w|]);
  }

  /** Leading whitespace never changes how a string splits. */
  lemma SplitAfterSpace(c: char, s: string, k: nat)
    requires IsSpace(c)
    ensures Split([c] + s) == Split(s)
    ensures SplitMax([c] + s, k) == SplitMax(s, k)
  {
    assert ([c] + s)[1..] == s;
  }

  /** Splitting a word followed by whitespace yields the word, then the
      split of the rest. */
  lemma SplitAfterWord(w: string, rest: string, k: nat)
    requires IsWord(w)
    requires rest == [] || IsSpace(rest[0])
    ensures Split(w + rest) == [w] + Split(rest)
    ensures k >= 1 ==> SplitMax(w + rest, k) == [w] + SplitMax(rest, k - 1)
  {
    WordLengthOfWord(w, rest);
    var s := w + rest;
    assert SpaceLength(s) == 0 && s[0..] == s;
    assert s[..|w|] == w && s[|w|..] == rest;
  }

  /** A string that does not start with whitespace is its own last part. */
  lemma SplitMaxRemainder(s: string)
    requires s != [] && !IsSpace(s[0])
    ensures SplitMax(s, 0) == [s]
  {
  }

  /** `x.split() == [x]` holds exactly of the words. */
  lemma TokenIffWord(x: string)
    ensures Split(x) == [x] <==> IsWord(x)
  {
    if IsWord(x) {
      SplitAfterWord(x, [], 0);
      assert x + [] == x;
      assert Split([]) == [];
    }
    if Split(x) == [x] {
      assert Split(x)[0] == x;
    }
  }

  /** A word, one space and anything: the word is split off and the rest
      splits on its own. */
  lemma SplitWordSpace(w: string, rest: string, k: nat)
    requires IsWord(w)
    ensures Split(w + " " + rest) == [w] + Split(rest)
    ensures k >= 1 ==> SplitMax(w + " " + rest, k) == [w] + SplitMax(rest, k - 1)
  {
    var spaced := [' '] + rest;
    assert w + " " + rest == w + spaced;
    SplitAfterWord(w, spaced, k);
    SplitAfterSpace(' ', rest, if k >= 1 then k - 1 else 0);
  }

  /** Joining words with single spaces and splitting again gives the words back. */
  lemma {:induction false} SplitJoin(parts: seq<string>)
    requires forall i :: 0 <= i < |parts| ==> IsWord(parts[i])
    ensures Split(Join(parts)) == parts
  {
    if |parts| == 0 {
    } else if |parts| == 1 {
      TokenIffWord(parts[0]);
    } else {
      SplitWordSpace(parts[0], Join(parts[1..]), 0);
      SplitJoin(parts[1..]);
      assert parts == [parts[0]] + parts[1..];
    }
  }

  /** A command word alone splits into that word only, whatever `maxsplit` is. */
  lemma BareCommand(cmd: string, k: nat)
    requires IsWord(cmd)
    ensures SplitMax(cmd, k) == [cmd]
  {
    if k == 0 {
      SplitMaxRemainder(cmd);
    } else {
      SplitAfterWord(cmd, [], k);
      assert cmd + [] == cmd;
    }
  }

  /** `(cmd + " " + arg).split(maxsplit=1) == [cmd, arg]` for a command word
      and an argument that does not start with whitespace. */
  lemma CommandWithArgument(cmd: string, arg: string)
    requires IsWord(cmd)
    requires arg != [] && !IsSpace(arg[0])
    ensures SplitMax(cmd + " " + arg, 1) == [cmd, arg]
  {
    SplitWordSpace(cmd, arg, 1);
    SplitMaxRemainder(arg);
  }

  /** `(cmd + " " + a + " " + rest).split(maxsplit=2) == [cmd, a, rest]` for
      two words and a remainder that does not start with whitespace. */
  lemma CommandWithTwoArguments(cmd: string, a: string, rest: string)
    requires IsWord(cmd) && IsWord(a)
    requires rest != [] && !IsSpace(rest[0])
    ensures SplitMax(cmd + " " + a + " " + rest, 2) == [cmd, a, rest]
  {
    var tail := a + " " + rest;
    assert cmd + " " + a + " " + rest == cmd + " " + tail;
    SplitWordSpace(cmd, tail, 2);
    CommandWithArgument(a, rest);
  }
}
