/** The string helpers at the top of src/shell-client.cpp: the whitespace
    test used by `trim_left`, `contains`, `tokenize` and `trim_left` itself.
    `tokenize` and `contains` are the source's loops, proved against the
    reference definitions `Tokens` and sequence membership. */
module Strings {

  /** `std::isspace` in the "C" locale: space, tab, line feed, vertical tab,
      form feed and carriage return (character codes 9 to 13). */
  predicate IsSpace(c: char) {
    c == ' ' || 9 <= c as int <= 13
  }

  /** The delimiters `tokenize` uses by default: space and tab. */
  const DEFAULT_DELIMS: string := " \t"

  /** `s` without its leading whitespace. */
  function LeftTrimmed(s: string): string {
    if s != [] && IsSpace(s[0]) then LeftTrimmed(s[1..]) else s
  }

  /** `LeftTrimmed` drops exactly the leading whitespace: what it drops is
      all whitespace, and what it keeps is the rest of `s`, starting with a
      character that is not whitespace. */
  lemma {:induction false} LeftTrimmedDropsLeadingSpace(s: string)
    ensures var t := LeftTrimmed(s);
      |t| <= |s| && t == s[|s| - |t|..]
      && (forall k :: 0 <= k < |s| - |t| ==> IsSpace(s[k]))
      && (t == [] || !IsSpace(t[0]))
  {
    if s != [] && IsSpace(s[0]) {
      var rest := s[1..];
      LeftTrimmedDropsLeadingSpace(rest);
      var t := LeftTrimmed(rest);
      assert rest[|rest| - |t|..] == s[|s| - |t|..];
      forall k | 0 <= k < |s| - |t|
        ensures IsSpace(s[k])
      {
        if k > 0 {
          assert s[k] == rest[k - 1];
        }
      }
    }
  }

  /** `contains`: scans `input` and returns as soon as it meets `ch`. */
  method Contains(input: string, ch: char) returns (found: bool)
    ensures found <==> exists i :: 0 <= i < |input| && input[i] == ch
  {
    var i := 0;
    while i < |input|
      invariant 0 <= i <= |input|
      invariant forall k :: 0 <= k < i ==> input[k] != ch
    {
      if input[i] == ch {
        return true;
      }
      i := i + 1;
    }
    return false;
  }

  /** `trim_left` takes its argument BY VALUE and erases the first character
      of that copy while it is whitespace. The final copy is returned so that
      its contents can be stated; the caller in the run loop discards it, as
      the source does, so the caller's line keeps its leading whitespace.
      Every iteration erases one character, so the loop ends; an empty copy
      stops it because `string[0]` of an empty `std::string` is the
      terminating NUL, which is not whitespace. */
  method TrimLeft(s: string) returns (copy: string)
    ensures copy == LeftTrimmed(s)
  {
    copy := s;
    while copy != [] && IsSpace(copy[0])
      invariant LeftTrimmed(copy) == LeftTrimmed(s)
      decreases |copy|
    {
      copy := copy[1..];
    }
  }

  /** No character of `w` is a delimiter. */
  predicate Delimiterless(w: string, delims: string) {
    forall k :: 0 <= k < |w| ==> w[k] !in delims
  }

  /** The longest delimiter-free prefix of `s`. */
  function Word(s: string, delims: string): (w: string)
    ensures |w| <= |s|
  {
    if s == [] || s[0] in delims then [] else [s[0]] + Word(s[1..], delims)
  }

  /** `Word` is a prefix, holds no delimiter, and stops only at a delimiter
      or at the end. */
  lemma {:induction false} WordIsMaximalRun(s: string, delims: string)
    ensures var w := Word(s, delims);
      w == s[..|w|] && Delimiterless(w, delims) && (|w| < |s| ==> s[|w|] in delims)
  {
    if s != [] && s[0] !in delims {
      WordIsMaximalRun(s[1..], delims);
    }
  }

  /** Reference definition of what `tokenize` returns: the maximal
      delimiter-free runs of `s`, from left to right. */
  function Tokens(s: string, delims: string): seq<string>
    decreases |s|
  {
    if s == [] then []
    else if s[0] in delims then Tokens(s[1..], delims)
    else
      var w := Word(s, delims);
      [w] + Tokens(s[|w|..], delims)
  }

  /** No token is empty, no token holds a delimiter, and none is longer
      than the input. */
  lemma {:induction false} TokensWellFormed(s: string, delims: string)
    ensures forall i :: 0 <= i < |Tokens(s, delims)| ==>
              Tokens(s, delims)[i] != [] && Delimiterless(Tokens(s, delims)[i], delims)
              && |Tokens(s, delims)[i]| <= |s|
    decreases |s|
  {
    if s == [] {
    } else if s[0] in delims {
      TokensWellFormed(s[1..], delims);
    } else {
      var w := Word(s, delims);
      WordIsMaximalRun(s, delims);
      TokensWellFormed(s[|w|..], delims);
    }
  }

  /** A string made of delimiters only, the empty one included, has no token. */
  lemma {:induction false} TokensOfDelimiters(s: string, delims: string)
    requires forall k :: 0 <= k < |s| ==> s[k] in delims
    ensures Tokens(s, delims) == []
    decreases |s|
  {
    if s != [] {
      TokensOfDelimiters(s[1..], delims);
    }
  }

  /** A non-empty delimiter-free string is a single token. */
  lemma TokensOfWord(w: string, delims: string)
    requires Delimiterless(w, delims)
    ensures Tokens(w, delims) == if w == [] then [] else [w]
  {
    if w != [] {
      WordOfWord(w, delims);
      assert w[|w|..] == [];
    }
  }

  lemma {:induction false} WordOfWord(w: string, delims: string)
    requires Delimiterless(w, delims)
    ensures Word(w, delims) == w
  {
    if w != [] {
      WordOfWord(w[1..], delims);
      assert w == [w[0]] + w[1..];
    }
  }

  /** The first word does not reach past a delimiter that follows `a`. */
  lemma {:induction false} WordBeforeDelimiter(a: string, d: char, b: string, delims: string)
    requires d in delims
    ensures Word(a + [d] + b, delims) == Word(a, delims)
  {
    if a == [] {
    } else if a[0] in delims {
    } else {
      WordBeforeDelimiter(a[1..], d, b, delims);
      assert (a + [d] + b)[1..] == a[1..] + [d] + b;
    }
  }

  /** Splitting at any delimiter splits the token list: this is what makes
      runs of delimiters collapse and leading or trailing ones vanish. */
  lemma {:induction false} TokensSplit(a: string, d: char, b: string, delims: string)
    requires d in delims
    ensures Tokens(a + [d] + b, delims) == Tokens(a, delims) + Tokens(b, delims)
    decreases |a|
  {
    var s := a + [d] + b;
    if a == [] {
      assert s[1..] == b;
    } else if a[0] in delims {
      assert s[1..] == a[1..] + [d] + b;
      TokensSplit(a[1..], d, b, delims);
    } else {
      var w := Word(a, delims);
      WordBeforeDelimiter(a, d, b, delims);
      assert s[|w|..] == a[|w|..] + [d] + b;
      TokensSplit(a[|w|..], d, b, delims);
    }
  }

  /** What `tokenize` has emitted once `start` sits just after a delimiter
      (or at 0) and no delimiter lies between `start` and `c`. */
  lemma TokensAtBoundary(s: string, start: nat, c: nat, delims: string)
    requires start <= c <= |s|
    requires start == 0 || s[start - 1] in delims
    requires Delimiterless(s[start..c], delims)
    ensures Tokens(s[..c], delims) ==
            Tokens(s[..start], delims) + (if start == c then [] else [s[start..c]])
  {
    TokensOfWord(s[start..c], delims);
    if start == 0 {
      assert s[..c] == s[start..c];
    } else {
      assert s[..c] == s[..start - 1] + [s[start - 1]] + s[start..c];
      TokensSplit(s[..start - 1], s[start - 1], s[start..c], delims);
      assert s[..start] == s[..start - 1] + [s[start - 1]] + [];
      TokensSplit(s[..start - 1], s[start - 1], [], delims);
    }
  }

  /** `tokenize`: walks `current` over the input; on a delimiter it emits the
      pending run `input[start..current]` if there is one and moves `start`
      past the delimiter; after the loop it emits the last pending run. */
  method Tokenize(input: string, delims: string) returns (result: seq<string>)
    ensures result == Tokens(input, delims)
  {
    result := [];
    var start, current := 0, 0;
    while current < |input|
      invariant start <= current <= |input|
      invariant start == 0 || input[start - 1] in delims
      invariant Delimiterless(input[start..current], delims)
      invariant result == Tokens(input[..start], delims)
    {
      var isDelim := Contains(delims, input[current]);
      if isDelim {
        TokensAtBoundary(input, start, current, delims);
        if start != current {
          result := result + [input[start..current]];
          start := current;
        }
        start := start + 1;
        assert input[..current + 1] == input[..current] + [input[current]] + [];
        TokensSplit(input[..current], input[current], [], delims);
      } else {
        assert input[start..current + 1] == input[start..current] + [input[current]];
      }
      current := current + 1;
    }
    TokensAtBoundary(input, start, current, delims);
    if start != current {
      result := result + [input[start..current]];
    }
    assert input[..current] == input;
  }
}
