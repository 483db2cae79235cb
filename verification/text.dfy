/**
  The string operations the registry leans on, stated on `seq<char>`:
  `toLowerCase`, `includes`, `trim` and `split` on a one-character separator,
  together with `join`, the inverse of `split`.
 */
module Text {

  /** `toLowerCase` on one character; only the ASCII letters A-Z are folded. */
  function LowerChar(c: char): char {
    if 'A' <= c <= 'Z' then (c as int + 32) as char else c
  }

  /** `toLowerCase`, character by character. */
  function Lower(s: string): (r: string)
    ensures |r| == |s|
  {
    if s == [] then [] else [LowerChar(s[0])] + Lower(s[1..])
  }

  /** Each character is folded in place, so no upper-case letter is left. */
  lemma {:induction false} LowerChars(s: string)
    ensures forall i :: 0 <= i < |s| ==> Lower(s)[i] == LowerChar(s[i])
    ensures forall i :: 0 <= i < |s| ==> !('A' <= Lower(s)[i] <= 'Z')
  {
    if s != [] {
      LowerChars(s[1..]);
      assert Lower(s) == [LowerChar(s[0])] + Lower(s[1..]);
    }
  }

  lemma LowerIdempotent(s: string)
    ensures Lower(Lower(s)) == Lower(s)
  {
    var l := Lower(s);
    LowerChars(s);
    LowerChars(l);
    assert forall i :: 0 <= i < |l| ==> LowerChar(l[i]) == l[i];
  }

  /** Case-insensitive equality, `a.toLowerCase() === b.toLowerCase()`. */
  predicate EqualsIgnoreCase(a: string, b: string) {
    Lower(a) == Lower(b)
  }

  /** Two strings are equal up to case when they agree character by character after folding. */
  lemma EqualsIgnoreCaseChars(a: string, b: string)
    ensures EqualsIgnoreCase(a, b) <==>
      |a| == |b| && forall i :: 0 <= i < |a| ==> LowerChar(a[i]) == LowerChar(b[i])
  {
    LowerChars(a);
    LowerChars(b);
    if |a| == |b| && forall i :: 0 <= i < |a| ==> LowerChar(a[i]) == LowerChar(b[i]) {
      assert forall i :: 0 <= i < |a| ==> Lower(a)[i] == Lower(b)[i];
    }
  }

  predicate StartsWith(text: string, term: string) {
    |term| <= |text| && text[..|term|] == term
  }

  /** `text.includes(term)`: `term` occurs somewhere in `text`. */
  predicate Contains(text: string, term: string)
    decreases |text|
  {
    StartsWith(text, term) || (text != [] && Contains(text[1..], term))
  }

  lemma {:induction false} ContainsAt(text: string, term: string, i: nat)
    requires i + |term| <= |text| && text[i..i + |term|] == term
    ensures Contains(text, term)
  {
    if i > 0 {
      assert text[1..][i - 1..i - 1 + |term|] == text[i..i + |term|];
      ContainsAt(text[1..], term, i - 1);
    }
  }

  /** A hit found by `Contains` sits at some position of `text`. */
  lemma {:induction false} ContainsWitness(text: string, term: string) returns (i: nat)
    requires Contains(text, term)
    ensures i + |term| <= |text| && text[i..i + |term|] == term
    decreases |text|
  {
    if StartsWith(text, term) {
      i := 0;
    } else {
      var j := ContainsWitness(text[1..], term);
      assert text[1..][j..j + |term|] == text[j + 1..j + 1 + |term|];
      i := j + 1;
    }
  }

  /** A character that occurs in a contained string occurs in the containing one. */
  lemma ContainedCharOccurs(text: string, term: string, c: char)
    requires Contains(text, term) && c in term
    ensures c in text
  {
    var i := ContainsWitness(text, term);
    var k :| 0 <= k < |term| && term[k] == c;
    assert text[i + k] == c;
  }

  /** Every string includes the empty string and itself. */
  lemma ContainsTrivial(text: string)
    ensures Contains(text, "")
    ensures Contains(text, text)
  {
    assert text[..0] == "";
    assert text[..|text|] == text;
  }

  /** The code points `String.prototype.trim` strips: ECMAScript WhiteSpace and LineTerminator. */
  const Spaces: set<char> := {
    '\t', '\n', '\U{000B}', '\U{000C}', '\r', ' ', '\U{00A0}', '\U{1680}',
    '\U{2000}', '\U{2001}', '\U{2002}', '\U{2003}', '\U{2004}', '\U{2005}',
    '\U{2006}', '\U{2007}', '\U{2008}', '\U{2009}', '\U{200A}',
    '\U{2028}', '\U{2029}', '\U{202F}', '\U{205F}', '\U{3000}', '\U{FEFF}'
  }

  predicate IsSpace(c: char) {
    c in Spaces
  }

  /** Drops the leading white space: the result is a suffix of `s` and only spaces were dropped. */
  function TrimStart(s: string): (r: string)
    ensures |r| <= |s| && r == s[|s| - |r|..]
    ensures forall i :: 0 <= i < |s| - |r| ==> IsSpace(s[i])
    ensures r == [] || !IsSpace(r[0])
  {
    if s != [] && IsSpace(s[0]) then TrimStart(s[1..]) else s
  }

  /** Drops the trailing white space: the result is a prefix of `s` and only spaces were dropped. */
  function TrimEnd(s: string): (r: string)
    ensures |r| <= |s| && r == s[..|r|]
    ensures forall i :: |r| <= i < |s| ==> IsSpace(s[i])
    ensures r == [] || !IsSpace(r[|r| - 1])
  {
    if s != [] && IsSpace(s[|s| - 1]) then TrimEnd(s[..|s| - 1]) else s
  }

  /**
    `r` is the slice of `s` starting at `a`, and everything of `s` before and
    after that slice is white space.
   */
  predicate TrimmedAt(s: string, r: string, a: nat) {
    && a + |r| <= |s| && r == s[a..a + |r|]
    && (forall i :: 0 <= i < a ==> IsSpace(s[i]))
    && (forall i :: a + |r| <= i < |s| ==> IsSpace(s[i]))
  }

  lemma SliceOfSuffix(s: string, a: nat, n: nat)
    requires a + n <= |s|
    ensures s[a..][..n] == s[a..a + n]
  {
  }

  /** A prefix `r` of a suffix `t` of `s`, with only white space around both cuts, is trimmed from `s`. */
  lemma TrimmedAtIntro(s: string, t: string, r: string)
    requires |t| <= |s| && t == s[|s| - |t|..]
    requires forall i :: 0 <= i < |s| - |t| ==> IsSpace(s[i])
    requires |r| <= |t| && r == t[..|r|]
    requires forall i :: |r| <= i < |t| ==> IsSpace(t[i])
    ensures TrimmedAt(s, r, |s| - |t|)
  {
    var a := |s| - |t|;
    SliceOfSuffix(s, a, |r|);
    forall i | a + |r| <= i < |s| ensures IsSpace(s[i]) {
      assert s[i] == t[i - a];
    }
  }

  /** Trimming the end after the start cuts white space, and only white space, from both ends. */
  lemma TrimSlice(s: string)
    ensures exists a: nat :: TrimmedAt(s, TrimEnd(TrimStart(s)), a)
  {
    var t := TrimStart(s);
    TrimmedAtIntro(s, t, TrimEnd(t));
  }

  /** `r` neither starts nor ends with white space. */
  predicate NoSpaceEnds(r: string) {
    r == [] || (!IsSpace(r[0]) && !IsSpace(r[|r| - 1]))
  }

  /** What is left has no white space at either end. */
  lemma TrimEnds(s: string)
    ensures NoSpaceEnds(TrimEnd(TrimStart(s)))
  {
    var t := TrimStart(s);
    var r := TrimEnd(t);
    assert r != [] ==> r[0] == t[0];
  }

  /**
    A slice of `s` with only white space around it and none at its own ends is
    unique: it runs from the first to the last character that is not white space.
   */
  lemma TrimUnique(s: string, r1: string, a1: nat, r2: string, a2: nat)
    requires TrimmedAt(s, r1, a1) && NoSpaceEnds(r1)
    requires TrimmedAt(s, r2, a2) && NoSpaceEnds(r2)
    ensures r1 == r2
  {
  }

  /**
    `s.trim()`: `s` with the white space at both ends cut off, and nothing else.
    The two clauses determine the result: the cut cannot stop earlier, since
    the result does not start or end with white space.
   */
  function Trim(s: string): (r: string)
    ensures exists a: nat :: TrimmedAt(s, r, a)
    ensures NoSpaceEnds(r)
  {
    TrimSlice(s);
    TrimEnds(s);
    TrimEnd(TrimStart(s))
  }

  /** `s.trim()` is included in `s`. */
  lemma TrimContained(s: string)
    ensures Contains(s, Trim(s))
  {
    var r := Trim(s);
    var a: nat :| TrimmedAt(s, r, a);
    ContainsAt(s, r, a);
  }

  /** `s.trim()` is empty exactly when `s` is all white space. */
  lemma TrimEmpty(s: string)
    ensures Trim(s) == [] <==> forall i :: 0 <= i < |s| ==> IsSpace(s[i])
  {
    var t := TrimStart(s);
    var r := TrimEnd(t);
    assert Trim(s) == r;
    assert r == [] ==> |t| == 0;
    assert r != [] ==> !IsSpace(s[|s| - |t|]);
  }

  lemma TrimIdempotent(s: string)
    ensures Trim(Trim(s)) == Trim(s)
  {
    var r := Trim(s);
    if r != [] {
      assert TrimStart(r) == r;
      assert TrimEnd(r) == r;
    }
  }

  /** `s.split(sep)` for a one-character separator: never empty, and no part holds `sep`. */
  function Split(s: string, sep: char): (parts: seq<string>)
    ensures |parts| >= 1
    ensures forall i :: 0 <= i < |parts| ==> sep !in parts[i]
  {
    if s == [] then [""]
    else
      var rest := Split(s[1..], sep);
      if s[0] == sep then [""] + rest
      else [[s[0]] + rest[0]] + rest[1..]
  }

  /** `parts.join(sep)`. */
  function Join(parts: seq<string>, sep: char): string
    requires |parts| >= 1
  {
    if |parts| == 1 then parts[0] else parts[0] + [sep] + Join(parts[1..], sep)
  }

  /** Joining the parts of a split gives back the original string. */
  lemma {:induction false} JoinSplit(s: string, sep: char)
    ensures Join(Split(s, sep), sep) == s
  {
    if s != [] {
      var rest := Split(s[1..], sep);
      JoinSplit(s[1..], sep);
      if s[0] == sep {
        assert Split(s, sep)[1..] == rest;
      } else {
        var parts := Split(s, sep);
        if |rest| == 1 {
          assert parts == [[s[0]] + rest[0]];
        } else {
          assert parts[1..] == rest[1..];
          assert Join(rest, sep) == rest[0] + [sep] + Join(rest[1..], sep);
        }
      }
    }
  }

  /** Splitting a join of separator-free parts gives back the parts. */
  lemma {:induction false} SplitJoin(parts: seq<string>, sep: char)
    requires |parts| >= 1
    requires forall i :: 0 <= i < |parts| ==> sep !in parts[i]
    ensures Split(Join(parts, sep), sep) == parts
  {
    if |parts| == 1 {
      SplitPart(parts[0], sep);
    } else {
      SplitJoin(parts[1..], sep);
      SplitPrefix(parts[0], Join(parts[1..], sep), sep);
      assert [parts[0]] + parts[1..] == parts;
    }
  }

  lemma {:induction false} SplitPart(w: string, sep: char)
    requires sep !in w
    ensures Split(w, sep) == [w]
  {
    if w != [] {
      SplitPart(w[1..], sep);
      assert [w[0]] + w[1..] == w;
    }
  }

  /** A separator-free word followed by the separator splits off as the first part. */
  lemma {:induction false} SplitPrefix(w: string, tail: string, sep: char)
    requires sep !in w
    ensures Split(w + [sep] + tail, sep) == [w] + Split(tail, sep)
  {
    var s := w + [sep] + tail;
    if w == [] {
      assert s[1..] == tail;
    } else {
      assert s[1..] == w[1..] + [sep] + tail;
      SplitPrefix(w[1..], tail, sep);
      assert [w[0]] + w[1..] == w;
    }
  }
}
