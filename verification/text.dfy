/**
 Text handling the handlers rely on: JavaScript's `String.prototype.trim`,
 and the "is this input blank" test `!s.trim()` that guards every form.
 */
module Text {

  /** The code points `trim` strips: ECMAScript's WhiteSpace (TAB, VT, FF,
      ZWNBSP and every Unicode space separator) and LineTerminator (LF, CR,
      LS, PS). */
  const SpaceChars: set<char> := {
    '\t', '\n', '\U{000B}', '\U{000C}', '\r', ' ', '\U{00A0}', '\U{1680}',
    '\U{2000}', '\U{2001}', '\U{2002}', '\U{2003}', '\U{2004}', '\U{2005}',
    '\U{2006}', '\U{2007}', '\U{2008}', '\U{2009}', '\U{200A}',
    '\U{2028}', '\U{2029}', '\U{202F}', '\U{205F}', '\U{3000}', '\U{FEFF}'
  }

  predicate IsSpace(c: char) {
    c in SpaceChars
  }

  predicate AllSpace(s: string) {
    forall k :: 0 <= k < |s| ==> IsSpace(s[k])
  }

  /** Drops the leading white space: the result is a suffix of `s` that does
      not start with white space, and everything cut off was white space. */
  function TrimStart(s: string): (r: string)
    ensures |r| <= |s| && r == s[|s| - |r|..]
    ensures r == [] || !IsSpace(r[0])
    ensures forall k :: 0 <= k < |s| - |r| ==> IsSpace(s[k])
    decreases |s|
  {
    if s != [] && IsSpace(s[0]) then TrimStart(s[1..]) else s
  }

  /** Drops the trailing white space: the result is a prefix of `s` that does
      not end with white space, and everything cut off was white space. */
  function TrimEnd(s: string): (r: string)
    ensures |r| <= |s| && r == s[..|r|]
    ensures r == [] || !IsSpace(r[|r| - 1])
    ensures forall k :: |r| <= k < |s| ==> IsSpace(s[k])
    decreases |s|
  {
    if s != [] && IsSpace(s[|s| - 1]) then TrimEnd(s[..|s| - 1]) else s
  }

  /** `s.trim()`: the text between the leading and the trailing white
      space of `s`. It is empty exactly when `s` is all white space, and
      otherwise neither starts nor ends with white space. */
  function Trim(s: string): (r: string)
    ensures |r| <= |s|
    ensures exists i, j :: 0 <= i <= j <= |s| && r == s[i..j] && AllSpace(s[..i]) && AllSpace(s[j..])
    ensures r == [] <==> AllSpace(s)
    ensures r != [] ==> !IsSpace(r[0]) && !IsSpace(r[|r| - 1])
  {
    TrimSlice(s);
    TrimParts(s);
    TrimEnd(TrimStart(s))
  }

  /** Trimming keeps one slice of `s` with only white space on either side
      of it. */
  lemma {:induction false} TrimSlice(s: string)
    ensures exists i, j :: 0 <= i <= j <= |s| && TrimEnd(TrimStart(s)) == s[i..j]
                           && AllSpace(s[..i]) && AllSpace(s[j..])
  {
    var front := TrimStart(s);
    var r := TrimEnd(front);
    var i := |s| - |front|;
    var j := i + |r|;
    assert r == s[i..j] by {
      assert front == s[i..];
      assert r == front[..|r|];
    }
    forall k | j <= k < |s| ensures IsSpace(s[k]) {
      assert s[k] == front[k - i];
    }
    SpaceAround(s, i, j);
  }

  /** A slice with only white space before and after it. */
  lemma SpaceAround(s: string, i: nat, j: nat)
    requires i <= j <= |s|
    requires forall k :: 0 <= k < i ==> IsSpace(s[k])
    requires forall k :: j <= k < |s| ==> IsSpace(s[k])
    ensures AllSpace(s[..i]) && AllSpace(s[j..])
  {
    assert forall k :: 0 <= k < i ==> s[..i][k] == s[k];
    assert forall k :: 0 <= k < |s| - j ==> s[j..][k] == s[j + k];
  }

  /** Trimming leaves nothing exactly when there was nothing but white
      space, and what it keeps starts with a non-space character. */
  lemma {:induction false} TrimParts(s: string)
    ensures TrimEnd(TrimStart(s)) == [] <==> AllSpace(s)
    ensures TrimEnd(TrimStart(s)) != [] ==> !IsSpace(TrimEnd(TrimStart(s))[0])
  {
    var front := TrimStart(s);
    var r := TrimEnd(front);
    if front == [] {
      AllSpaceWhole(s);
    } else {
      // `front` starts with a non-space character, which `TrimEnd` keeps
      assert !IsSpace(front[0]);
      assert r != [];
      assert r[0] == front[0];
      assert !AllSpace(s) by {
        assert s[|s| - |front|] == front[0];
      }
    }
  }

  /** When trimming the start consumes everything, all of `s` was white
      space. */
  lemma AllSpaceWhole(s: string)
    requires TrimStart(s) == []
    ensures AllSpace(s)
  {
  }

  /** The handlers' `!s.trim()` test: the trimmed text is the empty string. */
  predicate IsBlank(s: string) {
    Trim(s) == []
  }

  /** Trimming twice is trimming once. */
  lemma TrimIdempotent(s: string)
    ensures Trim(Trim(s)) == Trim(s)
  {
    var t := Trim(s);
    if t != [] {
      assert TrimStart(t) == t;
      assert TrimEnd(t) == t;
    }
  }
}
