/**
 * The JavaScript string operations the question board relies on:
 * `String.prototype.trim`, `String.prototype.length` (which counts UTF-16
 * code units, not characters) and `String.prototype.toLowerCase`.
 */
module Text {

  /** The characters `trim` strips: ECMAScript's WhiteSpace and LineTerminator sets. */
  const Spaces: seq<char> := [
    '\t', '\n', '\U{000B}', '\U{000C}', '\r', ' ', '\U{00A0}', '\U{1680}',
    '\U{2000}', '\U{2001}', '\U{2002}', '\U{2003}', '\U{2004}', '\U{2005}',
    '\U{2006}', '\U{2007}', '\U{2008}', '\U{2009}', '\U{200A}',
    '\U{2028}', '\U{2029}', '\U{202F}', '\U{205F}', '\U{3000}', '\U{FEFF}'
  ]

  /** `c` occurs in `cs`. */
  predicate Occurs(c: char, cs: seq<char>) {
    cs != [] && (c == cs[0] || Occurs(c, cs[1..]))
  }

  predicate IsSpace(c: char) {
    Occurs(c, Spaces)
  }

  predicate AllSpace(s: string) {
    forall k | 0 <= k < |s| :: IsSpace(s[k])
  }

  /**
   * JavaScript's `s.trim()`: leading and trailing whitespace removed, one
   * character at a time, first from the front and then from the back.
   */
  function Trim(s: string): (r: string)
    ensures |r| <= |s|
    ensures r != [] ==> !IsSpace(r[0]) && !IsSpace(r[|r| - 1])
  {
    if s != [] && IsSpace(s[0]) then Trim(s[1..])
    else if s != [] && IsSpace(s[|s| - 1]) then Trim(s[..|s| - 1])
    else s
  }

  /** A leading whitespace character is trimmed first. */
  lemma TrimDropsFirst(s: string)
    requires s != [] && IsSpace(s[0])
    ensures Trim(s) == Trim(s[1..])
  {
  }

  /** Once the text starts with a non-whitespace character, a trailing whitespace character is trimmed. */
  lemma TrimDropsLast(s: string)
    requires s != [] && !IsSpace(s[0]) && IsSpace(s[|s| - 1])
    ensures Trim(s) == Trim(s[..|s| - 1])
  {
  }

  /** A text that neither starts nor ends with whitespace is its own trimmed form. */
  lemma TrimKeeps(s: string)
    requires s != [] && !IsSpace(s[0]) && !IsSpace(s[|s| - 1])
    ensures Trim(s) == s
  {
  }

  /** `trim` leaves nothing exactly when the text is all whitespace. */
  lemma {:induction false} TrimEmpty(s: string)
    ensures Trim(s) == [] <==> AllSpace(s)
  {
    if s != [] && IsSpace(s[0]) {
      TrimEmpty(s[1..]);
      assert forall k | 1 <= k < |s| :: s[k] == s[1..][k - 1];
    } else if s != [] && IsSpace(s[|s| - 1]) {
      TrimEmpty(s[..|s| - 1]);
      assert s[..|s| - 1][0] == s[0];
    }
  }

  /** Whitespace followed by whitespace is whitespace. */
  lemma AllSpaceConcat(a: string, b: string)
    requires AllSpace(a) && AllSpace(b)
    ensures AllSpace(a + b)
  {
    assert forall k | |a| <= k < |a + b| :: (a + b)[k] == b[k - |a|];
  }

  /** The split of `s` into whitespace, a middle part and whitespace carries over to `s[1..]`. */
  lemma SplitOfTail(s: string, i: nat, j: nat)
    requires 0 < i < j <= |s|
    requires AllSpace(s[..i]) && AllSpace(s[j..]) && !IsSpace(s[i]) && !IsSpace(s[j - 1])
    ensures IsSpace(s[0])
    ensures AllSpace(s[1..][..i - 1]) && AllSpace(s[1..][j - 1..])
    ensures !IsSpace(s[1..][i - 1]) && !IsSpace(s[1..][j - 2])
    ensures s[1..][i - 1..j - 1] == s[i..j]
  {
    assert s[..i][0] == s[0];
    assert s[1..][..i - 1] == s[..i][1..];
    assert s[1..][j - 1..] == s[j..];
  }

  /** The split of `s` into a middle part and whitespace carries over to `s` without its last character. */
  lemma SplitOfFront(s: string, j: nat)
    requires 0 < j < |s|
    requires AllSpace(s[j..])
    ensures IsSpace(s[|s| - 1])
    ensures AllSpace(s[..|s| - 1][j..])
    ensures s[..|s| - 1][0] == s[0] && s[..|s| - 1][j - 1] == s[j - 1]
    ensures s[..|s| - 1][..0] == [] && s[..|s| - 1][0..j] == s[0..j]
  {
    assert s[j..][|s| - 1 - j] == s[|s| - 1];
    assert forall k | 0 <= k < |s| - 1 - j :: s[..|s| - 1][j..][k] == s[j..][k];
  }

  /** A text made of whitespace on either side of `i` trims to nothing. */
  lemma TrimOfSpaces(s: string, i: nat)
    requires i <= |s| && AllSpace(s[..i]) && AllSpace(s[i..])
    ensures Trim(s) == []
  {
    AllSpaceConcat(s[..i], s[i..]);
    assert s[..i] + s[i..] == s;
    TrimEmpty(s);
  }

  /**
   * An independent description of `trim`: whenever `s` splits into
   * whitespace, a middle part that neither starts nor ends with whitespace,
   * and whitespace, `Trim(s)` is that middle part.
   */
  lemma {:induction false} TrimIsMiddle(s: string, i: nat, j: nat)
    requires i <= j <= |s|
    requires AllSpace(s[..i]) && AllSpace(s[j..])
    requires i < j ==> !IsSpace(s[i]) && !IsSpace(s[j - 1])
    ensures Trim(s) == s[i..j]
  {
    if i == j {
      TrimOfSpaces(s, i);
      assert s[i..j] == [];
    } else if 0 < i {
      SplitOfTail(s, i, j);
      TrimDropsFirst(s);
      TrimIsMiddle(s[1..], i - 1, j - 1);
    } else if j < |s| {
      SplitOfFront(s, j);
      TrimDropsLast(s);
      TrimIsMiddle(s[..|s| - 1], 0, j);
    } else {
      assert s[0..|s|] == s;
      TrimKeeps(s);
    }
  }

  /** Trimming twice is trimming once. */
  lemma TrimIdempotent(s: string)
    ensures Trim(Trim(s)) == Trim(s)
  {
  }

  /** JavaScript's `s.length`: characters outside the Basic Multilingual Plane take two UTF-16 code units. */
  function Utf16Length(s: string): (n: nat)
    ensures |s| <= n <= 2 * |s|
  {
    if s == [] then 0 else (if s[0] as int < 0x1_0000 then 1 else 2) + Utf16Length(s[1..])
  }

  /** For text in the Basic Multilingual Plane the JavaScript length is the number of characters. */
  lemma {:induction false} Utf16LengthBmp(s: string)
    requires forall k | 0 <= k < |s| :: s[k] as int < 0x1_0000
    ensures Utf16Length(s) == |s|
  {
    if s != [] {
      Utf16LengthBmp(s[1..]);
    }
  }

  /** `toLowerCase` on one character; only the letters A-Z are folded (see README). */
  function LowerChar(c: char): char {
    if 'A' <= c <= 'Z' then (c as int + 32) as char else c
  }

  /** JavaScript's `s.toLowerCase()`, restricted to ASCII letters. */
  function Lower(s: string): (r: string)
    ensures |r| == |s|
    ensures forall k | 0 <= k < |s| :: r[k] == LowerChar(s[k])
  {
    if s == [] then [] else [LowerChar(s[0])] + Lower(s[1..])
  }
}
