/** Character classes and string helpers shared by the validators and the search engine.
    Everything is restricted to ASCII: `IsSpace` is the ASCII part of what JavaScript's `\s`,
    `String.prototype.trim` and number parsing skip, `\w`, `\d` and the letter class are ASCII-only in
    JavaScript regular expressions without the `u` flag, and case folding maps ASCII letters only. */
module Text {

  /** ASCII whitespace: tab, line feed, vertical tab, form feed, carriage return and space. */
  predicate IsSpace(c: char) {
    ('\t' <= c <= '\r') || c == ' '
  }

  /** The ASCII code points `.` does not match. */
  predicate IsLineTerminator(c: char) {
    c == '\n' || c == '\r'
  }

  predicate IsDigit(c: char) { '0' <= c <= '9' }

  predicate IsAsciiLetter(c: char) { ('A' <= c <= 'Z') || ('a' <= c <= 'z') }

  /** `\w` */
  predicate IsWordChar(c: char) { IsAsciiLetter(c) || IsDigit(c) || c == '_' }

  predicate AllDigits(s: string) { forall i | 0 <= i < |s| :: IsDigit(s[i]) }

  predicate AllSpace(s: string) { forall i | 0 <= i < |s| :: IsSpace(s[i]) }

  predicate AllWordChars(s: string) { forall i | 0 <= i < |s| :: IsWordChar(s[i]) }

  /** `toLowerCase` on one character, ASCII letters only. */
  function LowerChar(c: char): (r: char)
    ensures IsSpace(c) <==> IsSpace(r)
    ensures IsDigit(c) ==> r == c
    ensures !IsAsciiLetter(c) ==> r == c
  {
    if 'A' <= c <= 'Z' then (c as int + 32) as char else c
  }

  /** `toLowerCase`, character by character. */
  function Lower(s: string): (r: string)
    ensures |r| == |s|
    ensures forall i | 0 <= i < |s| :: r[i] == LowerChar(s[i])
  {
    seq(|s|, i requires 0 <= i < |s| => LowerChar(s[i]))
  }

  /** Case-insensitive equality of two strings of the same length, as the `i` flag compares characters. */
  predicate SameIgnoringCase(a: string, b: string) {
    |a| == |b| && forall i | 0 <= i < |a| :: LowerChar(a[i]) == LowerChar(b[i])
  }

  function TrimStart(s: string): (r: string)
    ensures |r| <= |s| && r == s[|s| - |r|..]
    ensures r != [] ==> !IsSpace(r[0])
    ensures forall i | 0 <= i < |s| - |r| :: IsSpace(s[i])
  {
    if s != [] && IsSpace(s[0]) then TrimStart(s[1..]) else s
  }

  function TrimEnd(s: string): (r: string)
    ensures |r| <= |s| && r == s[..|r|]
    ensures r != [] ==> !IsSpace(r[|r| - 1])
    ensures forall i | |r| <= i < |s| :: IsSpace(s[i])
  {
    if s != [] && IsSpace(s[|s| - 1]) then TrimEnd(s[..|s| - 1]) else s
  }

  /** `String.prototype.trim`: the result is an infix of `s` that neither starts nor ends with
      whitespace, and everything cut off is whitespace. */
  function Trim(s: string): (r: string)
    ensures |r| <= |s|
    ensures r != [] ==> !IsSpace(r[0]) && !IsSpace(r[|r| - 1])
    ensures r == [] <==> AllSpace(s)
    ensures exists k :: TrimmedAt(s, r, k)
  {
    TrimFacts(s);
    TrimCuts(s);
    TrimEnd(TrimStart(s))
  }

  /** `r` is the infix of `s` at offset `k`, and everything on either side of it is whitespace. */
  predicate TrimmedAt(s: string, r: string, k: int) {
    0 <= k <= |s| - |r| && r == s[k..k + |r|] && AllSpace(s[..k]) && AllSpace(s[k + |r|..])
  }

  lemma {:induction false} TrimCuts(s: string)
    ensures TrimmedAt(s, TrimEnd(TrimStart(s)), |s| - |TrimStart(s)|)
  {
    FrontCut(s);
    BackCut(TrimStart(s));
    InfixAt(s, TrimStart(s), TrimEnd(TrimStart(s)), |s| - |TrimStart(s)|);
  }

  /** A prefix `r` of the suffix `a` of `s` that starts at `k`, with whitespace around it. */
  lemma {:induction false} InfixAt(s: string, a: string, r: string, k: int)
    requires 0 <= k <= |s| && a == s[k..] && |r| <= |a| && r == a[..|r|]
    requires AllSpace(s[..k]) && AllSpace(a[|r|..])
    ensures TrimmedAt(s, r, k)
  {
    assert s[k + |r|..] == a[|r|..];
  }

  lemma {:induction false} FrontCut(s: string)
    ensures AllSpace(s[..|s| - |TrimStart(s)|])
  {
    var front := s[..|s| - |TrimStart(s)|];
    forall i | 0 <= i < |front| ensures IsSpace(front[i]) {
      assert front[i] == s[i];
    }
  }

  lemma {:induction false} BackCut(a: string)
    ensures AllSpace(a[|TrimEnd(a)|..])
  {
    var n := |TrimEnd(a)|;
    var back := a[n..];
    forall i | 0 <= i < |back| ensures IsSpace(back[i]) {
      assert back[i] == a[n + i];
    }
  }

  lemma TrimFacts(s: string)
    ensures TrimEnd(TrimStart(s)) == [] <==> AllSpace(s)
  {
    var a := TrimStart(s);
    var k := |s| - |a|;
    if TrimEnd(a) == [] {
      assert a == [];
    } else {
      assert s[k] == a[0];
    }
  }

  /** `String.prototype.includes`: `sub` occurs in `s` at some offset. */
  predicate Contains(s: string, sub: string) {
    exists i | 0 <= i <= |s| - |sub| :: OccursAt(s, sub, i)
  }

  predicate OccursAt(s: string, sub: string, i: int) {
    0 <= i <= |s| - |sub| && s[i..i + |sub|] == sub
  }

  /** Trimming leaves a string that already has no surrounding whitespace unchanged. */
  lemma {:induction false} TrimOfTrimmed(s: string)
    requires s != [] ==> !IsSpace(s[0]) && !IsSpace(s[|s| - 1])
    ensures Trim(s) == s
  {
    assert TrimStart(s) == s;
    assert TrimEnd(s) == s;
  }
}
