/** The two string operations the components key their tables by, over ASCII text. */
module Text {

  predicate IsSpace(c: char) {
    c == ' ' || '\t' <= c <= '\r' || '\U{1C}' <= c <= '\U{1F}'
  }

  function LowerChar(c: char): char {
    if 'A' <= c <= 'Z' then (c as int + 32) as char else c
  }

  function Lower(s: string): string {
    seq(|s|, i requires 0 <= i < |s| => LowerChar(s[i]))
  }

  function StripLeft(s: string): string {
    if s != "" && IsSpace(s[0]) then StripLeft(s[1..]) else s
  }

  function StripRight(s: string): string {
    if s != "" && IsSpace(s[|s| - 1]) then StripRight(s[..|s| - 1]) else s
  }

  function Strip(s: string): string {
    StripRight(StripLeft(s))
  }

  // ---------------------------------------------------------------------------------------------
  // What they mean
  // ---------------------------------------------------------------------------------------------

  const CAPITALS := "ABCDEFGHIJKLMNOPQRSTUVWXYZ"
  const SMALL_LETTERS := "abcdefghijklmnopqrstuvwxyz"
  const BLANKS := " \t\n\U{0B}\U{0C}\r\U{1C}\U{1D}\U{1E}\U{1F}"

  lemma BlanksAre(c: char)
    ensures IsSpace(c) <==> c in BLANKS
  {
  }

  /** The two cases of the n-th letter. */
  predicate CasesOf(n: int, c: char, d: char) {
    0 <= n < 26 && ((c == CAPITALS[n] && d == SMALL_LETTERS[n]) || (c == SMALL_LETTERS[n] && d == CAPITALS[n]))
  }

  /** The same character, or the same letter in the other case. */
  ghost predicate SameLetter(c: char, d: char) {
    c == d || exists n :: CasesOf(n, c, d)
  }

  /** The same text but for the case of its letters. */
  ghost predicate SameButForCase(s: string, t: string) {
    |s| == |t| && forall i :: 0 <= i < |s| ==> SameLetter(s[i], t[i])
  }

  lemma LettersInOrder(n: nat)
    requires n < 26
    ensures CAPITALS[n] as int == 'A' as int + n && SMALL_LETTERS[n] as int == 'a' as int + n
  {
  }

  lemma SameLowerIsSameLetter(c: char, d: char)
    requires LowerChar(c) == LowerChar(d)
    ensures SameLetter(c, d)
  {
    if c != d {
      var n := LowerChar(c) as int - 'a' as int;
      LettersInOrder(n);
      assert CasesOf(n, c, d);
    }
  }

  lemma SameLetterIsSameLower(c: char, d: char)
    requires SameLetter(c, d)
    ensures LowerChar(c) == LowerChar(d)
  {
    if c != d {
      var n :| CasesOf(n, c, d);
      LettersInOrder(n);
    }
  }

  /** Two texts have the same lower-case form exactly when they differ in the case of letters only. */
  lemma LowerIsCaseBlind(s: string, t: string)
    ensures Lower(s) == Lower(t) <==> SameButForCase(s, t)
  {
    if Lower(s) == Lower(t) {
      assert |s| == |Lower(s)| == |Lower(t)| == |t|;
      forall i | 0 <= i < |s| ensures SameLetter(s[i], t[i]) {
        assert Lower(s)[i] == Lower(t)[i];
        SameLowerIsSameLetter(s[i], t[i]);
      }
    }
    if SameButForCase(s, t) {
      forall i | 0 <= i < |s| ensures Lower(s)[i] == Lower(t)[i] {
        SameLetterIsSameLower(s[i], t[i]);
      }
    }
  }

  /** t is s without the blanks at either end. */
  ghost predicate IsCore(t: string, s: string) {
    && (exists a, b :: 0 <= a <= b <= |s| && CutsBlanks(s, a, b) && t == s[a..b])
    && (t != "" ==> t[0] !in BLANKS && t[|t| - 1] !in BLANKS)
  }

  ghost predicate CutsBlanks(s: string, a: int, b: int)
    requires 0 <= a <= b <= |s|
  {
    (forall i :: 0 <= i < a ==> s[i] in BLANKS) && (forall i :: b <= i < |s| ==> s[i] in BLANKS)
  }

  lemma {:induction false} StripLeftCuts(s: string) returns (a: int)
    ensures 0 <= a <= |s| && StripLeft(s) == s[a..] && forall i :: 0 <= i < a ==> s[i] in BLANKS
    ensures a < |s| ==> s[a] !in BLANKS
  {
    if s == "" {
      a := 0;
    } else {
      BlanksAre(s[0]);
      if IsSpace(s[0]) {
        a := StripLeftCuts(s[1..]);
        assert s[1..][a..] == s[a + 1..];
        assert forall i :: 0 < i <= a ==> s[i] == s[1..][i - 1];
        a := a + 1;
      } else {
        a := 0;
      }
    }
  }

  lemma {:induction false} StripRightCuts(s: string) returns (b: int)
    ensures 0 <= b <= |s| && StripRight(s) == s[..b] && forall i :: b <= i < |s| ==> s[i] in BLANKS
    ensures b > 0 ==> s[b - 1] !in BLANKS
  {
    if s == "" {
      b := 0;
    } else {
      BlanksAre(s[|s| - 1]);
      if IsSpace(s[|s| - 1]) {
        b := StripRightCuts(s[..|s| - 1]);
        assert s[..|s| - 1][..b] == s[..b];
      } else {
        b := |s|;
      }
    }
  }

  /** Stripping takes the blanks off both ends and nothing else. */
  lemma StripIsCore(s: string)
    ensures IsCore(Strip(s), s)
  {
    var a := StripLeftCuts(s);
    var b := StripRightCuts(s[a..]);
    assert s[a..][..b] == s[a..a + b];
    assert forall i :: a <= i < |s| ==> s[i] == s[a..][i - a];
    assert CutsBlanks(s, a, a + b);
  }

  lemma CoreIsUnique(s: string, t: string, u: string)
    requires IsCore(t, s) && IsCore(u, s)
    ensures t == u
  {
    var a, b :| 0 <= a <= b <= |s| && CutsBlanks(s, a, b) && t == s[a..b];
    var c, d :| 0 <= c <= d <= |s| && CutsBlanks(s, c, d) && u == s[c..d];
    if t != "" {
      assert t[0] == s[a] && t[|t| - 1] == s[b - 1];
      assert c <= a && b <= d;
      assert u[0] == s[c] && u[|u| - 1] == s[d - 1];
    }
  }

  /** Two texts that agree but for blanks at either end and for case: what both tables key their entries by. */
  ghost predicate SameKey(s: string, t: string) {
    exists u, v :: IsCore(u, s) && IsCore(v, t) && SameButForCase(u, v)
  }

  lemma KeysAgreeExactlyWhen(s: string, t: string)
    ensures Lower(Strip(s)) == Lower(Strip(t)) <==> SameKey(s, t)
    ensures Lower(Strip(s)) == "" <==> forall i :: 0 <= i < |s| ==> s[i] in BLANKS
  {
    StripIsCore(s);
    StripIsCore(t);
    LowerIsCaseBlind(Strip(s), Strip(t));
    if u, v :| IsCore(u, s) && IsCore(v, t) && SameButForCase(u, v) {
      CoreIsUnique(s, u, Strip(s));
      CoreIsUnique(t, v, Strip(t));
    }
    if Strip(s) != "" {
      var a, b :| 0 <= a <= b <= |s| && CutsBlanks(s, a, b) && Strip(s) == s[a..b];
      assert Strip(s)[0] == s[a];
    }
  }
}
