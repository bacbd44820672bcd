/** Text helpers shared by the models. */
module Text {

  /** The characters `str::trim` removes (Unicode White_Space). */
  predicate IsWhitespace(c: char) {
    || '\t' <= c <= '\r' || c == ' ' || c == '\U{0085}' || c == '\U{00A0}' || c == '\U{1680}'
    || '\U{2000}' <= c <= '\U{200A}' || c == '\U{2028}' || c == '\U{2029}' || c == '\U{202F}'
    || c == '\U{205F}' || c == '\U{3000}'
  }

  function TrimStart(s: string): (t: string)
    ensures t == [] || !IsWhitespace(t[0])
  {
    if s == [] || !IsWhitespace(s[0]) then s else TrimStart(s[1..])
  }

  function TrimEnd(s: string): (t: string)
    ensures t == [] || !IsWhitespace(t[|t| - 1])
    ensures t <= s && forall i | |t| <= i < |s| :: IsWhitespace(s[i])
  {
    if s == [] || !IsWhitespace(s[|s| - 1]) then s else TrimEnd(s[..|s| - 1])
  }

  function Trim(s: string): string {
    TrimEnd(TrimStart(s))
  }

  /** Nothing but white space is taken away at the start, */
  lemma {:induction false} TrimStartIs(s: string) returns (i: nat)
    ensures i <= |s| && TrimStart(s) == s[i..] && forall k | 0 <= k < i :: IsWhitespace(s[k])
  {
    if s == [] || !IsWhitespace(s[0]) {
      i := 0;
    } else {
      var rest := TrimStartIs(s[1..]);
      i := rest + 1;
      forall k | 0 <= k < i ensures IsWhitespace(s[k]) {
        assert k > 0 ==> s[k] == s[1..][k - 1];
      }
    }
  }

  /** `[i..j]` of the text is what is left once white space is gone from both ends. */
  ghost predicate TrimmedTo(s: string, i: nat, j: nat) {
    && i <= j <= |s|
    && (forall k | 0 <= k < |s| && !(i <= k < j) :: IsWhitespace(s[k]))
    && (i < j ==> !IsWhitespace(s[i]) && !IsWhitespace(s[j - 1]))
  }

  /** nor at the end, and there is no more of it. */
  lemma TrimIs(s: string) returns (i: nat, j: nat)
    ensures TrimmedTo(s, i, j) && Trim(s) == s[i..j]
  {
    i := TrimStartIs(s);
    var t := s[i..];
    j := i + |TrimEnd(t)|;
    assert Trim(s) == TrimEnd(t) == t[..j - i];
    assert forall k | j <= k < |s| :: s[k] == t[k - i];
    if i < j {
      assert Trim(s)[0] == TrimStart(s)[0] == s[i] && Trim(s)[j - i - 1] == s[j - 1];
    }
  }

  /** A text is trimmed away exactly when it is all white space. */
  lemma TrimEmptyIff(s: string)
    ensures Trim(s) == "" <==> forall c <- s :: IsWhitespace(c)
  {
    var i, j := TrimIs(s);
    if i == j {
      forall c <- s ensures IsWhitespace(c) {
        var k :| 0 <= k < |s| && s[k] == c;
      }
    } else {
      assert s[i] in s;
    }
  }

  predicate Contains(s: string, part: string) {
    part <= s || (s != [] && Contains(s[1..], part))
  }

  /** The part stands at some place of the text. */
  lemma {:induction false} ContainsIff(s: string, part: string)
    ensures Contains(s, part) <==> exists i :: 0 <= i <= |s| && part <= s[i..]
  {
    if Contains(s, part) {
      if part <= s {
        assert s[0..] == s;
      } else {
        ContainsIff(s[1..], part);
        var i :| 0 <= i <= |s[1..]| && part <= s[1..][i..];
        assert s[i + 1..] == s[1..][i..];
      }
    }
    if i :| 0 <= i <= |s| && part <= s[i..] {
      if i == 0 {
        assert s[0..] == s;
      } else {
        assert s[1..][i - 1..] == s[i..];
        ContainsIff(s[1..], part);
      }
    }
  }
}
