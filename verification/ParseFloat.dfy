/** The number scanner that stands in for JavaScript's `parseFloat`. */
module ParseFloat {
  import opened Options
  import opened Text

  // ---- Decimal literals (section 19.2.4 of ECMA-262, without Infinity) -----

  predicate IsDigit(c: char) {
    '0' <= c <= '9'
  }

  predicate IsSign(c: char) {
    c == '+' || c == '-'
  }

  predicate IsE(c: char) {
    c == 'e' || c == 'E'
  }

  /** The characters of a literal. */
  lemma CharactersAre(c: char)
    ensures IsDigit(c) <==> c in {'0', '1', '2', '3', '4', '5', '6', '7', '8', '9'}
    ensures IsSign(c) <==> c in {'+', '-'}
    ensures IsE(c) <==> c in {'e', 'E'}
  {
  }

  predicate AllDigits(s: string) {
    forall c <- s :: IsDigit(c)
  }

  /** Digits with at most one point among them, and at least one digit. */
  predicate Mantissa(s: string) {
    (s != "" && AllDigits(s)) || PointAmongDigits(s)
  }

  predicate PointAmongDigits(s: string) {
    |s| > 1 && exists k | 0 <= k < |s| :: s[k] == '.' && AllDigits(s[..k]) && AllDigits(s[k + 1..])
  }

  predicate Exponent(s: string) {
    || (s != "" && AllDigits(s))
    || (|s| > 1 && IsSign(s[0]) && AllDigits(s[1..]))
  }

  /** A mantissa, an `e` and an exponent. */
  predicate Scientific(s: string) {
    exists k | 0 <= k < |s| :: IsE(s[k]) && Mantissa(s[..k]) && Exponent(s[k + 1..])
  }

  predicate Unsigned(s: string) {
    Mantissa(s) || Scientific(s)
  }

  predicate IsLiteral(s: string) {
    Unsigned(s) || (s != "" && IsSign(s[0]) && Unsigned(s[1..]))
  }

  /** Every form there is: with or without sign, digits before or after the point, and exponent. */
  lemma LiteralForms(a: string, b: string, x: string, sign: char, e: char)
    requires a != "" && x != "" && AllDigits(a) && AllDigits(b) && AllDigits(x) && IsSign(sign) && IsE(e)
    ensures IsLiteral(a) && IsLiteral(a + "." + b) && IsLiteral("." + a)
    ensures forall m | m in {a, a + "." + b, "." + a} ::
              IsLiteral(m + [e] + x) && IsLiteral(m + [e] + [sign] + x) && IsLiteral([sign] + m)
  {
    MantissaForms(a, b);
    forall m | m in {a, a + "." + b, "." + a}
      ensures IsLiteral(m + [e] + x) && IsLiteral(m + [e] + [sign] + x) && IsLiteral([sign] + m)
    {
      ScientificForms(m, x, sign, e);
      assert ([sign] + m)[1..] == m;
    }
  }

  lemma MantissaForms(a: string, b: string)
    requires a != "" && AllDigits(a) && AllDigits(b)
    ensures Mantissa(a) && Mantissa(a + "." + b) && Mantissa("." + a)
  {
    var s := a + "." + b;
    assert s[|a|] == '.' && s[..|a|] == a && s[|a| + 1..] == b && |s| > 1;
    var t := "." + a;
    assert t[0] == '.' && t[..0] == "" && t[1..] == a && |t| > 1;
  }

  lemma ScientificForms(m: string, x: string, sign: char, e: char)
    requires Mantissa(m) && x != "" && AllDigits(x) && IsSign(sign) && IsE(e)
    ensures Scientific(m + [e] + x) && Scientific(m + [e] + [sign] + x)
  {
    hide Mantissa;
    var s, t := m + [e] + x, m + [e] + [sign] + x;
    assert s[|m|] == e && s[..|m|] == m && s[|m| + 1..] == x;
    assert t[|m|] == e && t[..|m|] == m && t[|m| + 1..] == [sign] + x;
    assert ([sign] + x)[0] == sign && ([sign] + x)[1..] == x;
  }

  // ---- The scanner's states ------------------------------------------------

  datatype State = Start | Sign | Int | Dot | Frac | Exp | ExpSign | ExpDigits

  function Next(st: State, c: char): Option<State> {
    if IsDigit(c) then
      Some(match st
           case Start => Int
           case Sign => Int
           case Int => Int
           case Dot => Frac
           case Frac => Frac
           case _ => ExpDigits)
    else if c == '.' then
      match st
      case Start => Some(Dot)
      case Sign => Some(Dot)
      case Int => Some(Frac)
      case _ => None
    else if IsE(c) then
      if st == Int || st == Frac then Some(Exp) else None
    else if IsSign(c) then
      match st
      case Start => Some(Sign)
      case Exp => Some(ExpSign)
      case _ => None
    else None
  }

  /** The state after reading a text, if every character of it is taken. */
  function Read(s: string): Option<State> {
    if s == "" then Some(Start)
    else
      var before := Read(s[..|s| - 1]);
      if before.None? then None else Next(before.value, s[|s| - 1])
  }

  predicate Accepting(st: State) {
    st == Int || st == Frac || st == ExpDigits
  }

  // ---- The states are the grammar -------------------------------------------

  /** A text after an optional sign. */
  function Body(s: string): string {
    if s != "" && IsSign(s[0]) then s[1..] else s
  }

  predicate MantissaE(s: string) {
    s != "" && IsE(s[|s| - 1]) && Mantissa(s[..|s| - 1])
  }

  predicate MantissaESign(s: string) {
    s != "" && IsSign(s[|s| - 1]) && MantissaE(s[..|s| - 1])
  }

  /** What each state has read after the sign. */
  predicate Shaped(st: State, b: string) {
    match st
    case Start => b == ""
    case Sign => b == ""
    case Int => b != "" && AllDigits(b)
    case Dot => b == "."
    case Frac => PointAmongDigits(b)
    case Exp => MantissaE(b)
    case ExpSign => MantissaESign(b)
    case ExpDigits => Scientific(b)
  }

  /** What each state has read. */
  predicate Has(st: State, s: string) {
    match st
    case Start => s == ""
    case Sign => |s| == 1 && IsSign(s[0])
    case _ => Shaped(st, Body(s))
  }

  /** The text after an optional sign grows with the text. */
  lemma BodySnoc(s: string, c: char)
    ensures Body(s + [c]) == if s == "" && IsSign(c) then "" else Body(s) + [c]
  {
  }

  lemma PointShrinks(s: string, c: char)
    requires PointAmongDigits(s + [c])
    ensures if c == '.' then s != "" && AllDigits(s) else IsDigit(c) && (s == "." || PointAmongDigits(s))
  {
    var t := s + [c];
    var k :| 0 <= k < |t| && t[k] == '.' && AllDigits(t[..k]) && AllDigits(t[k + 1..]) && |t| > 1;
    if k == |s| {
      assert t[..k] == s;
    } else {
      hide AllDigits, IsDigit;
      assert t[k] == s[k] && t[..k] == s[..k] && t[k + 1..] == s[k + 1..] + [c];
      DigitsSnoc(s[k + 1..], c);
      assert c != '.' by { PointIsNoDigit(); }
      assert |s| == 1 ==> s == ".";
    }
  }

  lemma PointIsNoDigit()
    ensures !IsDigit('.')
  {
  }

  lemma PointGrows(s: string, c: char)
    requires if c == '.' then s != "" && AllDigits(s) else IsDigit(c) && (s == "." || PointAmongDigits(s))
    ensures PointAmongDigits(s + [c])
  {
    var t := s + [c];
    if c == '.' {
      assert t[|s|] == '.' && t[..|s|] == s && t[|s| + 1..] == "";
    } else if s == "." {
      assert t[0] == '.' && t[..0] == "" && t[1..] == [c];
    } else {
      hide AllDigits, IsDigit;
      var k :| 0 <= k < |s| && s[k] == '.' && AllDigits(s[..k]) && AllDigits(s[k + 1..]);
      DigitsSnoc(s[k + 1..], c);
      assert t[k] == '.' && t[..k] == s[..k] && t[k + 1..] == s[k + 1..] + [c];
    }
  }

  lemma PointSnoc(s: string, c: char)
    ensures PointAmongDigits(s + [c]) <==>
            if c == '.' then s != "" && AllDigits(s) else IsDigit(c) && (s == "." || PointAmongDigits(s))
  {
    hide PointAmongDigits, AllDigits, IsDigit;
    if PointAmongDigits(s + [c]) {
      PointShrinks(s, c);
    } else if if c == '.' then s != "" && AllDigits(s) else IsDigit(c) && (s == "." || PointAmongDigits(s)) {
      PointGrows(s, c);
    }
  }

  lemma DigitsSnoc(s: string, c: char)
    ensures AllDigits(s + [c]) <==> AllDigits(s) && IsDigit(c)
  {
    assert c in s + [c];
  }

  lemma ExponentSnoc(s: string, c: char)
    ensures Exponent(s + [c]) <==> IsDigit(c) && (s == "" || (|s| == 1 && IsSign(s[0])) || Exponent(s))
  {
    var t := s + [c];
    DigitsSnoc(s, c);
    if s != "" {
      assert t[1..] == s[1..] + [c];
      DigitsSnoc(s[1..], c);
    }
  }

  /** The exponent part after position `k` grows by a character. */
  lemma ScientificAt(s: string, c: char, k: nat)
    requires k < |s|
    ensures var t := s + [c];
            t[k] == s[k] && t[..k] == s[..k] && t[k + 1..] == s[k + 1..] + [c]
  {
  }

  lemma ExponentNotEmpty(s: string)
    requires Exponent(s)
    ensures s != ""
  {
  }

  lemma ScientificShrinks(s: string, c: char)
    requires Scientific(s + [c])
    ensures IsDigit(c) && (MantissaE(s) || MantissaESign(s) || Scientific(s))
  {
    hide Mantissa, Exponent, IsDigit;
    var t := s + [c];
    var k :| 0 <= k < |t| && IsE(t[k]) && Mantissa(t[..k]) && Exponent(t[k + 1..]);
    ExponentNotEmpty(t[k + 1..]);
    ScientificAt(s, c, k);
    var rest := s[k + 1..];
    ExponentSnoc(rest, c);
    if rest == "" {
      assert s[..|s| - 1] == s[..k];
    } else if |rest| == 1 && IsSign(rest[0]) {
      assert s[..|s| - 1][..k] == s[..k] && s[|s| - 1] == rest[0];
    }
  }

  lemma ScientificGrows(s: string, c: char)
    requires IsDigit(c) && (MantissaE(s) || MantissaESign(s) || Scientific(s))
    ensures Scientific(s + [c])
  {
    hide Mantissa, Exponent;
    var k: nat;
    if MantissaE(s) {
      k := |s| - 1;
      assert s[k + 1..] == "";
    } else if MantissaESign(s) {
      k := |s| - 2;
      assert s[..|s| - 1][..k] == s[..k] && s[k + 1..] == [s[|s| - 1]];
    } else {
      k :| 0 <= k < |s| && IsE(s[k]) && Mantissa(s[..k]) && Exponent(s[k + 1..]);
    }
    ScientificAt(s, c, k);
    ExponentSnoc(s[k + 1..], c);
    assert IsE((s + [c])[k]);
  }

  lemma ScientificSnoc(s: string, c: char)
    ensures Scientific(s + [c]) <==> IsDigit(c) && (MantissaE(s) || MantissaESign(s) || Scientific(s))
  {
    if Scientific(s + [c]) {
      ScientificShrinks(s, c);
    } else if IsDigit(c) && (MantissaE(s) || MantissaESign(s) || Scientific(s)) {
      ScientificGrows(s, c);
    }
  }

  lemma MantissaESnoc(s: string, c: char)
    ensures MantissaE(s + [c]) <==> IsE(c) && Mantissa(s)
    ensures MantissaESign(s + [c]) <==> IsSign(c) && MantissaE(s)
  {
    assert (s + [c])[..|s|] == s;
  }

  /** What a state reads after its text, but for the sign at the start. */
  lemma ForwardShape(before: State, b: string, c: char)
    requires Shaped(before, b) && Next(before, c).Some? && Next(before, c) != Some(Sign)
    ensures Shaped(Next(before, c).value, b + [c])
  {
    EmptyShapes();
    hide AllDigits, PointAmongDigits, Scientific, MantissaE, MantissaESign;
    DigitsSnoc(b, c);
    PointSnoc(b, c);
    MantissaESnoc(b, c);
    ScientificSnoc(b, c);
  }

  lemma EmptyShapes()
    ensures AllDigits("") && !PointAmongDigits("") && !MantissaE("") && !MantissaESign("") && !Scientific("")
  {
  }

  /** A text of a later state comes from a state that reads its last character. */
  lemma BackwardShape(st: State, b: string, c: char) returns (before: State)
    requires Shaped(st, b + [c])
    ensures Shaped(before, b) && Next(before, c) == Some(st) && (b == "" <==> before == Sign) && before != Start
  {
    EmptyShapes();
    hide AllDigits, PointAmongDigits, Scientific, MantissaE, MantissaESign;
    DigitsSnoc(b, c);
    PointSnoc(b, c);
    MantissaESnoc(b, c);
    ScientificSnoc(b, c);
    assert (b + [c])[|b|] == c;
    before := if b == "" then Sign
              else if st == Int || (st == Frac && c == '.') || (st == Exp && AllDigits(b)) then Int
              else if st == Frac && b == "." then Dot
              else if st == Frac || st == Exp then Frac
              else if MantissaE(b) then Exp
              else if MantissaESign(b) then ExpSign
              else ExpDigits;
  }

  lemma Forward(before: State, s: string, c: char)
    requires Has(before, s) && Next(before, c).Some?
    ensures Has(Next(before, c).value, s + [c])
  {
    hide Shaped;
    BodySnoc(s, c);
    NoBodyYet(before, s);
    if Next(before, c) != Some(Sign) {
      ForwardShape(before, Body(s), c);
    }
  }

  lemma NoBodyYet(st: State, s: string)
    requires Has(st, s)
    ensures Shaped(st, Body(s)) && (s == "" <==> st == Start)
  {
    EmptyShapes();
  }

  lemma Backward(st: State, s: string, c: char) returns (before: State)
    requires Has(st, s + [c])
    ensures Has(before, s) && Next(before, c) == Some(st)
  {
    BodySnoc(s, c);
    if s == "" && IsSign(c) {
      before := Start;
      SignAlone(st, c);
    } else {
      hide Shaped;
      before := BackwardShape(st, Body(s), c);
      if s == "" {
        before := Start;
      }
    }
  }

  lemma SignAlone(st: State, c: char)
    requires IsSign(c) && Has(st, "" + [c])
    ensures st == Sign
  {
    EmptyShapes();
    assert Body("" + [c]) == "";
  }

  /** Reading a text leads to a state exactly when the text is what the state has read. */
  lemma {:induction false} ReadIsHas(s: string, st: State)
    ensures Read(s) == Some(st) <==> Has(st, s)
  {
    if s != "" {
      var front, c := s[..|s| - 1], s[|s| - 1];
      assert s == front + [c];
      if Has(st, s) {
        var before := Backward(st, front, c);
        ReadIsHas(front, before);
      }
      if Read(s) == Some(st) {
        ReadIsHas(front, Read(front).value);
        Forward(Read(front).value, front, c);
      }
    }
  }

  /** A signed text is no unsigned literal, so a literal is an unsigned one after an optional sign. */
  lemma LiteralBody(s: string)
    ensures IsLiteral(s) <==> Unsigned(Body(s))
  {
    if s != "" && IsSign(s[0]) {
      assert !Mantissa(s) by { MantissaStart(s); }
      forall k | 0 <= k < |s| ensures !Mantissa(s[..k]) {
        MantissaStart(s[..k]);
      }
    }
  }

  lemma MantissaStart(s: string)
    ensures Mantissa(s) ==> s != "" && (IsDigit(s[0]) || s[0] == '.')
  {
    if Mantissa(s) && PointAmongDigits(s) {
      var k :| 0 <= k < |s| && s[k] == '.' && AllDigits(s[..k]) && AllDigits(s[k + 1..]);
      if k > 0 { assert s[..k][0] in s[..k]; }
    }
  }

  /** The literals are the texts that end in an accepting state. */
  lemma LiteralIsAccepting(s: string)
    ensures IsLiteral(s) <==> Read(s).Some? && Accepting(Read(s).value)
  {
    LiteralBody(s);
    ReadIsHas(s, Int);
    ReadIsHas(s, Frac);
    ReadIsHas(s, ExpDigits);
  }

  // ---- The scanner ----------------------------------------------------------

  /** Reading stops for good at the first character that is not taken. */
  lemma {:induction false} ReadPrefix(s: string, k: nat)
    requires k <= |s| && Read(s).Some?
    ensures Read(s[..k]).Some?
  {
    if k < |s| {
      ReadPrefix(s[..|s| - 1], k);
      assert s[..|s| - 1][..k] == s[..k];
    } else {
      assert s[..k] == s;
    }
  }

  /** The `e` is read only into the exponent. */
  lemma {:induction false} NoEYet(s: string)
    requires Read(s).Some? && Read(s).value !in {Exp, ExpSign, ExpDigits}
    ensures forall i | 0 <= i < |s| :: !IsE(s[i])
  {
    if s != "" {
      NoEYet(s[..|s| - 1]);
    }
  }

  /** The longest prefix of a text that is a literal, if any is. */
  ghost predicate LongestLiteral(s: string, end: nat) {
    && end <= |s| && IsLiteral(s[..end])
    && forall m | end < m <= |s| :: !IsLiteral(s[..m])
  }

  ghost predicate NoLiteral(s: string) {
    forall m | 0 <= m <= |s| :: !IsLiteral(s[..m])
  }

  /** What the loop stops with: a text that was read, and a character it does not take. */
  lemma StopFacts(s: string, end: nat)
    requires end <= |s| && Read(s[..end]).Some? && (end == |s| || Read(s[..end + 1]).None?)
    ensures forall m | end < m <= |s| :: !IsLiteral(s[..m])
    ensures var st := Read(s[..end]).value;
            && (Accepting(st) ==> IsLiteral(s[..end]))
            && (st in {Start, Sign, Dot} ==> NoLiteral(s))
  {
    hide IsLiteral;
    forall m | end < m <= |s| ensures !IsLiteral(s[..m]) {
      LiteralIsAccepting(s[..m]);
      assert s[..m][..end + 1] == s[..end + 1];
      if Read(s[..m]).Some? {
        ReadPrefix(s[..m], end + 1);
      }
    }
    LiteralIsAccepting(s[..end]);
    if Read(s[..end]).value in {Start, Sign, Dot} {
      forall m | 0 <= m <= end ensures !IsLiteral(s[..m]) {
        EarlyPrefix(s[..end], m);
        assert s[..end][..m] == s[..m];
        LiteralIsAccepting(s[..m]);
      }
    }
  }

  /** Before any digit, no prefix has one either. */
  lemma {:induction false} EarlyPrefix(s: string, m: nat)
    requires m <= |s| && Read(s).Some? && Read(s).value in {Start, Sign, Dot}
    ensures Read(s[..m]).Some? && Read(s[..m]).value in {Start, Sign, Dot}
  {
    if m < |s| {
      EarlyPrefix(s[..|s| - 1], m);
      assert s[..|s| - 1][..m] == s[..m];
    } else {
      assert s[..m] == s;
    }
  }

  /** An exponent without digits: the literal ends before its `e`, the first one in the text. */
  lemma DanglingExponent(s: string, end: nat, k: nat)
    requires end <= |s| && Read(s[..end]).Some? && Read(s[..end]).value in {Exp, ExpSign}
    requires forall m | end < m <= |s| :: !IsLiteral(s[..m])
    requires k <= |s| && (k < |s| ==> IsE(s[k])) && forall i | 0 <= i < k :: !IsE(s[i])
    ensures LongestLiteral(s, k) && k > 0
  {
    hide IsLiteral;
    var p := s[..end];
    var e := if Read(p).value == Exp then end - 1 else end - 2;
    assert p[..end - 1] == s[..end - 1];
    if Read(p).value == ExpSign {
      assert s[..end - 1][..end - 2] == s[..end - 2];
    }
    var before := s[..e];
    assert Read(before).Some? && Accepting(Read(before).value) && IsE(s[e]);
    NoEYet(before);
    assert forall i | 0 <= i < e :: before[i] == s[i];
    assert k == e;
    LiteralIsAccepting(before);
    forall m | k < m <= end ensures !IsLiteral(s[..m]) {
      LiteralIsAccepting(s[..m]);
    }
  }

  method FirstE(s: string) returns (k: nat)
    ensures k <= |s| && (forall i | 0 <= i < k :: !IsE(s[i])) && (k < |s| ==> IsE(s[k]))
  {
    k := 0;
    while k < |s| && !IsE(s[k])
      invariant k <= |s| && forall i | 0 <= i < k :: !IsE(s[i])
    {
      k := k + 1;
    }
  }

  /** Fails on what the scanner can read but is no literal: a sign, a point, an exponent without digits. */
  ghost predicate ReadsOnlyLiterals<T>(parse: string -> Option<T>) {
    forall s | Read(s).Some? && !IsLiteral(s) :: parse(s) == None
  }

  /** A prefix of a sign or a point, or both. */
  ghost predicate BareStart(s: string, end: nat) {
    end <= |s| && Read(s[..end]) in {Some(Sign), Some(Dot)}
  }

  /** The result is what the type's own parser makes of the longest literal prefix of the trimmed input.
      Without one, the parser gets a bare sign or point, if the input starts with that; a parser of
      numbers fails on it. */
  method ParseFloatLossy<T>(text: string, parse: string -> Option<T>) returns (r: Option<T>)
    ensures !NoLiteral(Trim(text)) ==>
              exists end: nat :: LongestLiteral(Trim(text), end) && r == parse(Trim(text)[..end])
    ensures NoLiteral(Trim(text)) ==>
              r == None || exists end: nat :: BareStart(Trim(text), end) && r == parse(Trim(text)[..end])
    ensures NoLiteral(Trim(text)) && ReadsOnlyLiterals(parse) ==> r == None
  {
    hide IsLiteral;
    var input := Trim(text);
    var endIdx := 0;
    var hasDecimalPoint, hasExponent, hasDigits := false, false, false;
    ghost var st := Start;
    while endIdx < |input|
      invariant endIdx <= |input| && Read(input[..endIdx]) == Some(st)
      invariant hasExponent <==> st in {Exp, ExpSign, ExpDigits}
      invariant hasDigits <==> Accepting(st)
      invariant !hasExponent ==> (hasDecimalPoint <==> st in {Dot, Frac})
      invariant endIdx == 0 <==> st == Start
      invariant endIdx > 0 ==> (IsE(input[endIdx - 1]) <==> st == Exp)
    {
      var c := input[endIdx];
      assert input[..endIdx + 1][..endIdx] == input[..endIdx];
      if IsDigit(c) {
        hasDigits := true;
      } else if c == '.' && !hasDecimalPoint && !hasExponent {
        hasDecimalPoint := true;
      } else if IsE(c) && hasDigits && !hasExponent {
        hasExponent := true;
        hasDigits := false;
      } else if IsSign(c) && (endIdx == 0 || IsE(input[endIdx - 1])) {
      } else {
        assert Read(input[..endIdx + 1]).None?;
        break;
      }
      st := Next(st, c).value;
      endIdx := endIdx + 1;
    }
    StopFacts(input, endIdx);
    ghost var stop := endIdx;
    if hasExponent && !hasDigits {
      endIdx := FirstE(input);
      DanglingExponent(input, stop, endIdx);
    }
    if endIdx > 0 {
      r := parse(input[..endIdx]);
      assert IsLiteral(input[..endIdx]) ==> LongestLiteral(input, endIdx);
      assert !IsLiteral(input[..endIdx]) ==> BareStart(input, endIdx);
    } else {
      r := None;
    }
  }
}
