/**
 * The route's arithmetic shortcut `isMathOptimization`: the whole (sanitised) input must be
 * one or more digits, optional whitespace, one of the four operator characters `+ - * /`,
 * optional whitespace and one or more digits (an anchored pattern). The two digit strings
 * are read with `parseFloat` and the operator applied in JavaScript number arithmetic.
 */
module StrictMath {
  import opened Text
  import opened Wrappers

  datatype Op = Add | Sub | Mul | Div

  predicate IsOpChar(c: char) {
    c == '+' || c == '-' || c == '*' || c == '/'
  }

  function OpOf(c: char): Op
    requires IsOpChar(c)
  {
    if c == '+' then Add else if c == '-' then Sub else if c == '*' then Mul else Div
  }

  function OpChar(op: Op): (c: char)
    ensures IsOpChar(c) && OpOf(c) == op
  {
    match op
    case Add => '+'
    case Sub => '-'
    case Mul => '*'
    case Div => '/'
  }

  predicate AllDigits(s: string) {
    forall k :: 0 <= k < |s| ==> IsDigit(s[k])
  }

  /** The pieces the regex captures: both digit strings and the operator. */
  datatype MathMatch = MathMatch(left: string, op: Op, right: string)

  /** Length of the longest all-digit prefix. */
  function DigitPrefixLen(s: string): (n: nat)
    ensures n <= |s|
    ensures AllDigits(s[..n])
    ensures n < |s| ==> !IsDigit(s[n])
  {
    if s == [] || !IsDigit(s[0]) then 0 else 1 + DigitPrefixLen(s[1..])
  }

  /**
   * Matching the anchored pattern. Digits and whitespace are disjoint classes, so the
   * greedy reading below is the only way the pattern can match.
   */
  function MatchMath(s: string): Option<MathMatch> {
    var n := DigitPrefixLen(s);
    if n == 0 then None
    else
      var r := SkipSpace(s[n..]);
      if r == [] || !IsOpChar(r[0]) then None
      else
        var b := SkipSpace(r[1..]);
        if b != [] && AllDigits(b) then Some(MathMatch(s[..n], OpOf(r[0]), b)) else None
  }

  /** Text of the shape the pattern describes, with the given captures. */
  ghost predicate MathShape(s: string, m: MathMatch) {
    exists sp1, sp2 | AllSpace(sp1) && AllSpace(sp2) ::
      s == m.left + (sp1 + ([OpChar(m.op)] + (sp2 + m.right)))
  }

  predicate WellFormed(m: MathMatch) {
    m.left != [] && AllDigits(m.left) && m.right != [] && AllDigits(m.right)
  }

  /** What the matcher returns is a decomposition of the input in the pattern's shape. */
  lemma {:induction false} MatchMathSound(s: string)
    requires MatchMath(s).Some?
    ensures WellFormed(MatchMath(s).value) && MathShape(s, MatchMath(s).value)
  {
    var m := MatchMath(s).value;
    var n := DigitPrefixLen(s);
    var t := s[n..];
    var r := SkipSpace(t);
    var u := r[1..];
    var sp1 := t[..SpacePrefixLen(t)];
    var sp2 := u[..SpacePrefixLen(u)];
    assert m.left == s[..n] && m.right == SkipSpace(u) && r[0] == OpChar(m.op);
    SkipSpaceSplit(t);
    SkipSpaceSplit(u);
    ShapeOf(s, m, n, t, sp1, r, u, sp2);
  }

  lemma {:induction false} ShapeOf(s: string, m: MathMatch, n: nat, t: string, sp1: string, r: string, u: string,
                sp2: string)
    requires n <= |s| && m.left == s[..n] && t == s[n..]
    requires AllSpace(sp1) && t == sp1 + r && r != [] && r[0] == OpChar(m.op) && u == r[1..]
    requires AllSpace(sp2) && u == sp2 + m.right
    ensures MathShape(s, m)
  {
    assert s == m.left + t;
    assert r == [OpChar(m.op)] + u;
  }

  lemma {:induction false} DigitPrefixOf(a: string, t: string)
    requires AllDigits(a) && (t == [] || !IsDigit(t[0]))
    ensures DigitPrefixLen(a + t) == |a|
    decreases |a|
  {
    if a == [] {
      assert a + t == t;
    } else {
      assert (a + t)[1..] == a[1..] + t;
      DigitPrefixOf(a[1..], t);
    }
  }

  /** Every text of the pattern's shape is matched, with exactly its own captures. */
  lemma {:induction false} MatchMathComplete(s: string, m: MathMatch)
    requires WellFormed(m) && MathShape(s, m)
    ensures MatchMath(s) == Some(m)
  {
    var sp1, sp2 :| AllSpace(sp1) && AllSpace(sp2) &&
      s == m.left + (sp1 + ([OpChar(m.op)] + (sp2 + m.right)));
    var c := OpChar(m.op);
    var u := sp2 + m.right;
    var r := [c] + u;
    var t := sp1 + r;
    var n := |m.left|;
    DigitPrefixOf(m.left, t);
    assert s[..n] == m.left && s[n..] == t;
    SkipSpaceOf(sp1, r);
    SkipSpaceOf(sp2, m.right);
    assert r[1..] == u;
    MatchFromParts(s, m, n, t, r, u);
  }

  lemma {:induction false} MatchFromParts(s: string, m: MathMatch, n: nat, t: string, r: string, u: string)
    requires WellFormed(m) && n == |m.left| && DigitPrefixLen(s) == n
    requires n <= |s| && s[..n] == m.left && s[n..] == t
    requires SkipSpace(t) == r && r != [] && r[0] == OpChar(m.op) && r[1..] == u
    requires SkipSpace(u) == m.right
    ensures MatchMath(s) == Some(m)
  {
  }

  // ---------------------------------------------------------------------------------------
  // The value
  // ---------------------------------------------------------------------------------------

  /** A JavaScript number as far as these operations can produce one. */
  datatype JsNumber = Finite(value: real) | Infinity | NaN

  /** `parseFloat` of a digit string: its decimal value (read most significant digit first). */
  function DecVal(s: string): (v: nat)
    requires AllDigits(s)
    decreases |s|
  {
    if s == [] then 0
    else DecVal(s[..|s| - 1]) * 10 + (s[|s| - 1] as int - '0' as int)
  }

  /**
   * The operator applied to two non-negative values. Division by zero gives `Infinity`, and
   * `0 / 0` gives `NaN`; the operands come from digit strings, so no other case arises.
   */
  function Apply(op: Op, x: nat, y: nat): (r: JsNumber)
    ensures r.Finite? <==> op != Div || y != 0
    ensures r == NaN <==> op == Div && x == 0 && y == 0
  {
    match op
    case Add => Finite((x + y) as real)
    case Sub => Finite((x - y) as real)
    case Mul => Finite((x * y) as real)
    case Div => if y != 0 then Finite(x as real / y as real) else if x == 0 then NaN else Infinity
  }

  /** Division by a non-zero number is exact: the quotient times the divisor is the dividend. */
  lemma {:induction false} DivisionExact(x: nat, y: nat)
    requires y != 0
    ensures Apply(Div, x, y).Finite? && Apply(Div, x, y).value * (y as real) == x as real
  {
  }

  /** `isMathOptimization(input)`: the value, or `null` (None) when the input is not of the shape. */
  function IsMathOptimization(s: string): Option<JsNumber> {
    match MatchMath(s)
    case None => None
    case Some(m) =>
      MatchMathSound(s);
      Some(Apply(m.op, DecVal(m.left), DecVal(m.right)))
  }

  /** A value is returned exactly when the input has the pattern's shape. */
  lemma {:induction false} MathShortcutIff(s: string)
    ensures IsMathOptimization(s).Some? <==> exists m :: WellFormed(m) && MathShape(s, m)
  {
    if MatchMath(s).None? {
      NoShapeNoMatch(s);
    } else {
      MatchMathSound(s);
    }
  }

  lemma {:induction false} NoShapeNoMatch(s: string)
    requires MatchMath(s).None?
    ensures !exists m :: WellFormed(m) && MathShape(s, m)
  {
    if exists m :: WellFormed(m) && MathShape(s, m) {
      var m :| WellFormed(m) && MathShape(s, m);
      MatchMathComplete(s, m);
    }
  }

  /** For input of the shape, the shortcut's value is the operator applied to both numbers. */
  lemma {:induction false} MathValue(a: string, sp1: string, op: Op, sp2: string, b: string)
    requires a != [] && AllDigits(a) && b != [] && AllDigits(b)
    requires AllSpace(sp1) && AllSpace(sp2)
    ensures IsMathOptimization(a + (sp1 + ([OpChar(op)] + (sp2 + b))))
            == Some(Apply(op, DecVal(a), DecVal(b)))
  {
    var m := MathMatch(a, op, b);
    var s := a + (sp1 + ([OpChar(op)] + (sp2 + b)));
    assert MathShape(s, m);
    MatchMathComplete(s, m);
  }

  /** `4+4` is answered with 8. */
  lemma {:induction false} ExampleSum(s: string)
    requires s == "4" + "+" + "4"
    ensures IsMathOptimization(s) == Some(Finite(8.0))
  {
    var m := MathMatch("4", Add, "4");
    assert WellFormed(m);
    MatchTight(m);
    assert s == m.left + [OpChar(m.op)] + m.right;
    DigitValue('4');
  }

  /** `9-20` is answered with -11: the difference is not clamped. */
  lemma {:induction false} ExampleDifference(s: string)
    requires s == "9" + "-" + "20"
    ensures IsMathOptimization(s) == Some(Finite(-11.0))
  {
    var m := MathMatch("9", Sub, "20");
    assert WellFormed(m);
    MatchTight(m);
    assert s == m.left + [OpChar(m.op)] + m.right;
    DigitValue('9');
    TwoDigitValue('2', '0');
    assert Apply(Sub, 9, 20) == Finite(-11.0);
  }

  /** Two digits are read as tens and units. */
  lemma {:induction false} TwoDigitValue(c: char, d: char)
    requires IsDigit(c) && IsDigit(d)
    ensures DecVal([c, d]) == (c as int - '0' as int) * 10 + (d as int - '0' as int)
  {
    assert [c, d][..1] == [c];
    DigitValue(c);
  }

  /** Operands and operator written without spaces are matched as themselves. */
  lemma {:induction false} MatchTight(m: MathMatch)
    requires WellFormed(m)
    ensures MatchMath(m.left + [OpChar(m.op)] + m.right) == Some(m)
  {
    var none: string := [];
    var s := m.left + [OpChar(m.op)] + m.right;
    assert AllSpace(none);
    assert s == m.left + (none + ([OpChar(m.op)] + (none + m.right)));
    MatchMathComplete(s, m);
  }

  /** A single digit is read as its value. */
  lemma {:induction false} DigitValue(c: char)
    requires IsDigit(c)
    ensures DecVal([c]) == c as int - '0' as int
  {
    assert [c][..0] == [];
  }

  lemma {:induction false} ExampleChain()
    ensures IsMathOptimization("4+4+4") == None
  {
    var s := "4+4+4";
    assert DigitPrefixLen(s) == 1 by {
      assert s[1..] == "+4+4";
    }
    assert SkipSpace(s[1..]) == "+4+4" by {
      assert SpacePrefixLen("+4+4") == 0;
    }
    assert SkipSpace("4+4") == "4+4" by {
      assert SpacePrefixLen("4+4") == 0;
    }
    assert "+4+4"[1..] == "4+4";
    assert !IsDigit("4+4"[1]);
  }
}
