/** The parts of Python's `str` and `int` that the model needs. */
module Text {
  import opened Outcomes

  /** `str.isspace` for one character. */
  predicate IsSpace(c: char) {
    || '\t' <= c <= '\r' || '\U{1C}' <= c <= '\U{20}' || c == '\U{85}' || c == '\U{A0}' || c == '\U{1680}'
    || '\U{2000}' <= c <= '\U{200A}' || c == '\U{2028}' || c == '\U{2029}' || c == '\U{202F}'
    || c == '\U{205F}' || c == '\U{3000}'
  }

  /** Whether `not text or not text.strip()`. */
  predicate IsBlank(s: string) {
    forall i :: 0 <= i < |s| ==> IsSpace(s[i])
  }

  function Strip(s: string): string {
    if s != "" && IsSpace(s[0]) then Strip(s[1..])
    else if s != "" && IsSpace(s[|s| - 1]) then Strip(s[..|s| - 1])
    else s
  }

  predicate IsDigit(c: char) {
    '0' <= c <= '9'
  }

  function Digit(d: nat): (c: char)
    requires d < 10
    ensures IsDigit(c)
  {
    ('0' as int + d) as char
  }

  function DigitValue(c: char): (d: nat)
    requires IsDigit(c)
    ensures d < 10
  {
    c as int - '0' as int
  }

  function ShowNat(n: nat): (s: string)
    ensures s != "" && forall i :: 0 <= i < |s| ==> IsDigit(s[i])
  {
    if n < 10 then [Digit(n)] else ShowNat(n / 10) + [Digit(n % 10)]
  }

  /** `str(n)`. */
  function Show(n: int): string {
    if n < 0 then "-" + ShowNat(-n) else ShowNat(n)
  }

  /** Digits, with single underscores allowed between two digits. */
  function ParseNat(s: string): Option<int> {
    if s == "" || !IsDigit(s[|s| - 1]) then None
    else if |s| == 1 then Some(DigitValue(s[0]))
    else
      match ParseNat(if s[|s| - 2] == '_' then s[..|s| - 2] else s[..|s| - 1])
      case None => None
      case Some(high) => Some(10 * high + DigitValue(s[|s| - 1]))
  }

  /** `int(s)`; None stands for the ValueError. */
  function ParseInt(s: string): Option<int> {
    var t := Strip(s);
    if t != "" && t[0] == '-' then
      match ParseNat(t[1..])
      case None => None
      case Some(n) => Some(-n)
    else ParseNat(if t != "" && t[0] == '+' then t[1..] else t)
  }

  lemma {:induction false} ParseShowNat(n: nat)
    ensures ParseNat(ShowNat(n)) == Some(n)
  {
    if n >= 10 {
      ParseShowNat(n / 10);
      var high, s := ShowNat(n / 10), ShowNat(n);
      assert s[|s| - 2] == high[|high| - 1];
      assert s[..|s| - 1] == high;
      assert 10 * (n / 10) + n % 10 == n;
    }
  }

  /** `int(str(n)) == n` for every integer. */
  lemma ParseShow(n: int)
    ensures ParseInt(Show(n)) == Some(n)
  {
    ParseShowNat(if n < 0 then -n else n);
    assert Strip(Show(n)) == Show(n);
  }

  lemma ShowZero()
    ensures Show(0) == "0" && ParseInt("0") == Some(0)
  {
    assert Show(0) == [Digit(0)];
    ParseShow(0);
  }

  /** Numbers are written in decimal: the digits of n / 10, then the last one; a minus sign in front of negative ones. */
  lemma ShowDecimal(n: nat)
    ensures n < 10 ==> Show(n) == ["0123456789"[n]]
    ensures n >= 10 ==> Show(n) == Show(n / 10) + Show(n % 10)
    ensures n > 0 ==> Show(0 - n) == "-" + Show(n)
  {
  }

  lemma {:induction false} StripFront(pad: string, s: string)
    requires IsBlank(pad)
    ensures Strip(pad + s) == Strip(s)
  {
    if pad == "" {
      assert pad + s == s;
    } else {
      assert (pad + s)[1..] == pad[1..] + s;
      StripFront(pad[1..], s);
    }
  }

  lemma {:induction false} StripBack(s: string, pad: string)
    requires s != "" && !IsSpace(s[0]) && IsBlank(pad)
    ensures Strip(s + pad) == Strip(s)
  {
    if pad == "" {
      assert s + pad == s;
    } else {
      var t := s + pad;
      assert t[0] == s[0] && t[|t| - 1] == pad[|pad| - 1];
      assert t[..|t| - 1] == s + pad[..|pad| - 1];
      StripBack(s, pad[..|pad| - 1]);
    }
  }

  /** White space around a number is ignored. */
  lemma ParsePadded(before: string, n: int, after: string)
    requires IsBlank(before) && IsBlank(after)
    ensures ParseInt(before + Show(n) + after) == Some(n)
  {
    assert before + Show(n) + after == before + (Show(n) + after);
    StripFront(before, Show(n) + after);
    StripBack(Show(n), after);
    ParseShow(n);
  }

  lemma UnderscoreNat(s: string, n: nat, d: nat)
    requires ParseNat(s) == Some(n) && d < 10
    ensures ParseNat(s + "_" + [Digit(d)]) == Some(10 * n + d)
  {
    var t := s + "_" + [Digit(d)];
    assert t[|t| - 1] == Digit(d) && t[|t| - 2] == '_' && t[..|t| - 2] == s;
    DigitReads(d);
  }

  lemma DigitReads(d: nat)
    requires d < 10
    ensures DigitValue(Digit(d)) == d && !IsSpace(Digit(d)) && Show(d) == [Digit(d)]
  {
  }

  lemma StripNothing(s: string)
    requires s != "" && !IsSpace(s[0]) && !IsSpace(s[|s| - 1])
    ensures Strip(s) == s
  {
  }

  /** A plus sign in front and an underscore between two digits are accepted. */
  lemma ParseSeparated(n: nat, d: nat)
    requires d < 10
    ensures ParseInt("+" + Show(n)) == Some(n)
    ensures ParseInt(Show(n) + "_" + Show(d)) == Some(10 * n + d)
  {
    var digits := ShowNat(n);
    ParseShowNat(n);
    DigitReads(d);
    UnderscoreNat(digits, n, d);
    var plus, parts := "+" + digits, digits + "_" + [Digit(d)];
    assert Show(n) == digits;
    assert plus[1..] == digits && plus[|plus| - 1] == digits[|digits| - 1];
    assert parts[0] == digits[0] && parts[|parts| - 1] == Digit(d);
    StripNothing(plus);
    StripNothing(parts);
    hide Show, ShowNat, ParseNat, Strip;
  }

  lemma {:induction false} NatAlphabet(s: string)
    requires ParseNat(s).Some?
    ensures forall i :: 0 <= i < |s| ==> '0' <= s[i] <= '9' || s[i] == '_'
  {
    if |s| > 1 {
      NatAlphabet(if s[|s| - 2] == '_' then s[..|s| - 2] else s[..|s| - 1]);
    }
  }

  lemma {:induction false} StripOnlySpaces(s: string)
    ensures forall i :: 0 <= i < |s| ==> IsSpace(s[i]) || s[i] in Strip(s)
  {
    if s != "" && IsSpace(s[0]) {
      StripOnlySpaces(s[1..]);
      assert forall i :: 0 < i < |s| ==> s[i] == s[1..][i - 1];
    } else if s != "" && IsSpace(s[|s| - 1]) {
      StripOnlySpaces(s[..|s| - 1]);
      assert forall i :: 0 <= i < |s| - 1 ==> s[i] == s[..|s| - 1][i];
    }
  }

  /** Nothing but digits, underscores, signs and white space is ever accepted, and never a blank text. */
  lemma {:induction false} ParseAlphabet(s: string)
    requires ParseInt(s).Some?
    ensures forall i :: 0 <= i < |s| ==> '0' <= s[i] <= '9' || s[i] in "_+-" || IsSpace(s[i])
    ensures !IsBlank(s)
  {
    StripOnlySpaces(s);
    BlankIff(s);
    var t := Strip(s);
    if t != "" && (t[0] == '-' || t[0] == '+') {
      NatAlphabet(t[1..]);
      assert forall i :: 0 < i < |t| ==> t[i] == t[1..][i - 1];
    } else {
      NatAlphabet(t);
    }
    assert forall c :: c in t ==> '0' <= c <= '9' || c in "_+-";
  }

  /** A text is blank if and only if stripping leaves nothing. */
  lemma {:induction false} BlankIff(s: string)
    ensures IsBlank(s) <==> Strip(s) == ""
  {
    if s != "" && IsSpace(s[0]) {
      BlankIff(s[1..]);
      assert forall i :: 0 < i < |s| ==> s[i] == s[1..][i - 1];
      assert forall i :: 0 <= i < |s[1..]| ==> s[1..][i] == s[i + 1];
    } else if s != "" && IsSpace(s[|s| - 1]) {
      BlankIff(s[..|s| - 1]);
      assert s[..|s| - 1][0] == s[0];
    }
  }

  /** White space among the ASCII characters. */
  lemma AsciiSpaces(c: char)
    requires c < 128 as char
    ensures IsSpace(c) <==> c in "\t\n\U{0B}\U{0C}\r\U{1C}\U{1D}\U{1E}\U{1F} "
  {
    if c in "\t\n\U{0B}\U{0C}\r" {
    }
  }
}
