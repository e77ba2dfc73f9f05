/**
 * The Python text builtins the loaders rely on: str() of an int, str.zfill
 * and int() of a string. Strings are sequences of characters; only ASCII
 * digits and ASCII whitespace are modelled.
 */
module PyText {
  import opened Wrappers

  predicate IsDigit(c: char) { '0' <= c <= '9' }

  /** The ASCII whitespace that int() strips: space, \t \n \v \f and \r (not the separators \x1c-\x1f). */
  predicate IsSpace(c: char) { c == ' ' || '\t' <= c <= '\r' }

  predicate AllDigits(s: string) { forall i :: 0 <= i < |s| ==> IsDigit(s[i]) }

  predicate AllSpace(s: string) { forall i :: 0 <= i < |s| ==> IsSpace(s[i]) }

  function DigitChar(d: int): (c: char)
    requires 0 <= d < 10
    ensures IsDigit(c) && c as int - '0' as int == d
  {
    ('0' as int + d) as char
  }

  function Pow10(k: nat): (p: nat)
    ensures p >= 1
  {
    if k == 0 then 1 else 10 * Pow10(k - 1)
  }

  /** Decimal digits of n, most significant first. */
  function NatStr(n: nat): (s: string)
    ensures |s| > 0 && AllDigits(s)
    ensures |s| > 1 ==> s[0] != '0'
  {
    if n < 10 then [DigitChar(n)] else NatStr(n / 10) + [DigitChar(n % 10)]
  }

  /**
   * Python's str() of an int: a minus sign exactly for a negative n, then
   * the decimal digits of |n| without a leading zero.
   */
  function IntStr(n: int): (s: string)
    ensures |s| > 0 && (s[0] == '-' <==> n < 0)
    ensures n >= 0 ==> AllDigits(s) && DigitsValue(s) == n && (|s| > 1 ==> s[0] != '0')
    ensures n < 0 ==> |s| > 1 && AllDigits(s[1..]) && DigitsValue(s[1..]) == -n && (|s| > 2 ==> s[1] != '0')
  {
    if n < 0 then
      NatStrValue(-n);
      var d := NatStr(-n);
      assert ("-" + d)[1..] == d;
      "-" + d
    else
      NatStrValue(n);
      NatStr(n)
  }

  /** The value of a string of digits and underscores, the underscores skipped. */
  function DigitsValue(s: string): nat
    requires forall i :: 0 <= i < |s| ==> IsDigit(s[i]) || s[i] == '_'
  {
    if |s| == 0 then 0
    else if s[|s| - 1] == '_' then DigitsValue(s[..|s| - 1])
    else
      assert IsDigit(s[|s| - 1]);
      10 * DigitsValue(s[..|s| - 1]) + (s[|s| - 1] as int - '0' as int)
  }

  lemma {:induction false} NatStrValue(n: nat)
    ensures DigitsValue(NatStr(n)) == n
  {
    if n >= 10 {
      var s := NatStr(n);
      assert s[..|s| - 1] == NatStr(n / 10);
      NatStrValue(n / 10);
    }
  }

  /** str(n) has at most k digits exactly when n is below 10^k. */
  lemma {:induction false} NatStrLength(n: nat, k: nat)
    requires k >= 1
    ensures |NatStr(n)| <= k <==> n < Pow10(k)
  {
    if n >= 10 {
      if k == 1 {
        NatStrLength(n / 10, 1);
      } else {
        NatStrLength(n / 10, k - 1);
      }
    }
  }

  /** str(0) ... str(99) are the digit strings of length one or two without a leading zero. */
  lemma SmallNatStr(n: nat)
    ensures (|NatStr(n)| == 1 <==> n < 10) && (|NatStr(n)| == 2 <==> 10 <= n < 100)
    ensures (|NatStr(n)| == 4 <==> 1000 <= n < 10000)
  {
    NatStrLength(n, 1);
    NatStrLength(n, 2);
    NatStrLength(n, 3);
    NatStrLength(n, 4);
  }

  function Zeros(k: nat): (z: string)
    ensures |z| == k && forall i :: 0 <= i < k ==> z[i] == '0'
  {
    seq(k, _ => '0')
  }

  predicate Unsigned(s: string) { |s| == 0 || (s[0] != '+' && s[0] != '-') }

  /**
   * Python's s.zfill(width). The result is max(width, |s|) long and a string
   * already width long is unchanged. For an unsigned string the result ends
   * with s and everything before s is '0'; for a signed string the sign
   * stays in front and the zeros follow it.
   */
  function ZFill(s: string, width: int): (r: string)
    ensures |r| == (if |s| >= width then |s| else width)
    ensures |s| >= width ==> r == s
    ensures Unsigned(s) ==> r[|r| - |s|..] == s && forall i :: 0 <= i < |r| - |s| ==> r[i] == '0'
    ensures !Unsigned(s) ==> r[0] == s[0] && r[|r| - |s| + 1..] == s[1..]
    ensures !Unsigned(s) ==> forall i :: 1 <= i < |r| - |s| + 1 ==> r[i] == '0'
  {
    if |s| >= width then s
    else if !Unsigned(s) then [s[0]] + Zeros(width - |s|) + s[1..]
    else Zeros(width - |s|) + s
  }

  function TrimLeft(s: string): string {
    if |s| > 0 && IsSpace(s[0]) then TrimLeft(s[1..]) else s
  }

  function TrimRight(s: string): string {
    if |s| > 0 && IsSpace(s[|s| - 1]) then TrimRight(s[..|s| - 1]) else s
  }

  /** Python's s.strip() over the modelled whitespace. */
  function Strip(s: string): string { TrimRight(TrimLeft(s)) }

  /** CPython's default limit on the digits of an int-to-text or text-to-int conversion (sys.get_int_max_str_digits()). */
  const MAX_STR_DIGITS: nat := 4300

  /** The digits of a digit group, its underscores not counted (its leading zeros are). */
  function DigitCount(s: string): nat {
    if |s| == 0 then 0
    else DigitCount(s[..|s| - 1]) + (if s[|s| - 1] == '_' then 0 else 1)
  }

  /** The magnitude of n, whose digits str(n) prints after the sign. */
  function Abs(n: int): nat { if n < 0 then -n else n }

  /**
   * The digit part int() accepts: decimal digits, with single underscores
   * allowed between two digits.
   */
  predicate IsDigitGroup(t: string) {
    && |t| > 0
    && (forall i :: 0 <= i < |t| ==> IsDigit(t[i]) || t[i] == '_')
    && (forall i :: 0 <= i < |t| && t[i] == '_' ==> 0 < i < |t| - 1 && IsDigit(t[i - 1]) && IsDigit(t[i + 1]))
  }

  /**
   * Python's int(s) in base 10; None stands for the ValueError it raises,
   * also for a number of more than MAX_STR_DIGITS digits. A string of
   * whitespace only is rejected, and so is a string holding any character
   * that is neither whitespace, a digit, '_' nor a sign.
   */
  function ParseInt(s: string): (r: Option<int>)
    ensures AllSpace(s) ==> r == None
    ensures forall c :: c in s && !IsSpace(c) && !IsDigit(c) && c != '_' && c != '+' && c != '-' ==> r == None
    ensures r.Some? ==> |NatStr(Abs(r.value))| <= MAX_STR_DIGITS
  {
    StripKeeps(s);
    var t := Strip(s);
    assert |t| > 0 ==> t == [t[0]] + t[1..];
    GroupWithinLimit(t);
    GroupWithinLimit(if |t| > 0 then t[1..] else t);
    if |t| > 0 && (t[0] == '+' || t[0] == '-') then
      if IsDigitGroup(t[1..]) && DigitCount(t[1..]) <= MAX_STR_DIGITS then
        var v: int := DigitsValue(t[1..]);
        Some(if t[0] == '-' then -v else v)
      else None
    else if IsDigitGroup(t) && DigitCount(t) <= MAX_STR_DIGITS then Some(DigitsValue(t))
    else None
  }

  lemma {:induction false} TrimLeftKeeps(s: string, c: char)
    requires c in s && !IsSpace(c)
    ensures c in TrimLeft(s)
  {
    if |s| > 0 && IsSpace(s[0]) {
      assert s == [s[0]] + s[1..];
      TrimLeftKeeps(s[1..], c);
    }
  }

  lemma {:induction false} TrimRightKeeps(s: string, c: char)
    requires c in s && !IsSpace(c)
    ensures c in TrimRight(s)
  {
    if |s| > 0 && IsSpace(s[|s| - 1]) {
      assert s == s[..|s| - 1] + [s[|s| - 1]];
      TrimRightKeeps(s[..|s| - 1], c);
    }
  }

  /** Stripping removes whitespace only: every other character of s stays, and all-whitespace s strips to "". */
  lemma StripKeeps(s: string)
    ensures forall c :: c in s && !IsSpace(c) ==> c in Strip(s)
    ensures AllSpace(s) ==> Strip(s) == ""
  {
    forall c | c in s && !IsSpace(c)
      ensures c in Strip(s)
    {
      TrimLeftKeeps(s, c);
      TrimRightKeeps(TrimLeft(s), c);
    }
    if AllSpace(s) {
      assert s + "" == s;
      TrimLeftSpaces(s, "");
    }
  }

  lemma {:induction false} TrimLeftSpaces(pre: string, u: string)
    requires AllSpace(pre) && (|u| == 0 || !IsSpace(u[0]))
    ensures TrimLeft(pre + u) == u
  {
    if |pre| > 0 {
      assert (pre + u)[1..] == pre[1..] + u;
      TrimLeftSpaces(pre[1..], u);
    } else {
      assert pre + u == u;
    }
  }

  lemma {:induction false} TrimRightSpaces(u: string, post: string)
    requires AllSpace(post) && (|u| == 0 || !IsSpace(u[|u| - 1]))
    ensures TrimRight(u + post) == u
  {
    if |post| > 0 {
      assert (u + post)[..|u + post| - 1] == u + post[..|post| - 1];
      TrimRightSpaces(u, post[..|post| - 1]);
    } else {
      assert u + post == u;
    }
  }

  lemma StripAround(pre: string, u: string, post: string)
    requires AllSpace(pre) && AllSpace(post)
    requires |u| > 0 && !IsSpace(u[0]) && !IsSpace(u[|u| - 1])
    ensures Strip(pre + u + post) == u
  {
    assert pre + u + post == pre + (u + post);
    TrimLeftSpaces(pre, u + post);
    TrimRightSpaces(u, post);
  }

  /** int() does not strip the separators \x1c-\x1f: a header line that starts with one is a ValueError. */
  lemma ParseIntRejectsSeparators(n: int, c: char)
    requires '\U{1C}' <= c <= '\U{1F}'
    ensures ParseInt([c] + IntStr(n) + "\n") == None
  {
    assert c in [c] + IntStr(n) + "\n";
  }

  /** A digit group's value prints with no more digits than the group has (fewer when it has leading zeros). */
  lemma {:induction false} DigitsValueLength(s: string)
    requires forall i :: 0 <= i < |s| ==> IsDigit(s[i]) || s[i] == '_'
    ensures DigitCount(s) == 0 ==> DigitsValue(s) == 0
    ensures DigitCount(s) > 0 ==> |NatStr(DigitsValue(s))| <= DigitCount(s)
  {
    if |s| > 0 {
      var p := s[..|s| - 1];
      DigitsValueLength(p);
      if s[|s| - 1] != '_' {
        var v := DigitsValue(p);
        var n := DigitsValue(s);
        assert n == 10 * v + (s[|s| - 1] as int - '0' as int);
        if n >= 10 {
          assert n / 10 == v && v > 0;
        }
      }
    }
  }

  lemma GroupWithinLimit(t: string)
    ensures IsDigitGroup(t) && DigitCount(t) <= MAX_STR_DIGITS ==> |NatStr(DigitsValue(t))| <= MAX_STR_DIGITS
  {
    if IsDigitGroup(t) {
      DigitsValueLength(t);
    }
  }

  lemma {:induction false} DigitCountOfDigits(s: string)
    requires AllDigits(s)
    ensures DigitCount(s) == |s|
  {
    if |s| > 0 {
      DigitCountOfDigits(s[..|s| - 1]);
    }
  }

  lemma NatStrGroup(m: nat)
    ensures IsDigitGroup(NatStr(m)) && DigitsValue(NatStr(m)) == m
    ensures DigitCount(NatStr(m)) == |NatStr(m)|
  {
    NatStrValue(m);
    DigitCountOfDigits(NatStr(m));
  }

  /**
   * int() reads back what str() writes, whatever ASCII whitespace surrounds it
   * (a line returned by readline keeps its newline), exactly when the number
   * has at most MAX_STR_DIGITS digits; a longer one is a ValueError.
   */
  lemma IntStrRoundTrip(n: int, pre: string, post: string)
    requires AllSpace(pre) && AllSpace(post)
    ensures ParseInt(pre + IntStr(n) + post) == if |NatStr(Abs(n))| <= MAX_STR_DIGITS then Some(n) else None
  {
    var t := IntStr(n);
    StripAround(pre, t, post);
    if n < 0 {
      assert t[0] == '-' && t[1..] == NatStr(-n);
      NatStrGroup(-n);
      assert |NatStr(-n)| <= MAX_STR_DIGITS ==> ParseInt(pre + t + post) == Some(0 - DigitsValue(t[1..]) as int);
    } else {
      NatStrGroup(n);
      assert IsDigit(t[0]);
      assert |NatStr(n)| <= MAX_STR_DIGITS ==> ParseInt(pre + t + post) == Some(DigitsValue(t));
    }
  }
}
