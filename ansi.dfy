/**
 * ANSI "Select Graphic Rendition" escape sequences as the renderers write
 * them with `write!`: `ESC [ p1 ; p2 ; ... m`, each parameter in decimal,
 * and the style reset `ESC [ 0 m`. A parser for the same shape shows that
 * the numbers written into a sequence can be read back from it.
 */
module Ansi {

  const Esc: char := '\U{1B}'

  /** `\x1b[0m`, which ends every line (and in two renderers every cell). */
  const Reset: string := [Esc, '[', '0', 'm']

  datatype Option<T> = None | Some(value: T)

  /** A line closed by the style reset. */
  predicate EndsWithReset(s: string) {
    |s| >= |Reset| && s[|s| - |Reset|..] == Reset
  }

  lemma ResetEnds(s: string)
    ensures EndsWithReset(s + Reset)
  {
    assert (s + Reset)[|s|..] == Reset;
  }

  /** Every line is closed by the style reset. */
  predicate AllClosed(lines: seq<string>) {
    forall i :: 0 <= i < |lines| ==> EndsWithReset(lines[i])
  }

  /** Closing a line and putting it in front of closed lines adds one closed line. */
  lemma ConsLine(lines: seq<string>, row: string, rest: seq<string>)
    requires lines == [row + Reset] + rest && AllClosed(rest)
    ensures |lines| == |rest| + 1 && AllClosed(lines)
  {
    ResetEnds(row);
  }

  /** Closing a line and putting it after closed lines adds one closed line. */
  lemma SnocLine(lines: seq<string>, done: seq<string>, row: string)
    requires lines == done + [row + Reset] && AllClosed(done)
    ensures |lines| == |done| + 1 && AllClosed(lines)
  {
    ResetEnds(row);
  }

  predicate IsDigit(c: char) {
    '0' <= c <= '9'
  }

  predicate AllDigits(s: string) {
    forall i :: 0 <= i < |s| ==> IsDigit(s[i])
  }

  function DigitChar(d: int): (c: char)
    requires 0 <= d < 10
    ensures IsDigit(c) && c as int - '0' as int == d
  {
    ('0' as int + d) as char
  }

  /** The `{}` formatting of an unsigned integer: decimal, no leading zeros. */
  function Decimal(n: nat): (s: string)
    ensures 1 <= |s| && AllDigits(s)
    ensures |s| > 1 ==> s[0] != '0'
  {
    if n < 10 then [DigitChar(n)] else Decimal(n / 10) + [DigitChar(n % 10)]
  }

  /** The number a string of decimal digits denotes. */
  function DigitsValue(s: string): nat
    requires AllDigits(s)
  {
    if s == [] then 0 else DigitsValue(s[..|s| - 1]) * 10 + (s[|s| - 1] as int - '0' as int)
  }

  lemma {:induction false} DecimalRoundTrip(n: nat)
    ensures DigitsValue(Decimal(n)) == n
  {
    if n >= 10 {
      DecimalRoundTrip(n / 10);
      var s := Decimal(n);
      assert s[..|s| - 1] == Decimal(n / 10);
    }
  }

  /** The parameters joined by `;`. */
  function Join(ps: seq<nat>): (s: string)
    requires |ps| >= 1
  {
    if |ps| == 1 then Decimal(ps[0]) else Decimal(ps[0]) + ";" + Join(ps[1..])
  }

  /** `ESC [ p1;...;pn m`. */
  function Sgr(ps: seq<nat>): (s: string)
    requires |ps| >= 1
    ensures |s| >= 4 && s[0] == Esc && s[1] == '[' && s[|s| - 1] == 'm'
  {
    [Esc, '['] + Join(ps) + "m"
  }

  /** The length of the leading run of digits. */
  function SpanDigits(s: string): (k: nat)
    ensures k <= |s| && AllDigits(s[..k])
    ensures k < |s| ==> !IsDigit(s[k])
  {
    if s != [] && IsDigit(s[0]) then
      var k := 1 + SpanDigits(s[1..]);
      assert s[..k] == [s[0]] + s[1..][..k - 1];
      k
    else 0
  }

  /** Reads `p1;...;pn m` from the front of `s`, returning the parameters and the rest. */
  function ParseParams(s: string): Option<(seq<nat>, string)>
    decreases |s|
  {
    var k := SpanDigits(s);
    if k == 0 || k == |s| then None
    else if s[k] == 'm' then Some(([DigitsValue(s[..k])], s[k + 1..]))
    else if s[k] == ';' then
      match ParseParams(s[k + 1..])
      case None => None
      case Some((ps, rest)) => Some(([DigitsValue(s[..k])] + ps, rest))
    else None
  }

  /** Reads one escape sequence from the front of `s`. */
  function ParseSgr(s: string): Option<(seq<nat>, string)> {
    if |s| >= 2 && s[0] == Esc && s[1] == '[' then ParseParams(s[2..]) else None
  }

  lemma {:induction false} SpanOfDigits(d: string, t: string)
    requires AllDigits(d)
    requires t == [] || !IsDigit(t[0])
    ensures SpanDigits(d + t) == |d|
  {
    if d != [] {
      assert (d + t)[1..] == d[1..] + t;
      SpanOfDigits(d[1..], t);
    }
  }

  /** One parameter, then the separator that follows it. */
  lemma ParseAfterDigits(d: string, sep: char, tail: string)
    requires 1 <= |d| && AllDigits(d) && (sep == 'm' || sep == ';')
    ensures sep == 'm' ==> ParseParams(d + [sep] + tail) == Some(([DigitsValue(d)], tail))
    ensures sep == ';' ==>
              ParseParams(d + [sep] + tail) ==
              (match ParseParams(tail)
               case None => None
               case Some((ps, rest)) => Some(([DigitsValue(d)] + ps, rest)))
  {
    var s := d + [sep] + tail;
    assert s == d + ([sep] + tail);
    SpanOfDigits(d, [sep] + tail);
    assert s[..|d|] == d && s[|d|] == sep && s[|d| + 1..] == tail;
  }

  lemma {:induction false} ParseJoin(ps: seq<nat>, rest: string)
    requires |ps| >= 1
    ensures ParseParams(Join(ps) + "m" + rest) == Some((ps, rest))
  {
    var d := Decimal(ps[0]);
    DecimalRoundTrip(ps[0]);
    if |ps| == 1 {
      ParseAfterDigits(d, 'm', rest);
      assert [ps[0]] == ps;
    } else {
      var tail := Join(ps[1..]) + "m" + rest;
      assert Join(ps) + "m" + rest == d + [';'] + tail;
      ParseAfterDigits(d, ';', tail);
      ParseJoin(ps[1..], rest);
      assert [ps[0]] + ps[1..] == ps;
    }
  }

  /** Whatever follows it, an escape sequence gives back exactly its parameters. */
  lemma SgrRoundTrip(ps: seq<nat>, rest: string)
    requires |ps| >= 1
    ensures ParseSgr(Sgr(ps) + rest) == Some((ps, rest))
  {
    var s := Sgr(ps) + rest;
    assert s[2..] == Join(ps) + "m" + rest;
    ParseJoin(ps, rest);
  }
}
