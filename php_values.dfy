/**
  The few PHP scalar conversions the module relies on: `ctype_digit`, the
  `(int)` cast of a string, `explode(' ', ...)` and `empty()` truthiness.
 */
module PhpValues {

  predicate IsDigit(c: char) {
    '0' <= c <= '9'
  }

  predicate AllDigits(s: string) {
    forall i :: 0 <= i < |s| ==> IsDigit(s[i])
  }

  /** `ctype_digit($s)`: a non-empty string made of decimal digits only. */
  predicate IsDigits(s: string) {
    |s| > 0 && AllDigits(s)
  }

  /** The decimal value of a string of digits. */
  function DigitsValue(s: string): nat
    requires AllDigits(s)
  {
    if s == [] then 0 else DigitsValue(s[..|s| - 1]) * 10 + (s[|s| - 1] as int - '0' as int)
  }

  /** The longest prefix of `s` made of digits. */
  function DigitPrefix(s: string): (r: string)
    ensures r <= s && AllDigits(r)
    ensures |r| < |s| ==> !IsDigit(s[|r|])
    ensures AllDigits(s) ==> r == s
  {
    if s == [] || !IsDigit(s[0]) then [] else [s[0]] + DigitPrefix(s[1..])
  }

  /** The characters PHP skips in front of a numeric string. */
  predicate IsSpace(c: char) {
    c == ' ' || c == '\t' || c == '\n' || c == '\r' || c == 11 as char || c == 12 as char
  }

  /** `s` without its leading white space: what is skipped is all white
      space, and what is left does not start with any. */
  function TrimLeadingSpace(s: string): (r: string)
    ensures |r| <= |s| && r == s[|s| - |r|..]
    ensures forall i :: 0 <= i < |s| - |r| ==> IsSpace(s[i])
    ensures |r| > 0 ==> !IsSpace(r[0])
    ensures s != [] && !IsSpace(s[0]) ==> r == s
  {
    if s != [] && IsSpace(s[0]) then
      var rest := TrimLeadingSpace(s[1..]);
      assert forall i :: 1 <= i < |s| - |rest| ==> s[i] == s[1..][i - 1];
      rest
    else s
  }

  /** `(int) $s` for a string: optional leading white space, an optional sign,
      then the leading run of digits; 0 when there are none. */
  function IntCast(s: string): (r: int)
    ensures IsDigits(s) ==> r == DigitsValue(s)
    ensures |s| > 0 && s[0] == '-' && AllDigits(s[1..]) ==> r == 0 - DigitsValue(s[1..])
    ensures |s| > 0 && s[0] == '+' && AllDigits(s[1..]) ==> r == DigitsValue(s[1..])
  {
    var t := TrimLeadingSpace(s);
    if |t| > 0 && t[0] == '-' then 0 - DigitsValue(DigitPrefix(t[1..]))
    else if |t| > 0 && t[0] == '+' then DigitsValue(DigitPrefix(t[1..]))
    else DigitsValue(DigitPrefix(t))
  }

  /** A PHP scalar as found in a configuration array: an int or a string. */
  datatype Scalar = IntVal(i: int) | StrVal(s: string)

  /** `(int) $x` */
  function ToInt(x: Scalar): int {
    match x
    case IntVal(i) => i
    case StrVal(s) => IntCast(s)
  }

  /** `explode(' ', $s)`: the pieces between single spaces, empty pieces kept. */
  function Explode(s: string): (parts: seq<string>)
    ensures |parts| >= 1
    ensures forall i :: 0 <= i < |parts| ==> ' ' !in parts[i]
  {
    if s == [] then [""]
    else
      var rest := Explode(s[1..]);
      if s[0] == ' ' then [""] + rest else [[s[0]] + rest[0]] + rest[1..]
  }

  /** `implode(' ', $parts)`, the inverse of Explode. */
  function Implode(parts: seq<string>): string
    requires |parts| >= 1
  {
    if |parts| == 1 then parts[0] else parts[0] + " " + Implode(parts[1..])
  }

  /** Splitting a space-separated list and joining it again gives back the list. */
  lemma {:induction false} ImplodeExplode(s: string)
    ensures Implode(Explode(s)) == s
  {
    if s != [] {
      var rest := Explode(s[1..]);
      ImplodeExplode(s[1..]);
      if s[0] == ' ' {
        assert Explode(s) == [""] + rest;
        assert Explode(s)[1..] == rest;
      } else {
        var parts := [[s[0]] + rest[0]] + rest[1..];
        assert Explode(s) == parts;
        if |rest| == 1 {
          assert Implode(parts) == [s[0]] + rest[0];
        } else {
          assert parts[1..] == rest[1..];
          assert Implode(parts) == [s[0]] + (rest[0] + " " + Implode(rest[1..]));
        }
      }
    }
  }

  /** Pieces without spaces, joined with single spaces and split again, come
      back as they were: the other half of the round trip. */
  lemma {:induction false} ExplodeImplode(parts: seq<string>)
    requires |parts| >= 1
    requires forall i :: 0 <= i < |parts| ==> ' ' !in parts[i]
    ensures Explode(Implode(parts)) == parts
  {
    if |parts| == 1 {
      ExplodeWhole(parts[0]);
    } else {
      ExplodeImplode(parts[1..]);
      ExplodeFirst(parts[0], Implode(parts[1..]));
      assert parts == [parts[0]] + parts[1..];
    }
  }

  /** A string without spaces is a single piece. */
  lemma {:induction false} ExplodeWhole(piece: string)
    requires ' ' !in piece
    ensures Explode(piece) == [piece]
  {
    if piece != [] {
      ExplodeWhole(piece[1..]);
      assert piece == [piece[0]] + piece[1..];
    }
  }

  /** A string without spaces followed by a space is the first piece, and the
      rest is split on its own. */
  lemma {:induction false} ExplodeFirst(piece: string, rest: string)
    requires ' ' !in piece
    ensures Explode(piece + " " + rest) == [piece] + Explode(rest)
  {
    var s := piece + " " + rest;
    if piece == [] {
      assert s == [' '] + rest;
      assert s[1..] == rest;
    } else {
      assert s[1..] == piece[1..] + " " + rest;
      ExplodeFirst(piece[1..], rest);
      assert s[0] == piece[0];
      assert piece == [piece[0]] + piece[1..];
    }
  }

  /** `empty($x)` for the string and array shapes a configuration value takes. */
  predicate EmptyString(s: string) {
    s == "" || s == "0"
  }
}
