/** Text handling the quantity library relies on: decimal rendering and reading of
    integers, the float-literal reading of exponents, whitespace trimming, lower-casing
    and splitting on a separator. */
module Text {

  datatype Option<+T> = None | Some(value: T)

  // ---------------------------------------------------------------------------
  // Digits and decimal numbers

  predicate IsDigit(c: char) {
    '0' <= c <= '9'
  }

  predicate AllDigits(s: string) {
    forall i :: 0 <= i < |s| ==> IsDigit(s[i])
  }

  function DigitChar(d: nat): (c: char)
    requires d < 10
    ensures IsDigit(c)
  {
    (d + '0' as int) as char
  }

  function DigitValue(c: char): (d: nat)
    requires IsDigit(c)
    ensures d < 10 && DigitChar(d) == c
  {
    c as int - '0' as int
  }

  /** The number a string of decimal digits denotes; the empty string denotes 0. */
  function DigitsValue(s: string): nat
    requires AllDigits(s)
    decreases |s|
  {
    if |s| == 0 then 0 else DigitsValue(s[..|s| - 1]) * 10 + DigitValue(s[|s| - 1])
  }

  /** Decimal text of a natural number, as Rust's `Display` writes it. */
  function NatToString(n: nat): (s: string)
    ensures |s| > 0 && AllDigits(s)
    ensures DigitsValue(s) == n
    ensures s[0] == '0' ==> n == 0
    decreases n
  {
    if n < 10 then [DigitChar(n)]
    else
      var prefix := NatToString(n / 10);
      var s := prefix + [DigitChar(n % 10)];
      assert s[..|s| - 1] == prefix;
      s
  }

  /** Decimal text of an integer: a '-' before the digits of a negative one. */
  function IntToString(i: int): (s: string)
    ensures |s| > 0
    ensures forall k :: 0 <= k < |s| ==> IsDigit(s[k]) || s[k] == '-'
    ensures IsDigit(s[0]) <==> i >= 0
  {
    if i < 0 then "-" + NatToString(-i) else NatToString(i)
  }

  /** Reads a string of one or more decimal digits. */
  function ParseNat(s: string): (r: Option<nat>)
    ensures r.Some? <==> |s| > 0 && AllDigits(s)
  {
    if |s| > 0 && AllDigits(s) then Some(DigitsValue(s)) else None
  }

  /** Reads a signed decimal integer literal, an optional '+' or '-' followed by
      one or more digits, as Rust's integer `FromStr` does (width aside). */
  function ParseInt(s: string): (r: Option<int>)
    ensures r.Some? ==> |s| > 0 && forall k :: 0 <= k < |s| ==> IsDigit(s[k]) || s[k] == '-' || s[k] == '+'
  {
    if |s| > 0 && s[0] == '-' then
      match ParseNat(s[1..])
      case Some(n) => Some(-(n as int))
      case None => None
    else if |s| > 0 && s[0] == '+' then
      match ParseNat(s[1..])
      case Some(n) => Some(n)
      case None => None
    else
      match ParseNat(s)
      case Some(n) => Some(n)
      case None => None
  }

  /** The text after an optional leading '+' or '-'. */
  function Unsigned(s: string): string
  {
    if |s| > 0 && (s[0] == '-' || s[0] == '+') then s[1..] else s
  }

  /** An integer literal: an optional sign followed by one or more digits. */
  predicate IntLiteral(s: string) {
    |Unsigned(s)| > 0 && AllDigits(Unsigned(s))
  }

  /** The integer reader accepts exactly the integer literals. */
  lemma ParseIntAccepts(s: string)
    ensures ParseInt(s).Some? <==> IntLiteral(s)
  {
  }

  lemma {:induction false} ParseIntToString(i: int)
    ensures ParseInt(IntToString(i)) == Some(i)
  {
    if i < 0 {
      var s := IntToString(i);
      assert s[1..] == NatToString(-i);
    }
  }

  /** What a decimal float literal denotes, as far as an integer exponent cares:
      an integral value, or a value with a fractional part. */
  datatype Number = Integral(value: int) | Fractional

  predicate AllZeros(s: string) {
    forall i :: 0 <= i < |s| ==> s[i] == '0'
  }

  /** Reads a decimal float literal: an optional sign, then digits with at most one
      '.', and at least one digit in all. The literal is integral when every digit
      after the point is a zero. */
  function ParseFloatLiteral(s: string): (r: Option<Number>)
    ensures r.Some? ==> |s| > 0
    ensures r.Some? ==> forall k :: 0 <= k < |s| ==> IsDigit(s[k]) || s[k] == '.' || s[k] == '-' || s[k] == '+'
  {
    var negative := |s| > 0 && s[0] == '-';
    var body := if |s| > 0 && (s[0] == '-' || s[0] == '+') then s[1..] else s;
    match SplitOnce(body, ".")
    case None =>
      if |body| > 0 && AllDigits(body) then
        Some(Integral(if negative then -(DigitsValue(body) as int) else DigitsValue(body)))
      else None
    case Some((whole, fraction)) =>
      if AllDigits(whole) && AllDigits(fraction) && |whole| + |fraction| > 0 then
        if AllZeros(fraction) then
          Some(Integral(if negative then -(DigitsValue(whole) as int) else DigitsValue(whole)))
        else Some(Fractional)
      else None
  }

  /** A float literal: an optional sign, then digits and points with at most one
      point and at least one digit. */
  predicate FloatLiteral(s: string) {
    var body := Unsigned(s);
    && (forall i :: 0 <= i < |body| ==> IsDigit(body[i]) || body[i] == '.')
    && (forall i, j :: 0 <= i < j < |body| && body[i] == '.' ==> body[j] != '.')
    && (exists i :: 0 <= i < |body| && IsDigit(body[i]))
  }

  /** The float reader accepts exactly the float literals. */
  lemma ParseFloatAccepts(s: string)
    ensures ParseFloatLiteral(s).Some? <==> FloatLiteral(s)
  {
    var body := Unsigned(s);
    match SplitOnce(body, ".")
    case None =>
      forall p | 0 <= p < |body| ensures body[p] != '.' {
        assert !OccursAt(body, ".", p);
        assert body[p..p + 1] == [body[p]];
      }
      if FloatLiteral(s) {
        var i :| 0 <= i < |body| && IsDigit(body[i]);
      }
    case Some((whole, fraction)) =>
      var p := |whole|;
      assert Find(body, ".") == Some(p);
      assert body[p] == '.' by { assert body[p..p + 1] == "."; }
      assert Lacks(whole, '.') by {
        forall j | 0 <= j < p ensures whole[j] != '.' {
          assert !OccursAt(body, ".", j);
          assert body[j..j + 1] == [whole[j]];
        }
      }
      forall j | 0 <= j < p ensures body[j] == whole[j] {}
      forall j | 0 <= j < |fraction| ensures body[p + 1 + j] == fraction[j] {}
      if FloatLiteral(s) {
        assert AllDigits(whole) by {
          forall j | 0 <= j < p ensures IsDigit(whole[j]) {
            assert body[j] == whole[j];
          }
        }
        assert AllDigits(fraction) by {
          forall j | 0 <= j < |fraction| ensures IsDigit(fraction[j]) {
            assert body[p + 1 + j] != '.';
          }
        }
        var i :| 0 <= i < |body| && IsDigit(body[i]);
        assert i != p;
      }
      if AllDigits(whole) && AllDigits(fraction) && |whole| + |fraction| > 0 {
        forall i | 0 <= i < |body| ensures IsDigit(body[i]) || body[i] == '.' {
          if i > p { assert body[i] == fraction[i - p - 1]; }
        }
        forall i, j | 0 <= i < j < |body| && body[i] == '.' ensures body[j] != '.' {
          assert i == p;
          assert body[j] == fraction[j - p - 1];
        }
        if p > 0 {
          assert IsDigit(body[0]);
        } else {
          assert IsDigit(body[p + 1]);
        }
      }
  }

  /** A literal with a point is fractional exactly when a digit after the point
      is not zero. */
  lemma PointLiteral(whole: string, fraction: string)
    requires AllDigits(whole) && AllDigits(fraction) && |whole| + |fraction| > 0
    ensures ParseFloatLiteral(whole + "." + fraction) ==
      if AllZeros(fraction) then Some(Integral(DigitsValue(whole))) else Some(Fractional)
    ensures Lacks(whole + "." + fraction, ')')
  {
    var s := whole + "." + fraction;
    PointLiteralChars(whole, fraction);
    assert s[0] != '-' && s[0] != '+';
    SplitOnceAfterClean(whole, ".", fraction);
    UnsignedPointLiteral(s, whole, fraction);
  }

  /** An unsigned literal that the first point cuts into digits and digits. */
  lemma UnsignedPointLiteral(s: string, whole: string, fraction: string)
    requires |s| > 0 && s[0] != '-' && s[0] != '+'
    requires SplitOnce(s, ".") == Some((whole, fraction))
    requires AllDigits(whole) && AllDigits(fraction) && |whole| + |fraction| > 0
    ensures ParseFloatLiteral(s) ==
      if AllZeros(fraction) then Some(Integral(DigitsValue(whole))) else Some(Fractional)
  {
  }

  /** Digits around a point are digits or the point. */
  lemma PointLiteralChars(whole: string, fraction: string)
    requires AllDigits(whole) && AllDigits(fraction)
    ensures var s := whole + "." + fraction;
      forall i :: 0 <= i < |s| ==> IsDigit(s[i]) || s[i] == '.'
  {
    var s := whole + "." + fraction;
    forall i | 0 <= i < |s| ensures IsDigit(s[i]) || s[i] == '.' {
      if i > |whole| { assert s[i] == fraction[i - |whole| - 1]; }
      if i < |whole| { assert s[i] == whole[i]; }
    }
  }

  /** A run of digits is an integral float literal with their value. */
  lemma DigitsLiteral(s: string)
    requires |s| > 0 && AllDigits(s)
    ensures ParseFloatLiteral(s) == Some(Integral(DigitsValue(s)))
  {
    NoOccurrence(s, ".");
  }

  /** Every integer literal is a float literal with the same, integral, value. */
  lemma IntegerLiteralIsFloatLiteral(s: string)
    requires ParseInt(s).Some?
    ensures ParseFloatLiteral(s) == Some(Integral(ParseInt(s).value))
  {
    var body := if |s| > 0 && (s[0] == '-' || s[0] == '+') then s[1..] else s;
    assert AllDigits(body);
    NoOccurrence(body, ".");
  }

  // ---------------------------------------------------------------------------
  // Searching and splitting

  predicate IsAsciiLetter(c: char) {
    'a' <= c <= 'z' || 'A' <= c <= 'Z'
  }

  /** A non-empty run of ASCII letters. */
  predicate IsWord(s: string) {
    |s| > 0 && forall i :: 0 <= i < |s| ==> IsAsciiLetter(s[i])
  }

  /** No character of `s` is `c`. */
  predicate Lacks(s: string, c: char) {
    forall i :: 0 <= i < |s| ==> s[i] != c
  }

  /** `pat` occurs in `s` starting at index `j`. */
  predicate OccursAt(s: string, pat: string, j: int) {
    0 <= j && j + |pat| <= |s| && s[j..j + |pat|] == pat
  }

  /** The index of the first occurrence of `pat` in `s` at or after `from`. */
  function FindFrom(s: string, pat: string, from: nat): (r: Option<nat>)
    requires |pat| > 0
    ensures r.Some? ==> from <= r.value && OccursAt(s, pat, r.value)
    ensures r.Some? ==> forall j :: from <= j < r.value ==> !OccursAt(s, pat, j)
    ensures r.None? ==> forall j :: from <= j ==> !OccursAt(s, pat, j)
    decreases |s| - from
  {
    if from + |pat| > |s| then None
    else if s[from..from + |pat|] == pat then Some(from)
    else FindFrom(s, pat, from + 1)
  }

  /** The index of the first occurrence of `pat` in `s`. */
  function Find(s: string, pat: string): (r: Option<nat>)
    requires |pat| > 0
    ensures r.Some? ==> OccursAt(s, pat, r.value) && forall j :: 0 <= j < r.value ==> !OccursAt(s, pat, j)
    ensures r.None? ==> forall j :: !OccursAt(s, pat, j)
  {
    FindFrom(s, pat, 0)
  }

  /** A pattern whose first character a string lacks does not occur in it. */
  lemma NoOccurrence(s: string, pat: string)
    requires |pat| > 0 && Lacks(s, pat[0])
    ensures Find(s, pat).None?
  {
    forall j | 0 <= j && j + |pat| <= |s| ensures !OccursAt(s, pat, j) {
      assert s[j..j + |pat|][0] == s[j];
    }
  }

  /** A pattern does not occur where one of its characters is missing. */
  lemma NoOccurrenceOf(s: string, pat: string, i: nat)
    requires i < |pat| && Lacks(s, pat[i])
    ensures Find(s, pat).None?
  {
    forall j | 0 <= j && j + |pat| <= |s| ensures !OccursAt(s, pat, j) {
      assert s[j..j + |pat|][i] == s[j + i];
    }
  }

  /** In `a + pat + b`, where `a` lacks the first character of `pat`, the first
      occurrence of `pat` is the one right after `a`. */
  lemma FindAfterClean(a: string, pat: string, b: string)
    requires |pat| > 0 && Lacks(a, pat[0])
    ensures Find(a + pat + b, pat) == Some(|a|)
  {
    var s := a + pat + b;
    assert s[|a|..|a| + |pat|] == pat;
    assert OccursAt(s, pat, |a|);
    forall j | 0 <= j < |a| ensures !OccursAt(s, pat, j) {
      assert s[j..j + |pat|][0] == a[j];
    }
  }

  /** Splits at the first occurrence of `pat`, dropping it. */
  function SplitOnce(s: string, pat: string): (r: Option<(string, string)>)
    requires |pat| > 0
    ensures r.Some? ==> s == r.value.0 + pat + r.value.1
    ensures r.None? <==> Find(s, pat).None?
    ensures r.Some? ==> Find(s, pat) == Some(|r.value.0|)
  {
    match Find(s, pat)
    case None => None
    case Some(i) =>
      assert s == s[..i] + s[i..i + |pat|] + s[i + |pat|..];
      Some((s[..i], s[i + |pat|..]))
  }

  /** Text with no earlier start of `pat` splits at the `pat` after it. */
  lemma SplitOnceAfterClean(a: string, pat: string, b: string)
    requires |pat| > 0 && Lacks(a, pat[0])
    ensures SplitOnce(a + pat + b, pat) == Some((a, b))
  {
    FindAfterClean(a, pat, b);
    var s := a + pat + b;
    assert s[..|a|] == a;
    assert s[|a| + |pat|..] == b;
  }

  /** Every piece of `s` between occurrences of `sep`, left to right, as Rust's
      `str::split` gives them; the empty string gives one empty piece. */
  function Split(s: string, sep: string): (parts: seq<string>)
    requires |sep| > 0
    ensures |parts| > 0
    ensures Join(parts, sep) == s
    ensures forall k :: 0 <= k < |parts| ==> Find(parts[k], sep).None?
    decreases |s|
  {
    match Find(s, sep)
    case None => [s]
    case Some(i) =>
      forall j | 0 <= j && j + |sep| <= i ensures !OccursAt(s[..i], sep, j) {
        assert s[..i][j..j + |sep|] == s[j..j + |sep|];
        assert !OccursAt(s, sep, j);
      }
      var rest := s[i + |sep|..];
      var tail := Split(rest, sep);
      assert ([s[..i]] + tail)[1..] == tail;
      assert s[i..i + |sep|] == sep;
      assert s == s[..i] + sep + rest;
      [s[..i]] + tail
  }

  function Join(parts: seq<string>, sep: string): string
  {
    if |parts| == 0 then ""
    else if |parts| == 1 then parts[0]
    else parts[0] + sep + Join(parts[1..], sep)
  }

  /** Text with no separator splits into itself alone. */
  lemma SplitClean(s: string, sep: string)
    requires |sep| > 0 && Lacks(s, sep[0])
    ensures Split(s, sep) == [s]
  {
    JoinSplit([s], sep);
  }

  /** Text that starts with a separator-free piece and the separator splits into
      that piece and the splitting of the rest. */
  lemma SplitAfterClean(a: string, sep: string, rest: string)
    requires |sep| > 0 && Lacks(a, sep[0])
    ensures Split(a + sep + rest, sep) == [a] + Split(rest, sep)
  {
    var joined := a + sep + rest;
    FindAfterClean(a, sep, rest);
    assert joined[..|a|] == a;
    assert joined[|a| + |sep|..] == rest;
  }

  /** Joining pieces that lack the separator's first character and splitting
      again gives the same pieces. */
  lemma {:induction false} JoinSplit(parts: seq<string>, sep: string)
    requires |sep| > 0 && |parts| > 0
    requires forall k :: 0 <= k < |parts| ==> Lacks(parts[k], sep[0])
    ensures Split(Join(parts, sep), sep) == parts
    decreases |parts|
  {
    if |parts| == 1 {
      NoOccurrence(parts[0], sep);
    } else {
      var rest := Join(parts[1..], sep);
      assert Join(parts, sep) == parts[0] + sep + rest;
      JoinSplit(parts[1..], sep);
      SplitAfterClean(parts[0], sep, rest);
      assert parts == [parts[0]] + parts[1..];
    }
  }

  /** Joining one more piece onto a non-empty list. */
  lemma {:induction false} JoinSnoc(parts: seq<string>, p: string, sep: string)
    requires |parts| > 0
    ensures Join(parts + [p], sep) == Join(parts, sep) + sep + p
    decreases |parts|
  {
    if |parts| > 1 {
      assert (parts + [p])[1..] == parts[1..] + [p];
      JoinSnoc(parts[1..], p, sep);
    }
  }

  // ---------------------------------------------------------------------------
  // Trimming, popping, lower-casing

  /** The characters Rust's `char::is_whitespace` accepts. */
  predicate IsWhitespace(c: char) {
    || '\t' <= c <= '\r'
    || c == ' '
    || c == '\U{85}'
    || c == '\U{A0}'
    || c == '\U{1680}'
    || '\U{2000}' <= c <= '\U{200A}'
    || c == '\U{2028}'
    || c == '\U{2029}'
    || c == '\U{202F}'
    || c == '\U{205F}'
    || c == '\U{3000}'
  }

  /** The number of whitespace characters `s` starts with. */
  function LeadingSpace(s: string): (n: nat)
    ensures n <= |s|
    ensures forall i :: 0 <= i < n ==> IsWhitespace(s[i])
    ensures n < |s| ==> !IsWhitespace(s[n])
    decreases |s|
  {
    if |s| > 0 && IsWhitespace(s[0]) then
      var n := 1 + LeadingSpace(s[1..]);
      assert forall i :: 1 <= i < n ==> s[i] == s[1..][i - 1];
      n
    else 0
  }

  /** The number of whitespace characters `s` ends with. */
  function TrailingSpace(s: string): (n: nat)
    ensures n <= |s|
    ensures forall i :: |s| - n <= i < |s| ==> IsWhitespace(s[i])
    ensures n < |s| ==> !IsWhitespace(s[|s| - n - 1])
    decreases |s|
  {
    if |s| > 0 && IsWhitespace(s[|s| - 1]) then 1 + TrailingSpace(s[..|s| - 1]) else 0
  }

  /** Rust's `str::trim_start`. */
  function TrimStart(s: string): (r: string)
    ensures |r| <= |s| && r == s[|s| - |r|..]
    ensures forall i :: 0 <= i < |s| - |r| ==> IsWhitespace(s[i])
    ensures |r| > 0 ==> !IsWhitespace(r[0])
  {
    s[LeadingSpace(s)..]
  }

  /** Rust's `str::trim_end`. */
  function TrimEnd(s: string): (r: string)
    ensures |r| <= |s| && r == s[..|r|]
    ensures forall i :: |r| <= i < |s| ==> IsWhitespace(s[i])
    ensures |r| > 0 ==> !IsWhitespace(r[|r| - 1])
  {
    s[..|s| - TrailingSpace(s)]
  }

  /** Rust's `str::trim`: whitespace removed from both ends. */
  function Trim(s: string): (r: string)
    ensures |s| - |TrimStart(s)| + |r| <= |s|
    ensures r == s[|s| - |TrimStart(s)|..|s| - |TrimStart(s)| + |r|]
    ensures forall i :: 0 <= i < |s| - |TrimStart(s)| ==> IsWhitespace(s[i])
    ensures forall i :: |s| - |TrimStart(s)| + |r| <= i < |s| ==> IsWhitespace(s[i])
    ensures |r| > 0 ==> !IsWhitespace(r[0]) && !IsWhitespace(r[|r| - 1])
  {
    TrimEnd(TrimStart(s))
  }

  /** Text without whitespace at either end is left as it is by `Trim`. */
  lemma TrimUnchanged(s: string)
    requires |s| > 0 && !IsWhitespace(s[0]) && !IsWhitespace(s[|s| - 1])
    ensures Trim(s) == s
  {
    assert TrimStart(s) == s;
  }

  /** Rust's `String::pop`, keeping the text: the last character removed, if any. */
  function DropLast(s: string): (r: string)
    ensures |s| == 0 ==> r == s
    ensures |s| > 0 ==> r + [s[|s| - 1]] == s
  {
    if |s| == 0 then s else s[..|s| - 1]
  }

  function LowerChar(c: char): char
  {
    if 'A' <= c <= 'Z' then (c as int + 32) as char else c
  }

  /** Lower-casing of ASCII letters; every other character is kept. */
  function ToLower(s: string): (r: string)
    ensures |r| == |s| && forall i :: 0 <= i < |s| ==> r[i] == LowerChar(s[i])
  {
    if |s| == 0 then "" else [LowerChar(s[0])] + ToLower(s[1..])
  }
}
