/** The two pieces of Foundation that the fraction parser relies on, stated
    here as small specified functions: splitting a string on a separator
    character (`components(separatedBy:)`) and reading a decimal integer
    (`Int(String)`), together with decimal formatting of an integer (Swift's
    string interpolation of an `Int`). */
module Text {

  datatype Option<T> = None | Some(value: T)

  /** Glues tokens back together with `sep` between neighbours. */
  function Join(tokens: seq<string>, sep: char): string
    decreases |tokens|
  {
    if tokens == [] then ""
    else if |tokens| == 1 then tokens[0]
    else tokens[0] + [sep] + Join(tokens[1..], sep)
  }

  /** The pieces of `s` between occurrences of `sep`; an empty string gives one empty piece. */
  function Split(s: string, sep: char): (tokens: seq<string>)
    ensures |tokens| > 0
    ensures forall i :: 0 <= i < |tokens| ==> sep !in tokens[i]
    ensures Join(tokens, sep) == s
    decreases |s|
  {
    if s == [] then [""]
    else
      var rest := Split(s[1..], sep);
      if s[0] == sep then
        assert Join([""] + rest, sep) == [sep] + Join(rest, sep) by {
          assert ([""] + rest)[1..] == rest;
        }
        assert s == [s[0]] + s[1..];
        [""] + rest
      else
        var tokens := [[s[0]] + rest[0]] + rest[1..];
        assert Join(tokens, sep) == [s[0]] + Join(rest, sep) by {
          if |rest| > 1 {
            assert tokens[1..] == rest[1..];
          }
        }
        assert s == [s[0]] + s[1..];
        tokens
  }

  /** Splitting a text that starts with a separator-free piece and a separator. */
  lemma {:induction false} SplitAtFirst(u: string, sep: char, w: string)
    requires sep !in u
    ensures Split(u + [sep] + w, sep) == [u] + Split(w, sep)
    decreases |u|
  {
    var s := u + [sep] + w;
    if u == [] {
      assert s == [sep] + w;
      assert s[1..] == w;
    } else {
      assert s[0] == u[0] && s[1..] == u[1..] + [sep] + w;
      SplitAtFirst(u[1..], sep, w);
      var rest := Split(s[1..], sep);
      assert rest == [u[1..]] + Split(w, sep);
      assert Split(s, sep) == [[u[0]] + rest[0]] + rest[1..];
      assert [u[0]] + u[1..] == u;
      assert rest[1..] == Split(w, sep);
    }
  }

  /** A separator-free text is a single piece. */
  lemma {:induction false} SplitWithoutSeparator(u: string, sep: char)
    requires sep !in u
    ensures Split(u, sep) == [u]
    decreases |u|
  {
    if u != [] {
      SplitWithoutSeparator(u[1..], sep);
      assert [u[0]] + u[1..] == u;
    }
  }

  /** Splitting undoes joining, for separator-free pieces. */
  lemma {:induction false} SplitJoin(tokens: seq<string>, sep: char)
    requires |tokens| > 0
    requires forall i :: 0 <= i < |tokens| ==> sep !in tokens[i]
    ensures Split(Join(tokens, sep), sep) == tokens
    decreases |tokens|
  {
    if |tokens| == 1 {
      SplitWithoutSeparator(tokens[0], sep);
    } else {
      SplitJoin(tokens[1..], sep);
      SplitAtFirst(tokens[0], sep, Join(tokens[1..], sep));
      assert [tokens[0]] + tokens[1..] == tokens;
    }
  }

  /** The first piece of a text that does not start with the separator starts with its first character. */
  lemma FirstPieceStart(s: string, sep: char)
    requires s != [] && s[0] != sep
    ensures Split(s, sep)[0] != [] && Split(s, sep)[0][0] == s[0]
  {
  }

  predicate IsDigit(c: char) {
    '0' <= c <= '9'
  }

  predicate AllDigits(s: string) {
    forall i :: 0 <= i < |s| ==> IsDigit(s[i])
  }

  function DigitValue(c: char): nat
    requires IsDigit(c)
  {
    c as int - '0' as int
  }

  function DigitChar(d: nat): char
    requires d < 10
  {
    ('0' as int + d) as char
  }

  /** The value of a string of decimal digits, most significant first. */
  function DigitsValue(s: string): nat
    requires AllDigits(s)
    decreases |s|
  {
    if s == [] then 0 else DigitsValue(s[..|s| - 1]) * 10 + DigitValue(s[|s| - 1])
  }

  /** `Int(String)`: an optional `+` or `-` followed by one or more decimal digits; anything else is rejected. */
  function ParseInt(s: string): (r: Option<int>)
    ensures r.Some? ==> s != [] && (s[0] == '+' || s[0] == '-' || IsDigit(s[0]))
    ensures r.Some? ==> AllDigits(s[1..]) && (IsDigit(s[0]) || |s| > 1)
    ensures s != [] && AllDigits(s) ==> r == Some(DigitsValue(s))
    ensures |s| > 1 && s[0] == '-' && AllDigits(s[1..]) ==> r == Some(-(DigitsValue(s[1..]) as int))
    ensures |s| > 1 && s[0] == '+' && AllDigits(s[1..]) ==> r == Some(DigitsValue(s[1..]) as int)
  {
    if s != [] && (s[0] == '+' || s[0] == '-') then
      var digits := s[1..];
      if digits != [] && AllDigits(digits) then
        var magnitude: int := DigitsValue(digits);
        Some(if s[0] == '-' then -magnitude else magnitude)
      else None
    else if s != [] && AllDigits(s) then Some(DigitsValue(s))
    else None
  }

  /** Decimal digits of a natural number, without leading zeros. */
  function NatToString(n: nat): (s: string)
    ensures s != [] && AllDigits(s)
    ensures n > 0 ==> s[0] != '0'
    ensures n == 0 ==> s == "0"
    decreases n
  {
    if n < 10 then [DigitChar(n)] else NatToString(n / 10) + [DigitChar(n % 10)]
  }

  /** Decimal text of an integer, with a leading `-` for a negative one. */
  function IntToString(i: int): (s: string)
    ensures s != [] && (s[0] == '-' || IsDigit(s[0]))
    ensures forall k :: 0 <= k < |s| ==> s[k] == '-' || IsDigit(s[k])
    ensures AllDigits(s[1..])
    ensures i >= 0 ==> AllDigits(s)
    ensures i >= 0 && |s| > 1 ==> s[0] != '0'
    ensures i < 0 ==> |s| > 1 && s[0] == '-' && s[1] != '0'
    ensures '/' !in s
  {
    if i < 0 then "-" + NatToString(-i) else NatToString(i)
  }

  lemma {:induction false} NatToStringValue(n: nat)
    ensures DigitsValue(NatToString(n)) == n
    decreases n
  {
    var s := NatToString(n);
    if n >= 10 {
      NatToStringValue(n / 10);
      assert s[..|s| - 1] == NatToString(n / 10);
    }
  }

  /** Reading back the decimal text of an integer gives the integer. */
  lemma IntToStringRoundTrip(i: int)
    ensures ParseInt(IntToString(i)) == Some(i)
  {
    if i < 0 {
      NatToStringValue(-i);
      assert IntToString(i)[1..] == NatToString(-i);
    } else {
      NatToStringValue(i);
    }
  }

}
