/**
  Text helpers shared by the solvers: decimal integers (Rust's `str::parse::<i64>` and
  `to_string`), whitespace trimming, and the splitting functions `split`, `split_once`
  and `split_whitespace`. Strings are sequences of characters.
 */
module Text {
  import opened Wrappers

  predicate IsDigit(c: char) { '0' <= c <= '9' }

  function DigitValue(c: char): (d: nat)
    requires IsDigit(c)
    ensures d < 10
  {
    (c as int) - ('0' as int)
  }

  function DigitChar(d: nat): (c: char)
    requires d < 10
    ensures IsDigit(c) && DigitValue(c) == d
  {
    (('0' as int) + d) as char
  }

  predicate AllDigits(s: string) { forall i :: 0 <= i < |s| ==> IsDigit(s[i]) }

  /** The value of a string of decimal digits, most significant digit first. */
  function DigitsValue(s: string): nat
    requires AllDigits(s)
  {
    if s == [] then 0 else DigitsValue(s[..|s| - 1]) * 10 + DigitValue(s[|s| - 1])
  }

  /**
    Decimal integer syntax: an optional `+` or `-` followed by at least one digit.
    Overflow of 64 bits is not modelled.
   */
  function ParseInt(s: string): Option<int>
  {
    if |s| > 1 && (s[0] == '-' || s[0] == '+') && AllDigits(s[1..]) then
      var v: int := DigitsValue(s[1..]);
      Some(if s[0] == '-' then -v else v)
    else if |s| > 0 && AllDigits(s) then
      Some(DigitsValue(s))
    else
      None
  }

  /** What parses is digits, possibly after one sign character. */
  lemma ParseIntSyntax(s: string)
    ensures ParseInt(s).Some? ==> |s| > 0 && IsDigit(s[|s| - 1])
    ensures ParseInt(s).Some? ==> forall i :: 0 < i < |s| ==> IsDigit(s[i])
    ensures ParseInt(s).Some? && !IsDigit(s[0]) ==> s[0] == '-' || s[0] == '+'
  {
    if |s| > 1 && (s[0] == '-' || s[0] == '+') && AllDigits(s[1..]) {
      assert forall i :: 0 < i < |s| ==> s[i] == s[1..][i - 1];
    }
  }

  /** The shortest decimal spelling of a natural number. */
  function NatToDecimal(n: nat): (s: string)
    ensures |s| > 0 && AllDigits(s)
    ensures DigitsValue(s) == n
    ensures s[0] == '0' ==> n == 0 && |s| == 1
    decreases n
  {
    if n < 10 then
      [DigitChar(n)]
    else
      var s := NatToDecimal(n / 10) + [DigitChar(n % 10)];
      assert s[..|s| - 1] == NatToDecimal(n / 10);
      s
  }

  /** Rust's `i64::to_string`: a minus sign for negative numbers, then the digits. */
  function IntToDecimal(n: int): (s: string)
    ensures |s| > 0
  {
    if n < 0 then "-" + NatToDecimal(-n) else NatToDecimal(n)
  }

  /** Parsing what `to_string` writes gives the number back. */
  lemma ParseIntToDecimal(n: int)
    ensures ParseInt(IntToDecimal(n)) == Some(n)
  {
    if n < 0 {
      assert IntToDecimal(n)[1..] == NatToDecimal(-n);
    }
  }

  /** A decimal is digits after an optional minus sign. */
  lemma IntToDecimalChars(n: int)
    ensures forall i :: 0 <= i < |IntToDecimal(n)| ==> IsDigit(IntToDecimal(n)[i]) || (i == 0 && IntToDecimal(n)[i] == '-')
  {
    if n < 0 {
      assert IntToDecimal(n)[1..] == NatToDecimal(-n);
    }
  }

  /** The whitespace characters `trim` and `split_whitespace` remove (the ASCII ones). */
  predicate IsSpace(c: char) { c == ' ' || '\t' <= c <= '\r' }

  predicate NoSpace(s: string) { forall i :: 0 <= i < |s| ==> !IsSpace(s[i]) }

  predicate OnlySpace(s: string) { forall i :: 0 <= i < |s| ==> IsSpace(s[i]) }

  function TrimStart(s: string): (r: string)
    ensures |r| <= |s| && r == s[|s| - |r|..]
    ensures OnlySpace(s[..|s| - |r|])
    ensures r != [] ==> !IsSpace(r[0])
  {
    if s != [] && IsSpace(s[0]) then
      var r := TrimStart(s[1..]);
      assert s[..|s| - |r|] == [s[0]] + s[1..][..|s[1..]| - |r|];
      r
    else
      s
  }

  function TrimEnd(s: string): (r: string)
    ensures |r| <= |s| && r == s[..|r|]
    ensures OnlySpace(s[|r|..])
    ensures r != [] ==> !IsSpace(r[|r| - 1])
  {
    if s != [] && IsSpace(s[|s| - 1]) then
      var r := TrimEnd(s[..|s| - 1]);
      assert s[|r|..] == s[..|s| - 1][|r|..] + [s[|s| - 1]];
      r
    else
      s
  }

  /** Rust's `str::trim`: leading and then trailing whitespace removed. */
  function Trim(s: string): string
  {
    TrimEnd(TrimStart(s))
  }

  /** Neither end of the trimmed text is whitespace. */
  lemma TrimEnds(s: string)
    ensures Trim(s) != [] ==> !IsSpace(Trim(s)[0]) && !IsSpace(Trim(s)[|Trim(s)| - 1])
  {
    EndsOfTrims(TrimStart(s), Trim(s));
  }

  lemma EndsOfTrims(t: string, r: string)
    requires t != [] ==> !IsSpace(t[0])
    requires |r| <= |t| && r == t[..|r|] && (r != [] ==> !IsSpace(r[|r| - 1]))
    ensures r != [] ==> !IsSpace(r[0]) && !IsSpace(r[|r| - 1])
  {
    assert r != [] ==> r[0] == t[0];
  }

  /** Text without whitespace is its own trim. */
  lemma TrimOfNoSpace(s: string)
    requires NoSpace(s)
    ensures Trim(s) == s
  {
    assert TrimStart(s) == s;
    assert TrimEnd(s) == s;
  }

  /** The index of the first occurrence of `c` in `s`. */
  function IndexOf(s: string, c: char): (i: nat)
    requires c in s
    ensures i < |s| && s[i] == c && c !in s[..i]
  {
    if s[0] == c then
      0
    else
      var i := 1 + IndexOf(s[1..], c);
      assert s[..i] == [s[0]] + s[1..][..i - 1];
      i
  }

  /** The pieces joined back together with the separator between neighbours. */
  function Join(pieces: seq<string>, sep: char): string
  {
    if pieces == [] then []
    else if |pieces| == 1 then pieces[0]
    else pieces[0] + [sep] + Join(pieces[1..], sep)
  }

  /** Rust's `str::split` on a character: the separator-free pieces between occurrences. */
  function Split(s: string, sep: char): (r: seq<string>)
    ensures |r| >= 1
    ensures forall k :: 0 <= k < |r| ==> sep !in r[k]
    ensures Join(r, sep) == s
    decreases |s|
  {
    if sep in s then
      var i := IndexOf(s, sep);
      var rest := Split(s[i + 1..], sep);
      var r := [s[..i]] + rest;
      assert r[1..] == rest;
      assert s == s[..i] + [sep] + s[i + 1..];
      r
    else
      [s]
  }

  /** Splitting text that starts with a separator-free piece yields that piece first. */
  lemma SplitCons(a: string, sep: char, rest: string)
    requires sep !in a
    ensures Split(a + [sep] + rest, sep) == [a] + Split(rest, sep)
  {
    var s := a + [sep] + rest;
    assert s[|a|] == sep && s[..|a|] == a && s[|a| + 1..] == rest;
  }

  lemma SplitOfNoSep(a: string, sep: char)
    requires sep !in a
    ensures Split(a, sep) == [a]
  {
  }

  /** Three separator-free pieces joined by the separator split back into those pieces. */
  lemma SplitThree(a: string, b: string, d: string, sep: char)
    requires sep !in a && sep !in b && sep !in d
    ensures Split(a + [sep] + b + [sep] + d, sep) == [a] + ([b] + [d])
  {
    var tail := b + [sep] + d;
    assert a + [sep] + b + [sep] + d == a + [sep] + tail;
    SplitCons(b, sep, d);
    SplitCons(a, sep, tail);
  }

  /** Rust's `str::split_once`: the text around the first occurrence of the separator. */
  function SplitOnce(s: string, sep: char): (r: Option<(string, string)>)
    ensures r.None? <==> sep !in s
    ensures r.Some? ==> s == r.value.0 + [sep] + r.value.1 && sep !in r.value.0
  {
    if sep in s then
      var i := IndexOf(s, sep);
      assert s == s[..i] + [sep] + s[i + 1..];
      Some((s[..i], s[i + 1..]))
    else
      None
  }

  /** A separator that does not occur before it is where `split_once` cuts. */
  lemma SplitOnceAt(a: string, sep: char, b: string)
    requires sep !in a
    ensures SplitOnce(a + [sep] + b, sep) == Some((a, b))
  {
    var s := a + [sep] + b;
    assert s[|a|] == sep;
    var i := IndexOf(s, sep);
    assert s[..i] == a && s[i + 1..] == b;
  }

  /** The length of the run of non-whitespace characters that starts `s`. */
  function TokenLength(s: string): (k: nat)
    ensures k <= |s| && NoSpace(s[..k])
    ensures k < |s| ==> IsSpace(s[k])
  {
    if s == [] || IsSpace(s[0]) then
      0
    else
      var k := 1 + TokenLength(s[1..]);
      assert s[..k] == [s[0]] + s[1..][..k - 1];
      k
  }

  function Concat(pieces: seq<string>): string
  {
    if pieces == [] then [] else pieces[0] + Concat(pieces[1..])
  }

  /** The characters of `s` that are not whitespace, in order. */
  function NonSpace(s: string): string
  {
    if s == [] then [] else (if IsSpace(s[0]) then [] else [s[0]]) + NonSpace(s[1..])
  }

  lemma {:induction false} NonSpaceAppend(a: string, b: string)
    ensures NonSpace(a + b) == NonSpace(a) + NonSpace(b)
    decreases |a|
  {
    if a != [] {
      assert (a + b)[1..] == a[1..] + b;
      NonSpaceAppend(a[1..], b);
    } else {
      assert a + b == b;
    }
  }

  lemma {:induction false} NonSpaceOfNoSpace(s: string)
    requires NoSpace(s)
    ensures NonSpace(s) == s
  {
    if s != [] {
      NonSpaceOfNoSpace(s[1..]);
    }
  }

  /**
    Rust's `str::split_whitespace`: the maximal runs of non-whitespace characters.
    The tokens are non-empty, hold no whitespace, and spell the non-whitespace
    characters of `s` in order.
   */
  function SplitWhitespace(s: string): (r: seq<string>)
    ensures forall k :: 0 <= k < |r| ==> r[k] != [] && NoSpace(r[k])
    ensures Concat(r) == NonSpace(s)
    decreases |s|
  {
    if s == [] then
      []
    else if IsSpace(s[0]) then
      SplitWhitespace(s[1..])
    else
      var k := TokenLength(s);
      var rest := SplitWhitespace(s[k..]);
      var r := [s[..k]] + rest;
      assert r[1..] == rest;
      assert s == s[..k] + s[k..];
      NonSpaceAppend(s[..k], s[k..]);
      NonSpaceOfNoSpace(s[..k]);
      r
  }
}
