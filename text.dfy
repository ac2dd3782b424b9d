/** String helpers the generator relies on: joining with a separator
    (string.Join), trimming a set of trailing characters (string.TrimEnd
    with a character array) and the decimal formatting of an int. */
module Text {

  /** The parts joined with `sep` between each two neighbours: string.Join. */
  function Join(sep: string, parts: seq<string>): string
  {
    if |parts| == 0 then ""
    else if |parts| == 1 then parts[0]
    else Join(sep, parts[..|parts| - 1]) + sep + parts[|parts| - 1]
  }

  lemma AppendAssoc(a: string, b: string, c: string)
    ensures a + b + c == a + (b + c)
  {
  }

  lemma LastOfAppend(a: string, b: string)
    requires |b| > 0
    ensures |a + b| > 0 && (a + b)[|a + b| - 1] == b[|b| - 1]
  {
  }

  /** A prefix followed by a join of parts ends where the last part ends. */
  lemma JoinedLastChar(prefix: string, sep: string, parts: seq<string>)
    requires |parts| > 0 && |parts[|parts| - 1]| > 0
    ensures var s := prefix + Join(sep, parts); var last := parts[|parts| - 1];
      |s| > 0 && s[|s| - 1] == last[|last| - 1]
  {
    JoinEndsWithLastPart(sep, parts);
    LastOfAppend(prefix, Join(sep, parts));
  }

  lemma PrefixOfAppend(a: string, b: string)
    ensures (a + b)[..|a|] == a
  {
  }

  /** Every part followed by `sep`: what a loop produces that appends a
      part and then the separator, once per part. */
  function Terminated(parts: seq<string>, sep: string): string
  {
    if |parts| == 0 then ""
    else Terminated(parts[..|parts| - 1], sep) + parts[|parts| - 1] + sep
  }

  lemma {:induction false} TerminatedAppend(parts: seq<string>, p: string, sep: string)
    ensures Terminated(parts + [p], sep) == Terminated(parts, sep) + p + sep
  {
    assert (parts + [p])[..|parts|] == parts;
  }

  /** Terminating every part is joining them and terminating the last one. */
  lemma {:induction false} TerminatedIsJoined(parts: seq<string>, sep: string)
    requires |parts| > 0
    ensures Terminated(parts, sep) == Join(sep, parts) + sep
  {
    if |parts| > 1 {
      var init := parts[..|parts| - 1];
      TerminatedIsJoined(init, sep);
      assert Terminated(init, sep) == Join(sep, init) + sep;
    } else {
      assert parts[..0] == [];
    }
  }

  /** A join of non-empty parts ends with the last character of the last part. */
  lemma {:induction false} JoinEndsWithLastPart(sep: string, parts: seq<string>)
    requires |parts| > 0 && |parts[|parts| - 1]| > 0
    ensures var j := Join(sep, parts); var last := parts[|parts| - 1];
      |j| > 0 && j[|j| - 1] == last[|last| - 1]
  {
  }

  /** `s` with every trailing character that is in `chars` removed:
      string.TrimEnd(char[]). */
  function TrimEnd(s: string, chars: set<char>): (r: string)
    ensures r <= s
    ensures |r| == 0 || r[|r| - 1] !in chars
    ensures forall i :: |r| <= i < |s| ==> s[i] in chars
    decreases |s|
  {
    if |s| > 0 && s[|s| - 1] in chars then TrimEnd(s[..|s| - 1], chars) else s
  }

  /** Trimming a suffix made only of trimmed characters from a string whose
      own last character is kept gives back exactly that string. */
  lemma TrimEndRemovesSuffix(x: string, y: string, chars: set<char>)
    requires |x| == 0 || x[|x| - 1] !in chars
    requires forall i :: 0 <= i < |y| ==> y[i] in chars
    ensures TrimEnd(x + y, chars) == x
  {
    var s := x + y;
    var r := TrimEnd(s, chars);
    if |x| > 0 {
      assert s[|x| - 1] == x[|x| - 1];
    }
    assert r == s[..|r|] == x;
  }

  /** Trimming the characters of the separator from a prefix followed by
      terminated parts removes exactly the last separator, provided neither
      the prefix nor the last part ends with one of those characters. */
  lemma TrimTerminated(prefix: string, parts: seq<string>, sep: string, chars: set<char>)
    requires |prefix| > 0 && prefix[|prefix| - 1] !in chars
    requires |parts| > 0 ==> var last := parts[|parts| - 1]; |last| > 0 && last[|last| - 1] !in chars
    requires forall i :: 0 <= i < |sep| ==> sep[i] in chars
    ensures TrimEnd(prefix + Terminated(parts, sep), chars) == prefix + Join(sep, parts)
  {
    if |parts| == 0 {
      assert prefix + Terminated(parts, sep) == prefix + [];
      TrimEndRemovesSuffix(prefix, [], chars);
    } else {
      TerminatedIsJoined(parts, sep);
      JoinEndsWithLastPart(sep, parts);
      var j := Join(sep, parts);
      var x := prefix + j;
      assert x[|x| - 1] == j[|j| - 1];
      assert prefix + Terminated(parts, sep) == x + sep;
      TrimEndRemovesSuffix(x, sep, chars);
    }
  }

  /** The decimal digit character for 0 <= d <= 9. */
  function DigitChar(d: nat): (c: char)
    requires d < 10
    ensures '0' <= c <= '9'
  {
    (('0' as int) + d) as char
  }

  predicate IsDigit(c: char)
  {
    '0' <= c <= '9'
  }

  predicate AllDigits(s: string)
  {
    forall i :: 0 <= i < |s| ==> IsDigit(s[i])
  }

  /** The decimal representation of `n`, most significant digit first,
      with no leading zero. */
  function NatToString(n: nat): (s: string)
    ensures |s| > 0 && AllDigits(s)
    ensures s[0] == '0' ==> n == 0
  {
    if n < 10 then [DigitChar(n)] else NatToString(n / 10) + [DigitChar(n % 10)]
  }

  /** Int32.ToString(): a minus sign for negative values, then the digits. */
  function IntToString(i: int): string
  {
    if i < 0 then "-" + NatToString(-i) else NatToString(i)
  }

  /** The value of a string of decimal digits; the inverse of NatToString. */
  function ParseNat(s: string): nat
    requires AllDigits(s)
  {
    if |s| == 0 then 0
    else 10 * ParseNat(s[..|s| - 1]) + ((s[|s| - 1] as int) - ('0' as int))
  }

  /** The value of an optionally negative decimal literal; the inverse of IntToString. */
  function ParseInt(s: string): int
    requires (|s| > 0 && s[0] == '-' && AllDigits(s[1..])) || AllDigits(s)
  {
    if |s| > 0 && s[0] == '-' then -(ParseNat(s[1..]) as int) else ParseNat(s)
  }

  lemma {:induction false} ParseNatToString(n: nat)
    ensures ParseNat(NatToString(n)) == n
  {
    if n >= 10 {
      var s := NatToString(n);
      assert s[..|s| - 1] == NatToString(n / 10);
      ParseNatToString(n / 10);
    }
  }

  /** Formatting an int and reading it back gives the same int, and the text
      is a minus sign only for negative values. */
  lemma IntToStringRoundTrip(i: int)
    ensures var s := IntToString(i);
      |s| > 0 && (s[0] == '-' <==> i < 0) && AllDigits(if i < 0 then s[1..] else s)
    ensures ParseInt(IntToString(i)) == i
  {
    var s := IntToString(i);
    if i < 0 {
      assert s[1..] == NatToString(-i);
      ParseNatToString(-i);
    } else {
      ParseNatToString(i);
    }
  }
}
