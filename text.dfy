/** Character-level helpers shared by the validators and the gym serialiser:
    decimal digits as Integer.parseInt and StringBuilder.append(int) read and
    write them, String.split on a single separator character, joining with a
    separator, and ASCII case mapping. */
module Text {

  predicate IsDigit(c: char) { '0' <= c <= '9' }

  predicate AllDigits(s: string) { forall i :: 0 <= i < |s| ==> IsDigit(s[i]) }

  function DigitValue(c: char): nat
    requires IsDigit(c)
  {
    c as int - '0' as int
  }

  function DigitChar(d: nat): (c: char)
    requires d < 10
    ensures IsDigit(c) && DigitValue(c) == d
  {
    ('0' as int + d) as char
  }

  /** The value of a string of decimal digits, most significant first
      (leading zeros allowed, as Integer.parseInt accepts them). */
  function DigitsValue(s: string): (r: nat)
    requires AllDigits(s)
    ensures r < Pow10(|s|)
  {
    if s == [] then 0 else DigitsValue(s[..|s| - 1]) * 10 + DigitValue(s[|s| - 1])
  }

  /** A string of zeros reads as 0, however many there are. */
  lemma {:induction false} ZerosValue(s: string)
    requires forall i :: 0 <= i < |s| ==> s[i] == '0'
    ensures AllDigits(s) && DigitsValue(s) == 0
  {
    if s != [] {
      ZerosValue(s[..|s| - 1]);
    }
  }

  function Pow10(n: nat): (p: nat)
    ensures p >= 1
  {
    if n == 0 then 1 else 10 * Pow10(n - 1)
  }

  /** The decimal representation of n without leading zeros. */
  function NatToString(n: nat): (s: string)
    ensures 1 <= |s| && AllDigits(s)
    ensures DigitsValue(s) == n
    ensures |s| > 1 ==> s[0] != '0'
  {
    if n < 10 then [DigitChar(n)]
    else
      var init := NatToString(n / 10);
      var s := init + [DigitChar(n % 10)];
      assert s[..|s| - 1] == init;
      s
  }

  /** The last w decimal digits of n, zero-padded on the left to exactly w digits. */
  function Padded(n: nat, w: nat): (s: string)
    ensures |s| == w && AllDigits(s)
    ensures n < Pow10(w) ==> DigitsValue(s) == n
  {
    if w == 0 then ""
    else
      var init := Padded(n / 10, w - 1);
      var s := init + [DigitChar(n % 10)];
      assert s[..|s| - 1] == init;
      s
  }

  /** Reading a string of digits and padding its value back to the same width
      gives the string back: a fixed-width digit field has exactly one reading. */
  lemma {:induction false} PaddedDigitsValue(s: string)
    requires AllDigits(s)
    ensures DigitsValue(s) < Pow10(|s|)
    ensures Padded(DigitsValue(s), |s|) == s
  {
    if s != [] {
      var init := s[..|s| - 1];
      assert AllDigits(init);
      PaddedDigitsValue(init);
      var v := DigitsValue(s);
      assert v == DigitsValue(init) * 10 + DigitValue(s[|s| - 1]);
      assert v / 10 == DigitsValue(init);
      assert v % 10 == DigitValue(s[|s| - 1]);
      assert DigitChar(v % 10) == s[|s| - 1];
      assert s == init + [s[|s| - 1]];
    }
  }

  function LowerChar(c: char): char
  {
    if 'A' <= c <= 'Z' then (c as int - 'A' as int + 'a' as int) as char else c
  }

  function UpperChar(c: char): char
  {
    if 'a' <= c <= 'z' then (c as int - 'a' as int + 'A' as int) as char else c
  }

  /** String.toLowerCase restricted to ASCII letters. */
  function ToLower(s: string): (r: string)
    ensures |r| == |s|
    ensures forall i :: 0 <= i < |s| ==> r[i] == LowerChar(s[i])
  {
    if s == [] then [] else [LowerChar(s[0])] + ToLower(s[1..])
  }

  /** String.toUpperCase restricted to ASCII letters. */
  function ToUpper(s: string): (r: string)
    ensures |r| == |s|
    ensures forall i :: 0 <= i < |s| ==> r[i] == UpperChar(s[i])
  {
    if s == [] then [] else [UpperChar(s[0])] + ToUpper(s[1..])
  }

  /** The fields of c followed by a string whose fields are parts: a
      separator opens a new empty field, any other character is prepended to
      the first field. */
  function ConsField(c: char, parts: seq<string>, sep: char): (r: seq<string>)
    requires |parts| >= 1
    ensures |r| >= 1
  {
    if c == sep then [""] + parts else [[c] + parts[0]] + parts[1..]
  }

  /** The fields of s between occurrences of sep, keeping empty fields
      ("a::b" has the three fields "a", "", "b"). */
  function SplitOn(s: string, sep: char): (parts: seq<string>)
    ensures |parts| >= 1
  {
    if s == [] then [""] else ConsField(s[0], SplitOn(s[1..], sep), sep)
  }

  /** A string without the separator is a single field. */
  lemma {:induction false} SplitOnNoSeparator(s: string, sep: char)
    requires sep !in s
    ensures SplitOn(s, sep) == [s]
  {
    if s != [] {
      assert sep !in s[1..];
      SplitOnNoSeparator(s[1..], sep);
      assert [s[0]] + s[1..] == s;
    }
  }

  /** Prepending a character touches only the first field. */
  lemma ConsFieldAppend(c: char, x: seq<string>, y: seq<string>, sep: char)
    requires |x| >= 1
    ensures ConsField(c, x + y, sep) == ConsField(c, x, sep) + y
  {
    if c != sep {
      assert (x + y)[0] == x[0] && (x + y)[1..] == x[1..] + y;
    }
  }

  /** Splitting at one occurrence of the separator splits the two sides apart. */
  lemma {:induction false} SplitOnConcat(a: string, b: string, sep: char)
    ensures SplitOn(a + [sep] + b, sep) == SplitOn(a, sep) + SplitOn(b, sep)
  {
    var s := a + [sep] + b;
    if a == [] {
      assert s[0] == sep && s[1..] == b;
    } else {
      assert s[0] == a[0] && s[1..] == a[1..] + [sep] + b;
      SplitOnConcat(a[1..], b, sep);
      ConsFieldAppend(a[0], SplitOn(a[1..], sep), SplitOn(b, sep), sep);
    }
  }

  /** Three fields free of the separator, each followed by it, split off the
      front of a string. */
  lemma SplitThreeFields(a: string, b: string, d: string, rest: string, sep: char)
    requires sep !in a && sep !in b && sep !in d
    ensures SplitOn(a + [sep] + b + [sep] + d + [sep] + rest, sep) == [a, b, d] + SplitOn(rest, sep)
  {
    var third := d + [sep] + rest;
    var second := b + [sep] + third;
    var p := a + [sep] + b + [sep] + d;
    assert p + [sep] + rest == p + ([sep] + rest);
    assert p + ([sep] + rest) == a + [sep] + b + [sep] + third;
    assert a + [sep] + b + [sep] + third == a + [sep] + b + ([sep] + third);
    assert a + [sep] + b + ([sep] + third) == a + [sep] + second;
    SplitOnConcat(a, second, sep);
    SplitOnConcat(b, third, sep);
    SplitOnConcat(d, rest, sep);
    SplitOnNoSeparator(a, sep);
    SplitOnNoSeparator(b, sep);
    SplitOnNoSeparator(d, sep);
  }

  /** The fields of each element, one element after another. */
  function SplitEach(xs: seq<string>, sep: char): seq<string>
  {
    if xs == [] then [] else SplitEach(xs[..|xs| - 1], sep) + SplitOn(xs[|xs| - 1], sep)
  }

  /** The elements of xs with sep between neighbours and nowhere else. */
  function Join(xs: seq<string>, sep: char): string
  {
    if |xs| == 0 then ""
    else if |xs| == 1 then xs[0]
    else Join(xs[..|xs| - 1], sep) + [sep] + xs[|xs| - 1]
  }

  /** Splitting a joined list gives back the fields of the elements in order. */
  lemma {:induction false} SplitJoin(xs: seq<string>, sep: char)
    requires xs != []
    ensures SplitOn(Join(xs, sep), sep) == SplitEach(xs, sep)
  {
    var init, last := xs[..|xs| - 1], xs[|xs| - 1];
    assert SplitEach(xs, sep) == SplitEach(init, sep) + SplitOn(last, sep);
    if |xs| == 1 {
      assert init == [];
      assert Join(xs, sep) == last;
    } else {
      assert Join(xs, sep) == Join(init, sep) + [sep] + last;
      SplitJoin(init, sep);
      SplitOnConcat(Join(init, sep), last, sep);
    }
  }

}
