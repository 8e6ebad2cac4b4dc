/** The string operations the duration formatter relies on: the decimal
    rendering of a non-negative integer (Number.prototype.toString),
    padStart(2, "0") and Array.prototype.join(" "), together with their
    partners, decimal reading and splitting on spaces. */
module Text {
  import opened Wrappers

  predicate IsDigit(c: char) {
    '0' <= c <= '9'
  }

  predicate AllDigits(s: string) {
    forall i :: 0 <= i < |s| ==> IsDigit(s[i])
  }

  predicate HasNoSpace(s: string) {
    forall i :: 0 <= i < |s| ==> s[i] != ' '
  }

  function DigitChar(d: nat): (c: char)
    requires d < 10
    ensures IsDigit(c)
  {
    (48 + d) as char
  }

  function DigitValue(c: char): (d: nat)
    requires IsDigit(c)
    ensures d < 10
  {
    c as int - 48
  }

  /** The shortest decimal rendering of n, as `n.toString()` gives it below
      10^21 (from there JavaScript switches to exponent form). */
  function Digits(n: nat): (s: string)
    ensures 1 <= |s| && AllDigits(s)
    ensures n < 10 <==> |s| == 1
    ensures s[0] == '0' ==> n == 0
    decreases n
  {
    if n < 10 then [DigitChar(n)] else Digits(n / 10) + [DigitChar(n % 10)]
  }

  /** `s.padStart(2, "0")`. */
  function PadStart2(s: string): string {
    if |s| >= 2 then s else if |s| == 1 then "0" + s else "00"
  }

  /** Reads a non-empty string of decimal digits; leading zeros are allowed. */
  function ParseNat(s: string): Option<nat> {
    if |s| > 0 && AllDigits(s) then Some(DigitsValue(s)) else None
  }

  /** The value of a string of decimal digits, most significant first. */
  function DigitsValue(s: string): nat
    requires AllDigits(s)
    decreases |s|
  {
    if |s| == 0 then 0 else DigitsValue(s[..|s| - 1]) * 10 + DigitValue(s[|s| - 1])
  }

  lemma {:induction false} DigitsValueOf(n: nat)
    ensures DigitsValue(Digits(n)) == n
    decreases n
  {
    var s := Digits(n);
    if n < 10 {
      assert s[..0] == [];
    } else {
      assert s[..|s| - 1] == Digits(n / 10);
      DigitsValueOf(n / 10);
    }
  }

  lemma ParseDigits(n: nat)
    ensures ParseNat(Digits(n)) == Some(n)
  {
    DigitsValueOf(n);
  }

  /** Zero-padding does not change the value read back, and it yields exactly
      two characters for every value below 100. */
  lemma ParsePaddedDigits(n: nat)
    requires n < 100
    ensures ParseNat(PadStart2(Digits(n))) == Some(n)
    ensures |PadStart2(Digits(n))| == 2
    ensures AllDigits(PadStart2(Digits(n)))
  {
    var s := PadStart2(Digits(n));
    if n < 10 {
      assert s == ['0', DigitChar(n)];
      assert s[..1] == ['0'];
      assert ['0'][..0] == [];
      assert DigitsValue(['0']) == 0;
      assert DigitValue(s[1]) == n;
      assert DigitsValue(s) == n;
    } else {
      assert Digits(n) == Digits(n / 10) + [DigitChar(n % 10)];
      ParseDigits(n);
    }
  }

  /** `words.join(" ")`. */
  function Join(words: seq<string>): string
    decreases |words|
  {
    if |words| == 0 then ""
    else if |words| == 1 then words[0]
    else words[0] + " " + Join(words[1..])
  }

  lemma JoinThree(a: string, b: string, c: string)
    ensures Join([a, b, c]) == a + " " + b + " " + c
  {
    assert [a, b, c][1..] == [b, c];
    assert [b, c][1..] == [c];
    assert Join([b, c]) == b + " " + c;
    assert a + " " + (b + " " + c) == a + " " + b + " " + c;
  }

  /** `s.split(" ")`: never empty, the empty string splits into one empty word. */
  function Split(s: string): (r: seq<string>)
    ensures |r| >= 1
    decreases |s|
  {
    if |s| == 0 then [""]
    else
      var rest := Split(s[1..]);
      if s[0] == ' ' then [""] + rest else [[s[0]] + rest[0]] + rest[1..]
  }

  lemma {:induction false} SplitWord(w: string)
    requires HasNoSpace(w)
    ensures Split(w) == [w]
    decreases |w|
  {
    if |w| > 0 {
      SplitWord(w[1..]);
      assert [w[0]] + w[1..] == w;
    }
  }

  lemma {:induction false} SplitWordThenSpace(w: string, t: string)
    requires HasNoSpace(w)
    ensures Split(w + " " + t) == [w] + Split(t)
    decreases |w|
  {
    var s := w + " " + t;
    if |w| == 0 {
      assert s == " " + t && s[1..] == t;
    } else {
      assert s[1..] == w[1..] + " " + t;
      SplitWordThenSpace(w[1..], t);
      assert [w[0]] + w[1..] == w;
    }
  }

  /** Splitting undoes joining, as long as no word contains a space. */
  lemma {:induction false} SplitJoin(words: seq<string>)
    requires |words| >= 1
    requires forall i :: 0 <= i < |words| ==> HasNoSpace(words[i])
    ensures Split(Join(words)) == words
    decreases |words|
  {
    if |words| == 1 {
      SplitWord(words[0]);
    } else {
      SplitJoin(words[1..]);
      SplitWordThenSpace(words[0], Join(words[1..]));
      assert [words[0]] + words[1..] == words;
    }
  }
}
