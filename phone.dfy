/** The phone pattern `(?:\+?\d{1,3}[-.\s]?)?\(?\d{3}\)?[-.\s]?\d{3}[-.\s]?\d{4}`
    anchored at one position. Each function below is "the rest of the
    pattern from here", so the order in which alternatives are tried is the
    backtracking order: a greedy `?` first takes, then skips; `\d{1,3}`
    tries three digits, then two, then one. */
module PhonePattern {
  import opened Chars

  /** The match found first at p: with the international prefix group, else without. */
  function PhoneAt(s: string, p: nat): (r: Option<nat>)
    requires p <= |s|
    ensures r.Some? ==> p < r.value <= |s|
  {
    OrElse(PrefixGroup(s, p), Body(s, p))
  }

  /** `\+?` */
  function PrefixGroup(s: string, p: nat): (r: Option<nat>)
    requires p <= |s|
    ensures r.Some? ==> p < r.value <= |s|
  {
    OrElse(if At(s, p, '+') then PrefixDigits(s, p + 1) else None, PrefixDigits(s, p))
  }

  /** `\d{1,3}`, longest first */
  function PrefixDigits(s: string, a: nat): (r: Option<nat>)
    requires a <= |s|
    ensures r.Some? ==> a < r.value <= |s|
  {
    OrElse(if Digits(s, a, 3) then PrefixSeparator(s, a + 3) else None,
      OrElse(if Digits(s, a, 2) then PrefixSeparator(s, a + 2) else None,
             if Digits(s, a, 1) then PrefixSeparator(s, a + 1) else None))
  }

  /** `[-.\s]?` closing the prefix group */
  function PrefixSeparator(s: string, x: nat): (r: Option<nat>)
    requires x <= |s|
    ensures r.Some? ==> x < r.value <= |s|
  {
    OrElse(if InAt(s, x, Separator) then Body(s, x + 1) else None, Body(s, x))
  }

  /** `\(?` */
  function Body(s: string, x: nat): (r: Option<nat>)
    requires x <= |s|
    ensures r.Some? ==> x < r.value <= |s|
  {
    OrElse(if At(s, x, '(') then AreaCode(s, x + 1) else None, AreaCode(s, x))
  }

  /** `\d{3}` */
  function AreaCode(s: string, a: nat): (r: Option<nat>)
    requires a <= |s|
    ensures r.Some? ==> a < r.value <= |s|
  {
    if Digits(s, a, 3) then CloseParen(s, a + 3) else None
  }

  /** `\)?` */
  function CloseParen(s: string, b: nat): (r: Option<nat>)
    requires b <= |s|
    ensures r.Some? ==> b < r.value <= |s|
  {
    OrElse(if At(s, b, ')') then FirstSeparator(s, b + 1) else None, FirstSeparator(s, b))
  }

  /** `[-.\s]?` after the area code */
  function FirstSeparator(s: string, c: nat): (r: Option<nat>)
    requires c <= |s|
    ensures r.Some? ==> c < r.value <= |s|
  {
    OrElse(if InAt(s, c, Separator) then Exchange(s, c + 1) else None, Exchange(s, c))
  }

  /** `\d{3}` */
  function Exchange(s: string, d: nat): (r: Option<nat>)
    requires d <= |s|
    ensures r.Some? ==> d < r.value <= |s|
  {
    if Digits(s, d, 3) then SecondSeparator(s, d + 3) else None
  }

  /** `[-.\s]?` after the exchange */
  function SecondSeparator(s: string, e: nat): (r: Option<nat>)
    requires e <= |s|
    ensures r.Some? ==> e < r.value <= |s|
  {
    OrElse(if InAt(s, e, Separator) then Line(s, e + 1) else None, Line(s, e))
  }

  /** `\d{4}`: the end of the pattern, so the first success ends the match. */
  function Line(s: string, f: nat): (r: Option<nat>)
    requires f <= |s|
    ensures r.Some? ==> f < r.value <= |s|
  {
    if Digits(s, f, 4) then Some(f + 4) else None
  }

  // ---------------------------------------------------------------------------
  // What a phone match is made of.

  /** A character a phone match may hold: a digit, '+', '(', ')', '-', '.' or white space. */
  predicate IsPhoneChar(c: char) {
    IsDigit(c) || (c == '+' || c == '(' || c == ')' || c == '-' || c == '.') || IsSpace(c)
  }

  /** The number of digits in s[i..j]. */
  function DigitCount(s: string, i: nat, j: nat): (n: nat)
    requires i <= j <= |s|
    ensures n <= j - i
    decreases j - i
  {
    if i == j then 0 else DigitCount(s, i, j - 1) + (if IsDigit(s[j - 1]) then 1 else 0)
  }

  /** s[i..j] holds only phone characters and between lo and hi digits. */
  predicate PhoneStretch(s: string, i: nat, j: nat, lo: nat, hi: nat) {
    i <= j <= |s|
    && (forall m :: i <= m < j ==> IsPhoneChar(s[m]))
    && lo <= DigitCount(s, i, j) <= hi
  }

  lemma {:induction false} DigitCountSplit(s: string, i: nat, j: nat, k: nat)
    requires i <= j <= k <= |s|
    ensures DigitCount(s, i, k) == DigitCount(s, i, j) + DigitCount(s, j, k)
    decreases k - j
  {
    if j < k {
      DigitCountSplit(s, i, j, k - 1);
    }
  }

  lemma {:induction false} DigitCountAllDigits(s: string, i: nat, n: nat)
    requires Digits(s, i, n)
    ensures DigitCount(s, i, i + n) == n
    decreases n
  {
    if n > 0 {
      DigitCountAllDigits(s, i, n - 1);
    }
  }

  /** Gluing two stretches adds their digit bounds. */
  lemma Glue(s: string, i: nat, j: nat, k: nat, lo1: nat, hi1: nat, lo2: nat, hi2: nat)
    requires PhoneStretch(s, i, j, lo1, hi1) && PhoneStretch(s, j, k, lo2, hi2)
    ensures PhoneStretch(s, i, k, lo1 + lo2, hi1 + hi2)
  {
    DigitCountSplit(s, i, j, k);
  }

  /** `\d{n}` is a stretch of exactly n digits. */
  lemma DigitsStretch(s: string, i: nat, n: nat)
    requires Digits(s, i, n)
    ensures PhoneStretch(s, i, i + n, n, n)
  {
    DigitCountAllDigits(s, i, n);
    forall m | i <= m < i + n ensures IsPhoneChar(s[m]) {
      assert In(s[m], Digit);
    }
  }

  /** One optional non-digit character ('+', '(', ')' or a separator). */
  lemma OneMarkStretch(s: string, i: nat)
    requires i < |s| && (s[i] in "+()" || In(s[i], Separator))
    ensures PhoneStretch(s, i, i + 1, 0, 0)
  {
    assert DigitCount(s, i, i + 1) == DigitCount(s, i, i);
  }

  lemma LineSound(s: string, f: nat)
    requires f <= |s| && Line(s, f).Some?
    ensures PhoneStretch(s, f, Line(s, f).value, 4, 4)
  {
    DigitsStretch(s, f, 4);
  }

  lemma SecondSeparatorSound(s: string, e: nat)
    requires e <= |s| && SecondSeparator(s, e).Some?
    ensures PhoneStretch(s, e, SecondSeparator(s, e).value, 4, 4)
  {
    if InAt(s, e, Separator) && Line(s, e + 1).Some? {
      LineSound(s, e + 1);
      OneMarkStretch(s, e);
      Glue(s, e, e + 1, Line(s, e + 1).value, 0, 0, 4, 4);
    } else {
      LineSound(s, e);
    }
  }

  lemma ExchangeSound(s: string, d: nat)
    requires d <= |s| && Exchange(s, d).Some?
    ensures PhoneStretch(s, d, Exchange(s, d).value, 7, 7)
  {
    DigitsStretch(s, d, 3);
    SecondSeparatorSound(s, d + 3);
    Glue(s, d, d + 3, Exchange(s, d).value, 3, 3, 4, 4);
  }

  lemma FirstSeparatorSound(s: string, c: nat)
    requires c <= |s| && FirstSeparator(s, c).Some?
    ensures PhoneStretch(s, c, FirstSeparator(s, c).value, 7, 7)
  {
    if InAt(s, c, Separator) && Exchange(s, c + 1).Some? {
      ExchangeSound(s, c + 1);
      OneMarkStretch(s, c);
      Glue(s, c, c + 1, Exchange(s, c + 1).value, 0, 0, 7, 7);
    } else {
      ExchangeSound(s, c);
    }
  }

  lemma CloseParenSound(s: string, b: nat)
    requires b <= |s| && CloseParen(s, b).Some?
    ensures PhoneStretch(s, b, CloseParen(s, b).value, 7, 7)
  {
    if At(s, b, ')') && FirstSeparator(s, b + 1).Some? {
      FirstSeparatorSound(s, b + 1);
      OneMarkStretch(s, b);
      Glue(s, b, b + 1, FirstSeparator(s, b + 1).value, 0, 0, 7, 7);
    } else {
      FirstSeparatorSound(s, b);
    }
  }

  lemma AreaCodeSound(s: string, a: nat)
    requires a <= |s| && AreaCode(s, a).Some?
    ensures PhoneStretch(s, a, AreaCode(s, a).value, 10, 10)
  {
    DigitsStretch(s, a, 3);
    CloseParenSound(s, a + 3);
    Glue(s, a, a + 3, AreaCode(s, a).value, 3, 3, 7, 7);
  }

  /** The part after the optional prefix group holds exactly ten digits. */
  lemma BodySound(s: string, x: nat)
    requires x <= |s| && Body(s, x).Some?
    ensures PhoneStretch(s, x, Body(s, x).value, 10, 10)
  {
    if At(s, x, '(') && AreaCode(s, x + 1).Some? {
      AreaCodeSound(s, x + 1);
      OneMarkStretch(s, x);
      Glue(s, x, x + 1, AreaCode(s, x + 1).value, 0, 0, 10, 10);
    } else {
      AreaCodeSound(s, x);
    }
  }

  lemma PrefixSeparatorSound(s: string, x: nat)
    requires x <= |s| && PrefixSeparator(s, x).Some?
    ensures PhoneStretch(s, x, PrefixSeparator(s, x).value, 10, 10)
  {
    if InAt(s, x, Separator) && Body(s, x + 1).Some? {
      BodySound(s, x + 1);
      OneMarkStretch(s, x);
      Glue(s, x, x + 1, Body(s, x + 1).value, 0, 0, 10, 10);
    } else {
      BodySound(s, x);
    }
  }

  /** The prefix digits add one to three digits. */
  lemma PrefixDigitsSound(s: string, a: nat)
    requires a <= |s| && PrefixDigits(s, a).Some?
    ensures PhoneStretch(s, a, PrefixDigits(s, a).value, 11, 13)
  {
    var e := PrefixDigits(s, a).value;
    if Digits(s, a, 3) && PrefixSeparator(s, a + 3).Some? {
      DigitsStretch(s, a, 3);
      PrefixSeparatorSound(s, a + 3);
      Glue(s, a, a + 3, e, 3, 3, 10, 10);
    } else if Digits(s, a, 2) && PrefixSeparator(s, a + 2).Some? {
      DigitsStretch(s, a, 2);
      PrefixSeparatorSound(s, a + 2);
      Glue(s, a, a + 2, e, 2, 2, 10, 10);
    } else {
      DigitsStretch(s, a, 1);
      PrefixSeparatorSound(s, a + 1);
      Glue(s, a, a + 1, e, 1, 1, 10, 10);
    }
  }

  lemma PrefixGroupSound(s: string, p: nat)
    requires p <= |s| && PrefixGroup(s, p).Some?
    ensures PhoneStretch(s, p, PrefixGroup(s, p).value, 11, 13)
  {
    if At(s, p, '+') && PrefixDigits(s, p + 1).Some? {
      PrefixDigitsSound(s, p + 1);
      OneMarkStretch(s, p);
      Glue(s, p, p + 1, PrefixGroup(s, p).value, 0, 0, 11, 13);
    } else {
      PrefixDigitsSound(s, p);
    }
  }

  /** Every phone match holds only digits, '+', '(', ')', '-', '.' and white
      space, and between 10 and 13 digits: ten without the prefix group,
      eleven to thirteen with it. */
  lemma PhoneMatchSound(s: string, p: nat)
    requires p <= |s| && PhoneAt(s, p).Some?
    ensures PhoneStretch(s, p, PhoneAt(s, p).value, 10, 13)
    ensures PrefixGroup(s, p).None? ==> DigitCount(s, p, PhoneAt(s, p).value) == 10
  {
    if PrefixGroup(s, p).Some? {
      PrefixGroupSound(s, p);
    } else {
      BodySound(s, p);
    }
  }
}
