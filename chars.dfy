/** Character classes, word boundaries and maximal runs, as the regular
    expressions of the extractor see them: no `i`, `u` or `m` flag, so `\d`,
    `\w` and `\b` are ASCII-only and `\s` is ECMAScript's fixed white-space set. */
module Chars {

  datatype Option<T> = None | Some(value: T)

  /** The first alternative that succeeds, as a backtracking matcher tries them. */
  function OrElse<T>(first: Option<T>, second: Option<T>): (r: Option<T>)
    ensures first.Some? ==> r == first
    ensures first.None? ==> r == second
  {
    if first.Some? then first else second
  }

  predicate IsDigit(c: char) { '0' <= c <= '9' }
  predicate IsUpper(c: char) { 'A' <= c <= 'Z' }
  predicate IsLower(c: char) { 'a' <= c <= 'z' }
  predicate IsLetter(c: char) { IsUpper(c) || IsLower(c) }
  predicate IsAlnum(c: char) { IsLetter(c) || IsDigit(c) }

  /** `\w` */
  predicate IsWordChar(c: char) { IsAlnum(c) || c == '_' }

  /** `\s`: the ECMAScript WhiteSpace and LineTerminator code points. */
  predicate IsSpace(c: char) {
    c == '\t' || c == '\n' || c == '\U{B}' || c == '\U{C}' || c == '\r' || c == ' '
    || c == '\U{A0}' || c == '\U{1680}' || ('\U{2000}' <= c <= '\U{200A}')
    || c == '\U{2028}' || c == '\U{2029}' || c == '\U{202F}' || c == '\U{205F}'
    || c == '\U{3000}' || c == '\U{FEFF}'
  }

  /** The bracketed classes and escapes used by the five patterns. */
  datatype Class =
    | Word        // \w
    | Digit       // \d
    | EmailLocal  // [A-Za-z0-9._%+-]
    | EmailDomain // [A-Za-z0-9.-]
    | EmailTld    // [A-Z|a-z]  (the '|' is a literal member of the class)
    | UrlBody     // [-a-zA-Z0-9@:%._\+~#=]
    | UrlTld      // [a-zA-Z0-9()]
    | UrlTail     // [-a-zA-Z0-9()@:%_\+.~#?&//=]
    | Separator   // [-.\s]

  predicate In(c: char, k: Class) {
    match k
    case Word => IsWordChar(c)
    case Digit => IsDigit(c)
    case EmailLocal => IsAlnum(c) || (c == '.' || c == '_' || c == '%' || c == '+' || c == '-')
    case EmailDomain => IsAlnum(c) || (c == '.' || c == '-')
    case EmailTld => IsLetter(c) || c == '|'
    case UrlBody => IsAlnum(c) || (c == '-' || c == '@' || c == ':' || c == '%' || c == '.' || c == '_' || c == '+' || c == '~' || c == '#' || c == '=')
    case UrlTld => IsAlnum(c) || (c == '(' || c == ')')
    case UrlTail => IsAlnum(c) || (c == '-' || c == '(' || c == ')' || c == '@' || c == ':' || c == '%' || c == '_' || c == '+' || c == '.' || c == '~' || c == '#' || c == '?' || c == '&' || c == '/' || c == '=')
    case Separator => (c == '-' || c == '.') || IsSpace(c)
  }

  /** Every character of s[i..j] belongs to class k. */
  predicate AllIn(s: string, i: nat, j: nat, k: Class)
    requires i <= j <= |s|
  {
    forall m :: i <= m < j ==> In(s[m], k)
  }

  /** s[i] exists and is c. */
  predicate At(s: string, i: nat, c: char) {
    i < |s| && s[i] == c
  }

  /** s has the literal w at position i. */
  predicate HasAt(s: string, i: nat, w: string) {
    i + |w| <= |s| && s[i..i + |w|] == w
  }

  /** `\d{n}` at position i. */
  predicate Digits(s: string, i: nat, n: nat) {
    i + n <= |s| && AllIn(s, i, i + n, Digit)
  }

  /** An optional class character at i, as `[...]?` tries it first. */
  predicate InAt(s: string, i: nat, k: Class) {
    i < |s| && In(s[i], k)
  }

  predicate IsWordAt(s: string, i: int) {
    0 <= i < |s| && IsWordChar(s[i])
  }

  /** `\b` at position i: exactly one of s[i-1] and s[i] is a word character
      (a position outside the text counts as a non-word character). */
  predicate IsBoundary(s: string, i: nat) {
    IsWordAt(s, i - 1) != IsWordAt(s, i)
  }

  /** The end of the longest run of class-k characters starting at i: how far
      a greedy `[...]*` reaches. */
  function RunEnd(s: string, i: nat, k: Class): (r: nat)
    requires i <= |s|
    ensures i <= r <= |s|
    ensures AllIn(s, i, r, k)
    ensures r == |s| || !In(s[r], k)
    decreases |s| - i
  {
    if i < |s| && In(s[i], k) then RunEnd(s, i + 1, k) else i
  }

  /** A run is maximal: no position past its end can close a longer all-k run. */
  lemma {:induction false} RunEndIsLongest(s: string, i: nat, j: nat, k: Class)
    requires i <= j <= |s|
    requires AllIn(s, i, j, k)
    ensures j <= RunEnd(s, i, k)
  {
  }

  /** A run that starts inside another run of the same class ends where it does. */
  lemma {:induction false} RunEndShift(s: string, i: nat, j: nat, k: Class)
    requires i <= j <= |s| && AllIn(s, i, j, k)
    ensures RunEnd(s, i, k) == RunEnd(s, j, k)
    decreases j - i
  {
    if i < j {
      RunEndShift(s, i + 1, j, k);
    }
  }
}
