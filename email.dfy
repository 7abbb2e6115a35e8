/** The email pattern `\b[A-Za-z0-9._%+-]+@[A-Za-z0-9.-]+\.[A-Z|a-z]{2,}\b`
    anchored at one position, searched in the order a backtracking matcher
    tries the alternatives: every greedy quantifier starts from its longest
    run and gives back one character at a time. */
module EmailPattern {
  import opened Chars

  /** Where the parts of one match lie: '@' at `at`, the '.' before the
      top-level domain at `dot`, and the end of the match. */
  datatype EmailSplit = EmailSplit(at: nat, dot: nat, end: nat)

  /** s[p..e] is an email by the pattern: local part s[p..at], '@', domain
      s[at+1..dot], '.', top-level domain s[dot+1..e] of two or more
      characters of [A-Z|a-z], and a word boundary at both ends. */
  predicate EmailParts(s: string, p: nat, at: nat, dot: nat, e: nat) {
    && p < at && at + 1 < dot && dot + 2 < e <= |s|
    && IsBoundary(s, p)
    && AllIn(s, p, at, EmailLocal) && s[at] == '@'
    && AllIn(s, at + 1, dot, EmailDomain) && s[dot] == '.'
    && AllIn(s, dot + 1, e, EmailTld) && IsBoundary(s, e)
  }

  /** The match found first at p, with where its parts lie. */
  function EmailParse(s: string, p: nat): (r: Option<EmailSplit>)
    requires p <= |s|
    ensures r.Some? ==> EmailParts(s, p, r.value.at, r.value.dot, r.value.end)
  {
    if IsBoundary(s, p) then LocalTry(s, p, RunEnd(s, p, EmailLocal)) else None
  }

  /** The end of the match found first at p. */
  function EmailAt(s: string, p: nat): (r: Option<nat>)
    requires p <= |s|
    ensures r.Some? ==> p < r.value <= |s|
  {
    match EmailParse(s, p)
    case Some(m) => Some(m.end)
    case None => None
  }

  /** The local part is s[p..x]; on failure `+` gives back one character. */
  function LocalTry(s: string, p: nat, x: nat): (r: Option<EmailSplit>)
    requires p <= x <= |s|
    ensures r.Some? ==> p < r.value.at <= x && At(s, r.value.at, '@')
    ensures r.Some? ==> DomainTail(s, r.value)
    decreases x
  {
    if x <= p then None
    else
      OrElse(if At(s, x, '@') then DomainTry(s, x, RunEnd(s, x + 1, EmailDomain)) else None,
             LocalTry(s, p, x - 1))
  }

  /** What follows the '@' of a match m: the clauses of EmailParts after its
      local part, restated over m so the search functions can carry them. */
  predicate DomainTail(s: string, m: EmailSplit) {
    && m.at + 1 < m.dot && m.dot + 2 < m.end <= |s|
    && AllIn(s, m.at + 1, m.dot, EmailDomain) && s[m.dot] == '.'
    && AllIn(s, m.dot + 1, m.end, EmailTld) && IsBoundary(s, m.end)
  }

  /** The domain is s[at+1..y], all domain characters; it must be followed by '.'. */
  function DomainTry(s: string, at: nat, y: nat): (r: Option<EmailSplit>)
    requires at < y <= |s| && AllIn(s, at + 1, y, EmailDomain)
    ensures r.Some? ==> r.value.at == at && r.value.dot <= y && DomainTail(s, r.value)
    decreases y
  {
    if y <= at + 1 then None
    else
      OrElse(if At(s, y, '.') then TldTry(s, at, y, RunEnd(s, y + 1, EmailTld)) else None,
             DomainTry(s, at, y - 1))
  }

  /** The top-level domain is s[dot+1..z], all [A-Z|a-z]; `{2,}` gives back down to two. */
  function TldTry(s: string, at: nat, dot: nat, z: nat): (r: Option<EmailSplit>)
    requires dot < z <= |s| && AllIn(s, dot + 1, z, EmailTld)
    ensures r.Some? ==> r.value.at == at && r.value.dot == dot
    ensures r.Some? ==> dot + 2 < r.value.end <= z && IsBoundary(s, r.value.end)
    decreases z
  {
    if z < dot + 3 then None
    else if IsBoundary(s, z) then Some(EmailSplit(at, dot, z))
    else TldTry(s, at, dot, z - 1)
  }

  // ---------------------------------------------------------------------------
  // The search misses nothing: whenever the pattern fits at p, a match is found.

  lemma {:induction false} TldTryFinds(s: string, at: nat, dot: nat, z: nat, e: nat)
    requires dot < z <= |s| && AllIn(s, dot + 1, z, EmailTld)
    requires dot + 2 < e <= z && IsBoundary(s, e)
    ensures TldTry(s, at, dot, z).Some?
    decreases z
  {
    if z > e && !IsBoundary(s, z) {
      TldTryFinds(s, at, dot, z - 1, e);
    }
  }

  lemma {:induction false} DomainTryFinds(s: string, at: nat, y: nat, dot: nat, e: nat)
    requires at < y <= |s| && AllIn(s, at + 1, y, EmailDomain)
    requires at + 1 < dot <= y && At(s, dot, '.')
    requires dot + 2 < e <= |s| && AllIn(s, dot + 1, e, EmailTld) && IsBoundary(s, e)
    ensures DomainTry(s, at, y).Some?
    decreases y
  {
    if y == dot {
      RunEndIsLongest(s, dot + 1, e, EmailTld);
      TldTryFinds(s, at, dot, RunEnd(s, dot + 1, EmailTld), e);
    } else {
      DomainTryFinds(s, at, y - 1, dot, e);
    }
  }

  lemma {:induction false} LocalTryFinds(s: string, p: nat, x: nat, at: nat, dot: nat, e: nat)
    requires p <= x <= |s|
    requires EmailParts(s, p, at, dot, e) && at <= x
    ensures LocalTry(s, p, x).Some?
    decreases x
  {
    if x == at {
      RunEndIsLongest(s, at + 1, dot, EmailDomain);
      DomainTryFinds(s, at, RunEnd(s, at + 1, EmailDomain), dot, e);
    } else {
      LocalTryFinds(s, p, x - 1, at, dot, e);
    }
  }

  /** `text.match` cannot skip a position where the pattern fits. */
  lemma EmailAtComplete(s: string, p: nat, at: nat, dot: nat, e: nat)
    requires p <= |s| && EmailParts(s, p, at, dot, e)
    ensures EmailAt(s, p).Some?
  {
    RunEndIsLongest(s, p, at, EmailLocal);
    LocalTryFinds(s, p, RunEnd(s, p, EmailLocal), at, dot, e);
  }

  /** EmailAt finds a match exactly when the pattern fits at p, and what it
      finds fits the pattern. */
  lemma EmailAtCharacterised(s: string, p: nat)
    requires p <= |s|
    ensures EmailAt(s, p).Some? <==> exists at, dot, e :: EmailParts(s, p, at, dot, e)
    ensures EmailAt(s, p).Some? ==>
      var m := EmailParse(s, p).value;
      m.end == EmailAt(s, p).value && EmailParts(s, p, m.at, m.dot, m.end)
  {
    if exists at, dot, e :: EmailParts(s, p, at, dot, e) {
      var at, dot, e :| EmailParts(s, p, at, dot, e);
      EmailAtComplete(s, p, at, dot, e);
    }
  }

  // ---------------------------------------------------------------------------
  // The search returns the longest email that fits at p.

  lemma {:induction false} TldTryLongest(s: string, at: nat, dot: nat, z: nat, e: nat)
    requires dot < z <= |s| && AllIn(s, dot + 1, z, EmailTld)
    requires dot + 2 < e <= z && IsBoundary(s, e)
    ensures TldTry(s, at, dot, z).Some? && e <= TldTry(s, at, dot, z).value.end
    decreases z
  {
    if z > e && !IsBoundary(s, z) {
      TldTryLongest(s, at, dot, z - 1, e);
    }
  }

  lemma {:induction false} DomainTryLongest(s: string, at: nat, y: nat, dot: nat, e: nat)
    requires at < y <= |s| && AllIn(s, at + 1, y, EmailDomain)
    requires at + 1 < dot <= y && At(s, dot, '.')
    requires dot + 2 < e <= |s| && AllIn(s, dot + 1, e, EmailTld) && IsBoundary(s, e)
    ensures DomainTry(s, at, y).Some? && e <= DomainTry(s, at, y).value.end
    decreases y
  {
    if y == dot {
      RunEndIsLongest(s, dot + 1, e, EmailTld);
      TldTryLongest(s, at, dot, RunEnd(s, dot + 1, EmailTld), e);
    } else {
      DomainTryLongest(s, at, y - 1, dot, e);
      if At(s, y, '.') {
        // a '.' is no top-level-domain character, so the fit ends at or before y
        assert !In(s[y], EmailTld);
      }
    }
  }

  lemma {:induction false} LocalTryLongest(s: string, p: nat, x: nat, at: nat, dot: nat, e: nat)
    requires p <= x <= |s|
    requires EmailParts(s, p, at, dot, e) && at <= x
    ensures LocalTry(s, p, x).Some? && e <= LocalTry(s, p, x).value.end
    decreases x
  {
    if x == at {
      RunEndIsLongest(s, at + 1, dot, EmailDomain);
      DomainTryLongest(s, at, RunEnd(s, at + 1, EmailDomain), dot, e);
    } else {
      LocalTryLongest(s, p, x - 1, at, dot, e);
      // no '@' follows the fit's own '@' inside the fit
      forall m | at < m < e ensures s[m] != '@' {
        if m < dot { assert In(s[m], EmailDomain); } else if m > dot { assert In(s[m], EmailTld); }
      }
    }
  }

  /** Every email that fits at p is no longer than the match found at p. */
  lemma EmailAtLongest(s: string, p: nat, at: nat, dot: nat, e: nat)
    requires p <= |s| && EmailParts(s, p, at, dot, e)
    ensures EmailAt(s, p).Some? && e <= EmailAt(s, p).value
  {
    RunEndIsLongest(s, p, at, EmailLocal);
    LocalTryLongest(s, p, RunEnd(s, p, EmailLocal), at, dot, e);
  }

  /** The match at p ends at e exactly when an email fits s[p..e] and no
      email that fits at p is longer: the backtracking search is
      leftmost-longest for this pattern. */
  lemma EmailAtIsLongestFit(s: string, p: nat, e: nat)
    requires p <= |s|
    ensures EmailAt(s, p) == Some(e) <==>
      (exists at, dot :: EmailParts(s, p, at, dot, e))
      && forall at: nat, dot: nat, e': nat :: EmailParts(s, p, at, dot, e') ==> e' <= e
  {
    EmailAtCharacterised(s, p);
    if EmailAt(s, p) == Some(e) {
      var m := EmailParse(s, p).value;
      assert EmailParts(s, p, m.at, m.dot, e);
      forall at: nat, dot: nat, e': nat | EmailParts(s, p, at, dot, e') ensures e' <= e {
        EmailAtLongest(s, p, at, dot, e');
      }
    }
    if (exists at, dot :: EmailParts(s, p, at, dot, e))
       && forall at: nat, dot: nat, e': nat :: EmailParts(s, p, at, dot, e') ==> e' <= e {
      var at, dot :| EmailParts(s, p, at, dot, e);
      EmailAtLongest(s, p, at, dot, e);
      var m := EmailParse(s, p).value;
      assert EmailParts(s, p, m.at, m.dot, m.end);
    }
  }

  /** A matched email holds exactly one '@': the local part, the domain and
      the top-level domain are all '@'-free. */
  lemma EmailHasOneAt(s: string, p: nat, at: nat, dot: nat, e: nat)
    requires EmailParts(s, p, at, dot, e)
    ensures s[p..e] == s[p..at] + "@" + s[at + 1..e]
    ensures '@' !in s[p..at] && '@' !in s[at + 1..e]
    ensures |s[p..at]| >= 1
  {
    assert s[p..e] == s[p..at] + [s[at]] + s[at + 1..e];
    forall m | at + 1 <= m < e ensures s[m] != '@' {
      if m < dot { assert In(s[m], EmailDomain); } else if m > dot { assert In(s[m], EmailTld); }
    }
  }
}
