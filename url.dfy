/** The URL pattern
      `https?:\/\/(?:www\.)?[-a-zA-Z0-9@:%._\+~#=]{1,256}\.[a-zA-Z0-9()]{1,6}\b(?:[-a-zA-Z0-9()@:%_\+.~#?&//=]*)`
    anchored at one position, in the order a backtracking matcher tries the
    alternatives: `s?` and `(?:www\.)?` first take, then skip; `{1,256}` and
    `{1,6}` start from their longest run and give back one character at a
    time; the trailing class takes its longest run, which nothing can reject. */
module UrlPattern {
  import opened Chars

  /** Where the parts of one match lie: the body starts at `body`, the '.'
      before the top-level domain is at `dot`, the boundary after the
      top-level domain is at `tldEnd`, and the match ends at `end`. */
  datatype UrlSplit = UrlSplit(body: nat, dot: nat, tldEnd: nat, end: nat)

  /** "http://" or "https://" at p, ending just before c. */
  predicate SchemeAt(s: string, p: nat, c: nat) {
    HasAt(s, p, "http")
    && ((c == p + 7 && HasAt(s, p + 4, "://"))
        || (c == p + 8 && At(s, p + 4, 's') && HasAt(s, p + 5, "://")))
  }

  /** The optional "www." between the scheme end c and the body start b. */
  predicate WwwAt(s: string, c: nat, b: nat) {
    b == c || (b == c + 4 && HasAt(s, c, "www."))
  }

  /** s[p..t] fits the pattern up to and including `\b`: scheme, optional
      "www.", body s[b..dot] of 1 to 256 body characters, '.', top-level
      domain s[dot+1..t] of 1 to 6 characters, and a word boundary at t. */
  predicate UrlHead(s: string, p: nat, b: nat, dot: nat, t: nat) {
    && ((SchemeAt(s, p, p + 7) && WwwAt(s, p + 7, b)) || (SchemeAt(s, p, p + 8) && WwwAt(s, p + 8, b)))
    && BodyAndTld(s, b, dot, t)
  }

  /** The body s[b..dot], '.', the top-level domain s[dot+1..t] and `\b`. */
  predicate BodyAndTld(s: string, b: nat, dot: nat, t: nat) {
    && b < dot <= b + 256 && dot + 1 < t <= dot + 7 && t <= |s|
    && AllIn(s, b, dot, UrlBody) && s[dot] == '.'
    && AllIn(s, dot + 1, t, UrlTld) && IsBoundary(s, t)
  }

  function Min(a: nat, b: nat): (r: nat)
    ensures r <= a && r <= b && (r == a || r == b)
  {
    if a <= b then a else b
  }

  /** The match found first at p, with where its parts lie. */
  function UrlParse(s: string, p: nat): (r: Option<UrlSplit>)
    requires p <= |s|
    ensures r.Some? ==> UrlHead(s, p, r.value.body, r.value.dot, r.value.tldEnd)
    ensures r.Some? ==> r.value.end == RunEnd(s, r.value.tldEnd, UrlTail)
  {
    if !HasAt(s, p, "http") then None
    else OrElse(if At(s, p + 4, 's') then AfterScheme(s, p, p + 5) else None,
                AfterScheme(s, p, p + 4))
  }

  /** The end of the match found first at p. */
  function UrlAt(s: string, p: nat): (r: Option<nat>)
    requires p <= |s|
    ensures r.Some? ==> p < r.value <= |s|
  {
    match UrlParse(s, p)
    case Some(m) => Some(m.end)
    case None => None
  }

  /** `:\/\/` at x, then the rest of the pattern. */
  function AfterScheme(s: string, p: nat, x: nat): (r: Option<UrlSplit>)
    requires x <= |s|
    requires HasAt(s, p, "http") && (x == p + 4 || (x == p + 5 && At(s, p + 4, 's')))
    ensures r.Some? ==> UrlHead(s, p, r.value.body, r.value.dot, r.value.tldEnd)
    ensures r.Some? ==> r.value.end == RunEnd(s, r.value.tldEnd, UrlTail)
  {
    if !HasAt(s, x, "://") then None
    else
      assert SchemeAt(s, p, x + 3);
      var c := x + 3;
      OrElse(if HasAt(s, c, "www.") then BodyFrom(s, c + 4) else None, BodyFrom(s, c))
  }

  /** `{1,256}` body characters starting at b, longest first. */
  function BodyFrom(s: string, b: nat): (r: Option<UrlSplit>)
    requires b <= |s|
    ensures r.Some? ==> r.value.body == b && BodyOnward(s, r.value)
  {
    BodyTry(s, b, Min(RunEnd(s, b, UrlBody), b + 256))
  }

  /** What the match m demands from its body on: the part of UrlHead after
      the scheme and "www.", then the greedy tail. */
  predicate BodyOnward(s: string, m: UrlSplit) {
    BodyAndTld(s, m.body, m.dot, m.tldEnd) && m.end == RunEnd(s, m.tldEnd, UrlTail)
  }

  /** The body is s[b..x]; it must be followed by '.'. */
  function BodyTry(s: string, b: nat, x: nat): (r: Option<UrlSplit>)
    requires b <= x <= |s| && x <= b + 256 && AllIn(s, b, x, UrlBody)
    ensures r.Some? ==> r.value.body == b && r.value.dot <= x && BodyOnward(s, r.value)
    decreases x
  {
    if x <= b then None
    else OrElse(if At(s, x, '.') then TldTry(s, b, x, Min(RunEnd(s, x + 1, UrlTld), x + 7)) else None,
                BodyTry(s, b, x - 1))
  }

  /** The top-level domain is s[dot+1..y]; it must be followed by `\b`. */
  function TldTry(s: string, b: nat, dot: nat, y: nat): (r: Option<UrlSplit>)
    requires dot < y <= |s| && y <= dot + 7 && AllIn(s, dot + 1, y, UrlTld)
    ensures r.Some? ==> r.value.body == b && r.value.dot == dot
    ensures r.Some? ==> dot + 1 < r.value.tldEnd <= y && IsBoundary(s, r.value.tldEnd)
    ensures r.Some? ==> r.value.end == RunEnd(s, r.value.tldEnd, UrlTail)
    decreases y
  {
    if y <= dot + 1 then None
    else if IsBoundary(s, y) then Some(UrlSplit(b, dot, y, RunEnd(s, y, UrlTail)))
    else TldTry(s, b, dot, y - 1)
  }

  // ---------------------------------------------------------------------------
  // The search misses nothing: whenever the pattern fits at p, a match is found.

  lemma {:induction false} TldTryFinds(s: string, b: nat, dot: nat, y: nat, t: nat)
    requires dot < y <= |s| && y <= dot + 7 && AllIn(s, dot + 1, y, UrlTld)
    requires dot + 1 < t <= y && IsBoundary(s, t)
    ensures TldTry(s, b, dot, y).Some?
    decreases y
  {
    if y > t && !IsBoundary(s, y) {
      TldTryFinds(s, b, dot, y - 1, t);
    }
  }

  /** With the body ending at the '.', the top-level domain is found. */
  lemma BodyTryAtDot(s: string, b: nat, dot: nat, t: nat)
    requires b < dot <= |s| && dot <= b + 256 && AllIn(s, b, dot, UrlBody)
    requires dot + 1 < t <= dot + 7 && t <= |s|
    requires s[dot] == '.' && AllIn(s, dot + 1, t, UrlTld) && IsBoundary(s, t)
    ensures BodyTry(s, b, dot).Some?
  {
    RunEndIsLongest(s, dot + 1, t, UrlTld);
    TldTryFinds(s, b, dot, Min(RunEnd(s, dot + 1, UrlTld), dot + 7), t);
    BodyTryTakesTld(s, b, dot);
  }

  /** A body followed by '.' and a top-level domain is taken at once. */
  lemma BodyTryTakesTld(s: string, b: nat, x: nat)
    requires b < x <= |s| && x <= b + 256 && AllIn(s, b, x, UrlBody) && At(s, x, '.')
    ensures TldTry(s, b, x, Min(RunEnd(s, x + 1, UrlTld), x + 7)).Some? ==> BodyTry(s, b, x).Some?
  {
  }

  lemma {:induction false} BodyTryFinds(s: string, b: nat, x: nat, dot: nat, t: nat)
    requires b <= x <= |s| && x <= b + 256 && AllIn(s, b, x, UrlBody)
    requires b < dot <= x && dot + 1 < t <= dot + 7 && t <= |s|
    requires s[dot] == '.' && AllIn(s, dot + 1, t, UrlTld) && IsBoundary(s, t)
    ensures BodyTry(s, b, x).Some?
    decreases x
  {
    if x == dot {
      BodyTryAtDot(s, b, dot, t);
    } else {
      BodyTryFinds(s, b, x - 1, dot, t);
      BodyTryStep(s, b, x);
    }
  }

  /** Giving back one more body character can only add alternatives. */
  lemma BodyTryStep(s: string, b: nat, x: nat)
    requires b < x <= |s| && x <= b + 256 && AllIn(s, b, x, UrlBody)
    ensures BodyTry(s, b, x - 1).Some? ==> BodyTry(s, b, x).Some?
  {
  }

  lemma BodyFromFinds(s: string, b: nat, dot: nat, t: nat)
    requires b <= |s|
    requires b < dot <= b + 256 && dot + 1 < t <= dot + 7 && t <= |s|
    requires AllIn(s, b, dot, UrlBody) && s[dot] == '.'
    requires AllIn(s, dot + 1, t, UrlTld) && IsBoundary(s, t)
    ensures BodyFrom(s, b).Some?
  {
    RunEndIsLongest(s, b, dot, UrlBody);
    BodyTryFinds(s, b, Min(RunEnd(s, b, UrlBody), b + 256), dot, t);
  }

  lemma AfterSchemeFinds(s: string, p: nat, x: nat, b: nat)
    requires x <= |s|
    requires HasAt(s, p, "http") && (x == p + 4 || (x == p + 5 && At(s, p + 4, 's')))
    requires HasAt(s, x, "://") && WwwAt(s, x + 3, b) && b <= |s| && BodyFrom(s, b).Some?
    ensures AfterScheme(s, p, x).Some?
  {
    var c := x + 3;
    if HasAt(s, c, "www.") && BodyFrom(s, c + 4).Some? {
    } else {
      assert b == c;
    }
  }

  /** `text.match` cannot skip a position where the pattern fits. */
  lemma UrlAtComplete(s: string, p: nat, b: nat, dot: nat, t: nat)
    requires p <= |s| && UrlHead(s, p, b, dot, t)
    ensures UrlAt(s, p).Some?
  {
    BodyFromFinds(s, b, dot, t);
    if SchemeAt(s, p, p + 8) && WwwAt(s, p + 8, b) {
      AfterSchemeFinds(s, p, p + 5, b);
      assert UrlParse(s, p).Some?;
    } else {
      assert s[p + 4] == s[p + 4..p + 7][0];
      AfterSchemeFinds(s, p, p + 4, b);
      assert UrlParse(s, p).Some?;
    }
  }

  /** UrlAt finds a match exactly when the pattern fits at p; what it finds
      fits the pattern and runs on to the end of the longest tail. */
  lemma UrlAtCharacterised(s: string, p: nat)
    requires p <= |s|
    ensures UrlAt(s, p).Some? <==> exists b, dot, t :: UrlHead(s, p, b, dot, t)
    ensures UrlAt(s, p).Some? ==>
      var m := UrlParse(s, p).value;
      m.end == UrlAt(s, p).value && UrlHead(s, p, m.body, m.dot, m.tldEnd)
      && m.end == RunEnd(s, m.tldEnd, UrlTail)
  {
    if exists b, dot, t :: UrlHead(s, p, b, dot, t) {
      var b, dot, t :| UrlHead(s, p, b, dot, t);
      UrlAtComplete(s, p, b, dot, t);
    }
  }

  /** Every character a URL match can hold: the tail class, which contains
      every other class of the pattern and the scheme and "www." literals;
      printable ASCII, never '<'. */
  predicate IsUrlChar(c: char) {
    In(c, UrlTail)
  }

  /** The literal w at i contributes only URL characters. */
  lemma LiteralChars(s: string, i: nat, w: string)
    requires HasAt(s, i, w) && forall k :: 0 <= k < |w| ==> IsUrlChar(w[k])
    ensures forall m :: i <= m < i + |w| ==> IsUrlChar(s[m])
  {
    forall m | i <= m < i + |w| ensures IsUrlChar(s[m]) {
      assert s[m] == s[i..i + |w|][m - i];
    }
  }

  /** The scheme and the optional "www." are URL characters. */
  lemma PrefixChars(s: string, p: nat, b: nat)
    requires (SchemeAt(s, p, p + 7) && WwwAt(s, p + 7, b)) || (SchemeAt(s, p, p + 8) && WwwAt(s, p + 8, b))
    ensures p <= b <= |s| && forall m :: p <= m < b ==> IsUrlChar(s[m])
  {
    var c := if SchemeAt(s, p, p + 7) && WwwAt(s, p + 7, b) then p + 7 else p + 8;
    LiteralChars(s, p, "http");
    LiteralChars(s, c - 3, "://");
    if b == c + 4 {
      LiteralChars(s, c, "www.");
    }
  }

  /** A URL match is made of URL characters only. */
  lemma UrlMatchChars(s: string, p: nat)
    requires p <= |s| && UrlAt(s, p).Some?
    ensures forall m :: p <= m < UrlAt(s, p).value ==> IsUrlChar(s[m])
  {
    var u := UrlParse(s, p).value;
    PrefixChars(s, p, u.body);
    forall m | u.body <= m < u.end ensures IsUrlChar(s[m]) {
      if m < u.dot {
        assert In(s[m], UrlBody);
      } else if m == u.dot {
      } else if m < u.tldEnd {
        assert In(s[m], UrlTld);
      } else {
        assert In(s[m], UrlTail);
      }
    }
  }

  /** Every URL that fits at p ends where the run of tail characters from p
      ends: every class of the pattern lies inside the tail class, so how the
      body and the top-level domain split the match is invisible in its end. */
  lemma UrlFitEnd(s: string, p: nat, b: nat, dot: nat, t: nat)
    requires UrlHead(s, p, b, dot, t)
    ensures RunEnd(s, t, UrlTail) == RunEnd(s, p, UrlTail)
  {
    PrefixChars(s, p, b);
    forall m | p <= m < t ensures In(s[m], UrlTail) {
      if m >= b {
        if m < dot { assert In(s[m], UrlBody); } else if m > dot { assert In(s[m], UrlTld); }
      }
    }
    RunEndShift(s, p, t, UrlTail);
  }

  /** The match at p ends at e exactly when the mandatory part of the URL
      pattern fits at p and e is the end of the run of URL characters from p. */
  lemma UrlAtExact(s: string, p: nat, e: nat)
    requires p <= |s|
    ensures UrlAt(s, p) == Some(e) <==>
      (exists b, dot, t :: UrlHead(s, p, b, dot, t)) && e == RunEnd(s, p, UrlTail)
  {
    UrlAtCharacterised(s, p);
    if exists b, dot, t :: UrlHead(s, p, b, dot, t) {
      var m := UrlParse(s, p).value;
      UrlFitEnd(s, p, m.body, m.dot, m.tldEnd);
    }
  }
}
