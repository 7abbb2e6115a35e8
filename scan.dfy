/** `text.match(re)` for a regular expression with the `g` flag: starting at
    position 0, find the first position where the pattern matches, record
    that match, and go on from its end; no pattern here matches the empty
    string, so the end is always past the start. */
module GlobalMatch {
  import opened Chars
  import EmailPattern
  import UrlPattern
  import PhonePattern
  import HashtagPattern
  import CurrencyPattern

  /** The five patterns of the extractor. */
  datatype Category = Emails | Urls | PhoneNumbers | Hashtags | CurrencyAmounts

  /** The end of the match of pattern `cat` that the regular expression finds first at p. */
  function MatchAt(cat: Category, s: string, p: nat): (r: Option<nat>)
    requires p <= |s|
    ensures r.Some? ==> p < r.value <= |s|
  {
    match cat
    case Emails => EmailPattern.EmailAt(s, p)
    case Urls => UrlPattern.UrlAt(s, p)
    case PhoneNumbers => PhonePattern.PhoneAt(s, p)
    case Hashtags => HashtagPattern.HashtagAt(s, p)
    case CurrencyAmounts => CurrencyPattern.CurrencyAt(s, p)
  }

  /** The results of MatchAt at every position 0 ..|s| of the text. The
      search below reads this table, which keeps its reasoning apart from
      the five patterns. */
  function Table(cat: Category, s: string): (t: seq<Option<nat>>)
    ensures |t| == |s| + 1 && WellFormed(t)
    ensures forall p :: 0 <= p <= |s| ==> t[p] == MatchAt(cat, s, p)
  {
    seq(|s| + 1, p requires 0 <= p <= |s| => MatchAt(cat, s, p))
  }

  /** Every match recorded in t ends after it starts and within the text. */
  predicate WellFormed(t: seq<Option<nat>>) {
    forall p :: 0 <= p < |t| && t[p].Some? ==> p < t[p].value < |t|
  }

  /** One match: the text s[start..end]. */
  datatype Span = Span(start: nat, end: nat)

  /** The matches found from position i on, left to right. */
  function Scan(t: seq<Option<nat>>, i: nat): (r: seq<Span>)
    requires WellFormed(t) && i <= |t|
    ensures forall k :: 0 <= k < |r| ==> i <= r[k].start < r[k].end < |t|
    decreases |t| - i
  {
    if i == |t| then []
    else
      match t[i]
      case Some(e) => [Span(i, e)] + Scan(t, e)
      case None => Scan(t, i + 1)
  }

  /** Where the matches of `text.match(re)` lie. */
  function Spans(cat: Category, s: string): (r: seq<Span>)
    ensures forall k :: 0 <= k < |r| ==> r[k].start < r[k].end <= |s|
  {
    Scan(Table(cat, s), 0)
  }

  /** The strings `text.match(re) || []` returns. */
  function Matches(cat: Category, s: string): (r: seq<string>)
    ensures |r| == |Spans(cat, s)|
    ensures forall k :: 0 <= k < |r| ==> r[k] == s[Spans(cat, s)[k].start..Spans(cat, s)[k].end]
  {
    var spans := Spans(cat, s);
    seq(|spans|, k requires 0 <= k < |spans| => s[spans[k].start..spans[k].end])
  }

  // ---------------------------------------------------------------------------
  // An independent description of the result of a global match.

  /** No match starts at any position in [i, j). */
  predicate NoMatchBetween(t: seq<Option<nat>>, i: nat, j: nat) {
    forall m: nat :: i <= m < j && m < |t| ==> t[m].None?
  }

  /** Each span is the match found at its start. */
  predicate AllFound(t: seq<Option<nat>>, spans: seq<Span>) {
    forall k :: 0 <= k < |spans| ==> spans[k].start < |t| && t[spans[k].start] == Some(spans[k].end)
  }

  /** The spans ascend without overlapping, and no match starts between two of them. */
  predicate AscendingWithEmptyGaps(t: seq<Option<nat>>, spans: seq<Span>) {
    forall k :: 0 <= k < |spans| - 1 ==>
      spans[k].end <= spans[k + 1].start && NoMatchBetween(t, spans[k].end, spans[k + 1].start)
  }

  /** No match starts before the first span (from i on) or after the last. */
  predicate EmptyEnds(t: seq<Option<nat>>, i: nat, spans: seq<Span>) {
    if spans == [] then NoMatchBetween(t, i, |t|)
    else i <= spans[0].start && NoMatchBetween(t, i, spans[0].start)
         && NoMatchBetween(t, spans[|spans| - 1].end, |t|)
  }

  /** spans is what a left-to-right, non-overlapping search from i must
      report: each span is the match found at its start, the spans are in
      increasing order and do not overlap, and no match starts in any gap
      (before the first span, between two, or after the last). */
  predicate IsGlobalMatch(t: seq<Option<nat>>, i: nat, spans: seq<Span>) {
    AllFound(t, spans) && AscendingWithEmptyGaps(t, spans) && EmptyEnds(t, i, spans)
  }

  /** Scan meets that description. */
  lemma {:induction false} ScanIsGlobalMatch(t: seq<Option<nat>>, i: nat)
    requires WellFormed(t) && i <= |t|
    ensures IsGlobalMatch(t, i, Scan(t, i))
    decreases |t| - i
  {
    if i < |t| {
      match t[i]
      case Some(e) =>
        ScanIsGlobalMatch(t, e);
        assert Scan(t, i) == [Span(i, e)] + Scan(t, e);
        GlobalMatchCons(t, i, e, Scan(t, e));
      case None =>
        ScanIsGlobalMatch(t, i + 1);
        assert Scan(t, i) == Scan(t, i + 1);
    }
  }

  /** A match found at i, followed by the result of the search from its end,
      is the result of the search from i. */
  lemma GlobalMatchCons(t: seq<Option<nat>>, i: nat, e: nat, rest: seq<Span>)
    requires i < |t| && t[i] == Some(e) && IsGlobalMatch(t, e, rest)
    ensures IsGlobalMatch(t, i, [Span(i, e)] + rest)
  {
    var r := [Span(i, e)] + rest;
    assert AllFound(t, r) by {
      forall k | 0 <= k < |r| ensures r[k].start < |t| && t[r[k].start] == Some(r[k].end) {
        if k > 0 { assert r[k] == rest[k - 1]; }
      }
    }
    AscendingCons(t, i, e, rest);
    assert EmptyEnds(t, i, r) by {
      if rest != [] {
        assert r[|r| - 1] == rest[|rest| - 1];
      }
    }
  }

  lemma AscendingCons(t: seq<Option<nat>>, i: nat, e: nat, rest: seq<Span>)
    requires AscendingWithEmptyGaps(t, rest) && EmptyEnds(t, e, rest)
    ensures AscendingWithEmptyGaps(t, [Span(i, e)] + rest)
  {
    var r := [Span(i, e)] + rest;
    forall k | 0 <= k < |r| - 1
      ensures r[k].end <= r[k + 1].start && NoMatchBetween(t, r[k].end, r[k + 1].start)
    {
      if k > 0 {
        assert r[k] == rest[k - 1] && r[k + 1] == rest[k];
      } else {
        assert r[1] == rest[0];
      }
    }
  }

  /** The description admits one result only, so it specifies Scan fully. */
  lemma {:induction false} GlobalMatchIsUnique(t: seq<Option<nat>>, i: nat, spans: seq<Span>)
    requires WellFormed(t) && i <= |t|
    requires IsGlobalMatch(t, i, spans)
    ensures spans == Scan(t, i)
    decreases |t| - i
  {
    if i < |t| {
      match t[i]
      case Some(e) =>
        assert spans != [] && spans[0].start == i;
        assert spans[0].end == e;
        var rest := spans[1..];
        GlobalMatchTail(t, i, spans);
        GlobalMatchIsUnique(t, e, rest);
        assert spans == [spans[0]] + rest;
      case None =>
        if spans != [] {
          assert NoMatchBetween(t, i + 1, spans[0].start);
        }
        GlobalMatchIsUnique(t, i + 1, spans);
    }
  }

  /** The matches of a pattern in a text, described without the search:
      spans is the result of `text.match(re)` exactly when each span is the
      match found at its start, the spans ascend without overlapping, and no
      match starts in the gaps. */
  lemma SpansCharacterised(cat: Category, s: string, spans: seq<Span>)
    ensures spans == Spans(cat, s) <==> IsGlobalMatch(Table(cat, s), 0, spans)
  {
    ScanIsGlobalMatch(Table(cat, s), 0);
    if IsGlobalMatch(Table(cat, s), 0, spans) {
      GlobalMatchIsUnique(Table(cat, s), 0, spans);
    }
  }

  /** Dropping the first span leaves the description of the search from its end. */
  lemma GlobalMatchTail(t: seq<Option<nat>>, i: nat, spans: seq<Span>)
    requires IsGlobalMatch(t, i, spans) && spans != []
    ensures IsGlobalMatch(t, spans[0].end, spans[1..])
  {
    var rest := spans[1..];
    forall k | 0 <= k < |rest| - 1
      ensures rest[k].end <= rest[k + 1].start && NoMatchBetween(t, rest[k].end, rest[k + 1].start)
    {
      assert rest[k] == spans[k + 1] && rest[k + 1] == spans[k + 2];
    }
    if rest != [] {
      assert NoMatchBetween(t, spans[0].end, spans[1].start);
    }
  }

  /** Position m lies inside one of the spans. */
  predicate Covered(spans: seq<Span>, m: nat) {
    exists k :: 0 <= k < |spans| && spans[k].start <= m < spans[k].end
  }

  /** Nothing is missed: from i on, every position outside the reported
      matches is one where the pattern does not match. */
  lemma {:induction false} UncoveredDoesNotMatch(t: seq<Option<nat>>, i: nat, spans: seq<Span>, m: nat)
    requires IsGlobalMatch(t, i, spans)
    requires i <= m < |t| && !Covered(spans, m)
    ensures t[m].None?
    decreases |spans|
  {
    if spans != [] && m >= spans[0].start {
      assert !(spans[0].start <= m < spans[0].end);
      GlobalMatchTail(t, i, spans);
      forall k | 0 <= k < |spans[1..]| ensures !(spans[1..][k].start <= m < spans[1..][k].end) {
        assert spans[1..][k] == spans[k + 1];
      }
      UncoveredDoesNotMatch(t, spans[0].end, spans[1..], m);
    }
  }

  /** Each reported match is the match found at its start. */
  lemma SpanFound(cat: Category, s: string, k: nat)
    requires k < |Spans(cat, s)|
    ensures var sp := Spans(cat, s)[k]; sp.start <= |s| && MatchAt(cat, s, sp.start) == Some(sp.end)
  {
    ScanIsGlobalMatch(Table(cat, s), 0);
  }

  /** The pattern does not match at any position outside the reported matches. */
  lemma UncoveredNoMatch(cat: Category, s: string, m: nat)
    requires m <= |s| && !Covered(Spans(cat, s), m)
    ensures MatchAt(cat, s, m).None?
  {
    ScanIsGlobalMatch(Table(cat, s), 0);
    UncoveredDoesNotMatch(Table(cat, s), 0, Spans(cat, s), m);
  }

  /** Scanning an empty text finds nothing. */
  lemma EmptyTextHasNoMatches(cat: Category)
    ensures Matches(cat, "") == []
  {
    var t := Table(cat, "");
    assert t[0] == MatchAt(cat, "", 0);
    assert Scan(t, 0) == Scan(t, 1) == [];
  }
}
