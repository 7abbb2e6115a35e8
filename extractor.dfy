/** `outputResults(text)`: the five scans of a text and the record of their results. */
module Extractor {
  import opened Chars
  import opened GlobalMatch
  import opened PostProcess
  import EmailPattern
  import UrlPattern
  import PhonePattern
  import HashtagPattern
  import CurrencyPattern

  /** The object `outputResults` returns: one list per kind of value. */
  datatype ExtractionResult = ExtractionResult(
    emails: seq<string>,
    urls: seq<string>,
    phonenumbers: seq<string>,
    hashtags: seq<string>,
    currencyamounts: seq<string>)

  /** `.map(...)` of the mask over the kept emails. */
  function MaskAll(ws: seq<string>): (r: seq<string>)
    ensures |r| == |ws| && forall k :: 0 <= k < |ws| ==> r[k] == Mask(ws[k])
  {
    seq(|ws|, k requires 0 <= k < |ws| => Mask(ws[k]))
  }

  /** `results.emails`: the email matches without "..", masked. */
  function MaskedEmails(text: string): (r: seq<string>)
    ensures |r| <= |Matches(Emails, text)|
  {
    MaskAll(Filter(Matches(Emails, text), KeepEmail))
  }

  /** `results.urls`: the URL matches that pass the sanitiser. */
  function SafeUrls(text: string): (r: seq<string>)
    ensures |r| <= |Matches(Urls, text)|
  {
    Filter(Matches(Urls, text), KeepUrl)
  }

  /** The extractor: emails are matched, those holding ".." dropped and the
      rest masked; URLs are matched and those that look like script URIs
      dropped; phone numbers, hashtags and currency amounts are the plain
      matches. */
  function OutputResults(text: string): (r: ExtractionResult)
    ensures |r.emails| <= |Matches(Emails, text)|
    ensures |r.urls| <= |Matches(Urls, text)|
    ensures |r.phonenumbers| == |Spans(PhoneNumbers, text)|
    ensures |r.hashtags| == |Spans(Hashtags, text)|
    ensures |r.currencyamounts| == |Spans(CurrencyAmounts, text)|
  {
    ExtractionResult(
      MaskedEmails(text),
      SafeUrls(text),
      Matches(PhoneNumbers, text),
      Matches(Hashtags, text),
      Matches(CurrencyAmounts, text))
  }

  // ---------------------------------------------------------------------------
  // Emails

  /** w splits at its only '@' into a non-empty local part l and a domain d,
      and m is w's mask: l's first character, "***", l's last character,
      '@' and d when l is longer than one character, otherwise l, "***@"
      and d. */
  predicate MaskOf(m: string, w: string) {
    var l, d := LocalPart(w), DomainPart(w);
    && w == l + "@" + d && '@' !in l && '@' !in d && |l| >= 1
    && m == (if |l| > 1 then [l[0]] + "***" + [l[|l| - 1]] + "@" + d else l + "***@" + d)
  }

  /** Text the email pattern fits splits at its one '@', and the mask acts on the two sides. */
  lemma PartsMask(s: string, p: nat, at: nat, dot: nat, e: nat)
    requires EmailPattern.EmailParts(s, p, at, dot, e)
    ensures MaskOf(Mask(s[p..e]), s[p..e])
  {
    EmailPattern.EmailHasOneAt(s, p, at, dot, e);
    SplitOneAt(s[p..at], s[at + 1..e]);
  }

  /** Every email match splits at its one '@', and the mask acts on the two sides. */
  lemma RawEmailMasks(text: string, j: nat)
    requires j < |Matches(Emails, text)|
    ensures MaskOf(Mask(Matches(Emails, text)[j]), Matches(Emails, text)[j])
  {
    var sp := Spans(Emails, text)[j];
    SpanFound(Emails, text, j);
    assert EmailPattern.EmailAt(text, sp.start) == Some(sp.end);
    EmailPattern.EmailAtCharacterised(text, sp.start);
    var m := EmailPattern.EmailParse(text, sp.start).value;
    PartsMask(text, sp.start, m.at, m.dot, sp.end);
  }

  /** Any string the email scan returns splits at its one '@', and the mask acts on the two sides. */
  lemma MatchedEmailMasks(text: string, w: string)
    requires w in Matches(Emails, text)
    ensures MaskOf(Mask(w), w)
  {
    var j :| 0 <= j < |Matches(Emails, text)| && Matches(Emails, text)[j] == w;
    RawEmailMasks(text, j);
  }

  /** The emails kept are the email matches without "..", each as often as
      it occurs and in the order the matches occur in the text. */
  lemma EmailsKeptInOrder(text: string)
    ensures var raw := Matches(Emails, text);
            var kept := Filter(raw, KeepEmail);
            && Subsequence(kept, raw)
            && (forall w :: w in kept <==> w in raw && !Contains(w, ".."))
            && forall w :: multiset(kept)[w] == if Contains(w, "..") then 0 else multiset(raw)[w]
  {
    FilterCharacterised(Matches(Emails, text), KeepEmail);
    FilterMembers(Matches(Emails, text), KeepEmail);
  }

  /** The emails reported are the masks of the kept emails, one for each, in
      their order. */
  lemma EmailsAreMaskedMatches(text: string)
    ensures var kept := Filter(Matches(Emails, text), KeepEmail);
            var out := MaskedEmails(text);
            && |out| == |kept| <= |Matches(Emails, text)|
            && forall k :: 0 <= k < |out| ==> MaskOf(out[k], kept[k])
  {
    var kept := Filter(Matches(Emails, text), KeepEmail);
    FilterMembers(Matches(Emails, text), KeepEmail);
    forall k | 0 <= k < |kept| ensures MaskOf(Mask(kept[k]), kept[k]) {
      assert kept[k] in kept;
      MatchedEmailMasks(text, kept[k]);
    }
  }

  /** The email pattern fits s[p..e]. */
  ghost predicate EmailFits(s: string, p: nat, e: nat) {
    exists at, dot :: EmailPattern.EmailParts(s, p, at, dot, e)
  }

  /** The email match k is the longest email that fits where it starts. */
  lemma EmailSpanFits(text: string, k: nat)
    requires k < |Spans(Emails, text)|
    ensures var sp := Spans(Emails, text)[k];
            EmailFits(text, sp.start, sp.end) && forall e: nat :: EmailFits(text, sp.start, e) ==> e <= sp.end
  {
    var sp := Spans(Emails, text)[k];
    SpanFound(Emails, text, k);
    assert EmailPattern.EmailAt(text, sp.start) == Some(sp.end);
    EmailPattern.EmailAtCharacterised(text, sp.start);
    var m := EmailPattern.EmailParse(text, sp.start).value;
    assert EmailPattern.EmailParts(text, sp.start, m.at, m.dot, sp.end);
    forall e: nat | EmailFits(text, sp.start, e) ensures e <= sp.end {
      var at, dot :| EmailPattern.EmailParts(text, sp.start, at, dot, e);
      EmailPattern.EmailAtLongest(text, sp.start, at, dot, e);
    }
  }

  /** Every email match is the longest email that fits where it starts, and
      the pattern fits nowhere outside the matches. */
  lemma EmailMatchesFitPattern(text: string)
    ensures var spans := Spans(Emails, text);
            && (forall k :: 0 <= k < |spans| ==>
                  EmailFits(text, spans[k].start, spans[k].end)
                  && forall e: nat :: EmailFits(text, spans[k].start, e) ==> e <= spans[k].end)
            && forall m: nat, e: nat :: m <= |text| && !Covered(spans, m) ==> !EmailFits(text, m, e)
  {
    var spans := Spans(Emails, text);
    forall k | 0 <= k < |spans|
      ensures EmailFits(text, spans[k].start, spans[k].end)
              && forall e: nat :: EmailFits(text, spans[k].start, e) ==> e <= spans[k].end
    {
      EmailSpanFits(text, k);
    }
    forall m: nat, e: nat | m <= |text| && !Covered(spans, m) ensures !EmailFits(text, m, e) {
      UncoveredNoMatch(Emails, text, m);
      EmailPattern.EmailAtCharacterised(text, m);
    }
  }

  // ---------------------------------------------------------------------------
  // URLs

  /** The URL match k is made of URL characters only. */
  lemma UrlSpanChars(text: string, k: nat)
    requires k < |Spans(Urls, text)|
    ensures var sp := Spans(Urls, text)[k];
            forall i :: sp.start <= i < sp.end ==> UrlPattern.IsUrlChar(text[i])
  {
    var sp := Spans(Urls, text)[k];
    SpanFound(Urls, text, k);
    assert UrlPattern.UrlAt(text, sp.start) == Some(sp.end);
    UrlPattern.UrlMatchChars(text, sp.start);
  }

  /** A stretch of URL characters, cut out of the text. */
  lemma UrlCharSlice(s: string, i: nat, j: nat)
    requires i <= j <= |s| && forall m :: i <= m < j ==> UrlPattern.IsUrlChar(s[m])
    ensures forall k :: 0 <= k < |s[i..j]| ==> UrlPattern.IsUrlChar(s[i..j][k])
    ensures '<' !in s[i..j]
  {
    forall k | 0 <= k < |s[i..j]| ensures UrlPattern.IsUrlChar(s[i..j][k]) && s[i..j][k] != '<' {
      assert s[i..j][k] == s[i + k];
    }
  }

  /** Any string the URL scan returns is made of URL characters only, and
      so never contains "<script>" once lowercased. */
  lemma MatchedUrlChars(text: string, u: string)
    requires u in Matches(Urls, text)
    ensures forall i :: 0 <= i < |u| ==> UrlPattern.IsUrlChar(u[i])
    ensures !Contains(AsciiLower(u), "<script>")
  {
    var raw := Matches(Urls, text);
    var j :| 0 <= j < |raw| && raw[j] == u;
    var sp := Spans(Urls, text)[j];
    UrlSpanChars(text, j);
    UrlCharSlice(text, sp.start, sp.end);
    NoAngleNoScriptTag(u);
  }

  /** Every URL match is printable ASCII without '<', so lowercasing it never
      produces "<script>". */
  lemma UrlMatchesAreAscii(text: string)
    ensures forall u :: u in Matches(Urls, text) ==>
              (forall i :: 0 <= i < |u| ==> UrlPattern.IsUrlChar(u[i])) && !Contains(AsciiLower(u), "<script>")
  {
    forall u | u in Matches(Urls, text)
      ensures (forall i :: 0 <= i < |u| ==> UrlPattern.IsUrlChar(u[i])) && !Contains(AsciiLower(u), "<script>")
    {
      MatchedUrlChars(text, u);
    }
  }

  /** The URLs reported are the URL matches, unmodified and in their order,
      each as often as it occurs, that do not contain "javascript:" in any
      mix of cases; the "<script>"
      test never removes one, since no URL match can contain '<'. */
  lemma UrlsAreFilteredMatches(text: string)
    ensures var raw := Matches(Urls, text);
            var out := SafeUrls(text);
            && Subsequence(out, raw)
            && (forall u :: u in out <==> u in raw && !Contains(AsciiLower(u), "javascript:"))
            && (forall u :: multiset(out)[u] == if Contains(AsciiLower(u), "javascript:") then 0 else multiset(raw)[u])
            && forall u :: u in out ==> !Contains(AsciiLower(u), "<script>") && !Contains(AsciiLower(u), "javascript:")
  {
    var raw := Matches(Urls, text);
    FilterCharacterised(raw, KeepUrl);
    FilterMembers(raw, KeepUrl);
    forall u | u in raw ensures KeepUrl(u) <==> !Contains(AsciiLower(u), "javascript:") {
      MatchedUrlChars(text, u);
    }
    forall u ensures multiset(SafeUrls(text))[u] == if Contains(AsciiLower(u), "javascript:") then 0 else multiset(raw)[u] {
      if u !in raw {
        assert multiset(raw)[u] == 0;
      }
    }
  }

  /** The URL pattern fits s[p..e], the tail taking every URL character after the top-level domain. */
  ghost predicate UrlFits(s: string, p: nat, e: nat) {
    exists b, dot, t :: UrlPattern.UrlHead(s, p, b, dot, t) && e == RunEnd(s, t, UrlTail)
  }

  /** The URL pattern's mandatory part fits from p on. */
  ghost predicate UrlStartsAt(s: string, p: nat) {
    exists b, dot, t :: UrlPattern.UrlHead(s, p, b, dot, t)
  }

  /** The URL match k fits the pattern where it lies. */
  lemma UrlSpanFits(text: string, k: nat)
    requires k < |Spans(Urls, text)|
    ensures UrlFits(text, Spans(Urls, text)[k].start, Spans(Urls, text)[k].end)
    ensures Spans(Urls, text)[k].end == RunEnd(text, Spans(Urls, text)[k].start, UrlTail)
  {
    var sp := Spans(Urls, text)[k];
    SpanFound(Urls, text, k);
    assert UrlPattern.UrlAt(text, sp.start) == Some(sp.end);
    UrlPattern.UrlAtCharacterised(text, sp.start);
    var m := UrlPattern.UrlParse(text, sp.start).value;
    assert UrlPattern.UrlHead(text, sp.start, m.body, m.dot, m.tldEnd) && sp.end == RunEnd(text, m.tldEnd, UrlTail);
    UrlPattern.UrlFitEnd(text, sp.start, m.body, m.dot, m.tldEnd);
  }

  /** No URL starts at a position outside the matches. */
  lemma UncoveredNoUrl(text: string, m: nat)
    requires m <= |text| && !Covered(Spans(Urls, text), m)
    ensures !UrlStartsAt(text, m)
  {
    UncoveredNoMatch(Urls, text, m);
    assert UrlPattern.UrlAt(text, m).None?;
    UrlPattern.UrlAtCharacterised(text, m);
  }

  /** Every URL match fits the pattern where it lies and runs to the end of
      the URL characters from its start; no URL starts outside the matches. */
  lemma UrlMatchesFitPattern(text: string)
    ensures var spans := Spans(Urls, text);
            && (forall k :: 0 <= k < |spans| ==>
                  UrlFits(text, spans[k].start, spans[k].end)
                  && spans[k].end == RunEnd(text, spans[k].start, UrlTail))
            && forall m: nat :: m <= |text| && !Covered(spans, m) ==> !UrlStartsAt(text, m)
  {
    var spans := Spans(Urls, text);
    forall k | 0 <= k < |spans|
      ensures UrlFits(text, spans[k].start, spans[k].end) && spans[k].end == RunEnd(text, spans[k].start, UrlTail)
    {
      UrlSpanFits(text, k);
    }
    forall m: nat | m <= |text| && !Covered(spans, m) ensures !UrlStartsAt(text, m) {
      UncoveredNoUrl(text, m);
    }
  }

  // ---------------------------------------------------------------------------
  // Phone numbers, hashtags, currency amounts

  /** Every phone number reported is the text of a match made only of
      digits, '+', '(', ')', '-', '.' and white space, with 10 to 13 digits. */
  lemma PhoneNumbersShape(text: string)
    ensures var spans := Spans(PhoneNumbers, text);
            var out := OutputResults(text).phonenumbers;
            forall k :: 0 <= k < |out| ==>
              out[k] == text[spans[k].start..spans[k].end]
              && PhonePattern.PhoneStretch(text, spans[k].start, spans[k].end, 10, 13)
  {
    var spans := Spans(PhoneNumbers, text);
    forall k | 0 <= k < |spans| ensures PhonePattern.PhoneStretch(text, spans[k].start, spans[k].end, 10, 13) {
      SpanFound(PhoneNumbers, text, k);
      PhonePattern.PhoneMatchSound(text, spans[k].start);
    }
  }

  /** Every hashtag reported is '#' and a right-maximal run of word
      characters, and every such hashtag outside the matches is part of none. */
  lemma HashtagsAreMaximal(text: string)
    ensures var spans := Spans(Hashtags, text);
            var out := OutputResults(text).hashtags;
            && (forall k :: 0 <= k < |out| ==>
                  out[k] == text[spans[k].start..spans[k].end]
                  && HashtagPattern.IsHashtag(text, spans[k].start, spans[k].end))
            && forall m: nat, e: nat ::
                  m <= |text| && !Covered(spans, m) ==> !HashtagPattern.IsHashtag(text, m, e)
  {
    var spans := Spans(Hashtags, text);
    forall k | 0 <= k < |spans| ensures HashtagPattern.IsHashtag(text, spans[k].start, spans[k].end) {
      SpanFound(Hashtags, text, k);
      HashtagPattern.HashtagAtExact(text, spans[k].start, spans[k].end);
    }
    forall m: nat, e: nat | m <= |text| && !Covered(spans, m) ensures !HashtagPattern.IsHashtag(text, m, e) {
      UncoveredNoMatch(Hashtags, text, m);
      HashtagPattern.HashtagAtExact(text, m, e);
    }
  }

  /** Every currency amount reported is the longest amount starting where it
      starts, and no amount starts outside the matches. */
  lemma CurrencyAmountsAreLongest(text: string)
    ensures var spans := Spans(CurrencyAmounts, text);
            var out := OutputResults(text).currencyamounts;
            && (forall k :: 0 <= k < |out| ==>
                  out[k] == text[spans[k].start..spans[k].end]
                  && CurrencyPattern.IsCurrency(text, spans[k].start, spans[k].end)
                  && forall e: nat :: CurrencyPattern.IsCurrency(text, spans[k].start, e) ==> e <= spans[k].end)
            && forall m: nat, e: nat ::
                  m <= |text| && !Covered(spans, m) ==> !CurrencyPattern.IsCurrency(text, m, e)
  {
    var spans := Spans(CurrencyAmounts, text);
    forall k | 0 <= k < |spans|
      ensures CurrencyPattern.IsCurrency(text, spans[k].start, spans[k].end)
              && forall e: nat :: CurrencyPattern.IsCurrency(text, spans[k].start, e) ==> e <= spans[k].end
    {
      SpanFound(CurrencyAmounts, text, k);
      CurrencyPattern.CurrencyAtLongest(text, spans[k].start, spans[k].end);
    }
    forall m: nat, e: nat | m <= |text| && !Covered(spans, m) ensures !CurrencyPattern.IsCurrency(text, m, e) {
      UncoveredNoMatch(CurrencyAmounts, text, m);
      if CurrencyPattern.IsCurrency(text, m, e) {
        CurrencyPattern.CurrencyShapeBound(text, m, e);
      }
    }
  }

  // ---------------------------------------------------------------------------
  // The record

  /** A text with nothing in it gives five empty lists. */
  lemma EmptyTextGivesEmptyLists()
    ensures OutputResults("") == ExtractionResult([], [], [], [], [])
  {
    EmptyTextHasNoMatches(Emails);
    EmptyTextHasNoMatches(Urls);
    EmptyTextHasNoMatches(PhoneNumbers);
    EmptyTextHasNoMatches(Hashtags);
    EmptyTextHasNoMatches(CurrencyAmounts);
  }
}
