/** The hashtag pattern `#\w+` anchored at one position. */
module HashtagPattern {
  import opened Chars

  /** The match at p: '#' and the longest run of word characters after it
      (`\w+` is greedy and nothing follows it in the pattern). */
  function HashtagAt(s: string, p: nat): (r: Option<nat>)
    requires p <= |s|
    ensures r.Some? ==> p < r.value <= |s|
  {
    if At(s, p, '#') && InAt(s, p + 1, Word) then Some(RunEnd(s, p + 1, Word)) else None
  }

  /** s[p..e] is '#' and one or more word characters, and the text does not
      go on with another word character. */
  predicate IsHashtag(s: string, p: nat, e: nat) {
    && At(s, p, '#') && p + 1 < e <= |s|
    && AllIn(s, p + 1, e, Word)
    && (e == |s| || !IsWordChar(s[e]))
  }

  /** HashtagAt finds exactly the right-maximal hashtag starting at p, and
      nothing when there is none. */
  lemma HashtagAtExact(s: string, p: nat, e: nat)
    requires p <= |s|
    ensures HashtagAt(s, p) == Some(e) <==> IsHashtag(s, p, e)
  {
    if IsHashtag(s, p, e) {
      RunEndIsLongest(s, p + 1, e, Word);
    }
  }
}
