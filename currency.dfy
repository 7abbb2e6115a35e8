/** The currency pattern `\$\s?\d{1,3}(?:,\d{3})*(?:\.\d{2})?` anchored at
    one position, in backtracking order: `\s?` first takes, then skips;
    `\d{1,3}` tries three digits, then two, then one; the group star takes
    as many groups as there are; the cents are taken when present. */
module CurrencyPattern {
  import opened Chars

  /** The match found first at p. */
  function CurrencyAt(s: string, p: nat): (r: Option<nat>)
    requires p <= |s|
    ensures r.Some? ==> p < r.value <= |s|
  {
    if !At(s, p, '$') then None
    else OrElse(if p + 1 < |s| && IsSpace(s[p + 1]) then Amount(s, p + 2) else None,
                Amount(s, p + 1))
  }

  /** `\d{1,3}` followed by the groups and the cents, which always succeed. */
  function Amount(s: string, a: nat): (r: Option<nat>)
    requires a <= |s|
    ensures r.Some? ==> a < r.value <= |s|
  {
    OrElse(if Digits(s, a, 3) then Some(Groups(s, a + 3)) else None,
      OrElse(if Digits(s, a, 2) then Some(Groups(s, a + 2)) else None,
             if Digits(s, a, 1) then Some(Groups(s, a + 1)) else None))
  }

  /** `(?:,\d{3})*` then `(?:\.\d{2})?`, each taking all it can. */
  function Groups(s: string, g: nat): (r: nat)
    requires g <= |s|
    ensures g <= r <= |s|
    decreases |s| - g
  {
    if At(s, g, ',') && Digits(s, g + 1, 3) then Groups(s, g + 4) else Cents(s, g)
  }

  /** `(?:\.\d{2})?` */
  function Cents(s: string, g: nat): (r: nat)
    requires g <= |s|
    ensures g <= r <= |s|
  {
    if At(s, g, '.') && Digits(s, g + 1, 2) then g + 3 else g
  }

  // ---------------------------------------------------------------------------
  // The shape of an amount, stated without any search order.

  /** s[g..e] is zero or more ",ddd" groups followed by an optional ".dd". */
  predicate GroupsThenCents(s: string, g: nat, e: nat)
    decreases e - g
  {
    g <= e <= |s|
    && (|| e == g
        || (e == g + 3 && At(s, g, '.') && Digits(s, g + 1, 2))
        || (g + 4 <= e && At(s, g, ',') && Digits(s, g + 1, 3) && GroupsThenCents(s, g + 4, e)))
  }

  /** s[a..e] is one to three digits, then the groups and the cents. */
  predicate IsAmount(s: string, a: nat, e: nat) {
    || (Digits(s, a, 1) && GroupsThenCents(s, a + 1, e))
    || (Digits(s, a, 2) && GroupsThenCents(s, a + 2, e))
    || (Digits(s, a, 3) && GroupsThenCents(s, a + 3, e))
  }

  /** s[p..e] is '$', an optional white-space character and an amount. */
  predicate IsCurrency(s: string, p: nat, e: nat) {
    At(s, p, '$')
    && (IsAmount(s, p + 1, e) || (p + 1 < |s| && IsSpace(s[p + 1]) && IsAmount(s, p + 2, e)))
  }

  lemma {:induction false} GroupsSound(s: string, g: nat)
    requires g <= |s|
    ensures GroupsThenCents(s, g, Groups(s, g))
    decreases |s| - g
  {
    if At(s, g, ',') && Digits(s, g + 1, 3) {
      GroupsSound(s, g + 4);
    }
  }

  /** Taking every group and then the cents reaches at least as far as any
      other way of reading groups and cents. */
  lemma {:induction false} GroupsLongest(s: string, g: nat, e: nat)
    requires g <= |s| && GroupsThenCents(s, g, e)
    ensures e <= Groups(s, g)
    decreases e - g
  {
    if e != g && !(e == g + 3 && At(s, g, '.') && Digits(s, g + 1, 2)) {
      GroupsLongest(s, g + 4, e);
    }
  }

  /** A digit where the groups would start ends them there. */
  lemma GroupsAtDigit(s: string, g: nat, e: nat)
    requires g < |s| && IsDigit(s[g]) && GroupsThenCents(s, g, e)
    ensures e == g
  {
  }

  lemma AmountSound(s: string, a: nat)
    requires a <= |s| && Amount(s, a).Some?
    ensures IsAmount(s, a, Amount(s, a).value)
  {
    if Digits(s, a, 3) { GroupsSound(s, a + 3); }
    else if Digits(s, a, 2) { GroupsSound(s, a + 2); }
    else { GroupsSound(s, a + 1); }
  }

  lemma AmountLongest(s: string, a: nat, e: nat)
    requires a <= |s| && IsAmount(s, a, e)
    ensures Amount(s, a).Some? && e <= Amount(s, a).value
  {
    var k := if Digits(s, a, 3) then 3 else if Digits(s, a, 2) then 2 else 1;
    assert Digits(s, a, k);
    assert Amount(s, a) == Some(Groups(s, a + k));
    if Digits(s, a, k) && GroupsThenCents(s, a + k, e) {
      GroupsLongest(s, a + k, e);
    } else {
      // a shorter run of leading digits stops at a digit, so e ends there
      var j :| 1 <= j < k && Digits(s, a, j) && GroupsThenCents(s, a + j, e);
      assert In(s[a + j], Digit);
      GroupsAtDigit(s, a + j, e);
    }
  }

  /** CurrencyAt finds exactly the longest currency amount starting at p, and
      nothing when there is none: the backtracking search is leftmost-longest
      for this pattern. */
  lemma CurrencyAtLongest(s: string, p: nat, e: nat)
    requires p <= |s|
    ensures CurrencyAt(s, p) == Some(e) <==>
      IsCurrency(s, p, e) && forall e': nat :: IsCurrency(s, p, e') ==> e' <= e
  {
    if CurrencyAt(s, p) == Some(e) {
      if p + 1 < |s| && IsSpace(s[p + 1]) && Amount(s, p + 2).Some? {
        AmountSound(s, p + 2);
      } else {
        AmountSound(s, p + 1);
      }
      forall e': nat | IsCurrency(s, p, e') ensures e' <= e {
        CurrencyShapeBound(s, p, e');
      }
    }
    if IsCurrency(s, p, e) && forall e': nat :: IsCurrency(s, p, e') ==> e' <= e {
      CurrencyShapeBound(s, p, e);
      var r := CurrencyAt(s, p).value;
      CurrencyAtSound(s, p);
      assert r <= e;
    }
  }

  lemma CurrencyAtSound(s: string, p: nat)
    requires p <= |s| && CurrencyAt(s, p).Some?
    ensures IsCurrency(s, p, CurrencyAt(s, p).value)
  {
    if p + 1 < |s| && IsSpace(s[p + 1]) && Amount(s, p + 2).Some? {
      AmountSound(s, p + 2);
    } else {
      AmountSound(s, p + 1);
    }
  }

  /** Any currency amount at p is found, and is no longer than what is found. */
  lemma CurrencyShapeBound(s: string, p: nat, e: nat)
    requires p <= |s| && IsCurrency(s, p, e)
    ensures CurrencyAt(s, p).Some? && e <= CurrencyAt(s, p).value
  {
    if p + 1 < |s| && IsSpace(s[p + 1]) {
      AmountLongest(s, p + 2, e);
    } else {
      AmountLongest(s, p + 1, e);
    }
  }
}
