/** What the extractor does to the raw matches: `Array.prototype.filter`,
    `String.prototype.includes`, lowercasing, and the privacy mask built
    from `split('@')`. */
module PostProcess {

  // ---------------------------------------------------------------------------
  // filter

  /** `xs.filter(keep)` */
  function Filter<T>(xs: seq<T>, keep: T -> bool): (r: seq<T>)
    ensures |r| <= |xs|
  {
    if xs == [] then [] else (if keep(xs[0]) then [xs[0]] else []) + Filter(xs[1..], keep)
  }

  /** a is b with some elements left out, the rest in their order. */
  predicate Subsequence<T(==)>(a: seq<T>, b: seq<T>)
    decreases |b|
  {
    if a == [] then true
    else if b == [] then false
    else (a[0] == b[0] && Subsequence(a[1..], b[1..])) || Subsequence(a, b[1..])
  }

  /** filter keeps the elements that pass, each as often as it occurs, in
      their original order, and drops the elements that fail. */
  lemma {:induction false} FilterCharacterised<T>(xs: seq<T>, keep: T -> bool)
    ensures Subsequence(Filter(xs, keep), xs)
    ensures forall x :: multiset(Filter(xs, keep))[x] == if keep(x) then multiset(xs)[x] else 0
  {
    if xs != [] {
      FilterCharacterised(xs[1..], keep);
      assert xs == [xs[0]] + xs[1..];
      if keep(xs[0]) {
        assert Filter(xs, keep) == [xs[0]] + Filter(xs[1..], keep);
        assert Filter(xs, keep)[1..] == Filter(xs[1..], keep);
      } else {
        assert Filter(xs, keep) == Filter(xs[1..], keep);
      }
    }
  }

  /** An element survives filter exactly when it occurs and passes. */
  lemma FilterMembers<T>(xs: seq<T>, keep: T -> bool)
    ensures forall x :: x in Filter(xs, keep) <==> x in xs && keep(x)
  {
    FilterCharacterised(xs, keep);
    forall x ensures x in Filter(xs, keep) <==> x in xs && keep(x) {
      assert x in Filter(xs, keep) <==> multiset(Filter(xs, keep))[x] > 0;
      assert x in xs <==> multiset(xs)[x] > 0;
    }
  }

  // ---------------------------------------------------------------------------
  // includes and toLowerCase

  /** `w.includes(sub)` */
  predicate Contains(w: string, sub: string) {
    exists i: nat :: i <= |w| - |sub| && OccursAt(w, sub, i)
  }

  /** sub occurs in w starting at position i. */
  predicate OccursAt(w: string, sub: string, i: nat) {
    i + |sub| <= |w| && w[i..i + |sub|] == sub
  }

  function AsciiLowerChar(c: char): (d: char)
    ensures 'A' <= c <= 'Z' ==> d as int == c as int + 32
    ensures !('A' <= c <= 'Z') ==> d == c
  {
    if 'A' <= c <= 'Z' then (c as int + 32) as char else c
  }

  /** `w.toLowerCase()` on ASCII text. */
  function AsciiLower(w: string): (r: string)
    ensures |r| == |w|
    ensures forall k :: 0 <= k < |w| ==> r[k] == AsciiLowerChar(w[k])
  {
    seq(|w|, k requires 0 <= k < |w| => AsciiLowerChar(w[k]))
  }

  /** Lowercasing creates no '<', so text without '<' never contains "<script>"
      once lowercased. */
  lemma NoAngleNoScriptTag(w: string)
    requires '<' !in w
    ensures !Contains(AsciiLower(w), "<script>")
  {
    var l := AsciiLower(w);
    forall i: nat | i <= |l| - 8 ensures !OccursAt(l, "<script>", i) {
      assert w[i] in w;
    }
  }

  /** `!email.includes('..')` */
  predicate KeepEmail(w: string) {
    !Contains(w, "..")
  }

  /** The URL sanitiser: `url.toLowerCase()` contains neither "<script>" nor "javascript:". */
  predicate KeepUrl(w: string) {
    var lower := AsciiLower(w);
    !Contains(lower, "<script>") && !Contains(lower, "javascript:")
  }

  // ---------------------------------------------------------------------------
  // The mask

  /** The position of the first c in w, or |w| when there is none. */
  function IndexOf(w: string, c: char): (i: nat)
    ensures i <= |w| && c !in w[..i]
    ensures i < |w| ==> w[i] == c
  {
    if w == [] || w[0] == c then 0
    else
      var j := IndexOf(w[1..], c);
      assert w[..j + 1] == [w[0]] + w[1..][..j];
      j + 1
  }

  /** `localPart` in `const [localPart, domain] = email.split('@')`: the text before the first '@'. */
  function LocalPart(w: string): string {
    w[..IndexOf(w, '@')]
  }

  /** `domain` from the same split: the text between the first and the second
      '@'; with no '@' at all it is `undefined`, which concatenation renders
      as "undefined". */
  function DomainPart(w: string): string {
    var i := IndexOf(w, '@');
    if i == |w| then "undefined"
    else
      var rest := w[i + 1..];
      rest[..IndexOf(rest, '@')]
  }

  /** The privacy mask of one email. */
  function Mask(w: string): string {
    var local, domain := LocalPart(w), DomainPart(w);
    if |local| > 1 then [local[0]] + "***" + [local[|local| - 1]] + "@" + domain
    else local + "***@" + domain
  }

  lemma IndexOfAbsent(w: string, c: char)
    requires c !in w
    ensures IndexOf(w, c) == |w|
  {
  }

  /** split('@') on a text with one '@' gives back the two sides. */
  lemma {:induction false} SplitOneAt(l: string, d: string)
    requires '@' !in l && '@' !in d
    ensures LocalPart(l + "@" + d) == l && DomainPart(l + "@" + d) == d
  {
    var w := l + "@" + d;
    IndexOfFirst(l, d);
    assert w[..|l|] == l;
    assert w[|l| + 1..] == d;
    IndexOfAbsent(d, '@');
  }

  lemma {:induction false} IndexOfFirst(l: string, d: string)
    requires '@' !in l
    ensures IndexOf(l + "@" + d, '@') == |l|
    decreases |l|
  {
    var w := l + "@" + d;
    if l != [] {
      assert w[1..] == l[1..] + "@" + d;
      IndexOfFirst(l[1..], d);
    }
  }

  /** An email whose local part is longer than one character is masked to
      its first character, "***", its last character, '@' and the domain. */
  lemma MaskLong(l: string, d: string)
    requires '@' !in l && '@' !in d && |l| > 1
    ensures Mask(l + "@" + d) == [l[0]] + "***" + [l[|l| - 1]] + "@" + d
  {
    SplitOneAt(l, d);
  }

  /** An email whose local part is one character is masked to that
      character, "***@" and the domain. */
  lemma MaskShort(l: string, d: string)
    requires '@' !in l && '@' !in d && |l| == 1
    ensures Mask(l + "@" + d) == l + "***@" + d
  {
    SplitOneAt(l, d);
  }

  /** The mask is one-way: two local parts longer than one character that
      agree in their first and last character give the same output, whatever
      lies between. */
  lemma MaskHidesMiddle(l1: string, l2: string, d: string)
    requires '@' !in l1 && '@' !in l2 && '@' !in d && |l1| > 1 && |l2| > 1
    requires l1[0] == l2[0] && l1[|l1| - 1] == l2[|l2| - 1]
    ensures Mask(l1 + "@" + d) == Mask(l2 + "@" + d)
  {
    MaskLong(l1, d);
    MaskLong(l2, d);
  }

  /** A worked case: "ann@x.io" is masked to "a***n@x.io". */
  lemma MaskLongExample()
    ensures Mask("ann@x.io") == "a***n@x.io"
  {
    assert "ann" + "@" + "x.io" == "ann@x.io";
    MaskLong("ann", "x.io");
    assert ["ann"[0]] + "***" + ["ann"[2]] + "@" + "x.io" == "a***n@x.io";
  }

  /** A worked case: "a@b.co" is masked to "a***@b.co". */
  lemma MaskShortExample()
    ensures Mask("a@b.co") == "a***@b.co"
  {
    MaskShort("a", "b.co");
    assert "a" + "@" + "b.co" == "a@b.co";
  }
}
