/**
  Charset-name guessing of the charset tester (CharsetTester.buildCandidates):
  the original name, six spellings built from its digits, two fixed EBCDIC
  code pages, with repeats removed in order of first occurrence.
 */
module CharsetCandidates {
  import opened Wrappers

  predicate IsAsciiDigit(c: char) {
    '0' <= c <= '9'
  }

  /** The ASCII digits of `s`, in order: what survives lower-casing, dropping
      everything outside [0-9a-z], then dropping everything outside [0-9]. */
  function AsciiDigits(s: string): (r: string)
    ensures |r| <= |s|
    ensures forall i | 0 <= i < |r| :: IsAsciiDigit(r[i])
    ensures (forall i | 0 <= i < |s| :: IsAsciiDigit(s[i])) ==> r == s
    ensures |s| == 1 ==> r == (if IsAsciiDigit(s[0]) then s else "")
    decreases |s|
  {
    if |s| == 0 then ""
    else
      (if IsAsciiDigit(s[0]) then [s[0]] else "") + AsciiDigits(s[1..])
  }

  /** Every ASCII digit occurs in the result exactly as often as in the name. */
  lemma {:induction false} AsciiDigitsKeepsEveryDigit(s: string)
    ensures forall c | IsAsciiDigit(c) :: multiset(AsciiDigits(s))[c] == multiset(s)[c]
    decreases |s|
  {
    if |s| > 0 {
      AsciiDigitsKeepsEveryDigit(s[1..]);
      var head: string := if IsAsciiDigit(s[0]) then [s[0]] else "";
      assert s == [s[0]] + s[1..];
      assert multiset(AsciiDigits(s)) == multiset(head) + multiset(AsciiDigits(s[1..]));
      assert multiset(s) == multiset([s[0]]) + multiset(s[1..]);
    }
  }

  /** The digits of a concatenation are the digits of each part, in order;
      with the one-character case this fixes the digits of every name. */
  lemma {:induction false} AsciiDigitsAppend(a: string, b: string)
    ensures AsciiDigits(a + b) == AsciiDigits(a) + AsciiDigits(b)
    decreases |a|
  {
    if |a| > 0 {
      var head: string := if IsAsciiDigit(a[0]) then [a[0]] else "";
      AsciiDigitsAppend(a[1..], b);
      assert (a + b)[1..] == a[1..] + b;
      assert AsciiDigits(a + b) == head + AsciiDigits(a[1..] + b);
      assert AsciiDigits(a) == head + AsciiDigits(a[1..]);
      AppendAssoc(head, AsciiDigits(a[1..]), AsciiDigits(b));
    } else {
      assert a + b == b;
    }
  }

  /** The prefixes put in front of the digits, in the order they are tried. */
  const DerivedPrefixes: seq<string> := ["Cp", "cp", "IBM", "ibm-", "ibm", "EBCDIC-"]

  /** The list before repeats are removed. */
  function RawCandidates(original: string): (r: seq<string>)
    ensures |r| == 9
  {
    var d := AsciiDigits(original);
    [original, "Cp" + d, "cp" + d, "IBM" + d, "ibm-" + d, "ibm" + d, "EBCDIC-" + d, "Cp037", "Cp1047"]
  }

  predicate NoDuplicates(s: seq<string>) {
    forall i, j | 0 <= i < j < |s| :: s[i] != s[j]
  }

  /** The index of the first occurrence of `x` in `xs`. */
  function FirstIndex(xs: seq<string>, x: string): (k: nat)
    requires x in xs
    ensures k < |xs| && xs[k] == x
    ensures forall j | 0 <= j < k :: xs[j] != x
    decreases |xs|
  {
    if xs[0] == x then 0 else 1 + FirstIndex(xs[1..], x)
  }

  lemma FirstIndexIs(xs: seq<string>, x: string, k: nat)
    requires k < |xs| && xs[k] == x && forall j | 0 <= j < k :: xs[j] != x
    ensures FirstIndex(xs, x) == k
  {
  }

  /** Elements of `r` appear in the order of their first occurrence in `xs`. */
  predicate InFirstOccurrenceOrder(r: seq<string>, xs: seq<string>) {
    forall i, j | 0 <= i < j < |r| :: r[i] in xs && r[j] in xs && FirstIndex(xs, r[i]) < FirstIndex(xs, r[j])
  }

  /** The dedupe loop: walk `xs` left to right and keep an element only if it
      is not kept already. Defined on prefixes: the result for `xs` is the
      list after the loop has seen every element of `xs`. */
  function Dedupe(xs: seq<string>): (r: seq<string>)
    ensures NoDuplicates(r)
    ensures forall x :: x in r <==> x in xs
    ensures |r| <= |xs|
    ensures |xs| > 0 ==> |r| > 0 && r[0] == xs[0]
    ensures InFirstOccurrenceOrder(r, xs)
    decreases |xs|
  {
    if |xs| == 0 then []
    else
      var init := xs[..|xs| - 1];
      var last := xs[|xs| - 1];
      var kept := Dedupe(init);
      DedupeStep(xs, kept);
      if last in kept then kept else kept + [last]
  }

  /** One turn of the dedupe loop keeps the list free of repeats, equal as a
      set to what was seen, and in first-occurrence order. */
  lemma DedupeStep(xs: seq<string>, kept: seq<string>)
    requires |xs| > 0 && NoDuplicates(kept)
    requires forall x :: x in kept <==> x in xs[..|xs| - 1]
    requires InFirstOccurrenceOrder(kept, xs[..|xs| - 1])
    ensures var last := xs[|xs| - 1];
            var r := if last in kept then kept else kept + [last];
            && NoDuplicates(r)
            && (forall x :: x in r <==> x in xs)
            && InFirstOccurrenceOrder(r, xs)
  {
    var n := |xs| - 1;
    assert xs == xs[..n] + [xs[n]];
    OrderOverPrefix(xs, n, kept);
    if xs[n] !in kept {
      AppendKeepsOrder(xs, kept);
    }
  }

  /** First-occurrence order within a prefix is first-occurrence order in the whole. */
  lemma OrderOverPrefix(xs: seq<string>, n: nat, kept: seq<string>)
    requires n <= |xs| && forall x | x in kept :: x in xs[..n]
    requires InFirstOccurrenceOrder(kept, xs[..n])
    ensures InFirstOccurrenceOrder(kept, xs)
    ensures forall x | x in kept :: FirstIndex(xs, x) < n
  {
    FirstIndexOfPrefix(xs, n, kept);
    forall i, j | 0 <= i < j < |kept|
      ensures kept[i] in xs && kept[j] in xs && FirstIndex(xs, kept[i]) < FirstIndex(xs, kept[j])
    {
      assert kept[i] in kept && kept[j] in kept;
    }
  }

  /** Keeping an element first seen at the end respects the order. */
  lemma AppendKeepsOrder(xs: seq<string>, kept: seq<string>)
    requires |xs| > 0 && xs[|xs| - 1] !in kept
    requires forall x :: x in kept <==> x in xs[..|xs| - 1]
    requires InFirstOccurrenceOrder(kept, xs)
    requires forall x | x in kept :: FirstIndex(xs, x) < |xs| - 1
    ensures InFirstOccurrenceOrder(kept + [xs[|xs| - 1]], xs)
  {
    var last := xs[|xs| - 1];
    LastFirstIndex(xs, kept);
    var r := kept + [last];
    forall i, j | 0 <= i < j < |r|
      ensures r[i] in xs && r[j] in xs && FirstIndex(xs, r[i]) < FirstIndex(xs, r[j])
    {
      assert r[i] == kept[i] && kept[i] in kept;
      if j < |kept| {
        assert r[j] == kept[j];
      }
    }
  }

  /** For elements of a prefix, the first occurrence in the prefix is the first occurrence overall. */
  lemma FirstIndexOfPrefix(xs: seq<string>, n: nat, kept: seq<string>)
    requires n <= |xs| && forall x | x in kept :: x in xs[..n]
    ensures forall x | x in kept :: x in xs && FirstIndex(xs, x) == FirstIndex(xs[..n], x) < n
  {
    forall x | x in kept
      ensures x in xs && FirstIndex(xs, x) == FirstIndex(xs[..n], x) < n
    {
      var k := FirstIndex(xs[..n], x);
      FirstIndexIs(xs, x, k);
    }
  }

  /** An element not seen before the end first occurs at the end. */
  lemma LastFirstIndex(xs: seq<string>, kept: seq<string>)
    requires |xs| > 0 && forall x :: x in kept <==> x in xs[..|xs| - 1]
    requires xs[|xs| - 1] !in kept
    ensures FirstIndex(xs, xs[|xs| - 1]) == |xs| - 1
  {
    var last := xs[|xs| - 1];
    forall j | 0 <= j < |xs| - 1
      ensures xs[j] != last
    {
      assert xs[j] == xs[..|xs| - 1][j];
    }
    FirstIndexIs(xs, last, |xs| - 1);
  }

  /** `x` is one of the six spellings built from the digits of `original`. */
  predicate IsDerived(x: string, original: string) {
    var d := AsciiDigits(original);
    |d| <= |x| && x[|x| - |d|..] == d && x[..|x| - |d|] in DerivedPrefixes
  }

  lemma DerivedSpelling(prefix: string, original: string)
    requires prefix in DerivedPrefixes
    ensures IsDerived(prefix + AsciiDigits(original), original)
  {
    var d := AsciiDigits(original);
    var x := prefix + d;
    assert x[|x| - |d|..] == d && x[..|x| - |d|] == prefix;
  }

  /** What the list holds before repeats are removed. */
  lemma RawCandidatesShape(original: string)
    ensures var raw := RawCandidates(original);
            && raw[0] == original && raw[7] == "Cp037" && raw[8] == "Cp1047"
            && forall x | x in raw :: x == original || x == "Cp037" || x == "Cp1047" || IsDerived(x, original)
  {
    var raw := RawCandidates(original);
    var d := AsciiDigits(original);
    forall k | 1 <= k <= 6
      ensures IsDerived(raw[k], original)
    {
      assert raw[k] == DerivedPrefixes[k - 1] + d;
      DerivedSpelling(DerivedPrefixes[k - 1], original);
    }
    forall x | x in raw
      ensures x == original || x == "Cp037" || x == "Cp1047" || IsDerived(x, original)
    {
      var k :| 0 <= k < |raw| && raw[k] == x;
    }
  }

  /** buildCandidates: the original name first, every candidate once, in the
      order first tried, always including Cp037 and Cp1047, at most nine. */
  function BuildCandidates(original: string): (r: seq<string>)
    ensures |r| > 0 && r[0] == original
    ensures NoDuplicates(r)
    ensures forall x :: x in r <==> x in RawCandidates(original)
    ensures InFirstOccurrenceOrder(r, RawCandidates(original))
    ensures "Cp037" in r && "Cp1047" in r
    ensures |r| <= 9
    ensures forall x | x in r :: x == original || x == "Cp037" || x == "Cp1047" || IsDerived(x, original)
  {
    RawCandidatesShape(original);
    Dedupe(RawCandidates(original))
  }
}
