/** The string operations the report takes from Python: the `in` test,
    `str.find`, and the replace-all that `re.sub` performs when its pattern
    holds no regular-expression metacharacters. */
module Text {
  import opened Wrappers

  /** The string p occurs in s starting at index i. */
  predicate OccursAt(s: string, p: string, i: nat)
  {
    i + |p| <= |s| && s[i..i + |p|] == p
  }

  /** The first index at or after `from` where p occurs in s
      (`s.find(p, from)`, with None standing for -1). */
  function FindFrom(s: string, p: string, from: nat): (r: Option<nat>)
    requires from <= |s|
    ensures r.Some? ==> from <= r.value && OccursAt(s, p, r.value)
    ensures r.Some? ==> forall j: nat :: from <= j < r.value ==> !OccursAt(s, p, j)
    ensures r.None? ==> forall j: nat :: from <= j ==> !OccursAt(s, p, j)
    decreases |s| - from
  {
    if OccursAt(s, p, from) then Some(from)
    else if from == |s| then None
    else FindFrom(s, p, from + 1)
  }

  /** `s.find(p)`. */
  function Find(s: string, p: string): (r: Option<nat>)
    ensures r.Some? ==> FirstAt(s, p, r.value)
    ensures r.None? ==> forall j: nat :: !OccursAt(s, p, j)
  {
    FindFrom(s, p, 0)
  }

  /** `p in s`. */
  predicate Contains(s: string, p: string)
    ensures Contains(s, p) <==> exists j: nat :: OccursAt(s, p, j)
  {
    Find(s, p).Some?
  }

  /** i is the first index where p occurs in s. */
  predicate FirstAt(s: string, p: string, i: nat)
  {
    OccursAt(s, p, i) && forall j: nat :: j < i ==> !OccursAt(s, p, j)
  }

  /** Find returns the first occurrence, and only that one. */
  lemma FindIs(s: string, p: string, i: nat)
    ensures Find(s, p) == Some(i) <==> FirstAt(s, p, i)
  {
  }

  /** Occurrences in a suffix are occurrences in the whole string, shifted. */
  lemma OccursAtDrop(s: string, p: string, n: nat, j: nat)
    requires n <= |s|
    ensures OccursAt(s[n..], p, j) <==> OccursAt(s, p, n + j)
  {
    if n + j + |p| <= |s| {
      assert s[n..][j..j + |p|] == s[n + j..n + j + |p|];
    }
  }

  /** An occurrence of a + b is an occurrence of a. */
  lemma OccursAtPrefix(s: string, a: string, b: string, j: nat)
    requires OccursAt(s, a + b, j)
    ensures OccursAt(s, a, j)
  {
    assert s[j..j + |a|] == s[j..j + |a + b|][..|a|];
  }

  /** A first occurrence of a where a + b also occurs is the first
      occurrence of a + b. */
  lemma FirstAtExtend(s: string, a: string, b: string, i: nat)
    requires FirstAt(s, a, i) && OccursAt(s, a + b, i)
    ensures FirstAt(s, a + b, i)
  {
    forall j: nat | j < i ensures !OccursAt(s, a + b, j) {
      if OccursAt(s, a + b, j) {
        OccursAtPrefix(s, a, b, j);
      }
    }
  }

  /** The middle part of a concatenation occurs in it. */
  lemma ContainsMiddle(a: string, b: string, c: string)
    ensures Contains(a + (b + c), b)
  {
    assert (a + (b + c))[|a|..|a| + |b|] == b;
    assert OccursAt(a + (b + c), b, |a|);
  }

  /** What b contains, a + b contains. */
  lemma ContainsWithin(a: string, b: string, c: string)
    requires Contains(b, c)
    ensures Contains(a + b, c)
  {
    var i := Find(b, c).value;
    assert (a + b)[|a| + i..|a| + i + |c|] == b[i..i + |c|];
    assert OccursAt(a + b, c, |a| + i);
  }

  /** Every non-overlapping occurrence of p in s[k..], scanning left to
      right, replaced by r. */
  function ReplaceFrom(s: string, p: string, r: string, k: nat): string
    requires p != [] && k <= |s|
    decreases |s| - k
  {
    if |s| - k < |p| then s[k..]
    else if OccursAt(s, p, k) then r + ReplaceFrom(s, p, r, k + |p|)
    else [s[k]] + ReplaceFrom(s, p, r, k + 1)
  }

  /** `re.sub(p, r, s)` for a literal pattern p. */
  function ReplaceAll(s: string, p: string, r: string): string
    requires p != []
  {
    ReplaceFrom(s, p, r, 0)
  }

  /** The reference reading of replace-all: locate the leftmost occurrence
      at or after k with `find`, substitute it, and carry on after it. */
  function SpliceFrom(s: string, p: string, r: string, k: nat): string
    requires p != [] && k <= |s|
    decreases |s| - k
  {
    match FindFrom(s, p, k)
    case None => s[k..]
    case Some(i) => s[k..i] + (r + SpliceFrom(s, p, r, i + |p|))
  }

  function SpliceAll(s: string, p: string, r: string): string
    requires p != []
  {
    SpliceFrom(s, p, r, 0)
  }

  /** No occurrence at or after k: the rest of the text is kept. */
  lemma {:induction false} ReplaceFromAbsent(s: string, p: string, r: string, k: nat)
    requires p != [] && k <= |s|
    requires forall j: nat :: k <= j ==> !OccursAt(s, p, j)
    ensures ReplaceFrom(s, p, r, k) == s[k..]
    decreases |s| - k
  {
    if |s| - k >= |p| {
      assert !OccursAt(s, p, k);
      ReplaceFromAbsent(s, p, r, k + 1);
      assert [s[k]] + s[k + 1..] == s[k..];
    }
  }

  /** One step of the scan: a character that starts no occurrence is kept. */
  lemma ReplaceFromKeep(s: string, p: string, r: string, k: nat)
    requires p != [] && k + |p| <= |s| && !OccursAt(s, p, k)
    ensures ReplaceFrom(s, p, r, k) == [s[k]] + ReplaceFrom(s, p, r, k + 1)
  {
  }

  lemma ConsSlice(s: string, k: nat, i: nat, t: string)
    requires k < i <= |s|
    ensures [s[k]] + (s[k + 1..i] + t) == s[k..i] + t
  {
    assert [s[k]] + s[k + 1..i] == s[k..i];
  }

  /** The first occurrence at or after k is at i: the text from k to i is
      kept, the occurrence becomes r, and the scan resumes after it. */
  lemma {:induction false} ReplaceFromSplice(s: string, p: string, r: string, k: nat, i: nat)
    requires p != [] && k <= i && OccursAt(s, p, i)
    requires forall j: nat :: k <= j < i ==> !OccursAt(s, p, j)
    ensures ReplaceFrom(s, p, r, k) == s[k..i] + (r + ReplaceFrom(s, p, r, i + |p|))
    decreases i - k
  {
    if k < i {
      ReplaceFromKeep(s, p, r, k);
      ReplaceFromSplice(s, p, r, k + 1, i);
      ConsSlice(s, k, i, r + ReplaceFrom(s, p, r, i + |p|));
    }
  }

  /** The scanning replace-all and the splicing one agree from every
      starting index. */
  lemma {:induction false} ReplaceFromIsSpliceFrom(s: string, p: string, r: string, k: nat)
    requires p != [] && k <= |s|
    ensures ReplaceFrom(s, p, r, k) == SpliceFrom(s, p, r, k)
    decreases |s| - k
  {
    var f := FindFrom(s, p, k);
    if f.None? {
      ReplaceFromAbsent(s, p, r, k);
    } else {
      ReplaceFromIsSpliceFrom(s, p, r, f.value + |p|);
      SpliceStep(s, p, r, k, f.value);
    }
  }

  lemma SpliceStep(s: string, p: string, r: string, k: nat, i: nat)
    requires p != [] && k <= |s| && FindFrom(s, p, k) == Some(i)
    requires ReplaceFrom(s, p, r, i + |p|) == SpliceFrom(s, p, r, i + |p|)
    ensures ReplaceFrom(s, p, r, k) == SpliceFrom(s, p, r, k)
  {
    ReplaceFromSplice(s, p, r, k, i);
  }

  /** `s.split(p)` from index k: the pieces of s[k..] between the
      non-overlapping occurrences of p, left to right. */
  function SplitFrom(s: string, p: string, k: nat): (pieces: seq<string>)
    requires p != [] && k <= |s|
    ensures |pieces| >= 1
    decreases |s| - k
  {
    match FindFrom(s, p, k)
    case None => [s[k..]]
    case Some(i) => [s[k..i]] + SplitFrom(s, p, i + |p|)
  }

  function Split(s: string, p: string): seq<string>
    requires p != []
  {
    SplitFrom(s, p, 0)
  }

  /** `sep.join(pieces)`. */
  function Join(pieces: seq<string>, sep: string): string
  {
    if |pieces| == 0 then []
    else if |pieces| == 1 then pieces[0]
    else pieces[0] + (sep + Join(pieces[1..], sep))
  }

  /** Splicing is joining the pieces with the replacement. */
  lemma {:induction false} SpliceFromIsJoin(s: string, p: string, r: string, k: nat)
    requires p != [] && k <= |s|
    ensures SpliceFrom(s, p, r, k) == Join(SplitFrom(s, p, k), r)
    decreases |s| - k
  {
    match FindFrom(s, p, k)
    case None =>
    case Some(i) =>
      SpliceFromIsJoin(s, p, r, i + |p|);
      var rest := SplitFrom(s, p, i + |p|);
      assert ([s[k..i]] + rest)[1..] == rest;
  }

  /** Putting the occurrences back between the pieces restores the text. */
  lemma {:induction false} SpliceFromSelf(s: string, p: string, k: nat)
    requires p != [] && k <= |s|
    ensures SpliceFrom(s, p, p, k) == s[k..]
    decreases |s| - k
  {
    match FindFrom(s, p, k)
    case None =>
    case Some(i) =>
      SpliceFromSelf(s, p, i + |p|);
      assert s[k..] == s[k..i] + (s[i..i + |p|] + s[i + |p|..]);
  }

  /** An occurrence inside s[k..i] is an occurrence in s that ends by i. */
  lemma SliceOccurs(s: string, p: string, k: nat, i: nat, m: nat)
    requires k <= i <= |s|
    ensures OccursAt(s[k..i], p, m) ==> k + m + |p| <= i && OccursAt(s, p, k + m)
  {
    if m + |p| <= i - k {
      var inner, outer := s[k..i][m..m + |p|], s[k + m..k + m + |p|];
      assert forall q :: 0 <= q < |p| ==> inner[q] == outer[q];
    }
  }

  /** The piece before the first occurrence at or after k (or the rest of
      the text when there is none) does not contain p. */
  lemma GapFree(s: string, p: string, k: nat)
    requires p != [] && k <= |s|
    ensures var f := FindFrom(s, p, k);
      !Contains(s[k..if f.Some? then f.value else |s|], p)
  {
    var f := FindFrom(s, p, k);
    var end := if f.Some? then f.value else |s|;
    forall m: nat ensures !OccursAt(s[k..end], p, m) {
      SliceOccurs(s, p, k, end, m);
    }
  }

  /** No piece contains the pattern. */
  lemma {:induction false} SplitFromFree(s: string, p: string, k: nat, j: nat)
    requires p != [] && k <= |s| && j < |SplitFrom(s, p, k)|
    ensures !Contains(SplitFrom(s, p, k)[j], p)
    decreases |s| - k
  {
    var f := FindFrom(s, p, k);
    if j == 0 {
      GapFree(s, p, k);
      assert SplitFrom(s, p, k)[0] == s[k..if f.Some? then f.value else |s|];
    } else {
      SplitFromFree(s, p, f.value + |p|, j - 1);
    }
  }

  /** Replace-all is `r.join(s.split(p))`; joining the pieces with p gives
      s back, and no piece holds p: no occurrence is left unreplaced
      between the replacements. */
  lemma ReplaceAllIsJoin(s: string, p: string, r: string)
    requires p != []
    ensures ReplaceAll(s, p, r) == Join(Split(s, p), r)
    ensures Join(Split(s, p), p) == s
    ensures forall j :: 0 <= j < |Split(s, p)| ==> !Contains(Split(s, p)[j], p)
  {
    ReplaceAllIsSpliceAll(s, p, r);
    SpliceFromIsJoin(s, p, r, 0);
    SpliceFromIsJoin(s, p, p, 0);
    SpliceFromSelf(s, p, 0);
    assert s[0..] == s;
    forall j | 0 <= j < |Split(s, p)| ensures !Contains(Split(s, p)[j], p) {
      SplitFromFree(s, p, 0, j);
    }
  }

  /** A text without the pattern comes back unchanged. */
  lemma ReplaceAllAbsent(s: string, p: string, r: string)
    requires p != []
    requires !Contains(s, p)
    ensures ReplaceAll(s, p, r) == s
  {
    ReplaceFromAbsent(s, p, r, 0);
    assert s[0..] == s;
  }

  /** The text before the first occurrence is kept, the first occurrence
      becomes r, and the scan resumes right after it. */
  lemma ReplaceAllSplice(s: string, p: string, r: string, i: nat)
    requires p != []
    requires FirstAt(s, p, i)
    ensures i + |p| <= |s|
    ensures ReplaceAll(s, p, r) == s[..i] + (r + ReplaceFrom(s, p, r, i + |p|))
  {
    ReplaceFromSplice(s, p, r, 0, i);
    assert s[0..i] == s[..i];
  }

  /** When a first occurs at i and p = a + b occurs there too, replacing p
      keeps the text before i and resumes after the occurrence at i. */
  lemma ReplaceAllFirst(s: string, a: string, b: string, p: string, r: string, i: nat)
    requires p == a + b && a != [] && FirstAt(s, a, i) && OccursAt(s, p, i)
    ensures i + |p| <= |s|
    ensures ReplaceAll(s, p, r) == s[..i] + (r + ReplaceFrom(s, p, r, i + |p|))
  {
    FirstAtExtend(s, a, b, i);
    ReplaceAllSplice(s, p, r, i);
  }

  /** The scanning replace-all and the splicing one agree on every input. */
  lemma ReplaceAllIsSpliceAll(s: string, p: string, r: string)
    requires p != []
    ensures ReplaceAll(s, p, r) == SpliceAll(s, p, r)
  {
    ReplaceFromIsSpliceFrom(s, p, r, 0);
  }

  /** When the pattern occurs, the replacement occurs in the result. */
  lemma ReplaceAllInserts(s: string, p: string, r: string)
    requires p != []
    requires Contains(s, p)
    ensures Contains(ReplaceAll(s, p, r), r)
  {
    var i := Find(s, p).value;
    FindIs(s, p, i);
    ReplaceAllSplice(s, p, r, i);
    ContainsMiddle(s[..i], r, ReplaceFrom(s, p, r, i + |p|));
  }
}
