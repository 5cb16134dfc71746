/** The keyword filter for comments: blocking a comment that contains a keyword, or masking every
    keyword rune by rune. */
module Keywords {
  import opened Options
  import opened Text

  datatype Mode = Block | Replace | Unknown

  /** Files are given by their contents; None cannot be read. */
  datatype Conf = Conf(files: seq<Option<string>>, fileSep: string, replaceTo: string, mode: Mode)

  datatype Verdict = Failed | Checked(pass: bool, update: Option<string>)

  predicate ContainsAny(s: string, keywords: seq<string>) {
    exists i :: 0 <= i < |keywords| && Contains(s, keywords[i])
  }

  ghost predicate NoneBlank(keywords: seq<string>) {
    forall i :: 0 <= i < |keywords| ==> keywords[i] != ""
  }

  /** The content after the given keywords have been replaced one after the other. Whether a keyword
      is replaced depends on the original content, the replacement works on what is left of it. */
  function Censored(original: string, keywords: seq<string>, replaceTo: string): string
    requires NoneBlank(keywords)
    decreases |keywords|
  {
    if keywords == [] then original
    else
      var k := keywords[|keywords| - 1];
      var before := Censored(original, keywords[..|keywords| - 1], replaceTo);
      if Contains(original, k) then ReplaceAll(before, k, Repeat(replaceTo, |k|)) else before
  }

  // ---------------------------------------------------------------------------------------------
  // Replacements that have no rune in common with any keyword
  // ---------------------------------------------------------------------------------------------

  predicate NoRuneIn(r: string, k: string) {
    forall c :: c in r ==> c !in k
  }

  predicate IsSafe(keywords: seq<string>, replaceTo: string) {
    replaceTo != "" && forall i :: 0 <= i < |keywords| ==> NoRuneIn(replaceTo, keywords[i])
  }

  lemma {:induction false} RepeatRunes(r: string, n: nat)
    requires r != ""
    ensures (n > 0 ==> Repeat(r, n) != "") && forall c :: c in Repeat(r, n) ==> c in r
  {
    if n > 0 {
      RepeatRunes(r, n - 1);
    }
  }

  /** Text that starts with the word starts with its replacement afterwards. */
  lemma StartsWithReplacement(s: string, k: string, r: string, i: nat)
    requires k != "" && |s| >= |k|
    ensures k <= s && i < |r| ==> i < |ReplaceAll(s, k, r)| && ReplaceAll(s, k, r)[i] == r[i] && r[i] in r
  {
  }

  /** What begins the text after a replacement, and shares no rune with it, began the text before. */
  lemma {:induction false} PrefixWasThere(s: string, k: string, r: string, n: nat)
    requires k != "" && r != "" && n <= |ReplaceAll(s, k, r)| && NoRuneIn(r, ReplaceAll(s, k, r)[..n])
    ensures n <= |s| && s[..n] == ReplaceAll(s, k, r)[..n]
    decreases |s|
  {
    var out := ReplaceAll(s, k, r);
    if n > 0 && |s| >= |k| {
      assert out[0] in out[..n];
      StartsWithReplacement(s, k, r, 0);
      if !(k <= s) {
        var rest := ReplaceAll(s[1..], k, r);
        assert out[..n] == [s[0]] + rest[..n - 1];
        assert forall c :: c in rest[..n - 1] ==> c in out[..n];
        PrefixWasThere(s[1..], k, r, n - 1);
        assert s[..n] == [s[0]] + s[1..][..n - 1];
      }
    }
  }

  lemma OccursShift(s: string, k: string, d: nat, i: nat)
    requires d <= |s|
    ensures OccursAt(s[d..], k, i) <==> OccursAt(s, k, d + i)
  {
    if i + |k| <= |s| - d {
      assert s[d..][i..i + |k|] == s[d + i..d + i + |k|];
    }
  }

  lemma OccursRune(s: string, k: string, i: nat, j: nat)
    requires j < |k|
    ensures OccursAt(s, k, i) ==> s[i + j] == k[j]
  {
    if OccursAt(s, k, i) {
      assert s[i..i + |k|][j] == s[i + j];
    }
  }

  /** A word that shares no rune with the replacement, and is in the text afterwards, was in it before,
      and is not the word that was replaced. */
  lemma {:induction false} OccurrenceWasThere(s: string, k: string, r: string, q: string, i: nat)
    requires k != "" && r != "" && q != "" && NoRuneIn(r, q) && OccursAt(ReplaceAll(s, k, r), q, i)
    ensures Contains(s, q) && q != k
    decreases |s|, 0
  {
    var out := ReplaceAll(s, k, r);
    assert out[i..i + |q|][0] == q[0] && q[0] in q;
    if |s| < |k| {
      assert OccursAt(s, q, i);
    } else if k <= s {
      StartsWithReplacement(s, k, r, i);
      OccurrenceFollows(s, k, r, q, r, ReplaceAll(s[|k|..], k, r), |k|, i);
    } else if i > 0 {
      OccurrenceFollows(s, k, r, q, [s[0]], ReplaceAll(s[1..], k, r), 1, i);
    } else {
      FirstWasThere(s, k, r, q);
    }
  }

  lemma {:induction false} OccurrenceFollows(s: string, k: string, r: string, q: string, head: string, rest: string,
                                             d: nat, i: nat)
    requires k != "" && r != "" && q != "" && NoRuneIn(r, q) && 0 < d <= |s|
    requires rest == ReplaceAll(s[d..], k, r) && |head| <= i && OccursAt(head + rest, q, i)
    ensures Contains(s, q) && q != k
    decreases |s| - d, 1
  {
    assert (head + rest)[|head|..] == rest;
    OccursShift(head + rest, q, |head|, i - |head|);
    OccurrenceWasThere(s[d..], k, r, q, i - |head|);
    var p: nat :| p <= |s[d..]| && OccursAt(s[d..], q, p);
    OccursShift(s, q, d, p);
  }

  lemma FirstWasThere(s: string, k: string, r: string, q: string)
    requires k != "" && r != "" && q != "" && NoRuneIn(r, q) && |s| >= |k| && !(k <= s)
    requires OccursAt(ReplaceAll(s, k, r), q, 0)
    ensures Contains(s, q) && q != k
  {
    var rest, n := ReplaceAll(s[1..], k, r), |q| - 1;
    assert ReplaceAll(s, k, r) == [s[0]] + rest;
    assert q == [s[0]] + rest[..n];
    assert forall c :: c in rest[..n] ==> c in q;
    PrefixWasThere(s[1..], k, r, n);
    assert s[..|q|] == [s[0]] + s[1..][..n];
    assert OccursAt(s, q, 0);
  }

  lemma {:induction false} CensoredWasThere(s: string, keywords: seq<string>, replaceTo: string, q: string)
    requires NoneBlank(keywords) && replaceTo != "" && q != "" && NoRuneIn(replaceTo, q)
    requires Contains(Censored(s, keywords, replaceTo), q)
    ensures Contains(s, q)
    decreases |keywords|
  {
    if keywords != [] {
      var n := |keywords| - 1;
      var k, before := keywords[n], Censored(s, keywords[..n], replaceTo);
      if Contains(s, k) {
        RepeatRunes(replaceTo, |k|);
        var i: nat :| OccursAt(Censored(s, keywords, replaceTo), q, i);
        OccurrenceWasThere(before, k, Repeat(replaceTo, |k|), q, i);
      }
      CensoredWasThere(s, keywords[..n], replaceTo, q);
    }
  }

  /** With a replacement that is not empty and has no rune of any keyword, the censored text contains none
      of the keywords, whatever their order and however they overlap. For a list this is not necessary:
      whether another replacement leaks depends on how runs of it, cut out for one keyword, can become the
      middle of another one. For a single keyword and a single mask see `OneKeywordIsClean`. */
  lemma {:induction false} CensoredIsClean(s: string, keywords: seq<string>, replaceTo: string)
    requires NoneBlank(keywords) && IsSafe(keywords, replaceTo)
    ensures !ContainsAny(Censored(s, keywords, replaceTo), keywords)
    decreases |keywords|
  {
    if keywords != [] {
      var n := |keywords| - 1;
      var k, before := keywords[n], Censored(s, keywords[..n], replaceTo);
      CensoredIsClean(s, keywords[..n], replaceTo);
      forall i: nat | i < |keywords|
        ensures !Contains(Censored(s, keywords, replaceTo), keywords[i])
      {
        assert i < n ==> keywords[..n][i] == keywords[i];
        NotLeftOver(s, keywords, replaceTo, i);
      }
    }
  }

  /** Keyword i is not left over after the last one has been replaced. */
  lemma NotLeftOver(s: string, keywords: seq<string>, replaceTo: string, i: nat)
    requires NoneBlank(keywords) && IsSafe(keywords, replaceTo) && i < |keywords|
    requires i < |keywords| - 1 ==> !Contains(Censored(s, keywords[..|keywords| - 1], replaceTo), keywords[i])
    ensures !Contains(Censored(s, keywords, replaceTo), keywords[i])
  {
    var n := |keywords| - 1;
    var k, before, out := keywords[n], Censored(s, keywords[..n], replaceTo), Censored(s, keywords, replaceTo);
    if p: nat :| p <= |out| && OccursAt(out, keywords[i], p) {
      if Contains(s, k) {
        RepeatRunes(replaceTo, |k|);
        OccurrenceWasThere(before, k, Repeat(replaceTo, |k|), keywords[i], p);
      } else {
        CensoredWasThere(s, keywords[..n], replaceTo, keywords[i]);
      }
    }
  }

  /** Where no keyword occurs, censoring changes nothing; so a second pass over censored content with
      a safe replacement changes nothing. */
  lemma {:induction false} CleanIsUnchanged(s: string, keywords: seq<string>, replaceTo: string)
    requires NoneBlank(keywords) && !ContainsAny(s, keywords)
    ensures Censored(s, keywords, replaceTo) == s
    decreases |keywords|
  {
    if keywords != [] {
      var n := |keywords| - 1;
      assert forall i :: 0 <= i < n ==> keywords[..n][i] == keywords[i];
      CleanIsUnchanged(s, keywords[..n], replaceTo);
      assert !Contains(s, keywords[n]);
    }
  }

  lemma SecondPassChangesNothing(s: string, keywords: seq<string>, replaceTo: string)
    requires NoneBlank(keywords) && IsSafe(keywords, replaceTo)
    ensures var once := Censored(s, keywords, replaceTo); Censored(once, keywords, replaceTo) == once
  {
    CensoredIsClean(s, keywords, replaceTo);
    CleanIsUnchanged(Censored(s, keywords, replaceTo), keywords, replaceTo);
  }

  // ---------------------------------------------------------------------------------------------
  // What is masked, rune by rune
  // ---------------------------------------------------------------------------------------------

  /** Rune j of s lies inside an occurrence of a keyword. */
  ghost predicate InOccurrence(s: string, keywords: seq<string>, j: nat) {
    exists k, i: nat :: k in keywords && OccursAt(s, k, i) && i <= j < i + |k|
  }

  /** out is s with some runes masked, all of them inside keywords of s. */
  ghost predicate MasksKeywords(s: string, out: string, keywords: seq<string>, mask: char) {
    && |out| == |s|
    && forall j: nat :: j < |s| ==> out[j] == s[j] || (out[j] == mask && InOccurrence(s, keywords, j))
  }

  /** What is unmasked in out was there before. */
  lemma UnmaskedWasThere(s: string, out: string, mask: char, k: string, i: nat)
    requires |out| == |s| && forall j: nat :: j < |s| ==> out[j] == s[j] || out[j] == mask
    requires mask !in k && OccursAt(out, k, i)
    ensures OccursAt(s, k, i)
  {
    forall j: nat | j < |k|
      ensures s[i + j] == k[j]
    {
      assert out[i..i + |k|][j] == k[j] && k[j] in k;
    }
    assert s[i..i + |k|] == k;
  }

  lemma {:induction false} RepeatRune(mask: char, n: nat)
    ensures |Repeat([mask], n)| == n && forall j: nat :: j < n ==> Repeat([mask], n)[j] == mask
  {
    if n > 0 {
      RepeatRune(mask, n - 1);
    }
  }

  /** Putting a head (the masks of an occurrence, or one rune that starts none) before a masked rest. */
  lemma HeadAndRest(s: string, k: string, mask: char, head: string, rest: string)
    requires k != "" && |k| <= |s|
    requires if k <= s then |head| == |k| && forall j: nat :: j < |k| ==> head[j] == mask else head == [s[0]]
    requires MasksKeywords(s[|head|..], rest, [k], mask)
    ensures MasksKeywords(s, head + rest, [k], mask)
  {
    var d := |head|;
    forall j: nat | j < |s|
      ensures (head + rest)[j] == s[j] || ((head + rest)[j] == mask && InOccurrence(s, [k], j))
    {
      if j >= d {
        assert s[d..][j - d] == s[j];
        if rest[j - d] != s[d..][j - d] {
          var i: nat :| OccursAt(s[d..], k, i) && i <= j - d < i + |k|;
          OccursShift(s, k, d, i);
          assert OccursAt(s, k, d + i);
        }
      } else if k <= s {
        assert OccursAt(s, k, 0);
      }
    }
  }

  /** Replacing one keyword by as many masks leaves the length, and masks only inside its occurrences. */
  lemma {:induction false} ReplaceMasks(s: string, k: string, mask: char)
    requires k != ""
    ensures MasksKeywords(s, ReplaceAll(s, k, Repeat([mask], |k|)), [k], mask)
    decreases |s|
  {
    if |s| >= |k| {
      var masks := Repeat([mask], |k|);
      RepeatRune(mask, |k|);
      var head := if k <= s then masks else [s[0]];
      var rest := ReplaceAll(s[|head|..], k, masks);
      ReplaceMasks(s[|head|..], k, mask);
      HeadAndRest(s, k, mask, head, rest);
    }
  }

  /** With a single mask that is in no keyword, censoring keeps the length, and masks only runes inside
      keywords of the original. */
  lemma {:induction false} CensoredMasksKeywords(s: string, keywords: seq<string>, mask: char)
    requires NoneBlank(keywords) && IsSafe(keywords, [mask])
    ensures MasksKeywords(s, Censored(s, keywords, [mask]), keywords, mask)
    decreases |keywords|
  {
    if keywords != [] {
      var n := |keywords| - 1;
      var before := Censored(s, keywords[..n], [mask]);
      CensoredMasksKeywords(s, keywords[..n], mask);
      ReplaceMasks(before, keywords[n], mask);
      assert mask in [mask];
      StepMasks(s, before, Censored(s, keywords, [mask]), keywords, mask);
    }
  }

  lemma StepMasks(s: string, before: string, out: string, keywords: seq<string>, mask: char)
    requires keywords != [] && mask !in keywords[|keywords| - 1]
    requires MasksKeywords(s, before, keywords[..|keywords| - 1], mask)
    requires out == before || MasksKeywords(before, out, [keywords[|keywords| - 1]], mask)
    ensures MasksKeywords(s, out, keywords, mask)
  {
    var k := keywords[|keywords| - 1];
    forall j: nat | j < |s|
      ensures out[j] == s[j] || (out[j] == mask && InOccurrence(s, keywords, j))
    {
      if out[j] != before[j] {
        var i: nat :| OccursAt(before, k, i) && i <= j < i + |k|;
        UnmaskedWasThere(s, before, mask, k, i);
      }
    }
  }

  // ---------------------------------------------------------------------------------------------
  // One keyword: exactly which masks leak
  // ---------------------------------------------------------------------------------------------

  /** No content still contains the keyword after it was censored. */
  ghost predicate NeverLeaks(k: string, replaceTo: string)
    requires k != ""
  {
    forall s :: !Contains(Censored(s, [k], replaceTo), k)
  }

  lemma CensoredOnce(s: string, k: string, replaceTo: string)
    requires k != ""
    ensures Censored(s, [k], replaceTo) == if Contains(s, k) then ReplaceAll(s, k, Repeat(replaceTo, |k|)) else s
  {
    assert [k][..0] == [];
  }

  /** Without the masks of a whole occurrence no prefix that ends unmasked can differ. */
  lemma {:induction false} UnmaskedPrefix(s: string, k: string, r: string, mask: char, n: nat)
    requires k != "" && |r| == |k| && forall j: nat :: j < |r| ==> r[j] == mask
    requires 0 < n <= |k| && n <= |ReplaceAll(s, k, r)| && ReplaceAll(s, k, r)[n - 1] != mask
    ensures n <= |s| && s[..n] == ReplaceAll(s, k, r)[..n]
    decreases |s|
  {
    var out := ReplaceAll(s, k, r);
    if |s| >= |k| {
      StartsWithReplacement(s, k, r, n - 1);
    }
    if |s| >= |k| && n > 1 && !(k <= s) {
      var rest := ReplaceAll(s[1..], k, r);
      assert out[..n] == [s[0]] + rest[..n - 1];
      UnmaskedPrefix(s[1..], k, r, mask, n - 1);
      assert s[..n] == [s[0]] + s[1..][..n - 1];
    }
  }

  lemma {:induction false} NoOccurrenceLeft(s: string, k: string, r: string, mask: char, i: nat)
    requires k != "" && |r| == |k| && forall j: nat :: j < |r| ==> r[j] == mask
    requires k[0] != mask && k[|k| - 1] != mask
    ensures !OccursAt(ReplaceAll(s, k, r), k, i)
    decreases |s|
  {
    var out := ReplaceAll(s, k, r);
    assert OccursAt(out, k, i) ==> out[i..i + |k|][0] == k[0] && out[i..i + |k|][|k| - 1] == k[|k| - 1];
    if |s| >= |k| {
      var d, head := if k <= s then |k| else 1, if k <= s then r else [s[0]];
      var rest := ReplaceAll(s[d..], k, r);
      assert out == head + rest && out[|head|..] == rest;
      if i >= |head| {
        OccursShift(out, k, |head|, i - |head|);
        NoOccurrenceLeft(s[d..], k, r, mask, i - |head|);
      } else if !(k <= s) && OccursAt(out, k, 0) {
        UnmaskedPrefix(s, k, r, mask, |k|);
      }
    }
  }

  /** Where the keyword does not occur before n, replacing starts at n. */
  lemma {:induction false} ReplaceSkips(s: string, k: string, r: string, n: nat)
    requires k != "" && n <= |s| && forall p: nat :: p < n ==> !OccursAt(s, k, p)
    ensures ReplaceAll(s, k, r) == s[..n] + ReplaceAll(s[n..], k, r)
    decreases n
  {
    if n == 0 {
      assert s[0..] == s;
    } else {
      assert !OccursAt(s, k, 0);
      ReplaceStep(s, k, r);
      forall p: nat | p < n - 1
        ensures !OccursAt(s[1..], k, p)
      {
        OccursShift(s, k, 1, p);
      }
      ReplaceSkips(s[1..], k, r, n - 1);
      OnePastHead(s, n, ReplaceAll(s[n..], k, r));
    }
  }

  lemma OnePastHead(s: string, n: nat, tail: string)
    requires 0 < n <= |s|
    ensures s[1..][n - 1..] == s[n..]
    ensures [s[0]] + (s[1..][..n - 1] + tail) == s[..n] + tail
  {
    assert s[..n] == [s[0]] + s[1..][..n - 1];
  }

  /** A keyword that starts with the mask: the last mask and the rest of the keyword after it. */
  lemma MaskAtStartLeaks(k: string, mask: char)
    requires k != "" && k[0] == mask
    ensures !NeverLeaks(k, [mask])
  {
    var w, r := k[1..], Repeat([mask], |k|);
    var s := k + w;
    RepeatRune(mask, |k|);
    assert s[..|k|] == k && s[|k|..] == w;
    assert OccursAt(s, k, 0);
    CensoredOnce(s, k, [mask]);
    assert ReplaceAll(s, k, r) == r + w;
    assert (r + w)[|k| - 1..|k| - 1 + |k|] == k;
    assert OccursAt(Censored(s, [k], [mask]), k, |k| - 1);
  }

  /** A keyword that starts and ends with different runes does not occur before the end of these two. */
  lemma NotBeforeItself(k: string, p: nat)
    requires |k| > 0 && k[0] != k[|k| - 1] && p < |k| - 1
    ensures !OccursAt(k[..|k| - 1] + k, k, p)
  {
    var s := k[..|k| - 1] + k;
    OccursRune(s, k, p, 0);
    OccursRune(s, k, p, |k| - 1);
    assert s[p + 0] == k[p] == s[p + (|k| - 1)];
  }

  lemma ReplacedWhole(k: string, r: string, rest: string)
    requires k != ""
    ensures ReplaceAll(k + rest, k, r) == r + ReplaceAll(rest, k, r)
  {
    assert (k + rest)[..|k|] == k && (k + rest)[|k|..] == rest;
  }

  lemma ReplacedAtEnd(k: string, r: string)
    requires |k| > 0 && k[0] != k[|k| - 1]
    ensures ReplaceAll(k[..|k| - 1] + k, k, r) == k[..|k| - 1] + r
  {
    var n := |k| - 1;
    var s := k[..n] + k;
    forall p: nat | p < n
      ensures !OccursAt(s, k, p)
    {
      NotBeforeItself(k, p);
    }
    ReplaceSkips(s, k, r, n);
    assert s[..n] == k[..n] && s[n..] == k == k + "";
    ReplacedWhole(k, r, "");
    assert r + "" == r;
  }

  /** A content that is replaced and still has the keyword. */
  lemma LeakIsLeak(s: string, k: string, replaceTo: string, at: nat, left: nat)
    requires k != "" && OccursAt(s, k, at) && OccursAt(ReplaceAll(s, k, Repeat(replaceTo, |k|)), k, left)
    ensures !NeverLeaks(k, replaceTo)
  {
    CensoredOnce(s, k, replaceTo);
    assert Contains(Censored(s, [k], replaceTo), k);
  }

  /** A keyword that only ends with the mask: the keyword without its end, and the first mask after it. */
  lemma MaskAtEndLeaks(k: string, mask: char)
    requires k != "" && k[0] != mask && k[|k| - 1] == mask
    ensures !NeverLeaks(k, [mask])
  {
    var n, r := |k| - 1, Repeat([mask], |k|);
    RepeatRune(mask, |k|);
    ReplacedAtEnd(k, r);
    assert (k[..n] + k)[n..n + |k|] == k;
    assert (k[..n] + r)[0..0 + |k|] == k;
    LeakIsLeak(k[..n] + k, k, [mask], n, 0);
  }

  /** For one keyword and one mask: no content leaks if and only if the keyword neither starts nor ends
      with the mask. Inside it the mask does no harm. */
  lemma OneKeywordIsClean(k: string, mask: char)
    requires k != ""
    ensures NeverLeaks(k, [mask]) <==> k[0] != mask && k[|k| - 1] != mask
  {
    if k[0] == mask {
      MaskAtStartLeaks(k, mask);
    } else if k[|k| - 1] == mask {
      MaskAtEndLeaks(k, mask);
    } else {
      RepeatRune(mask, |k|);
      forall s
        ensures !Contains(Censored(s, [k], [mask]), k)
      {
        CensoredOnce(s, k, [mask]);
        forall i: nat
          ensures !OccursAt(ReplaceAll(s, k, Repeat([mask], |k|)), k, i)
        {
          NoOccurrenceLeft(s, k, Repeat([mask], |k|), mask, i);
        }
      }
    }
  }

  // ---------------------------------------------------------------------------------------------
  // One keyword: exactly when removing it leaks
  // ---------------------------------------------------------------------------------------------

  predicate AllSame(k: string) {
    forall i: nat :: i < |k| ==> k[i] == k[0]
  }

  /** How many runes c the text starts with. */
  function Lead(s: string, c: char): (n: nat)
    ensures n <= |s| && forall i: nat :: i < n ==> s[i] == c
    ensures n < |s| ==> s[n] != c
  {
    if s != "" && s[0] == c then 1 + Lead(s[1..], c) else 0
  }

  lemma {:induction false} ShortLeadStays(s: string, k: string)
    requires k != "" && AllSame(k) && Lead(s, k[0]) < |k|
    ensures Lead(ReplaceAll(s, k, ""), k[0]) == Lead(s, k[0])
    decreases |s|
  {
    if |s| >= |k| {
      assert s[Lead(s, k[0])] != k[Lead(s, k[0])];
      var rest := ReplaceAll(s[1..], k, "");
      assert ReplaceAll(s, k, "") == [s[0]] + rest && ([s[0]] + rest)[1..] == rest;
      if s[0] == k[0] {
        ShortLeadStays(s[1..], k);
      }
    }
  }

  lemma LeadOfOccurrence(s: string, k: string)
    requires k != "" && AllSame(k)
    ensures OccursAt(s, k, 0) <==> Lead(s, k[0]) >= |k|
  {
    if Lead(s, k[0]) < |k| {
      OccursRune(s, k, 0, Lead(s, k[0]));
    }
    if Lead(s, k[0]) >= |k| {
      assert s[0..|k|] == k;
    }
  }

  lemma {:induction false} NoRunLeft(s: string, k: string, i: nat)
    requires k != "" && AllSame(k)
    ensures !OccursAt(ReplaceAll(s, k, ""), k, i)
    decreases |s|
  {
    if |s| >= |k| {
      if k <= s {
        NoRunLeft(s[|k|..], k, i);
        assert ReplaceAll(s, k, "") == ReplaceAll(s[|k|..], k, "");
      } else {
        var rest := ReplaceAll(s[1..], k, "");
        assert ReplaceAll(s, k, "") == [s[0]] + rest && ([s[0]] + rest)[1..] == rest;
        if i > 0 {
          NoRunLeft(s[1..], k, i - 1);
          OccursShift([s[0]] + rest, k, 1, i - 1);
        } else {
          NoRunFirst(s, k);
        }
      }
    }
  }

  lemma NoRunFirst(s: string, k: string)
    requires k != "" && AllSame(k) && |s| >= |k| && !(k <= s)
    ensures !OccursAt(ReplaceAll(s, k, ""), k, 0)
  {
    assert !OccursAt(s, k, 0);
    LeadOfOccurrence(s, k);
    ShortLeadStays(s, k);
    LeadOfOccurrence(ReplaceAll(s, k, ""), k);
  }

  lemma {:induction false} RepeatNothing(n: nat)
    ensures Repeat("", n) == ""
  {
    if n > 0 {
      RepeatNothing(n - 1);
    }
  }

  lemma RemovedInside(k: string)
    requires k != "" && !AllSame(k)
    ensures ReplaceAll([k[0]] + k + k[1..], k, "") == k
  {
    var s := [k[0]] + k + k[1..];
    RunsDiffer(k, s);
    ReplaceSkips(s, k, "", 1);
    assert s[..1] == [k[0]] && s[1..] == k + k[1..];
    ReplacedWhole(k, "", k[1..]);
    assert ReplaceAll(k[1..], k, "") == k[1..];
    assert [k[0]] + ("" + k[1..]) == k;
  }

  /** The keyword with another one put in after its first rune. */
  lemma RemovalLeaks(k: string)
    requires k != "" && !AllSame(k)
    ensures !NeverLeaks(k, "")
  {
    var s := [k[0]] + k + k[1..];
    RepeatNothing(|k|);
    RemovedInside(k);
    assert s[1..1 + |k|] == k && k[0..0 + |k|] == k;
    LeakIsLeak(s, k, "", 1, 0);
  }

  lemma RunsDiffer(k: string, s: string)
    requires k != "" && !AllSame(k) && s == [k[0]] + k + k[1..]
    ensures forall p: nat :: p < 1 ==> !OccursAt(s, k, p)
  {
    var n := Lead(k, k[0]);
    assert n < |k|;
    assert s[n] == k[n - 1] == k[0];
    OccursRune(s, k, 0, n);
  }

  /** Removing a keyword instead of masking it: no content leaks if and only if all its runes are equal. */
  lemma OneKeywordRemoved(k: string)
    requires k != ""
    ensures NeverLeaks(k, "") <==> AllSame(k)
  {
    RepeatNothing(|k|);
    if AllSame(k) {
      forall s
        ensures !Contains(Censored(s, [k], ""), k)
      {
        CensoredOnce(s, k, "");
        forall i: nat
          ensures !OccursAt(ReplaceAll(s, k, ""), k, i)
        {
          NoRunLeft(s, k, i);
        }
      }
    } else {
      RemovalLeaks(k);
    }
  }

  /** Only keywords of the original content are replaced: one that a replacement has put together stays. */
  lemma LateKeywordStays(original: string, list: seq<string>, k: string, replaceTo: string)
    requires NoneBlank(list) && k != "" && !Contains(original, k)
    ensures NoneBlank(list + [k])
    ensures Censored(original, list + [k], replaceTo) == Censored(original, list, replaceTo)
  {
    assert (list + [k])[..|list|] == list;
  }

  /** "b" is removed from "abc", which leaves the other keyword "ac". */
  lemma KeywordPutTogether()
    ensures Censored("abc", ["b", "ac"], "") == "ac"
  {
    assert "abc"[1..2] == "b" && OccursAt("abc", "b", 1);
    assert forall i: nat :: !OccursAt("abc", "ac", i) by {
      assert "abc"[0..2] == "ab" && "abc"[1..3] == "bc";
    }
    assert ["b"] + ["ac"] == ["b", "ac"];
    LateKeywordStays("abc", ["b"], "ac", "");
    CensoredOnce("abc", "b", "");
    assert Repeat("", 1) == "" + Repeat("", 0) == "";
    assert "abc"[1..] == "bc" && "bc"[1..] == "c";
    assert ReplaceAll("c", "b", "") == "c" + ReplaceAll("", "b", "") by { assert "c"[1..] == ""; }
    assert ReplaceAll("bc", "b", "") == "" + ReplaceAll("c", "b", "");
  }

  /** Two contents that leak. */
  lemma UnsafeMasksLeak()
    ensures Censored("aa*", ["a*"], "*") == "a**" && Contains("a**", "a*")
    ensures Censored("aabb", ["ab"], "") == "ab" && Contains("ab", "ab")
  {
    MaskInKeywordLeaks();
    EmptyMaskLeaks();
  }

  lemma MaskInKeywordLeaks()
    ensures Censored("aa*", ["a*"], "*") == "a**" && Contains("a**", "a*")
  {
    assert "aa*"[1..3] == "a*" && OccursAt("aa*", "a*", 1);
    assert "aa*"[1..] == "a*" && "a*"[2..] == "";
    assert Repeat("*", 2) == "*" + Repeat("*", 1) == "**";
    assert ReplaceAll("a*", "a*", "**") == "**" + ReplaceAll("", "a*", "**");
    assert ReplaceAll("aa*", "a*", "**") == "a" + ReplaceAll("a*", "a*", "**");
    assert OccursAt("a**", "a*", 0);
    assert ["a*"][..0] == [];
  }

  lemma EmptyMaskLeaks()
    ensures Censored("aabb", ["ab"], "") == "ab" && Contains("ab", "ab")
  {
    assert "aabb"[1..3] == "ab" && OccursAt("aabb", "ab", 1);
    assert "aabb"[1..] == "abb" && "abb"[2..] == "b";
    assert Repeat("", 2) == "" + Repeat("", 1) == "";
    assert ReplaceAll("abb", "ab", "") == "" + ReplaceAll("b", "ab", "");
    assert ReplaceAll("aabb", "ab", "") == "a" + ReplaceAll("abb", "ab", "");
    assert OccursAt("ab", "ab", 0);
    assert ["ab"][..0] == [];
  }

  // ---------------------------------------------------------------------------------------------
  // The checker
  // ---------------------------------------------------------------------------------------------

  /** The keywords of the files before the first one that cannot be read. */
  function Loaded(files: seq<Option<string>>, sep: string): seq<string>
    requires sep != ""
  {
    if files == [] || files[0].None? then []
    else SplitAndTrimSpace(files[0].value, sep) + Loaded(files[1..], sep)
  }

  /** One of the entries of a file, trimmed. */
  predicate IsEntry(file: string, sep: string, w: string)
    requires sep != ""
  {
    w != "" && exists p :: p in Split(file, sep) && w == TrimSpace(p)
  }

  /** File i and all before it can be read, and it lists w. */
  predicate ListedIn(files: seq<Option<string>>, sep: string, w: string, i: nat)
    requires sep != ""
  {
    i < |files| && (forall j :: 0 <= j <= i ==> files[j].Some?) && IsEntry(files[i].value, sep, w)
  }

  lemma ListedFurther(files: seq<Option<string>>, sep: string, w: string, i: nat)
    requires sep != "" && files != []
    ensures ListedIn(files, sep, w, i + 1) <==> files[0].Some? && ListedIn(files[1..], sep, w, i)
  {
    if files[0].Some? && ListedIn(files[1..], sep, w, i) {
      forall j | 0 <= j <= i + 1
        ensures files[j].Some?
      {
        assert j > 0 ==> files[1..][j - 1].Some?;
      }
    }
  }

  lemma ListedHere(files: seq<Option<string>>, sep: string, w: string)
    requires sep != "" && files != []
    ensures ListedIn(files, sep, w, 0) <==> files[0].Some? && w in SplitAndTrimSpace(files[0].value, sep)
  {
    if files[0].Some? {
      SplitAndTrimIs(files[0].value, sep, w);
    }
  }

  lemma LoadedStep(files: seq<Option<string>>, sep: string, w: string)
    requires sep != ""
    ensures w in Loaded(files, sep) <==>
            && files != [] && files[0].Some?
            && (w in SplitAndTrimSpace(files[0].value, sep) || w in Loaded(files[1..], sep))
  {
  }

  lemma {:induction false} LoadedIsListed(files: seq<Option<string>>, sep: string, w: string) returns (i: nat)
    requires sep != "" && w in Loaded(files, sep)
    ensures ListedIn(files, sep, w, i)
    decreases |files|
  {
    LoadedStep(files, sep, w);
    ListedHere(files, sep, w);
    if ListedIn(files, sep, w, 0) {
      i := 0;
    } else {
      var j := LoadedIsListed(files[1..], sep, w);
      ListedFurther(files, sep, w, j);
      i := j + 1;
    }
  }

  lemma {:induction false} ListedIsLoaded(files: seq<Option<string>>, sep: string, w: string, i: nat)
    requires sep != "" && ListedIn(files, sep, w, i)
    ensures w in Loaded(files, sep)
    decreases i
  {
    assert files[0].Some?;
    LoadedStep(files, sep, w);
    if i == 0 {
      ListedHere(files, sep, w);
    } else {
      ListedFurther(files, sep, w, i - 1);
      ListedIsLoaded(files[1..], sep, w, i - 1);
    }
  }

  /** The keywords are the trimmed entries of the files before the first one that cannot be read. */
  lemma LoadedExactly(files: seq<Option<string>>, sep: string, w: string)
    requires sep != ""
    ensures w in Loaded(files, sep) <==> exists i: nat :: ListedIn(files, sep, w, i)
  {
    if w in Loaded(files, sep) {
      var i := LoadedIsListed(files, sep, w);
    }
    if i: nat :| ListedIn(files, sep, w, i) {
      ListedIsLoaded(files, sep, w, i);
    }
  }

  lemma {:induction false} LoadedNotBlank(files: seq<Option<string>>, sep: string)
    requires sep != ""
    ensures NoneBlank(Loaded(files, sep))
    decreases |files|
  {
    if files != [] && files[0].Some? {
      LoadedNotBlank(files[1..], sep);
      var here, rest := SplitAndTrimSpace(files[0].value, sep), Loaded(files[1..], sep);
      forall i | 0 <= i < |here|
        ensures here[i] != ""
      {
        assert here[i] in here;
        assert TrimSpace("") == "";
      }
      assert forall i :: 0 <= i < |here + rest| ==>
               (here + rest)[i] == if i < |here| then here[i] else rest[i - |here|];
    }
  }

  class KeywordsChecker {
    const conf: Conf
    var keywords: Option<seq<string>>

    constructor (conf: Conf)
      ensures this.conf == conf && keywords == None
    {
      this.conf := conf;
      keywords := None;
    }

    ghost predicate Valid()
      reads this
    {
      keywords.Some? ==> conf.fileSep != "" && keywords.value == Loaded(conf.files, conf.fileSep)
    }

    /** Loads the files once. If one of them cannot be read the call fails, but what was loaded before
        it stays, and later calls take it for the full list. */
    method LoadKeywords() returns (ok: bool)
      requires Valid()
      modifies this
      ensures Valid()
      ensures conf.fileSep == "" ==> !ok && keywords == old(keywords)
      ensures conf.fileSep != "" ==> keywords == Some(Loaded(conf.files, conf.fileSep))
      ensures conf.fileSep != "" ==>
                (ok <==> old(keywords).Some? || forall i :: 0 <= i < |conf.files| ==> conf.files[i].Some?)
    {
      if conf.fileSep == "" {
        return false;
      }
      if keywords.Some? {
        return true;
      }
      var all := [];
      keywords := Some(all);
      for i := 0 to |conf.files|
        invariant keywords == Some(all)
        invariant all + Loaded(conf.files[i..], conf.fileSep) == Loaded(conf.files, conf.fileSep)
        invariant forall j :: 0 <= j < i ==> conf.files[j].Some?
      {
        assert conf.files[i..][1..] == conf.files[i + 1..];
        if conf.files[i].None? {
          return false;
        }
        var more := SplitAndTrimSpace(conf.files[i].value, conf.fileSep);
        assert all + (more + Loaded(conf.files[i + 1..], conf.fileSep)) ==
                 (all + more) + Loaded(conf.files[i + 1..], conf.fileSep);
        all := all + more;
        keywords := Some(all);
      }
      return true;
    }

    /** Checks one comment; `update` is the content it is to be given instead. */
    method Check(content: string) returns (v: Verdict)
      requires Valid()
      modifies this
      ensures Valid()
      ensures conf.fileSep == "" ==> v == Failed
      ensures conf.fileSep != "" ==>
        var list := Loaded(conf.files, conf.fileSep);
        && NoneBlank(list)
        && (v.Failed? <==>
            conf.mode.Unknown? || (old(keywords).None? && exists i :: 0 <= i < |conf.files| && conf.files[i].None?))
        && (v.Checked? && conf.mode.Block? ==> v.update == None && (v.pass <==> !ContainsAny(content, list)))
        && (v.Checked? && conf.mode.Replace? ==>
              && v.pass
              && v.update == if ContainsAny(content, list) then Some(Censored(content, list, conf.replaceTo)) else None)
    {
      var loaded := LoadKeywords();
      if conf.fileSep != "" {
        LoadedNotBlank(conf.files, conf.fileSep);
      }
      if !loaded {
        return Failed;
      }
      var isContains, censored := Scan(content, keywords.value);
      match conf.mode {
        case Replace => v := Checked(true, if isContains then Some(censored) else None);
        case Block => v := Checked(!isContains, None);
        case Unknown => v := Failed;
      }
    }

    /** The loop over the keywords. */
    method Scan(content: string, list: seq<string>) returns (isContains: bool, censored: string)
      requires NoneBlank(list)
      ensures isContains <==> ContainsAny(content, list)
      ensures conf.mode.Replace? ==> censored == Censored(content, list, conf.replaceTo)
    {
      isContains, censored := false, content;
      for i := 0 to |list|
        invariant isContains <==> ContainsAny(content, list[..i])
        invariant conf.mode.Replace? ==> censored == Censored(content, list[..i], conf.replaceTo)
      {
        assert list[..i + 1][..i] == list[..i];
        assert forall j :: 0 <= j < i ==> list[..i + 1][j] == list[..i][j];
        if Contains(content, list[i]) {
          assert list[..i + 1][i] == list[i];
          isContains := true;
          if conf.mode.Replace? {
            censored := ReplaceAll(censored, list[i], Repeat(conf.replaceTo, |list[i]|));
          }
        }
      }
      assert list[..|list|] == list;
    }
  }
}
