/** Preparing the site of an import: the comma-separated URL list of an existing site is extended by
    the URLs of the import that it lacks. */
module SiteUrls {
  import opened Options
  import opened Text

  datatype Prepared = NameMissing | Site(urls: string)

  /** The target URLs that are not in the list, in order (and as often as they are named). */
  function Missing(targets: seq<string>, original: seq<string>): seq<string> {
    if targets == [] then []
    else if targets[0] !in original then [targets[0]] + Missing(targets[1..], original)
    else Missing(targets[1..], original)
  }

  lemma {:induction false} MissingIsMissing(targets: seq<string>, original: seq<string>)
    ensures forall u :: u in Missing(targets, original) <==> u in targets && u !in original
    decreases |targets|
  {
    if targets != [] {
      MissingIsMissing(targets[1..], original);
    }
  }

  lemma {:induction false} MissingSnoc(targets: seq<string>, u: string, original: seq<string>)
    ensures Missing(targets + [u], original) == Missing(targets, original) + if u !in original then [u] else []
    decreases |targets|
  {
    if targets != [] {
      assert (targets + [u])[1..] == targets[1..] + [u];
      MissingSnoc(targets[1..], u, original);
    }
  }

  /** The URLs of a site after an import names it. */
  function Merged(urls: string, targetURLs: string): string {
    var newURLs := Missing(SplitAndTrimSpace(targetURLs, ","), Split(urls, ","));
    if newURLs == [] then urls else Join(newURLs + Split(urls, ","), ",")
  }

  /** Finds or creates a site; `stored` is the URL list of the site of that name, if it exists. */
  method PrepareSite(stored: Option<string>, siteName: string, targetURLs: string) returns (r: Prepared)
    ensures siteName == "" <==> r == NameMissing
    ensures siteName != "" ==>
              r == Site(match stored case None => targetURLs case Some(urls) => Merged(urls, targetURLs))
  {
    if siteName == "" {
      return NameMissing;
    }
    if stored.None? {
      return Site(targetURLs);
    }
    var originalURLs := Split(stored.value, ",");
    var newURLs: seq<string> := [];
    var targets := SplitAndTrimSpace(targetURLs, ",");
    for i := 0 to |targets|
      invariant newURLs == Missing(targets[..i], originalURLs)
    {
      assert targets[..i + 1] == targets[..i] + [targets[i]];
      MissingSnoc(targets[..i], targets[i], originalURLs);
      var inCurrentList := false;
      for j := 0 to |originalURLs|
        invariant inCurrentList <==> targets[i] in originalURLs[..j]
      {
        if originalURLs[j] == targets[i] {
          inCurrentList := true;
        }
      }
      assert originalURLs[..|originalURLs|] == originalURLs;
      if !inCurrentList {
        newURLs := newURLs + [targets[i]];
      }
    }
    assert targets[..|targets|] == targets;
    r := Site(if |newURLs| > 0 then Join(newURLs + originalURLs, ",") else stored.value);
  }

  lemma TargetsAreCommaFree(targetURLs: string)
    ensures forall u :: u in SplitAndTrimSpace(targetURLs, ",") ==> CommaFree(u) && TrimSpace(u) != ""
  {
    PiecesAreCommaFree("", targetURLs);
    TrimmedPieces(Split(targetURLs, ","));
  }

  /** The list of an existing site keeps its old entries, untouched and in order, as its end; what is
      put before them are exactly the non-blank target URLs it lacked. */
  lemma MergeExtends(urls: string, targetURLs: string)
    ensures var before, after := Split(urls, ","), Split(Merged(urls, targetURLs), ",");
            && |after| >= |before| && after[|after| - |before|..] == before
            && forall u :: u in after[..|after| - |before|] <==> u in SplitAndTrimSpace(targetURLs, ",") && u !in before
  {
    var before := Split(urls, ",");
    var targets := SplitAndTrimSpace(targetURLs, ",");
    var newURLs := Missing(targets, before);
    TargetsAreCommaFree(targetURLs);
    PiecesAreCommaFree("", urls);
    MissingIsMissing(targets, before);
    if newURLs != [] {
      SplitOfJoin(newURLs + before);
    }
  }

  /** Every target URL is in the list afterwards, so that naming the same URLs again changes nothing. */
  lemma SecondMergeChangesNothing(urls: string, targetURLs: string)
    ensures forall u :: u in SplitAndTrimSpace(targetURLs, ",") ==> u in Split(Merged(urls, targetURLs), ",")
    ensures Merged(Merged(urls, targetURLs), targetURLs) == Merged(urls, targetURLs)
  {
    MergeExtends(urls, targetURLs);
    var before, after := Split(urls, ","), Split(Merged(urls, targetURLs), ",");
    var targets := SplitAndTrimSpace(targetURLs, ",");
    forall u | u in targets
      ensures u in after
    {
      if u in before {
        assert u in after[|after| - |before|..];
      } else {
        assert u in after[..|after| - |before|];
      }
    }
    MissingIsMissing(targets, after);
    if Missing(targets, after) != [] {
      assert Missing(targets, after)[0] in Missing(targets, after);
    }
  }

  lemma MergeIsIdle(urls: string, targetURLs: string)
    ensures Merged(urls, targetURLs) == urls <==>
              forall u :: u in SplitAndTrimSpace(targetURLs, ",") ==> u in Split(urls, ",")
  {
    var before, targets := Split(urls, ","), SplitAndTrimSpace(targetURLs, ",");
    MissingIsMissing(targets, before);
    if Missing(targets, before) != [] {
      MergeExtends(urls, targetURLs);
      var after := Split(Merged(urls, targetURLs), ",");
      assert Missing(targets, before)[0] in Missing(targets, before);
      assert Missing(targets, before)[0] in after[..|after| - |before|];
      assert |after| > |before|;
    } else {
      assert forall u :: u in targets && u !in before ==> u in Missing(targets, before);
    }
  }

  /** A site that the import creates stores the target URLs as they are written. The next import of the
      same URLs leaves that list alone if and only if every non-blank URL stands in it trimmed. */
  lemma CreatedSiteIsStable(targetURLs: string)
    ensures Merged(targetURLs, targetURLs) == targetURLs <==>
            forall u :: u in SplitAndTrimSpace(targetURLs, ",") ==> u in Split(targetURLs, ",")
  {
    MergeIsIdle(targetURLs, targetURLs);
  }

  lemma PiecesOfList()
    ensures Split("a, b", ",") == ["a", " b"] && SplitAndTrimSpace("a, b", ",") == ["a", "b"]
  {
    var pieces := ["a", " b"];
    assert pieces[1..] == [" b"] && [" b"][1..] == [];
    assert Join([" b"], ",") == " b";
    assert Join(pieces, ",") == "a" + "," + " b" == "a, b";
    SplitOfJoin(pieces);
    TrimmedPair();
    assert TrimAll([" b"]) == ["b"];
    assert TrimAll(pieces) == ["a", "b"];
    assert ["a", "b"][1..] == ["b"] && ["b"][1..] == [];
    assert RemoveBlankStrings(["b"]) == ["b"];
  }

  lemma TrimmedPair()
    ensures TrimSpace("a") == "a" && TrimSpace(" b") == "b" && TrimSpace("b") == "b"
  {
    assert " b"[1..] == "b";
    assert TrimLeft("a") == "a" && TrimRight("a") == "a";
    assert TrimLeft(" b") == TrimLeft("b") == "b" && TrimRight("b") == "b";
  }

  /** The usual way to write a list does not do: the second URL is added once more. */
  lemma CreatedSiteMayGrow()
    ensures Merged("a, b", "a, b") == "b,a, b"
  {
    var pieces := ["a", " b"];
    PiecesOfList();
    assert ["a", "b"][1..] == ["b"] && ["b"][1..] == [];
    assert Missing(["b"], pieces) == ["b"];
    assert Missing(["a", "b"], pieces) == ["b"];
    assert (["b"] + pieces)[1..] == pieces && pieces[1..] == [" b"];
    assert Join([" b"], ",") == " b" && Join(pieces, ",") == "a" + "," + " b" == "a, b";
    assert Join(["b"] + pieces, ",") == "b" + "," + "a, b";
  }
}
