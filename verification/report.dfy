/** The last part of main: partition the URLs into matched and missing,
    choose what the summary reports, and the whole run end to end. */
module Report {
  import opened Wrappers
  import opened Entries
  import opened Loader
  import opened Matcher

  /** `"present" in statuses`: some registry lists the URL. */
  predicate IsMatched(e: Entry)
  {
    e.transitfeeds.Present? || e.transitland.Present?
  }

  /** The number of matched entries: the reference the reported count is
      checked against. */
  function CountMatched(results: seq<Item>): (n: nat)
    ensures n <= |results|
  {
    if results == [] then 0
    else CountMatched(results[..|results| - 1]) + (if IsMatched(results[|results| - 1].entry) then 1 else 0)
  }

  /** The unmatched URLs of `results`, in order: the reference the loop
      building `missing` is checked against. */
  function Unmatched(results: seq<Item>): seq<string>
  {
    if results == [] then []
    else
      var last := results[|results| - 1];
      Unmatched(results[..|results| - 1]) + (if IsMatched(last.entry) then [] else [last.url])
  }

  /** Every entry is either counted as matched or listed as missing. */
  lemma {:induction false} UnmatchedCount(results: seq<Item>)
    ensures |results| - |Unmatched(results)| == CountMatched(results)
    decreases |results|
  {
    if results != [] {
      UnmatchedCount(results[..|results| - 1]);
    }
  }

  /** Every unmatched URL is listed. */
  lemma {:induction false} UnmatchedComplete(results: seq<Item>)
    ensures forall i :: 0 <= i < |results| && !IsMatched(results[i].entry) ==> results[i].url in Unmatched(results)
    decreases |results|
  {
    if results != [] {
      var prefix := results[..|results| - 1];
      UnmatchedComplete(prefix);
      assert forall i :: 0 <= i < |prefix| ==> prefix[i] == results[i];
    }
  }

  /** Each listed URL sits at an unmatched position, positions increasing. */
  lemma {:induction false} UnmatchedPositions(results: seq<Item>) returns (positions: seq<int>)
    ensures ListsUnmatched(results, Unmatched(results), positions)
    ensures forall a, b :: 0 <= a < b < |positions| ==> positions[a] < positions[b]
    decreases |results|
  {
    if results == [] {
      positions := [];
    } else {
      var m := |results| - 1;
      var prefix := results[..m];
      var prev := UnmatchedPositions(prefix);
      assert forall j :: 0 <= j < |prev| ==> results[prev[j]] == prefix[prev[j]];
      positions := if IsMatched(results[m].entry) then prev else prev + [m];
    }
  }

  /** Every listed URL is the key of an unmatched entry, and the list
      follows `results` iteration order. */
  lemma {:induction false} UnmatchedInOrder(results: seq<Item>)
    requires DistinctUrls(results)
    ensures forall j :: 0 <= j < |Unmatched(results)| ==>
      0 <= Find(results, Unmatched(results)[j]) && !IsMatched(results[Find(results, Unmatched(results)[j])].entry)
    ensures forall a, b :: 0 <= a < b < |Unmatched(results)| ==>
      Find(results, Unmatched(results)[a]) < Find(results, Unmatched(results)[b])
  {
    var positions := UnmatchedPositions(results);
    PositionsFound(results, Unmatched(results), positions);
  }

  /** A URL is listed exactly when its entry is unmatched. */
  lemma {:induction false} UnmatchedExactly(results: seq<Item>)
    requires DistinctUrls(results)
    ensures forall i :: 0 <= i < |results| ==> (results[i].url in Unmatched(results) <==> !IsMatched(results[i].entry))
  {
    UnmatchedComplete(results);
    var positions := UnmatchedPositions(results);
    PositionsUnmatched(results, Unmatched(results), positions);
  }

  /** The loop building `missing`: it lists the unmatched URLs in order. */
  method CollectMissing(results: seq<Item>) returns (missing: seq<string>)
    ensures missing == Unmatched(results)
  {
    missing := [];
    var k := 0;
    while k < |results|
      invariant 0 <= k <= |results|
      invariant missing == Unmatched(results[..k])
    {
      assert results[..k + 1][..k] == results[..k];
      if !IsMatched(results[k].entry) {
        missing := missing + [results[k].url];
      }
      k := k + 1;
    }
    assert results[..k] == results;
  }

  /** `missing[j]` is the URL at `positions[j]`, an unmatched entry. */
  predicate ListsUnmatched(results: seq<Item>, missing: seq<string>, positions: seq<int>)
  {
    && |positions| == |missing|
    && forall j :: 0 <= j < |missing| ==>
      0 <= positions[j] < |results| && missing[j] == results[positions[j]].url
      && !IsMatched(results[positions[j]].entry)
  }

  /** The positions of the listed URLs are where Find finds them. */
  lemma PositionsFound(results: seq<Item>, missing: seq<string>, positions: seq<int>)
    requires DistinctUrls(results)
    requires ListsUnmatched(results, missing, positions)
    requires forall a, b :: 0 <= a < b < |missing| ==> positions[a] < positions[b]
    ensures forall j :: 0 <= j < |missing| ==>
      0 <= Find(results, missing[j]) && !IsMatched(results[Find(results, missing[j])].entry)
    ensures forall a, b :: 0 <= a < b < |missing| ==> Find(results, missing[a]) < Find(results, missing[b])
  {
    forall j | 0 <= j < |missing|
      ensures Find(results, missing[j]) == positions[j]
    {
      FindDistinct(results, positions[j]);
    }
  }

  /** Only unmatched URLs are listed. */
  lemma PositionsUnmatched(results: seq<Item>, missing: seq<string>, positions: seq<int>)
    requires DistinctUrls(results)
    requires ListsUnmatched(results, missing, positions)
    ensures forall i :: 0 <= i < |results| && results[i].url in missing ==> !IsMatched(results[i].entry)
  {
    forall i | 0 <= i < |results| && results[i].url in missing
      ensures !IsMatched(results[i].entry)
    {
      var j :| 0 <= j < |missing| && missing[j] == results[i].url;
      FindDistinct(results, i);
      FindDistinct(results, positions[j]);
    }
  }

  /** What main prints: the list of missing URLs (verbose, and something
      is missing) or the matched count; the console text is not modelled. */
  datatype Summary = Unfound(missing: seq<string>, total: nat) | Found(matched: int, total: nat)

  /** What a run produces: the `results` dict that is written as JSON, the
      missing URLs and the summary. */
  datatype Outcome = Outcome(results: seq<Item>, missing: seq<string>, summary: Summary)

  /** The second half of main: the transitland pass, then the transitfeeds
      pass, then the partition and the summary, on freshly loaded results. */
  method Reconcile(loaded: seq<Item>, transitland: seq<RegistryPair>, transitfeeds: seq<RegistryPair>,
                   verbose: bool) returns (o: Outcome)
    requires DistinctUrls(loaded)
    requires forall i :: 0 <= i < |loaded| ==> IsFresh(loaded[i].entry)
    ensures |o.results| == |loaded|
    ensures forall i :: 0 <= i < |loaded| ==>
      && o.results[i].url == loaded[i].url
      && o.results[i].entry.meta == loaded[i].entry.meta
      && o.results[i].entry.transitland == StatusAfter(Missing, transitland, loaded[i].url)
      && o.results[i].entry.transitfeeds == StatusAfter(Missing, transitfeeds, loaded[i].url)
    ensures Urls(o.results) == Urls(loaded)
    ensures o.missing == Unmatched(o.results)
    ensures forall i :: 0 <= i < |o.results| ==> (o.results[i].url in o.missing <==> !IsMatched(o.results[i].entry))
    ensures |o.missing| <= |o.results|
    ensures |o.results| - |o.missing| == CountMatched(o.results)
    ensures verbose && o.missing != [] ==> o.summary == Unfound(o.missing, |o.results|)
    ensures !(verbose && o.missing != []) ==> o.summary == Found(|o.results| - |o.missing|, |o.results|)
  {
    var afterTransitland := MarkPresent(loaded, Transitland, transitland);
    SameUrls(loaded, afterTransitland);
    var results := MarkPresent(afterTransitland, Transitfeeds, transitfeeds);
    forall i | 0 <= i < |results|
      ensures results[i].entry.transitland == StatusAfter(Missing, transitland, loaded[i].url)
      ensures results[i].entry.transitfeeds == StatusAfter(Missing, transitfeeds, loaded[i].url)
    {
      assert IsFresh(loaded[i].entry);
      assert StatusIn(results[i].entry, Transitland) == StatusIn(afterTransitland[i].entry, Transitland);
    }
    SameUrls(loaded, results);
    var missing := CollectMissing(results);
    UnmatchedExactly(results);
    UnmatchedCount(results);
    var summary;
    if verbose && missing != [] {
      summary := Unfound(missing, |results|);
    } else {
      summary := Found(|results| - |missing|, |results|);
    }
    o := Outcome(results, missing, summary);
  }

  /** The rest of main once loading has ended, in success or failure. */
  method Finish(loaded: Result<seq<Item>, LoadError>,
                transitland: seq<RegistryPair>, transitfeeds: seq<RegistryPair>, verbose: bool)
    returns (out: Result<Outcome, LoadError>)
    requires loaded.Success? ==> DistinctUrls(loaded.value)
    requires loaded.Success? ==> forall i :: 0 <= i < |loaded.value| ==> IsFresh(loaded.value[i].entry)
    ensures out.Failure? <==> loaded.Failure?
    ensures out.Failure? ==> out.error == loaded.error
    ensures out.Success? ==> Urls(out.value.results) == Urls(loaded.value)
    ensures out.Success? ==> forall i :: 0 <= i < |out.value.results| ==>
      var e := out.value.results[i].entry;
      && e.meta == loaded.value[i].entry.meta
      && e.transitland == StatusAfter(Missing, transitland, loaded.value[i].url)
      && e.transitfeeds == StatusAfter(Missing, transitfeeds, loaded.value[i].url)
    ensures out.Success? ==> out.value.missing == Unmatched(out.value.results)
    ensures out.Success? ==> forall i :: 0 <= i < |out.value.results| ==>
      (out.value.results[i].url in out.value.missing <==> !IsMatched(out.value.results[i].entry))
    ensures out.Success? ==> |out.value.missing| <= |out.value.results|
    ensures out.Success? ==> |out.value.results| - |out.value.missing| == CountMatched(out.value.results)
    ensures out.Success? && verbose && out.value.missing != [] ==>
      out.value.summary == Unfound(out.value.missing, |out.value.results|)
    ensures out.Success? && !(verbose && out.value.missing != []) ==>
      out.value.summary == Found(|out.value.results| - |out.value.missing|, |out.value.results|)
  {
    if loaded.Failure? {
      return Failure(loaded.error);
    }
    var o := Reconcile(loaded.value, transitland, transitfeeds, verbose);
    out := Success(o);
  }

  /** main, with the files' contents and the two registry clients' lists
      as parameters. The transitland pass runs before the transitfeeds pass. */
  method Run(url: Option<string>, csvFile: Option<string>, csvText: string, manifest: seq<Agency>,
             transitland: seq<RegistryPair>, transitfeeds: seq<RegistryPair>, verbose: bool)
    returns (out: Result<Outcome, LoadError>)
    ensures out.Failure? <==> LoadResults(url, csvFile, csvText, manifest).Failure?
    ensures out.Failure? ==> out.error == LoadResults(url, csvFile, csvText, manifest).error
    ensures out.Success? ==> Urls(out.value.results) == Urls(LoadResults(url, csvFile, csvText, manifest).value)
    ensures out.Success? ==> forall i :: 0 <= i < |out.value.results| ==>
      var loaded := LoadResults(url, csvFile, csvText, manifest).value;
      var e := out.value.results[i].entry;
      && e.meta == loaded[i].entry.meta
      && e.transitland == StatusAfter(Missing, transitland, loaded[i].url)
      && e.transitfeeds == StatusAfter(Missing, transitfeeds, loaded[i].url)
    ensures out.Success? ==> out.value.missing == Unmatched(out.value.results)
    ensures out.Success? ==> forall i :: 0 <= i < |out.value.results| ==>
      (out.value.results[i].url in out.value.missing <==> !IsMatched(out.value.results[i].entry))
    ensures out.Success? ==> |out.value.missing| <= |out.value.results|
    ensures out.Success? ==> |out.value.results| - |out.value.missing| == CountMatched(out.value.results)
    ensures out.Success? && verbose && out.value.missing != [] ==>
      out.value.summary == Unfound(out.value.missing, |out.value.results|)
    ensures out.Success? && !(verbose && out.value.missing != []) ==>
      out.value.summary == Found(|out.value.results| - |out.value.missing|, |out.value.results|)
  {
    out := Finish(LoadResults(url, csvFile, csvText, manifest), transitland, transitfeeds, verbose);
  }
}
