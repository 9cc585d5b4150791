/** The two registry passes of main: every `(public_web_url, url)` pair a
    registry lists marks the entry keyed by exactly that `url` as present.
    The raw key is compared; neither side goes through clean_url. */
module Matcher {
  import opened Wrappers
  import opened Entries

  /** One `(public_web_url, url)` pair returned by a registry client. */
  datatype RegistryPair = RegistryPair(publicWebUrl: string, url: string)

  /** The public URL of the last pair listing `u`, if any. */
  function LastMatch(pairs: seq<RegistryPair>, u: string): Option<string>
  {
    if pairs == [] then None
    else if pairs[|pairs| - 1].url == u then Some(pairs[|pairs| - 1].publicWebUrl)
    else LastMatch(pairs[..|pairs| - 1], u)
  }

  /** The status a pass over `pairs` leaves for key `u` that had status `s`:
      present with the last listing's public URL, or unchanged. */
  function StatusAfter(s: Status, pairs: seq<RegistryPair>, u: string): Status
  {
    match LastMatch(pairs, u)
    case Some(p) => Present(p)
    case None => s
  }

  /** LastMatch finds the last pair for `u`, and finds one whenever some
      pair lists `u`. */
  lemma {:induction false} LastMatchSpec(pairs: seq<RegistryPair>, u: string)
    ensures LastMatch(pairs, u).None? <==> forall i :: 0 <= i < |pairs| ==> pairs[i].url != u
    ensures LastMatch(pairs, u).Some? ==>
      exists i :: 0 <= i < |pairs| && pairs[i] == RegistryPair(LastMatch(pairs, u).value, u)
        && forall j :: i < j < |pairs| ==> pairs[j].url != u
    decreases |pairs|
  {
    if pairs != [] {
      var prefix := pairs[..|pairs| - 1];
      LastMatchSpec(prefix, u);
      assert forall i :: 0 <= i < |prefix| ==> prefix[i] == pairs[i];
      if pairs[|pairs| - 1].url == u {
        assert pairs[|pairs| - 1] == RegistryPair(LastMatch(pairs, u).value, u);
      } else if LastMatch(prefix, u).Some? {
        var i :| 0 <= i < |prefix| && prefix[i] == RegistryPair(LastMatch(prefix, u).value, u)
          && forall j :: i < j < |prefix| ==> prefix[j].url != u;
        assert pairs[i] == RegistryPair(LastMatch(pairs, u).value, u);
      }
    }
  }

  /** A pass only ever turns `missing` into `present`: a present status
      stays present, and a status left missing was missing before and is
      listed by no pair. */
  lemma PassOnlyAdds(s: Status, pairs: seq<RegistryPair>, u: string)
    ensures s.Present? ==> StatusAfter(s, pairs, u).Present?
    ensures StatusAfter(s, pairs, u) == Missing <==>
      (s == Missing && forall i :: 0 <= i < |pairs| ==> pairs[i].url != u)
  {
    LastMatchSpec(pairs, u);
  }

  /** One registry pass: `for public_web_url, url in pairs: if url in
      results: results[url][reg] = present(public_web_url)`. The keys, their
      order, the metadata and the other registry's status are untouched. */
  method MarkPresent(results: seq<Item>, reg: Registry, pairs: seq<RegistryPair>) returns (r: seq<Item>)
    requires DistinctUrls(results)
    ensures |r| == |results|
    ensures forall i :: 0 <= i < |r| ==> r[i].url == results[i].url && r[i].entry.meta == results[i].entry.meta
    ensures forall i, other: Registry :: 0 <= i < |r| && other != reg ==>
      StatusIn(r[i].entry, other) == StatusIn(results[i].entry, other)
    ensures forall i :: 0 <= i < |r| ==>
      StatusIn(r[i].entry, reg) == StatusAfter(StatusIn(results[i].entry, reg), pairs, results[i].url)
  {
    r := results;
    var k := 0;
    while k < |pairs|
      invariant 0 <= k <= |pairs|
      invariant |r| == |results|
      invariant forall i :: 0 <= i < |r| ==> r[i].url == results[i].url && r[i].entry.meta == results[i].entry.meta
      invariant forall i, other: Registry :: 0 <= i < |r| && other != reg ==>
        StatusIn(r[i].entry, other) == StatusIn(results[i].entry, other)
      invariant forall i :: 0 <= i < |r| ==>
        StatusIn(r[i].entry, reg) == StatusAfter(StatusIn(results[i].entry, reg), pairs[..k], results[i].url)
    {
      var p := pairs[k];
      assert pairs[..k + 1][..k] == pairs[..k];
      var i := Find(r, p.url);
      if i >= 0 {
        r := r[i := Item(p.url, SetStatus(r[i].entry, reg, Present(p.publicWebUrl)))];
      }
      k := k + 1;
    }
    assert pairs[..k] == pairs;
  }
}
