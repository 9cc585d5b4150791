/** The first part of main: choose the input mode and build the `results`
    dict, every entry starting with both registries `missing`. */
module Loader {
  import opened Wrappers
  import opened Entries
  import opened Text

  /** One `url_type: url` entry of a feed mapping, in the mapping's
      iteration order; the URL may be null. */
  datatype FeedUrl = FeedUrl(urlType: string, url: Option<string>)

  /** One agency record of the manifest. Either field may be absent. */
  datatype Agency = Agency(itpId: Option<int>, feeds: Option<seq<seq<FeedUrl>>>)

  /** The KeyError that aborts loading when an agency lacks a field. */
  datatype LoadError = MissingFeeds | MissingItpId

  /** A URL taken from the manifest together with its provenance. */
  datatype Candidate = Candidate(url: string, meta: Meta)

  /** Python truthiness of an optional string: present and non-empty. */
  predicate Truthy(s: Option<string>)
  {
    s.Some? && s.value != ""
  }

  // ---------------------------------------------------------------------
  // YAML manifest
  // ---------------------------------------------------------------------

  /** Some feed of the agency has a URL the loop would keep. */
  predicate HasUrl(feeds: seq<seq<FeedUrl>>)
  {
    exists f, n | 0 <= f < |feeds| && 0 <= n < |feeds[f]| :: Truthy(feeds[f][n].url)
  }

  /** Feed `f` of agency `k` exists. */
  predicate IsFeed(agencies: seq<Agency>, k: int, f: int)
  {
    0 <= k < |agencies| && agencies[k].feeds.Some? && 0 <= f < |agencies[k].feeds.value|
  }

  /** The candidate the loop makes of position `n` of a feed. */
  function CandidateAt(feed: seq<FeedUrl>, n: nat, itpId: int): Candidate
    requires n < |feed| && Truthy(feed[n].url)
  {
    Candidate(feed[n].url.value, Meta(feed[n].urlType, itpId, n))
  }

  /** `c` records a kept URL of `feed`: its label, the agency's id, and its
      zero-based position in the feed, skipped entries included. */
  predicate ReadFrom(c: Candidate, feed: seq<FeedUrl>, itpId: int)
  {
    && c.meta.urlNumber < |feed|
    && feed[c.meta.urlNumber] == FeedUrl(c.meta.urlType, Some(c.url))
    && c.url != ""
    && c.meta.itpId == itpId
  }

  /** The inner loop over `enumerate(feed.items())`: falsy URLs are
      skipped, every other one yields a candidate, in feed order. */
  function FeedCandidates(feed: seq<FeedUrl>, itpId: int): (cs: seq<Candidate>)
    ensures forall i :: 0 <= i < |cs| ==> ReadFrom(cs[i], feed, itpId)
    ensures forall i, j :: 0 <= i < j < |cs| ==> cs[i].meta.urlNumber < cs[j].meta.urlNumber
    ensures forall n :: 0 <= n < |feed| && Truthy(feed[n].url) ==> CandidateAt(feed, n, itpId) in cs
  {
    if feed == [] then []
    else
      var m := |feed| - 1;
      var prev := FeedCandidates(feed[..m], itpId);
      assert forall n :: 0 <= n < m ==> feed[..m][n] == feed[n];
      assert forall n :: 0 <= n < m && Truthy(feed[n].url) ==>
        CandidateAt(feed, n, itpId) == CandidateAt(feed[..m], n, itpId);
      var last := if Truthy(feed[m].url) then [CandidateAt(feed, m, itpId)] else [];
      prev + last
  }

  /** The loop over an agency's feeds: their candidates, feed after feed. */
  function FeedsCandidates(feeds: seq<seq<FeedUrl>>, itpId: int): (cs: seq<Candidate>)
    ensures forall f, n :: 0 <= f < |feeds| && 0 <= n < |feeds[f]| && Truthy(feeds[f][n].url) ==>
      CandidateAt(feeds[f], n, itpId) in cs
  {
    if feeds == [] then []
    else
      var m := |feeds| - 1;
      assert forall f :: 0 <= f < m ==> feeds[..m][f] == feeds[f];
      FeedsCandidates(feeds[..m], itpId) + FeedCandidates(feeds[m], itpId)
  }

  /** `c` records a kept URL of one of `feeds`. */
  predicate FromFeeds(c: Candidate, feeds: seq<seq<FeedUrl>>, itpId: int)
  {
    exists f :: 0 <= f < |feeds| && ReadFrom(c, feeds[f], itpId)
  }

  /** Every candidate of an agency records a kept URL of one of its feeds. */
  lemma {:induction false} FeedsCandidatesSound(feeds: seq<seq<FeedUrl>>, itpId: int)
    ensures forall i :: 0 <= i < |FeedsCandidates(feeds, itpId)| ==>
      FromFeeds(FeedsCandidates(feeds, itpId)[i], feeds, itpId)
    decreases |feeds|
  {
    if feeds != [] {
      var m := |feeds| - 1;
      var prev := FeedsCandidates(feeds[..m], itpId);
      var last := FeedCandidates(feeds[m], itpId);
      var cs := FeedsCandidates(feeds, itpId);
      assert cs == prev + last;
      FeedsCandidatesSound(feeds[..m], itpId);
      forall i | 0 <= i < |cs|
        ensures FromFeeds(cs[i], feeds, itpId)
      {
        if i < |prev| {
          assert FromFeeds(prev[i], feeds[..m], itpId);
          var f :| 0 <= f < m && ReadFrom(prev[i], feeds[..m][f], itpId);
          assert feeds[..m][f] == feeds[f];
          assert ReadFrom(cs[i], feeds[f], itpId);
        } else {
          assert cs[i] == last[i - |prev|];
          assert ReadFrom(cs[i], feeds[m], itpId);
        }
      }
    }
  }

  /** The error an agency raises, if any: `agency["feeds"]` is read first,
      `agency["itp_id"]` only once a URL of the agency is kept. */
  function AgencyError(a: Agency): Option<LoadError>
  {
    if a.feeds.None? then Some(MissingFeeds)
    else if a.itpId.None? && HasUrl(a.feeds.value) then Some(MissingItpId)
    else None
  }

  /** The agency's id where one is recorded; an agency without one yields
      no candidates, so the stand-in value is never recorded. */
  function ItpIdOf(a: Agency): int
  {
    if a.itpId.Some? then a.itpId.value else 0
  }

  /** Candidates come only from kept URLs. */
  lemma CandidatesNeedUrl(feeds: seq<seq<FeedUrl>>, itpId: int)
    ensures FeedsCandidates(feeds, itpId) != [] ==> HasUrl(feeds)
  {
    var cs := FeedsCandidates(feeds, itpId);
    FeedsCandidatesSound(feeds, itpId);
    if cs != [] {
      var f :| 0 <= f < |feeds| && ReadFrom(cs[0], feeds[f], itpId);
      assert Truthy(feeds[f][cs[0].meta.urlNumber].url);
    }
  }

  /** The candidates of one agency that raises no error. */
  function AgencyCandidates(a: Agency): (cs: seq<Candidate>)
    requires AgencyError(a).None?
    ensures a.itpId.None? ==> cs == []
  {
    CandidatesNeedUrl(a.feeds.value, ItpIdOf(a));
    FeedsCandidates(a.feeds.value, ItpIdOf(a))
  }

  /** The loop over `agencies_obj.values()`: every agency's candidates in
      order, or the first error raised. */
  function ManifestCandidates(agencies: seq<Agency>): Result<seq<Candidate>, LoadError>
  {
    if agencies == [] then Success([])
    else
      var m := |agencies| - 1;
      match ManifestCandidates(agencies[..m])
      case Failure(e) => Failure(e)
      case Success(prev) =>
        match AgencyError(agencies[m])
        case Some(e) => Failure(e)
        case None => Success(prev + AgencyCandidates(agencies[m]))
  }

  /** Loading fails exactly when some agency raises, and then with the
      first such agency's error. */
  lemma {:induction false} ManifestErrors(agencies: seq<Agency>)
    ensures ManifestCandidates(agencies).Success? <==>
      forall k :: 0 <= k < |agencies| ==> AgencyError(agencies[k]).None?
    ensures ManifestCandidates(agencies).Failure? ==>
      exists k :: 0 <= k < |agencies| && AgencyError(agencies[k]) == Some(ManifestCandidates(agencies).error)
        && forall j :: 0 <= j < k ==> AgencyError(agencies[j]).None?
    decreases |agencies|
  {
    if agencies != [] {
      var m := |agencies| - 1;
      var prefix := agencies[..m];
      ManifestErrors(prefix);
      assert forall k :: 0 <= k < m ==> prefix[k] == agencies[k];
      if ManifestCandidates(prefix).Failure? {
        var k :| 0 <= k < m && AgencyError(prefix[k]) == Some(ManifestCandidates(prefix).error)
          && forall j :: 0 <= j < k ==> AgencyError(prefix[j]).None?;
        assert AgencyError(agencies[k]) == Some(ManifestCandidates(agencies).error);
      }
    }
  }

  /** Every manifest candidate records a kept URL of some feed of some
      agency, with that agency's id. */
  lemma {:induction false} ManifestSound(agencies: seq<Agency>)
    requires ManifestCandidates(agencies).Success?
    ensures forall i :: 0 <= i < |ManifestCandidates(agencies).value| ==>
      (exists k, f :: IsFeed(agencies, k, f) &&
         ReadFrom(ManifestCandidates(agencies).value[i], agencies[k].feeds.value[f], ItpIdOf(agencies[k])))
    decreases |agencies|
  {
    if agencies != [] {
      var m := |agencies| - 1;
      var prefix := agencies[..m];
      ManifestSound(prefix);
      var prev := ManifestCandidates(prefix).value;
      var last := AgencyCandidates(agencies[m]);
      var cs := ManifestCandidates(agencies).value;
      assert cs == prev + last;
      forall i | 0 <= i < |cs|
        ensures exists k, f :: (IsFeed(agencies, k, f) &&
          ReadFrom(cs[i], agencies[k].feeds.value[f], ItpIdOf(agencies[k])))
      {
        if i < |prev| {
          var k, f :| IsFeed(prefix, k, f) && ReadFrom(prev[i], prefix[k].feeds.value[f], ItpIdOf(prefix[k]));
          assert prefix[k] == agencies[k] && cs[i] == prev[i];
          assert IsFeed(agencies, k, f);
        } else {
          assert cs[i] == last[i - |prev|];
          FeedsCandidatesSound(agencies[m].feeds.value, ItpIdOf(agencies[m]));
          var f :| 0 <= f < |agencies[m].feeds.value| &&
            ReadFrom(last[i - |prev|], agencies[m].feeds.value[f], ItpIdOf(agencies[m]));
          assert IsFeed(agencies, m, f);
          assert ReadFrom(cs[i], agencies[m].feeds.value[f], ItpIdOf(agencies[m]));
        }
      }
      assert forall i :: 0 <= i < |cs| ==> exists k, f ::
        (IsFeed(agencies, k, f) && ReadFrom(cs[i], agencies[k].feeds.value[f], ItpIdOf(agencies[k])));
    }
  }

  /** Every URL the loop keeps appears among the manifest candidates, with
      its label, its agency's id and its position in its feed. */
  lemma {:induction false} ManifestComplete(agencies: seq<Agency>)
    requires ManifestCandidates(agencies).Success?
    ensures forall k, f, n ::
      (IsFeed(agencies, k, f) && 0 <= n < |agencies[k].feeds.value[f]| && Truthy(agencies[k].feeds.value[f][n].url)) ==>
        CandidateAt(agencies[k].feeds.value[f], n, ItpIdOf(agencies[k])) in ManifestCandidates(agencies).value
    decreases |agencies|
  {
    if agencies != [] {
      var m := |agencies| - 1;
      var prefix := agencies[..m];
      ManifestComplete(prefix);
      var prev := ManifestCandidates(prefix).value;
      var last := AgencyCandidates(agencies[m]);
      var cs := ManifestCandidates(agencies).value;
      assert cs == prev + last;
      assert forall k :: 0 <= k < m ==> prefix[k] == agencies[k];
    }
  }

  // ---------------------------------------------------------------------
  // Loop order
  // ---------------------------------------------------------------------

  /** A place in the YAML loop: the agency, the feed within it, and the
      position within the feed. */
  datatype Pos = Pos(agency: int, feed: int, index: int)

  /** The loop reaches `p` before `q`: agencies, then feeds, then positions. */
  predicate Before(p: Pos, q: Pos)
  {
    || p.agency < q.agency
    || (p.agency == q.agency && p.feed < q.feed)
    || (p.agency == q.agency && p.feed == q.feed && p.index < q.index)
  }

  /** The places come in loop order. */
  predicate InLoopOrder(pos: seq<Pos>)
  {
    forall i, j :: 0 <= i < j < |pos| ==> Before(pos[i], pos[j])
  }

  /** Position `n` of feed `f` holds a URL the loop keeps. */
  predicate KeptIn(feeds: seq<seq<FeedUrl>>, f: int, n: int)
  {
    0 <= f < |feeds| && 0 <= n < |feeds[f]| && Truthy(feeds[f][n].url)
  }

  /** `pos[i]` is the place in agency `k` where `cs[i]` was read. */
  ghost predicate PlacesOf(feeds: seq<seq<FeedUrl>>, itpId: int, k: int, cs: seq<Candidate>, pos: seq<Pos>)
  {
    && |pos| == |cs|
    && forall i :: 0 <= i < |pos| ==>
      && pos[i].agency == k
      && KeptIn(feeds, pos[i].feed, pos[i].index)
      && cs[i] == CandidateAt(feeds[pos[i].feed], pos[i].index, itpId)
  }

  /** Every kept URL of feed `f` of agency `k` has its place listed. */
  ghost predicate CoversFeed(feeds: seq<seq<FeedUrl>>, k: int, f: int, pos: seq<Pos>)
  {
    forall n :: KeptIn(feeds, f, n) ==> Pos(k, f, n) in pos
  }

  /** Every kept URL of agency `k` has its place listed. */
  ghost predicate Covers(feeds: seq<seq<FeedUrl>>, k: int, pos: seq<Pos>)
  {
    forall f, n :: KeptIn(feeds, f, n) ==> Pos(k, f, n) in pos
  }

  /** The places of one feed's candidates: in that feed, in order, and
      every kept URL of the feed among them. */
  lemma FeedPositions(feeds: seq<seq<FeedUrl>>, itpId: int, k: int, f: int) returns (pos: seq<Pos>)
    requires 0 <= f < |feeds|
    ensures PlacesOf(feeds, itpId, k, FeedCandidates(feeds[f], itpId), pos)
    ensures forall i :: 0 <= i < |pos| ==> pos[i].feed == f
    ensures InLoopOrder(pos)
    ensures CoversFeed(feeds, k, f, pos)
  {
    var cs := FeedCandidates(feeds[f], itpId);
    pos := seq(|cs|, i requires 0 <= i < |cs| => Pos(k, f, cs[i].meta.urlNumber));
    forall n | KeptIn(feeds, f, n)
      ensures Pos(k, f, n) in pos
    {
      var i :| 0 <= i < |cs| && cs[i] == CandidateAt(feeds[f], n, itpId);
      assert pos[i] == Pos(k, f, n);
    }
  }

  /** Places in order, all before the places of `b`, followed by the places
      of `b` in order, are in order. */
  lemma OrderAppend(a: seq<Pos>, b: seq<Pos>)
    requires InLoopOrder(a) && InLoopOrder(b)
    requires forall i, j :: 0 <= i < |a| && 0 <= j < |b| ==> Before(a[i], b[j])
    ensures InLoopOrder(a + b)
  {
    var c := a + b;
    forall i, j | 0 <= i < j < |c|
      ensures Before(c[i], c[j])
    {
      if j < |a| {
        assert c[i] == a[i] && c[j] == a[j];
      } else if i >= |a| {
        assert c[i] == b[i - |a|] && c[j] == b[j - |a|];
      } else {
        assert c[i] == a[i] && c[j] == b[j - |a|];
      }
    }
  }

  /** The places of the first feeds' candidates followed by those of the
      last feed's. */
  lemma PlacesAppend(feeds: seq<seq<FeedUrl>>, itpId: int, k: int, pc: seq<Candidate>, prev: seq<Pos>,
                     lc: seq<Candidate>, last: seq<Pos>)
    requires feeds != []
    requires PlacesOf(feeds[..|feeds| - 1], itpId, k, pc, prev)
    requires PlacesOf(feeds, itpId, k, lc, last)
    ensures PlacesOf(feeds, itpId, k, pc + lc, prev + last)
  {
    var prefix := feeds[..|feeds| - 1];
    var cs, pos := pc + lc, prev + last;
    forall i | 0 <= i < |pos|
      ensures pos[i].agency == k && KeptIn(feeds, pos[i].feed, pos[i].index)
      ensures cs[i] == CandidateAt(feeds[pos[i].feed], pos[i].index, itpId)
    {
      if i < |prev| {
        assert pos[i] == prev[i] && cs[i] == pc[i];
        assert prefix[prev[i].feed] == feeds[prev[i].feed];
      } else {
        assert pos[i] == last[i - |prev|] && cs[i] == lc[i - |prev|];
      }
    }
  }

  /** Covering the first feeds and then the last feed covers them all. */
  lemma CoversAppend(feeds: seq<seq<FeedUrl>>, k: int, prev: seq<Pos>, last: seq<Pos>)
    requires feeds != []
    requires Covers(feeds[..|feeds| - 1], k, prev)
    requires CoversFeed(feeds, k, |feeds| - 1, last)
    ensures Covers(feeds, k, prev + last)
  {
    var m := |feeds| - 1;
    forall f, n | KeptIn(feeds, f, n)
      ensures Pos(k, f, n) in prev + last
    {
      if f < m {
        assert feeds[..m][f] == feeds[f];
        assert KeptIn(feeds[..m], f, n);
      } else {
        assert KeptIn(feeds, m, n);
      }
    }
  }

  /** The candidates of an agency's feeds come in loop order, each from its
      place, and every kept URL of the agency is among them. */
  lemma {:induction false} FeedsPositions(feeds: seq<seq<FeedUrl>>, itpId: int, k: int) returns (pos: seq<Pos>)
    ensures PlacesOf(feeds, itpId, k, FeedsCandidates(feeds, itpId), pos)
    ensures InLoopOrder(pos)
    ensures Covers(feeds, k, pos)
    ensures forall i :: 0 <= i < |pos| ==> pos[i].feed < |feeds|
    decreases |feeds|
  {
    if feeds == [] {
      pos := [];
    } else {
      var m := |feeds| - 1;
      var prefix := feeds[..m];
      var prev := FeedsPositions(prefix, itpId, k);
      var last := FeedPositions(feeds, itpId, k, m);
      pos := prev + last;
      assert FeedsCandidates(feeds, itpId) == FeedsCandidates(prefix, itpId) + FeedCandidates(feeds[m], itpId);
      PlacesAppend(feeds, itpId, k, FeedsCandidates(prefix, itpId), prev, FeedCandidates(feeds[m], itpId), last);
      OrderAppend(prev, last);
      CoversAppend(feeds, k, prev, last);
    }
  }

  /** Place `p` of the manifest holds a URL the loop keeps. */
  predicate UrlAt(agencies: seq<Agency>, p: Pos)
  {
    && 0 <= p.agency < |agencies|
    && agencies[p.agency].feeds.Some?
    && KeptIn(agencies[p.agency].feeds.value, p.feed, p.index)
  }

  /** The candidate the loop makes at place `p`. */
  function CandidateOf(agencies: seq<Agency>, p: Pos): Candidate
    requires UrlAt(agencies, p)
  {
    CandidateAt(agencies[p.agency].feeds.value[p.feed], p.index, ItpIdOf(agencies[p.agency]))
  }

  /** `pos[i]` is the place where `cs[i]` was read, the places come in loop
      order, and every kept URL of the manifest has its place listed. */
  ghost predicate ManifestListed(agencies: seq<Agency>, cs: seq<Candidate>, pos: seq<Pos>)
  {
    && |pos| == |cs|
    && (forall i :: 0 <= i < |pos| ==> UrlAt(agencies, pos[i]) && cs[i] == CandidateOf(agencies, pos[i]))
    && InLoopOrder(pos)
    && (forall p :: UrlAt(agencies, p) ==> p in pos)
  }

  /** The places of the first agencies' candidates followed by those of the
      last agency's. */
  lemma ManifestPlacesAppend(agencies: seq<Agency>, pc: seq<Candidate>, prev: seq<Pos>, lc: seq<Candidate>, last: seq<Pos>)
    requires agencies != [] && agencies[|agencies| - 1].feeds.Some?
    requires |prev| == |pc|
    requires forall i :: 0 <= i < |prev| ==>
      UrlAt(agencies[..|agencies| - 1], prev[i]) && pc[i] == CandidateOf(agencies[..|agencies| - 1], prev[i])
    requires PlacesOf(agencies[|agencies| - 1].feeds.value, ItpIdOf(agencies[|agencies| - 1]), |agencies| - 1, lc, last)
    ensures forall i :: 0 <= i < |prev + last| ==>
      UrlAt(agencies, (prev + last)[i]) && (pc + lc)[i] == CandidateOf(agencies, (prev + last)[i])
    ensures forall i, j :: 0 <= i < |prev| && 0 <= j < |last| ==> Before(prev[i], last[j])
  {
    var m := |agencies| - 1;
    var prefix := agencies[..m];
    var cs, pos := pc + lc, prev + last;
    forall i | 0 <= i < |pos|
      ensures UrlAt(agencies, pos[i]) && cs[i] == CandidateOf(agencies, pos[i])
    {
      if i < |prev| {
        assert pos[i] == prev[i] && cs[i] == pc[i];
        assert prefix[prev[i].agency] == agencies[prev[i].agency];
      } else {
        assert pos[i] == last[i - |prev|] && cs[i] == lc[i - |prev|];
      }
    }
  }

  /** Covering the first agencies and then the last agency covers them all. */
  lemma ManifestCoversAppend(agencies: seq<Agency>, prev: seq<Pos>, last: seq<Pos>)
    requires agencies != [] && agencies[|agencies| - 1].feeds.Some?
    requires forall p :: UrlAt(agencies[..|agencies| - 1], p) ==> p in prev
    requires Covers(agencies[|agencies| - 1].feeds.value, |agencies| - 1, last)
    ensures forall p :: UrlAt(agencies, p) ==> p in prev + last
  {
    var m := |agencies| - 1;
    forall p | UrlAt(agencies, p)
      ensures p in prev + last
    {
      if p.agency < m {
        assert agencies[..m][p.agency] == agencies[p.agency];
        assert UrlAt(agencies[..m], p);
      } else {
        assert KeptIn(agencies[m].feeds.value, p.feed, p.index);
        assert p == Pos(m, p.feed, p.index);
      }
    }
  }

  /** The manifest's candidates come in loop order (agency, then feed, then
      position), each read at its place, and every kept URL is among them. */
  lemma {:induction false} ManifestPositions(agencies: seq<Agency>) returns (pos: seq<Pos>)
    requires ManifestCandidates(agencies).Success?
    ensures ManifestListed(agencies, ManifestCandidates(agencies).value, pos)
    decreases |agencies|
  {
    if agencies == [] {
      pos := [];
    } else {
      var m := |agencies| - 1;
      var prefix := agencies[..m];
      var a := agencies[m];
      var prev := ManifestPositions(prefix);
      var last := FeedsPositions(a.feeds.value, ItpIdOf(a), m);
      var pc, lc := ManifestCandidates(prefix).value, AgencyCandidates(a);
      assert ManifestCandidates(agencies).value == pc + lc;
      ManifestPlacesAppend(agencies, pc, prev, lc, last);
      OrderAppend(prev, last);
      ManifestCoversAppend(agencies, prev, last);
      pos := prev + last;
    }
  }

  // ---------------------------------------------------------------------
  // Input modes
  // ---------------------------------------------------------------------

  /** One fresh entry without metadata per CSV line, in file order. */
  function LineItems(lines: seq<string>): (items: seq<Item>)
    ensures |items| == |lines|
    ensures forall i :: 0 <= i < |lines| ==> items[i] == Item(lines[i], Fresh(None))
  {
    seq(|lines|, i requires 0 <= i < |lines| => Item(lines[i], Fresh(None)))
  }

  /** One fresh entry carrying its metadata per manifest candidate. */
  function CandidateItems(cs: seq<Candidate>): (items: seq<Item>)
    ensures |items| == |cs|
    ensures forall i :: 0 <= i < |cs| ==> items[i] == Item(cs[i].url, Fresh(Some(cs[i].meta)))
  {
    seq(|cs|, i requires 0 <= i < |cs| => Item(cs[i].url, Fresh(Some(cs[i].meta))))
  }

  /** A CSV line becomes a key with a fresh entry; the last assignment of a
      repeated line leaves the same fresh entry. */
  lemma CsvGet(lines: seq<string>, u: string)
    ensures Get(PutAll([], LineItems(lines)), u) == if u in lines then Some(Fresh(None)) else None
  {
    var items := LineItems(lines);
    PutAllGet([], items, u);
    LastEntryAbsent(items, u);
    if u in lines {
      var i :| 0 <= i < |lines| && lines[i] == u;
      assert items[i].url == u;
      LastEntryFound(items, u);
      var j :| 0 <= j < |items| && items[j] == Item(u, LastEntry(items, u).value)
        && forall k :: j < k < |items| ==> items[k].url != u;
      assert items[j].entry == Fresh(None);
    }
  }

  /** main's loading step. `csvText` stands for the CSV file's contents and
      `manifest` for the parsed YAML file; each is used only in its mode. */
  function LoadResults(url: Option<string>, csvFile: Option<string>, csvText: string,
                       manifest: seq<Agency>): (r: Result<seq<Item>, LoadError>)
    ensures r.Success? ==> DistinctUrls(r.value)
    ensures r.Success? ==> forall i :: 0 <= i < |r.value| ==> IsFresh(r.value[i].entry)
    ensures Truthy(url) ==> r == Success([Item(url.value, Fresh(None))])
    ensures !Truthy(url) && Truthy(csvFile) ==> r.Success?
    ensures !Truthy(url) && Truthy(csvFile) ==>
      forall u :: Get(r.value, u) == if u in CsvLines(csvText) then Some(Fresh(None)) else None
    ensures !Truthy(url) && Truthy(csvFile) ==> Urls(r.value) == NewKeys([], CsvLines(csvText))
    ensures !Truthy(url) && !Truthy(csvFile) ==>
      (r.Success? <==> forall k :: 0 <= k < |manifest| ==> AgencyError(manifest[k]).None?)
    ensures !Truthy(url) && !Truthy(csvFile) ==> r.Success? == ManifestCandidates(manifest).Success?
    ensures !Truthy(url) && !Truthy(csvFile) && r.Failure? ==> r.error == ManifestCandidates(manifest).error
    ensures !Truthy(url) && !Truthy(csvFile) && r.Success? ==>
      forall u :: Get(r.value, u) == LastEntry(CandidateItems(ManifestCandidates(manifest).value), u)
    ensures !Truthy(url) && !Truthy(csvFile) && r.Success? ==>
      Urls(r.value) == NewKeys([], Urls(CandidateItems(ManifestCandidates(manifest).value)))
  {
    if Truthy(url) then
      Success([Item(url.value, Fresh(None))])
    else if Truthy(csvFile) then
      var items := LineItems(CsvLines(csvText));
      PutAllFresh([], items);
      PutAllKeepsOrder([], items);
      assert Urls(items) == CsvLines(csvText);
      assert forall u :: Get(PutAll([], items), u) == if u in CsvLines(csvText) then Some(Fresh(None)) else None by {
        forall u
          ensures Get(PutAll([], items), u) == if u in CsvLines(csvText) then Some(Fresh(None)) else None
        {
          CsvGet(CsvLines(csvText), u);
        }
      }
      Success(PutAll([], items))
    else
      ManifestErrors(manifest);
      match ManifestCandidates(manifest)
      case Failure(e) => Failure(e)
      case Success(cs) =>
        var items := CandidateItems(cs);
        PutAllFresh([], items);
        PutAllKeepsOrder([], items);
        assert forall u :: Get(PutAll([], items), u) == LastEntry(items, u) by {
          forall u
            ensures Get(PutAll([], items), u) == LastEntry(items, u)
          {
            PutAllGet([], items, u);
          }
        }
        Success(PutAll([], items))
  }
  /** The candidate read at the last place holding a URL is the last
      candidate for that URL. */
  lemma LastWriterAt(agencies: seq<Agency>, cs: seq<Candidate>, pos: seq<Pos>, p: Pos)
    requires ManifestListed(agencies, cs, pos)
    requires UrlAt(agencies, p)
    requires forall o :: UrlAt(agencies, o) && Before(p, o) ==> CandidateOf(agencies, o).url != CandidateOf(agencies, p).url
    ensures LastEntry(CandidateItems(cs), CandidateOf(agencies, p).url) == Some(Fresh(Some(CandidateOf(agencies, p).meta)))
  {
    var items := CandidateItems(cs);
    var u := CandidateOf(agencies, p).url;
    var j :| 0 <= j < |pos| && pos[j] == p;
    assert items[j] == Item(u, Fresh(Some(CandidateOf(agencies, p).meta)));
    LastEntryAbsent(items, u);
    LastEntryFound(items, u);
    var i :| 0 <= i < |items| && items[i] == Item(u, LastEntry(items, u).value)
      && forall l :: i < l < |items| ==> items[l].url != u;
    assert CandidateOf(agencies, pos[i]).url == u;
    assert i == j;
  }

  /** Of two listed places in loop order, the earlier has the smaller index. */
  lemma IndexOrder(pos: seq<Pos>, i: int, j: int)
    requires InLoopOrder(pos)
    requires 0 <= i < |pos| && 0 <= j < |pos|
    requires Before(pos[i], pos[j])
    ensures i < j
  {
  }

  /** A candidate whose URL no earlier candidate has is that URL's first
      occurrence among the candidates' URLs. */
  lemma FirstOccurrence(cs: seq<Candidate>, j: int)
    requires 0 <= j < |cs|
    requires forall l :: 0 <= l < j ==> cs[l].url != cs[j].url
    ensures Urls(CandidateItems(cs))[j] !in Urls(CandidateItems(cs))[..j]
  {
  }

  /** Where a URL kept before another URL's first place stands among the
      candidates' URLs, relative to that URL's first occurrence. */
  lemma FirstPlaces(agencies: seq<Agency>, cs: seq<Candidate>, pos: seq<Pos>, p: Pos, q: Pos) returns (i: int, j: int)
    requires ManifestListed(agencies, cs, pos)
    requires UrlAt(agencies, p) && UrlAt(agencies, q) && Before(p, q)
    requires forall o :: UrlAt(agencies, o) && Before(o, q) ==> CandidateOf(agencies, o).url != CandidateOf(agencies, q).url
    ensures 0 <= i < j < |cs|
    ensures Urls(CandidateItems(cs))[i] == CandidateOf(agencies, p).url
    ensures Urls(CandidateItems(cs))[j] == CandidateOf(agencies, q).url
    ensures Urls(CandidateItems(cs))[j] !in Urls(CandidateItems(cs))[..j]
  {
    i :| 0 <= i < |pos| && pos[i] == p;
    j :| 0 <= j < |pos| && pos[j] == q;
    IndexOrder(pos, i, j);
    forall l | 0 <= l < j
      ensures cs[l].url != cs[j].url
    {
      IndexOrder(pos, l, j);
      assert Before(pos[l], q);
    }
    FirstOccurrence(cs, j);
  }

  /** Last writer wins in loop order: a URL that the loop keeps at place
      `p` and at no later place holds the metadata read at `p`. */
  lemma ManifestLastWriter(agencies: seq<Agency>, csvText: string, p: Pos)
    requires LoadResults(None, None, csvText, agencies).Success?
    requires UrlAt(agencies, p)
    requires forall o :: UrlAt(agencies, o) && Before(p, o) ==> CandidateOf(agencies, o).url != CandidateOf(agencies, p).url
    ensures Get(LoadResults(None, None, csvText, agencies).value, CandidateOf(agencies, p).url)
      == Some(Fresh(Some(CandidateOf(agencies, p).meta)))
  {
    var pos := ManifestPositions(agencies);
    LastWriterAt(agencies, ManifestCandidates(agencies).value, pos, p);
  }

  /** Keys come in loop order: a URL kept at some place before the first
      place of another URL comes before it in `results`. */
  lemma ManifestKeyOrder(agencies: seq<Agency>, csvText: string, p: Pos, q: Pos)
    requires LoadResults(None, None, csvText, agencies).Success?
    requires UrlAt(agencies, p) && UrlAt(agencies, q) && Before(p, q)
    requires forall o :: UrlAt(agencies, o) && Before(o, q) ==> CandidateOf(agencies, o).url != CandidateOf(agencies, q).url
    ensures 0 <= Find(LoadResults(None, None, csvText, agencies).value, CandidateOf(agencies, p).url)
      < Find(LoadResults(None, None, csvText, agencies).value, CandidateOf(agencies, q).url)
  {
    var cs := ManifestCandidates(agencies).value;
    var pos := ManifestPositions(agencies);
    var i, j := FirstPlaces(agencies, cs, pos, p, q);
    FindOrder(LoadResults(None, None, csvText, agencies).value, Urls(CandidateItems(cs)), i, j);
  }
}
