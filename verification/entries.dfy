/** The `results` dict that main builds: raw URL to entry, iterated in
    insertion order, where assigning an existing key replaces its value in
    place. */
module Entries {
  import opened Wrappers

  /** One registry's verdict on a URL: `{"status": "missing"}` or
      `{"status": "present", "public_web_url": ...}`. */
  datatype Status = Missing | Present(publicWebUrl: string)

  /** The provenance recorded for a URL loaded from the YAML manifest. */
  datatype Meta = Meta(urlType: string, itpId: int, urlNumber: nat)

  /** One value of `results`: YAML metadata when there is any, and one
      status per registry. */
  datatype Entry = Entry(meta: Option<Meta>, transitfeeds: Status, transitland: Status)

  datatype Registry = Transitfeeds | Transitland

  /** One key/value pair of `results`. */
  datatype Item = Item(url: string, entry: Entry)

  function StatusIn(e: Entry, reg: Registry): Status
  {
    match reg
    case Transitfeeds => e.transitfeeds
    case Transitland => e.transitland
  }

  /** `entry[reg] = s`: that registry's status changes and nothing else. */
  function SetStatus(e: Entry, reg: Registry, s: Status): (r: Entry)
    ensures StatusIn(r, reg) == s
    ensures forall other: Registry :: other != reg ==> StatusIn(r, other) == StatusIn(e, other)
    ensures r.meta == e.meta
  {
    match reg
    case Transitfeeds => e.(transitfeeds := s)
    case Transitland => e.(transitland := s)
  }

  /** The entry every loader creates: both registries `missing`. */
  function Fresh(meta: Option<Meta>): Entry
  {
    Entry(meta, Missing, Missing)
  }

  predicate IsFresh(e: Entry)
  {
    e.transitfeeds == Missing && e.transitland == Missing
  }

  /** The keys of `results`, in iteration order. */
  function Urls(r: seq<Item>): (us: seq<string>)
    ensures |us| == |r|
    ensures forall i :: 0 <= i < |r| ==> us[i] == r[i].url
  {
    if r == [] then [] else Urls(r[..|r| - 1]) + [r[|r| - 1].url]
  }

  /** A dict never holds a key twice. */
  predicate DistinctUrls(r: seq<Item>)
  {
    forall i, j :: 0 <= i < j < |r| ==> r[i].url != r[j].url
  }

  /** The position of key `u`, or -1 when `u` is not a key. */
  function Find(r: seq<Item>, u: string): (i: int)
    ensures -1 <= i < |r|
    ensures 0 <= i ==> r[i].url == u
    ensures i < 0 ==> forall j :: 0 <= j < |r| ==> r[j].url != u
  {
    if r == [] then -1
    else if r[|r| - 1].url == u then |r| - 1
    else Find(r[..|r| - 1], u)
  }

  /** `results.get(u)`. */
  function Get(r: seq<Item>, u: string): Option<Entry>
  {
    var i := Find(r, u);
    if i < 0 then None else Some(r[i].entry)
  }

  /** `results[u] = e`: a new key goes to the end, an existing key keeps
      its place and takes the new value; no other key changes. */
  function Put(r: seq<Item>, u: string, e: Entry): (r': seq<Item>)
    requires DistinctUrls(r)
    ensures DistinctUrls(r')
    ensures Get(r', u) == Some(e)
    ensures forall v :: v != u ==> Get(r', v) == Get(r, v)
    ensures Find(r, u) >= 0 ==> Urls(r') == Urls(r)
    ensures Find(r, u) < 0 ==> Urls(r') == Urls(r) + [u]
  {
    var i := Find(r, u);
    if i < 0 then
      var r' := r + [Item(u, e)];
      assert r'[..|r|] == r;
      r'
    else
      var r' := r[i := Item(u, e)];
      assert Find(r', u) == i by { FindDistinct(r', i); }
      forall v | v != u
        ensures Get(r', v) == Get(r, v)
      {
        var n := Find(r, v);
        if n >= 0 {
          FindDistinct(r', n);
        }
      }
      r'
  }

  /** Two dicts with the same key at every position have the same keys,
      and one has distinct keys when the other does. */
  lemma {:induction false} SameUrls(a: seq<Item>, b: seq<Item>)
    requires |a| == |b| && forall i :: 0 <= i < |a| ==> a[i].url == b[i].url
    ensures Urls(a) == Urls(b)
    ensures DistinctUrls(a) ==> DistinctUrls(b)
  {
    assert forall i :: 0 <= i < |a| ==> Urls(a)[i] == Urls(b)[i];
  }

  lemma FindDistinct(r: seq<Item>, j: int)
    requires DistinctUrls(r)
    requires 0 <= j < |r|
    ensures Find(r, r[j].url) == j
  {
  }

  /** `results[item.url] = item.entry` for each item in turn. */
  function PutAll(r: seq<Item>, items: seq<Item>): (r': seq<Item>)
    requires DistinctUrls(r)
    ensures DistinctUrls(r')
  {
    if items == [] then r
    else
      var last := items[|items| - 1];
      Put(PutAll(r, items[..|items| - 1]), last.url, last.entry)
  }

  /** The entry of the last item for `u`, if any: what a run of
      assignments leaves under that key. */
  function LastEntry(items: seq<Item>, u: string): Option<Entry>
  {
    if items == [] then None
    else if items[|items| - 1].url == u then Some(items[|items| - 1].entry)
    else LastEntry(items[..|items| - 1], u)
  }

  /** LastEntry finds an entry exactly when some item names `u`. */
  lemma {:induction false} LastEntryAbsent(items: seq<Item>, u: string)
    ensures LastEntry(items, u).None? <==> forall i :: 0 <= i < |items| ==> items[i].url != u
    decreases |items|
  {
    if items != [] {
      var prefix := items[..|items| - 1];
      LastEntryAbsent(prefix, u);
      assert forall i :: 0 <= i < |prefix| ==> prefix[i] == items[i];
    }
  }

  /** What LastEntry finds is the entry of an item for `u` that no later
      item overrides. */
  lemma {:induction false} LastEntryFound(items: seq<Item>, u: string)
    requires LastEntry(items, u).Some?
    ensures exists i :: (0 <= i < |items| && items[i] == Item(u, LastEntry(items, u).value)
      && forall j :: i < j < |items| ==> items[j].url != u)
    decreases |items|
  {
    var m := |items| - 1;
    if items[m].url != u {
      var prefix := items[..m];
      LastEntryFound(prefix, u);
      var i :| 0 <= i < |prefix| && prefix[i] == Item(u, LastEntry(prefix, u).value)
        && forall j :: i < j < |prefix| ==> prefix[j].url != u;
      assert items[i] == prefix[i];
      assert forall j :: i < j < m ==> items[j] == prefix[j];
    }
  }

  /** Last write wins: after the assignments, a key holds the entry of the
      last item written to it, and a key no item names is untouched. */
  lemma {:induction false} PutAllGet(r: seq<Item>, items: seq<Item>, u: string)
    requires DistinctUrls(r)
    ensures Get(PutAll(r, items), u) == if LastEntry(items, u).Some? then LastEntry(items, u) else Get(r, u)
    decreases |items|
  {
    if items != [] {
      PutAllGet(r, items[..|items| - 1], u);
    }
  }

  /** The keys of `us` that are not in `known`, each at its first
      occurrence in `us`: the keys a run of assignments adds to a dict
      whose keys are `known`, in the order they are added. */
  function NewKeys(known: seq<string>, us: seq<string>): seq<string>
  {
    if us == [] then []
    else
      var m := |us| - 1;
      NewKeys(known, us[..m]) + (if us[m] in known || us[m] in us[..m] then [] else [us[m]])
  }

  /** A key is added exactly when it is assigned and was not a key before. */
  lemma {:induction false} NewKeysMember(known: seq<string>, us: seq<string>, u: string)
    ensures u in NewKeys(known, us) <==> u !in known && u in us
    decreases |us|
  {
    if us != [] {
      var m := |us| - 1;
      NewKeysMember(known, us[..m], u);
      assert us == us[..m] + [us[m]];
    }
  }

  /** A key assigned before another key's first assignment is added
      before it. */
  lemma {:induction false} NewKeysOrder(known: seq<string>, us: seq<string>, i: int, j: int) returns (a: int, b: int)
    requires 0 <= i < j < |us|
    requires us[i] !in known && us[j] !in known && us[j] !in us[..j]
    ensures 0 <= a < b < |NewKeys(known, us)|
    ensures NewKeys(known, us)[a] == us[i] && NewKeys(known, us)[b] == us[j]
    decreases |us|
  {
    var m := |us| - 1;
    var prefix := us[..m];
    var added := NewKeys(known, prefix);
    if j == m {
      assert us[i] == prefix[i];
      NewKeysMember(known, prefix, us[i]);
      a :| 0 <= a < |added| && added[a] == us[i];
      b := |added|;
    } else {
      assert prefix[..j] == us[..j];
      a, b := NewKeysOrder(known, prefix, i, j);
    }
  }

  /** In a dict whose keys were added by a run of assignments `us`, a key
      assigned before another key's first assignment is found before it. */
  lemma FindOrder(r: seq<Item>, us: seq<string>, i: int, j: int)
    requires DistinctUrls(r) && Urls(r) == NewKeys([], us)
    requires 0 <= i < j < |us| && us[j] !in us[..j]
    ensures 0 <= Find(r, us[i]) < Find(r, us[j])
  {
    var a, b := NewKeysOrder([], us, i, j);
    FindDistinct(r, a);
    FindDistinct(r, b);
  }

  /** Sequence concatenation is associative. */
  lemma ConcatAssoc<T>(a: seq<T>, b: seq<T>, c: seq<T>)
    ensures (a + b) + c == a + (b + c)
  {
  }

  /** One assignment adds its key at the end exactly when it is new. */
  lemma PutUrls(r: seq<Item>, u: string, e: Entry)
    requires DistinctUrls(r)
    ensures Urls(Put(r, u, e)) == Urls(r) + (if u in Urls(r) then [] else [u])
  {
    GetPresent(r, u);
  }

  /** Keys already present keep their positions; the new keys follow them
      in the order of their first assignment. */
  lemma {:induction false} PutAllKeepsOrder(r: seq<Item>, items: seq<Item>)
    requires DistinctUrls(r)
    ensures Urls(PutAll(r, items)) == Urls(r) + NewKeys(Urls(r), Urls(items))
    decreases |items|
  {
    if items != [] {
      var m := |items| - 1;
      var prefix := items[..m];
      var last := items[m];
      var before := PutAll(r, prefix);
      PutAllKeepsOrder(r, prefix);
      PutUrls(before, last.url, last.entry);
      var us := Urls(items);
      assert us[..m] == Urls(prefix);
      var added := NewKeys(Urls(r), Urls(prefix));
      NewKeysMember(Urls(r), Urls(prefix), last.url);
      var extra := if last.url in Urls(r) || last.url in us[..m] then [] else [last.url];
      assert NewKeys(Urls(r), us) == added + extra;
      ConcatAssoc(Urls(r), added, extra);
    } else {
      assert Urls(items) == [];
    }
  }

  /** Every value produced by fresh assignments is fresh. */
  lemma {:induction false} PutAllFresh(r: seq<Item>, items: seq<Item>)
    requires DistinctUrls(r)
    requires forall i :: 0 <= i < |r| ==> IsFresh(r[i].entry)
    requires forall i :: 0 <= i < |items| ==> IsFresh(items[i].entry)
    ensures forall i :: 0 <= i < |PutAll(r, items)| ==> IsFresh(PutAll(r, items)[i].entry)
    decreases |items|
  {
    if items != [] {
      var prefix := items[..|items| - 1];
      PutAllFresh(r, prefix);
      var m := PutAll(r, prefix);
      var last := items[|items| - 1];
      var m' := PutAll(r, items);
      forall i | 0 <= i < |m'|
        ensures IsFresh(m'[i].entry)
      {
        var u := m'[i].url;
        FindDistinct(m', i);
        if u != last.url {
          assert Get(m', u) == Get(m, u);
        }
      }
    }
  }

  /** A key is present exactly when `Get` finds it. */
  lemma GetPresent(r: seq<Item>, u: string)
    ensures Get(r, u).Some? <==> u in Urls(r)
  {
    if u in Urls(r) {
      var j :| 0 <= j < |r| && Urls(r)[j] == u;
      assert r[j].url == u;
    }
  }
}
