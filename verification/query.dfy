/** The query cleaning of `clean_url`: parse the query into a dict of value
    lists, pop the credential keys, re-encode one `k=v` per value. */
module Query {

  /** One decoded `key=value` parameter. A parameter written without `=`
      carries the blank value, as parse_qs with keep_blank_values gives it. */
  datatype Pair = Pair(key: string, value: string)

  /** A URL split into the six components urlparse returns. The query is
      held as its decoded parameter list. */
  datatype Url = Url(scheme: string, netloc: string, path: string, params: string,
                     query: seq<Pair>, fragment: string)

  /** A key with every value given for it: one entry of parse_qs's dict. */
  datatype Field = Field(key: string, values: seq<string>)

  /** The keys clean_url pops; the match is exact and case-sensitive. */
  predicate IsCredential(k: string)
  {
    k == "api_key" || k == "token"
  }

  // ---------------------------------------------------------------------
  // Reference views of a parameter list
  // ---------------------------------------------------------------------

  /** The values given for `k` in `q`, in order, blank ones included. */
  function ValuesOf(q: seq<Pair>, k: string): seq<string>
  {
    if q == [] then []
    else ValuesOf(q[..|q| - 1], k) + (if q[|q| - 1].key == k then [q[|q| - 1].value] else [])
  }

  /** The position of the first parameter whose key is `k`, or |q| if none is. */
  function FirstIndex(q: seq<Pair>, k: string): (i: nat)
    ensures i <= |q|
  {
    if q == [] then 0
    else if q[0].key == k then 0
    else 1 + FirstIndex(q[1..], k)
  }

  /** FirstIndex finds the first occurrence of `k`, and only that. */
  lemma {:induction false} FirstIndexSpec(q: seq<Pair>, k: string)
    ensures FirstIndex(q, k) < |q| ==> q[FirstIndex(q, k)].key == k
    ensures forall j :: 0 <= j < FirstIndex(q, k) ==> q[j].key != k
    decreases |q|
  {
    if q != [] && q[0].key != k {
      FirstIndexSpec(q[1..], k);
      assert forall j :: 1 <= j < |q| ==> q[j] == q[1..][j - 1];
    }
  }

  /** Parameters listed so that their keys' first occurrences in `q` never
      go backwards. */
  predicate PairsInFirstOccurrenceOrder(r: seq<Pair>, q: seq<Pair>)
  {
    forall i, j :: 0 <= i < j < |r| ==> FirstIndex(q, r[i].key) <= FirstIndex(q, r[j].key)
  }

  // ---------------------------------------------------------------------
  // Grouped form: parse_qs's dict of lists
  // ---------------------------------------------------------------------

  /** The position of the field for `k` in `g`, or -1 when there is none. */
  function KeyIndex(g: seq<Field>, k: string): (i: int)
    ensures -1 <= i < |g|
    ensures 0 <= i ==> g[i].key == k
    ensures i < 0 ==> forall j :: 0 <= j < |g| ==> g[j].key != k
  {
    if g == [] then -1
    else if g[|g| - 1].key == k then |g| - 1
    else KeyIndex(g[..|g| - 1], k)
  }

  /** The values grouped under `k`; none when `k` is absent. */
  function Lookup(g: seq<Field>, k: string): seq<string>
  {
    var i := KeyIndex(g, k);
    if i < 0 then [] else g[i].values
  }

  predicate DistinctKeys(g: seq<Field>)
  {
    forall i, j :: 0 <= i < j < |g| ==> g[i].key != g[j].key
  }

  /** The shape of a parse_qs result: distinct keys, each with a value. */
  predicate WellFormed(g: seq<Field>)
  {
    DistinctKeys(g) && forall i :: 0 <= i < |g| ==> g[i].values != []
  }

  /** Fields listed in the order their keys first occur in `q`. */
  predicate FieldsInFirstOccurrenceOrder(g: seq<Field>, q: seq<Pair>)
  {
    forall i, j :: 0 <= i < j < |g| ==> FirstIndex(q, g[i].key) < FirstIndex(q, g[j].key)
  }

  predicate NoCredentialFields(g: seq<Field>)
  {
    forall i :: 0 <= i < |g| ==> !IsCredential(g[i].key)
  }

  /** One step of parse_qs: the value joins its key's list, and a key not
      seen before opens a new list at the end. */
  function AddPair(g: seq<Field>, p: Pair): seq<Field>
  {
    var i := KeyIndex(g, p.key);
    if i < 0 then g + [Field(p.key, [p.value])]
    else g[i := Field(p.key, g[i].values + [p.value])]
  }

  /** Adds every pair of `q`, in order, to the grouping `acc`. */
  function GroupOnto(acc: seq<Field>, q: seq<Pair>): seq<Field>
  {
    if q == [] then acc
    else AddPair(GroupOnto(acc, q[..|q| - 1]), q[|q| - 1])
  }

  /** parse_qs(query, keep_blank_values=True). */
  function Group(q: seq<Pair>): seq<Field>
  {
    GroupOnto([], q)
  }

  /** query.pop("api_key", None); query.pop("token", None). */
  function DropCredentials(g: seq<Field>): seq<Field>
  {
    if g == [] then []
    else DropCredentials(g[..|g| - 1]) + (if IsCredential(g[|g| - 1].key) then [] else [g[|g| - 1]])
  }

  /** One `k=v` parameter per value of `k`, in order. */
  function Expand(k: string, vs: seq<string>): (r: seq<Pair>)
    ensures |r| == |vs|
    ensures forall i :: 0 <= i < |r| ==> r[i] == Pair(k, vs[i])
  {
    if vs == [] then []
    else Expand(k, vs[..|vs| - 1]) + [Pair(k, vs[|vs| - 1])]
  }

  /** urlencode(query, doseq=True), before percent-encoding. */
  function Flatten(g: seq<Field>): seq<Pair>
  {
    if g == [] then []
    else Flatten(g[..|g| - 1]) + Expand(g[|g| - 1].key, g[|g| - 1].values)
  }

  // ---------------------------------------------------------------------
  // clean_url
  // ---------------------------------------------------------------------

  /** The cleaned query: credential keys are gone, every other key keeps all
      its values in order, and keys come in first-occurrence order. */
  function CleanQuery(q: seq<Pair>): (r: seq<Pair>)
    ensures forall k :: ValuesOf(r, k) == (if IsCredential(k) then [] else ValuesOf(q, k))
    ensures forall i :: 0 <= i < |r| ==> !IsCredential(r[i].key)
    ensures PairsInFirstOccurrenceOrder(r, q)
  {
    var g := Group(q);
    var d := DropCredentials(g);
    GroupInvariant(q);
    DropSubset(g);
    DropWellFormed(g);
    DropKeepsOrder(g, q);
    FlattenOrder(d, q);
    var r := Flatten(d);
    assert forall k :: ValuesOf(r, k) == (if IsCredential(k) then [] else ValuesOf(q, k)) by {
      forall k
        ensures ValuesOf(r, k) == (if IsCredential(k) then [] else ValuesOf(q, k))
      {
        FlattenValues(d, k);
        LookupDrop(g, k);
      }
    }
    forall i | 0 <= i < |r|
      ensures !IsCredential(r[i].key)
    {
      var k := r[i].key;
      if IsCredential(k) {
        ValuesOfEmpty(r, k);
        assert false;
      }
    }
    r
  }

  /** clean_url: only the query changes, and it changes as CleanQuery says. */
  function CleanUrl(u: Url): (r: Url)
    ensures r.scheme == u.scheme && r.netloc == u.netloc && r.path == u.path
    ensures r.params == u.params && r.fragment == u.fragment
    ensures forall k :: ValuesOf(r.query, k) == (if IsCredential(k) then [] else ValuesOf(u.query, k))
    ensures forall i :: 0 <= i < |r.query| ==> !IsCredential(r.query[i].key)
    ensures PairsInFirstOccurrenceOrder(r.query, u.query)
  {
    u.(query := CleanQuery(u.query))
  }

  // ---------------------------------------------------------------------
  // Lemmas about the reference views
  // ---------------------------------------------------------------------

  lemma {:induction false} ValuesOfAppend(a: seq<Pair>, b: seq<Pair>, k: string)
    ensures ValuesOf(a + b, k) == ValuesOf(a, k) + ValuesOf(b, k)
    decreases |b|
  {
    if b == [] {
      assert a + b == a;
    } else {
      var b' := b[..|b| - 1];
      assert (a + b)[..|a + b| - 1] == a + b';
      ValuesOfAppend(a, b', k);
    }
  }

  /** No value for `k` exactly when no parameter has key `k`. */
  lemma {:induction false} ValuesOfEmpty(q: seq<Pair>, k: string)
    ensures ValuesOf(q, k) == [] <==> forall j :: 0 <= j < |q| ==> q[j].key != k
    decreases |q|
  {
    if q != [] {
      var p := q[..|q| - 1];
      ValuesOfEmpty(p, k);
      assert forall j :: 0 <= j < |p| ==> q[j] == p[j];
    }
  }

  /** Appending a pair does not move the first occurrence of a key that was
      already there, and puts a new key's first occurrence at the end. */
  lemma FirstIndexSnoc(p: seq<Pair>, x: Pair, k: string)
    ensures FirstIndex(p, k) < |p| ==> FirstIndex(p + [x], k) == FirstIndex(p, k)
    ensures FirstIndex(p, k) == |p| && x.key == k ==> FirstIndex(p + [x], k) == |p|
  {
    var q := p + [x];
    var i := FirstIndex(p, k);
    var i' := FirstIndex(q, k);
    FirstIndexSpec(p, k);
    FirstIndexSpec(q, k);
    assert forall j :: 0 <= j < |p| ==> q[j] == p[j];
    if i < |p| {
      assert q[i].key == k;
    } else if x.key == k {
      assert q[|p|].key == k;
    }
  }

  lemma KeyIndexDistinct(g: seq<Field>, j: int)
    requires DistinctKeys(g)
    requires 0 <= j < |g|
    ensures KeyIndex(g, g[j].key) == j
  {
  }

  lemma LookupSnoc(g: seq<Field>, f: Field, k: string)
    ensures Lookup(g + [f], k) == if f.key == k then f.values else Lookup(g, k)
  {
    assert (g + [f])[..|g|] == g;
  }

  lemma LookupUpdate(g: seq<Field>, i: int, vs: seq<string>, k: string)
    requires DistinctKeys(g)
    requires 0 <= i < |g|
    ensures DistinctKeys(g[i := Field(g[i].key, vs)])
    ensures Lookup(g[i := Field(g[i].key, vs)], k) == if k == g[i].key then vs else Lookup(g, k)
  {
    var h := g[i := Field(g[i].key, vs)];
    assert forall j :: 0 <= j < |g| ==> h[j].key == g[j].key;
    if k == g[i].key {
      KeyIndexDistinct(h, i);
    } else {
      var n := KeyIndex(g, k);
      if n >= 0 {
        KeyIndexDistinct(h, n);
      }
    }
  }

  // ---------------------------------------------------------------------
  // parse_qs
  // ---------------------------------------------------------------------

  /** What parse_qs promises of its dict for the query `q`. */
  ghost predicate GroupSound(g: seq<Field>, q: seq<Pair>)
  {
    && WellFormed(g)
    && (forall k :: Lookup(g, k) == ValuesOf(q, k))
    && FieldsInFirstOccurrenceOrder(g, q)
    && (forall i :: 0 <= i < |g| ==> FirstIndex(q, g[i].key) < |q|)
  }

  lemma ValuesOfSnoc(p: seq<Pair>, x: Pair, k: string)
    ensures ValuesOf(p + [x], k) == ValuesOf(p, k) + (if x.key == k then [x.value] else [])
  {
    assert (p + [x])[..|p|] == p;
  }

  /** Adding a value under a key already present keeps the dict sound. */
  lemma AddPairExisting(g: seq<Field>, p: seq<Pair>, x: Pair)
    requires GroupSound(g, p)
    requires KeyIndex(g, x.key) >= 0
    ensures GroupSound(AddPair(g, x), p + [x])
  {
    var i := KeyIndex(g, x.key);
    var h := AddPair(g, x);
    assert h == g[i := Field(g[i].key, g[i].values + [x.value])];
    forall j | 0 <= j < |g|
      ensures FirstIndex(p + [x], h[j].key) == FirstIndex(p, g[j].key)
    {
      assert h[j].key == g[j].key;
      FirstIndexSnoc(p, x, g[j].key);
    }
    forall k
      ensures Lookup(h, k) == ValuesOf(p + [x], k)
    {
      LookupUpdate(g, i, g[i].values + [x.value], k);
      ValuesOfSnoc(p, x, k);
    }
  }

  /** A key not yet present gets a list holding just the new value. */
  lemma AddPairNewLookup(g: seq<Field>, p: seq<Pair>, x: Pair)
    requires forall k :: Lookup(g, k) == ValuesOf(p, k)
    requires KeyIndex(g, x.key) < 0
    ensures forall k :: Lookup(AddPair(g, x), k) == ValuesOf(p + [x], k)
  {
    var h := AddPair(g, x);
    assert h == g + [Field(x.key, [x.value])];
    assert Lookup(g, x.key) == [];
    forall k
      ensures Lookup(h, k) == ValuesOf(p + [x], k)
    {
      LookupSnoc(g, Field(x.key, [x.value]), k);
      ValuesOfSnoc(p, x, k);
    }
  }

  /** Adding a key not yet present opens its list at the end. */
  lemma AddPairNew(g: seq<Field>, p: seq<Pair>, x: Pair)
    requires GroupSound(g, p)
    requires KeyIndex(g, x.key) < 0
    ensures GroupSound(AddPair(g, x), p + [x])
  {
    var q := p + [x];
    var h := AddPair(g, x);
    AddPairNewLookup(g, p, x);
    assert h == g + [Field(x.key, [x.value])];
    assert ValuesOf(p, x.key) == [] by {
      assert Lookup(g, x.key) == [];
    }
    ValuesOfEmpty(p, x.key);
    FirstIndexSpec(p, x.key);
    FirstIndexSnoc(p, x, x.key);
    assert FirstIndex(q, x.key) == |p|;
    forall j | 0 <= j < |g|
      ensures FirstIndex(q, g[j].key) == FirstIndex(p, g[j].key)
    {
      FirstIndexSnoc(p, x, g[j].key);
    }
  }

  /** Grouping yields a well-formed dict whose list for each key is exactly
      that key's values, with keys in first-occurrence order. */
  lemma {:induction false} GroupInvariant(q: seq<Pair>)
    ensures GroupSound(Group(q), q)
    decreases |q|
  {
    if q != [] {
      var p := q[..|q| - 1];
      var x := q[|q| - 1];
      assert q == p + [x];
      GroupInvariant(p);
      if KeyIndex(Group(p), x.key) >= 0 {
        AddPairExisting(Group(p), p, x);
      } else {
        AddPairNew(Group(p), p, x);
      }
    }
  }

  // ---------------------------------------------------------------------
  // pop
  // ---------------------------------------------------------------------

  /** Dropping keeps only fields of `g`, none of them a credential. */
  lemma {:induction false} DropSubset(g: seq<Field>)
    ensures forall i :: 0 <= i < |DropCredentials(g)| ==> DropCredentials(g)[i] in g
    ensures NoCredentialFields(DropCredentials(g))
    ensures NoCredentialFields(g) ==> DropCredentials(g) == g
    decreases |g|
  {
    if g != [] {
      var g' := g[..|g| - 1];
      assert g == g' + [g[|g| - 1]];
      DropSubset(g');
      assert NoCredentialFields(g) ==> NoCredentialFields(g');
    }
  }

  /** Appending a field with a new key keeps the shape of a parse_qs result. */
  lemma WellFormedSnoc(d: seq<Field>, f: Field)
    requires WellFormed(d) && f.values != []
    requires forall i :: 0 <= i < |d| ==> d[i].key != f.key
    ensures WellFormed(d + [f])
  {
    var d2 := d + [f];
    forall i, j | 0 <= i < j < |d2|
      ensures d2[i].key != d2[j].key
    {
      assert d2[i] == d[i];
      if j < |d| {
        assert d2[j] == d[j];
      }
    }
  }

  /** Dropping keeps the shape of a parse_qs result. */
  lemma {:induction false} DropWellFormed(g: seq<Field>)
    requires WellFormed(g)
    ensures WellFormed(DropCredentials(g))
    decreases |g|
  {
    if g != [] {
      var g' := g[..|g| - 1];
      var f := g[|g| - 1];
      LastKeyFresh(g);
      assert WellFormed(g');
      DropWellFormed(g');
      if !IsCredential(f.key) {
        DropSubset(g');
        var d' := DropCredentials(g');
        forall i | 0 <= i < |d'|
          ensures d'[i].key != f.key
        {
          var m :| 0 <= m < |g'| && g'[m] == d'[i];
        }
        WellFormedSnoc(d', f);
      }
    }
  }

  /** In an ordered dict every field comes before the last one. */
  lemma BeforeLast(g: seq<Field>, q: seq<Pair>)
    requires g != [] && FieldsInFirstOccurrenceOrder(g, q)
    ensures forall x :: x in g[..|g| - 1] ==> FirstIndex(q, x.key) < FirstIndex(q, g[|g| - 1].key)
  {
    forall x | x in g[..|g| - 1]
      ensures FirstIndex(q, x.key) < FirstIndex(q, g[|g| - 1].key)
    {
      var m :| 0 <= m < |g| - 1 && g[..|g| - 1][m] == x;
    }
  }

  /** Appending a field that comes after every field keeps the order. */
  lemma OrderedSnoc(d: seq<Field>, f: Field, q: seq<Pair>)
    requires FieldsInFirstOccurrenceOrder(d, q)
    requires forall i :: 0 <= i < |d| ==> FirstIndex(q, d[i].key) < FirstIndex(q, f.key)
    ensures FieldsInFirstOccurrenceOrder(d + [f], q)
  {
    var d2 := d + [f];
    forall i, j | 0 <= i < j < |d2|
      ensures FirstIndex(q, d2[i].key) < FirstIndex(q, d2[j].key)
    {
      if j < |d| {
        assert d2[i] == d[i] && d2[j] == d[j];
      }
    }
  }

  /** Dropping keeps the first-occurrence order of the keys. */
  lemma {:induction false} DropKeepsOrder(g: seq<Field>, q: seq<Pair>)
    requires FieldsInFirstOccurrenceOrder(g, q)
    ensures FieldsInFirstOccurrenceOrder(DropCredentials(g), q)
    decreases |g|
  {
    if g != [] {
      var g' := g[..|g| - 1];
      var f := g[|g| - 1];
      assert FieldsInFirstOccurrenceOrder(g', q);
      DropKeepsOrder(g', q);
      if !IsCredential(f.key) {
        DropSubset(g');
        BeforeLast(g, q);
        OrderedSnoc(DropCredentials(g'), f, q);
      }
    }
  }

  /** In a dict with distinct keys, the prefix before the last field has
      distinct keys and no field for the last key. */
  lemma LastKeyFresh(g: seq<Field>)
    requires g != [] && DistinctKeys(g)
    ensures DistinctKeys(g[..|g| - 1])
    ensures Lookup(g[..|g| - 1], g[|g| - 1].key) == []
  {
    var g' := g[..|g| - 1];
    forall j | 0 <= j < |g'|
      ensures g'[j].key != g[|g| - 1].key
    {
      assert g'[j] == g[j];
    }
  }

  /** Dropping credentials removes their lists and keeps every other. */
  lemma {:induction false} LookupDrop(g: seq<Field>, k: string)
    requires DistinctKeys(g)
    ensures Lookup(DropCredentials(g), k) == if IsCredential(k) then [] else Lookup(g, k)
    decreases |g|
  {
    if g != [] {
      var g' := g[..|g| - 1];
      var f := g[|g| - 1];
      assert g == g' + [f];
      LastKeyFresh(g);
      LookupDrop(g', k);
      LookupSnoc(g', f, k);
      if IsCredential(f.key) {
        assert DropCredentials(g) == DropCredentials(g');
      } else {
        assert DropCredentials(g) == DropCredentials(g') + [f];
        LookupSnoc(DropCredentials(g'), f, k);
      }
    }
  }

  // ---------------------------------------------------------------------
  // urlencode(doseq=True)
  // ---------------------------------------------------------------------

  lemma {:induction false} ExpandValues(k: string, vs: seq<string>, k': string)
    ensures ValuesOf(Expand(k, vs), k') == if k == k' then vs else []
    decreases |vs|
  {
    if vs != [] {
      var e := Expand(k, vs);
      assert e[..|e| - 1] == Expand(k, vs[..|vs| - 1]);
      ExpandValues(k, vs[..|vs| - 1], k');
      assert vs == vs[..|vs| - 1] + [vs[|vs| - 1]];
    }
  }

  /** Re-encoding a dict with distinct keys gives each key its list back. */
  lemma {:induction false} FlattenValues(g: seq<Field>, k: string)
    requires DistinctKeys(g)
    ensures ValuesOf(Flatten(g), k) == Lookup(g, k)
    decreases |g|
  {
    if g != [] {
      var g' := g[..|g| - 1];
      var f := g[|g| - 1];
      assert g == g' + [f];
      FlattenValues(g', k);
      ValuesOfAppend(Flatten(g'), Expand(f.key, f.values), k);
      ExpandValues(f.key, f.values, k);
      LookupSnoc(g', f, k);
      LastKeyFresh(g);
    }
  }

  /** No re-encoded pair's key first occurs later than the last field's. */
  lemma {:induction false} FlattenBound(g: seq<Field>, q: seq<Pair>)
    requires FieldsInFirstOccurrenceOrder(g, q)
    requires g != []
    ensures forall i :: 0 <= i < |Flatten(g)| ==>
      FirstIndex(q, Flatten(g)[i].key) <= FirstIndex(q, g[|g| - 1].key)
    decreases |g|
  {
    var g' := g[..|g| - 1];
    var f := g[|g| - 1];
    assert g == g' + [f];
    var a := Flatten(g');
    var e := Expand(f.key, f.values);
    var r := Flatten(g);
    assert r == a + e;
    if g' != [] {
      assert FieldsInFirstOccurrenceOrder(g', q);
      FlattenBound(g', q);
      assert g[|g'| - 1] == g'[|g'| - 1];
    }
    forall i | 0 <= i < |r|
      ensures FirstIndex(q, r[i].key) <= FirstIndex(q, f.key)
    {
      if i >= |a| {
        assert r[i] == e[i - |a|];
      } else {
        assert r[i] == a[i];
      }
    }
  }

  /** A block of pairs whose keys all first occur at `n` may follow pairs
      whose keys first occur no later than `n`. */
  lemma OrderedAppendBlock(a: seq<Pair>, e: seq<Pair>, q: seq<Pair>, n: nat)
    requires PairsInFirstOccurrenceOrder(a, q)
    requires forall i :: 0 <= i < |a| ==> FirstIndex(q, a[i].key) <= n
    requires forall i :: 0 <= i < |e| ==> FirstIndex(q, e[i].key) == n
    ensures PairsInFirstOccurrenceOrder(a + e, q)
  {
    var r := a + e;
    forall i, j | 0 <= i < j < |r|
      ensures FirstIndex(q, r[i].key) <= FirstIndex(q, r[j].key)
    {
      if j < |a| {
        assert r[i] == a[i] && r[j] == a[j];
      } else if i < |a| {
        assert r[i] == a[i] && r[j] == e[j - |a|];
      } else {
        assert r[i] == e[i - |a|] && r[j] == e[j - |a|];
      }
    }
  }

  /** Re-encoding emits the keys in the dict's order. */
  lemma {:induction false} FlattenOrder(g: seq<Field>, q: seq<Pair>)
    requires FieldsInFirstOccurrenceOrder(g, q)
    ensures PairsInFirstOccurrenceOrder(Flatten(g), q)
    decreases |g|
  {
    if g != [] {
      var g' := g[..|g| - 1];
      var f := g[|g| - 1];
      assert g == g' + [f];
      assert FieldsInFirstOccurrenceOrder(g', q);
      FlattenOrder(g', q);
      if g' != [] {
        FlattenBound(g', q);
        assert g[|g'| - 1] == g'[|g'| - 1];
      }
      OrderedAppendBlock(Flatten(g'), Expand(f.key, f.values), q, FirstIndex(q, f.key));
    }
  }

  // ---------------------------------------------------------------------
  // Idempotence
  // ---------------------------------------------------------------------

  lemma {:induction false} GroupOntoAppend(acc: seq<Field>, a: seq<Pair>, b: seq<Pair>)
    ensures GroupOnto(acc, a + b) == GroupOnto(GroupOnto(acc, a), b)
    decreases |b|
  {
    if b == [] {
      assert a + b == a;
    } else {
      var b' := b[..|b| - 1];
      assert (a + b)[..|a + b| - 1] == a + b';
      GroupOntoAppend(acc, a, b');
    }
  }

  /** Grouping the expansion of a fresh key adds exactly that field. */
  lemma {:induction false} GroupOntoExpand(g: seq<Field>, k: string, vs: seq<string>)
    requires KeyIndex(g, k) < 0
    requires vs != []
    ensures GroupOnto(g, Expand(k, vs)) == g + [Field(k, vs)]
    decreases |vs|
  {
    var e := Expand(k, vs);
    var vs' := vs[..|vs| - 1];
    var v := vs[|vs| - 1];
    assert e[..|e| - 1] == Expand(k, vs');
    assert vs == vs' + [v];
    if vs' == [] {
      assert GroupOnto(g, Expand(k, vs')) == g;
    } else {
      GroupOntoExpand(g, k, vs');
      LookupSnoc(g, Field(k, vs'), k);
      assert KeyIndex(g + [Field(k, vs')], k) == |g|;
    }
  }

  /** Parsing a re-encoded well-formed dict gives the same dict back. */
  lemma {:induction false} GroupFlatten(g: seq<Field>)
    requires WellFormed(g)
    ensures Group(Flatten(g)) == g
    decreases |g|
  {
    if g != [] {
      var g' := g[..|g| - 1];
      var f := g[|g| - 1];
      assert g == g' + [f];
      assert WellFormed(g');
      GroupFlatten(g');
      GroupOntoAppend([], Flatten(g'), Expand(f.key, f.values));
      assert KeyIndex(g', f.key) < 0;
      GroupOntoExpand(g', f.key, f.values);
    }
  }

  /** Cleaning an already-cleaned query changes nothing. */
  lemma CleanQueryIdempotent(q: seq<Pair>)
    ensures CleanQuery(CleanQuery(q)) == CleanQuery(q)
  {
    var g := Group(q);
    GroupInvariant(q);
    DropSubset(g);
    DropWellFormed(g);
    var d := DropCredentials(g);
    GroupFlatten(d);
    DropSubset(d);
  }

  /** clean_url(clean_url(u)) == clean_url(u) on the parsed URL. */
  lemma CleanUrlIdempotent(u: Url)
    ensures CleanUrl(CleanUrl(u)) == CleanUrl(u)
  {
    CleanQueryIdempotent(u.query);
  }
}
