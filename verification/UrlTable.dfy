/** bcrawler.h url_persistence, as a table: which URLs are known, in the order they were first seen,
    and by which page each is linked. */
module UrlTable {
  import opened Strings
  import opened UrlQueue

  datatype Table = Table(urls: seq<Str>, links: map<Str, set<int>>)

  const EMPTY := Table([], map[])

  /** A URL that is empty or known gives -1; a new one gets the next number. */
  function Persisted(t: Table, u: Str, linker: int): (Table, int) {
    if u == [] then (t, -1)
    else if u in t.urls then (t.(links := t.links[u := (if u in t.links then t.links[u] else {}) + {linker}]), -1)
    else (Table(t.urls + [u], t.links[u := {linker}]), |t.urls| + 1)
  }

  ghost predicate TableOk(t: Table) {
    && t.links.Keys == (set x | x in t.urls)
    && [] !in t.urls
    && forall i, j :: 0 <= i < j < |t.urls| ==> t.urls[i] != t.urls[j]
  }

  /** The table after a list of URLs. */
  ghost function TableOf(seen: seq<Item>): (t: Table)
    ensures TableOk(t)
  {
    if seen == [] then EMPTY
    else
      var t := TableOf(seen[..|seen| - 1]);
      var x := seen[|seen| - 1];
      Persisted(t, x.url, x.id).0
  }

  lemma TableOfOneMore(seen: seq<Item>, x: Item)
    ensures TableOf(seen + [x]) == Persisted(TableOf(seen), x.url, x.id).0
  {
  }

  /** Exactly the non-empty URLs seen are in the table. */
  lemma {:induction false} KnownUrls(seen: seq<Item>, u: Str)
    ensures u in TableOf(seen).urls <==> u != [] && exists i :: 0 <= i < |seen| && seen[i].url == u
  {
    if seen != [] {
      var before := seen[..|seen| - 1];
      KnownUrls(before, u);
      assert forall i :: 0 <= i < |before| ==> before[i] == seen[i];
      if i :| 0 <= i < |seen| && seen[i].url == u && i < |before| {
        assert before[i].url == u;
      }
    }
  }

  lemma SomethingSeen(seen: seq<Item>)
    ensures seen == [] ==> TableOf(seen).urls == []
  {
  }

  lemma NotSeen(seen: seq<Item>, u: Str)
    requires u !in TableOf(seen).urls && u != []
    ensures forall m :: 0 <= m < |seen| ==> seen[m].url != u
  {
    KnownUrls(seen, u);
  }

  /** Only the URL received gains a link, and it loses none it had. */
  lemma PersistedLinks(t: Table, x: Item, u: Str, linker: int)
    requires TableOk(t) && u in Persisted(t, x.url, x.id).0.urls
    ensures u in Persisted(t, x.url, x.id).0.links && (u in t.urls || u == x.url)
    ensures linker in Persisted(t, x.url, x.id).0.links[u] <==>
            (u in t.links && linker in t.links[u]) || x == Item(linker, u)
  {
    assert u in t.urls ==> u in t.links.Keys;
  }

  /** The links of a URL are exactly the numbers of the pages it was seen on. */
  lemma {:induction false} LinksOf(seen: seq<Item>, u: Str, linker: int)
    requires u in TableOf(seen).urls
    ensures u in TableOf(seen).links && (linker in TableOf(seen).links[u] <==> Item(linker, u) in seen)
  {
    hide TableOf, Persisted;
    SomethingSeen(seen);
    var last := seen[|seen| - 1];
    var before := seen[..|seen| - 1];
    assert seen == before + [last];
    TableOfOneMore(before, last);
    PersistedLinks(TableOf(before), last, u, linker);
    if u in TableOf(before).urls {
      LinksOf(before, u, linker);
    } else {
      NotSeen(before, u);
      assert u !in TableOf(before).links.Keys;
    }
  }

  /** Numbers follow the order of first appearance: when the i-th URL first appeared, no later one
      had. */
  lemma {:induction false} FirstSeenOrder(seen: seq<Item>, i: nat, j: nat, u: Str, v: Str) returns (n: nat)
    requires i < j < |TableOf(seen).urls| && TableOf(seen).urls[i] == u && TableOf(seen).urls[j] == v
    ensures n < |seen| && seen[n].url == u
    ensures forall m :: 0 <= m <= n ==> seen[m].url != v
  {
    hide TableOf;
    SomethingSeen(seen);
    var before := seen[..|seen| - 1];
    var urls := TableOf(before).urls;
    TableOfOneMore(before, seen[|seen| - 1]);
    assert seen == before + [seen[|seen| - 1]];
    if j < |urls| {
      n := FirstSeenOrder(before, i, j, u, v);
    } else {
      assert urls[i] == u;
      KnownUrls(before, u);
      n :| 0 <= n < |before| && before[n].url == u;
      NotSeen(before, v);
    }
    assert forall m :: 0 <= m < |before| ==> seen[m] == before[m];
  }
}
