/** bcrawler.h: the URL trie. It is the trie of ac_auto.h without fail links; a match points to a
    pattern with a number and the list of pages that link to the URL. */
module UrlTrie {
  import opened Strings
  import opened SuffixWords
  import opened AcTrie
  import opened AcAutomaton
  import opened UrlTable

  /** PATTERN; its linklist has the newest link first. */
  datatype UrlPattern = UrlPattern(linklist: seq<int>, urlId: int)

  /** The list holds each linker once. */
  ghost predicate ListsLinks(list: seq<int>, links: set<int>) {
    && (forall i, j :: 0 <= i < j < |list| ==> list[i] != list[j])
    && (forall l :: l in list <==> l in links)
  }

  /** The i-th URL has pattern number i. */
  ghost predicate PatternOk(patterns: seq<UrlPattern>, dict: map<Str, nat>, t: Table, i: nat)
    requires i < |t.urls| == |patterns|
  {
    && t.urls[i] in dict && dict[t.urls[i]] == i && t.urls[i] in t.links
    && patterns[i].urlId == i + 1 && ListsLinks(patterns[i].linklist, t.links[t.urls[i]])
  }

  /** The patterns are those of the table, and exactly its URLs are in the trie. */
  ghost predicate PatternsOk(patterns: seq<UrlPattern>, dict: map<Str, nat>, t: Table) {
    && TableOk(t) && |patterns| == |t.urls|
    && (forall u :: u in dict ==> u in t.urls)
    && forall i {:trigger PatternOk(patterns, dict, t, i)} :: 0 <= i < |t.urls| ==> PatternOk(patterns, dict, t, i)
  }

  class Urls {
    const trie: Automaton
    var patterns: seq<UrlPattern>
    var currentId: int
    ghost var table: Table

    ghost predicate Valid()
      reads this, trie
    {
      trie.Built() && PatternsOk(patterns, trie.dict, table) && currentId == |table.urls| + 1
    }

    constructor ()
      ensures Valid() && table == EMPTY && fresh(trie)
    {
      trie := new Automaton();
      patterns, currentId, table := [], 1, EMPTY;
    }

    /** url_persistence: the number of a new URL; -1 for an empty or known one, whose list of links
        gets the linking page if it is not there yet. */
    method UrlPersistence(str: Str, linkedBy: int) returns (result: int)
      requires Valid()
      modifies this, trie
      ensures Valid() && (table, result) == Persisted(old(table), str, linkedBy)
    {
      hide IsTrie, PatternsOk, Persisted;
      result := -1;
      NothingNew(patterns, trie.dict, table, str, linkedBy);
      var current := trie.WalkOrCreate(str);
      var matches := trie.nodes[current].matchlist;
      MatchAt(trie.nodes, trie.words, trie.up, trie.dict, current);
      if matches.RootTag? {
        return;
      }
      if matches.list == [] {
        NewPattern(patterns, trie.dict, table, str, linkedBy);
        result := currentId;
        patterns := patterns + [UrlPattern([linkedBy], currentId)];
        currentId := currentId + 1;
        trie.AddPattern(current, Pattern(|patterns| - 1, str));
        table := Persisted(table, str, linkedBy).0;
      } else {
        AddLink(matches.list[0].addr, str, linkedBy);
      }
    }

    /** The end of url_persistence for a known URL. */
    method AddLink(a: nat, ghost str: Str, linkedBy: int)
      requires PatternsOk(patterns, trie.dict, table) && str in trie.dict && a == trie.dict[str]
      modifies `patterns, `table
      ensures PatternsOk(patterns, trie.dict, table)
      ensures table == Persisted(old(table), str, linkedBy).0 && |table.urls| == old(|table.urls|)
    {
      KnownPattern(patterns, trie.dict, table, str);
      hide PatternsOk;
      var list := patterns[a].linklist;
      var k := 0;
      while k < |list| && list[k] != linkedBy
        invariant 0 <= k <= |list| && linkedBy !in list[..k]
      {
        k := k + 1;
      }
      LinkAdded(patterns, trie.dict, table, str, linkedBy);
      if k == |list| {
        assert linkedBy !in list;
        patterns := patterns[a := patterns[a].(linklist := [linkedBy] + list)];
      }
      table := Persisted(table, str, linkedBy).0;
    }

    /** dump_link: one pair of linker and number for every link of a URL below the node, each once. */
    method DumpLink(n: nat) returns (out: seq<(int, int)>)
      requires Valid() && n < |trie.nodes|
      ensures n < |trie.words|
      ensures forall p :: p in out <==> Dumped(table, trie.words[n], p)
      ensures forall i, j :: 0 <= i < j < |out| ==> out[i] != out[j]
      decreases Deepest(trie.words) - |trie.words[n]|
    {
      hide IsTrie, PatternsOk, Dumped, DumpedAt, Deepest;
      MatchAt(trie.nodes, trie.words, trie.up, trie.dict, n);
      var matches := trie.nodes[n].matchlist;
      out := [];
      if matches.Matches? && matches.list != [] {
        out := OwnLinks(matches.list[0].addr, trie.words[n]);
      }
      NoOwnLinks(patterns, trie.dict, table, trie.words[n]);
      var es := trie.nodes[n].edgelist;
      for k := 0 to |es|
        invariant forall p :: p in out <==>
                    DumpedAt(table, trie.words[n], p) || DumpedBelow(table, trie.words[n], es[..k], p)
        invariant forall i, j :: 0 <= i < j < |out| ==> out[i] != out[j]
      {
        EdgeAt(trie.nodes, trie.words, trie.up, n, k);
        var sub := DumpLink(es[k].p);
        SubtreesApart(table, trie.words[n], es, k);
        assert es[..k + 1] == es[..k] + [es[k]];
        DistinctAppend(out, sub);
        out := out + sub;
      }
      assert es[..|es|] == es;
      AllBelow(trie.nodes, trie.words, trie.up, trie.dict, patterns, table, n);
    }

    /** The while loop of dump_link. */
    method OwnLinks(a: nat, ghost u: Str) returns (out: seq<(int, int)>)
      requires Valid() && u in trie.dict && a == trie.dict[u]
      ensures forall p :: p in out <==> DumpedAt(table, u, p)
      ensures forall i, j :: 0 <= i < j < |out| ==> out[i] != out[j]
    {
      OwnPairs(patterns, trie.dict, table, u);
      hide PatternsOk, DumpedAt;
      var list := patterns[a].linklist;
      out := [];
      for k := 0 to |list|
        invariant |out| == k && forall i :: 0 <= i < k ==> out[i] == (list[i], patterns[a].urlId)
      {
        out := out + [(list[k], patterns[a].urlId)];
      }
      forall p
        ensures p in out <==> DumpedAt(table, u, p)
      {
        if p.0 in list && p.1 == a + 1 {
          var i :| 0 <= i < |list| && list[i] == p.0;
          assert out[i] == p;
        }
      }
    }
  }

  // ---- dumping ----

  /** The pair is a link of a known URL. */
  ghost predicate IsLink(t: Table, p: (int, int)) {
    && 1 <= p.1 <= |t.urls| && t.urls[p.1 - 1] in t.links && p.0 in t.links[t.urls[p.1 - 1]]
  }

  /** The pair is a link of a URL that starts with `w`. */
  ghost predicate Dumped(t: Table, w: Str, p: (int, int)) {
    IsLink(t, p) && w <= t.urls[p.1 - 1]
  }

  ghost predicate DumpedAt(t: Table, w: Str, p: (int, int)) {
    IsLink(t, p) && w == t.urls[p.1 - 1]
  }

  ghost predicate DumpedBelow(t: Table, w: Str, es: seq<Edge>, p: (int, int)) {
    exists k :: 0 <= k < |es| && Dumped(t, w + [es[k].c], p)
  }

  ghost function Deepest(words: seq<Str>): nat {
    if words == [] then 0
    else if |words[0]| > Deepest(words[1..]) then |words[0]| else Deepest(words[1..])
  }

  lemma {:induction false} NotDeeper(words: seq<Str>, n: nat)
    requires n < |words|
    ensures |words[n]| <= Deepest(words)
  {
    if n > 0 {
      NotDeeper(words[1..], n - 1);
    }
  }

  lemma DistinctAppend<T>(a: seq<T>, b: seq<T>)
    requires (forall i, j :: 0 <= i < j < |a| ==> a[i] != a[j]) && (forall i, j :: 0 <= i < j < |b| ==> b[i] != b[j])
    requires forall x :: x in b ==> x !in a
    ensures forall i, j :: 0 <= i < j < |a + b| ==> (a + b)[i] != (a + b)[j]
  {
    forall i, j | 0 <= i < j < |a + b|
      ensures (a + b)[i] != (a + b)[j]
    {
      assert j >= |a| ==> (a + b)[j] in b;
    }
  }

  lemma OwnPairs(patterns: seq<UrlPattern>, dict: map<Str, nat>, t: Table, u: Str)
    requires PatternsOk(patterns, dict, t) && u in dict
    ensures var a := dict[u];
            && a < |patterns| && patterns[a].urlId == a + 1
            && (forall i, j :: 0 <= i < j < |patterns[a].linklist| ==>
                  patterns[a].linklist[i] != patterns[a].linklist[j])
            && forall p :: DumpedAt(t, u, p) <==> p.0 in patterns[a].linklist && p.1 == a + 1
  {
    KnownPattern(patterns, dict, t, u);
    var a := dict[u];
    forall p: (int, int)
      ensures DumpedAt(t, u, p) <==> p.0 in patterns[a].linklist && p.1 == a + 1
    {
      var linker: int := p.0;
      assert linker in patterns[a].linklist <==> linker in t.links[u];
      assert DumpedAt(t, u, p) ==> t.urls[p.1 - 1] == t.urls[a];
    }
  }

  lemma NoOwnLinks(patterns: seq<UrlPattern>, dict: map<Str, nat>, t: Table, w: Str)
    requires PatternsOk(patterns, dict, t)
    ensures w !in dict ==> forall p :: !DumpedAt(t, w, p)
  {
    forall i: nat | i < |t.urls|
      ensures t.urls[i] in dict
    {
      assert PatternOk(patterns, dict, t, i);
    }
  }

  lemma EdgeAt(nodes: seq<Node>, words: seq<Str>, up: seq<nat>, n: nat, k: nat)
    requires IsTrie(nodes, words, up) && n < |nodes| && k < |nodes[n].edgelist|
    ensures var e := nodes[n].edgelist[k];
            e.p < |nodes| && words[e.p] == words[n] + [e.c] && Deepest(words) >= |words[e.p]| > |words[n]|
    ensures forall j :: 0 <= j < k ==> nodes[n].edgelist[j].c != nodes[n].edgelist[k].c
  {
    assert EdgesOk(nodes, words, up, n);
    NotDeeper(words, nodes[n].edgelist[k].p);
  }

  /** Links below one edge are not links of the node itself, nor below an edge with another byte. */
  lemma SubtreesApart(t: Table, w: Str, es: seq<Edge>, k: nat)
    requires k < |es| && forall j :: 0 <= j < k ==> es[j].c != es[k].c
    ensures forall p :: Dumped(t, w + [es[k].c], p) ==> !DumpedAt(t, w, p) && !DumpedBelow(t, w, es[..k], p)
    ensures forall p :: DumpedBelow(t, w, es[..k] + [es[k]], p) <==>
              DumpedBelow(t, w, es[..k], p) || Dumped(t, w + [es[k].c], p)
  {
    forall p | Dumped(t, w + [es[k].c], p)
      ensures !DumpedAt(t, w, p) && !DumpedBelow(t, w, es[..k], p)
    {
      var u := t.urls[p.1 - 1];
      assert (w + [es[k].c])[|w|] == es[k].c;
      assert forall j :: 0 <= j < k && w + [es[j].c] <= u ==> (w + [es[j].c])[|w|] == u[|w|] == es[j].c;
    }
    forall p
      ensures DumpedBelow(t, w, es[..k] + [es[k]], p) <==> DumpedBelow(t, w, es[..k], p) || Dumped(t, w + [es[k].c], p)
    {
      var fs := es[..k] + [es[k]];
      assert fs[k] == es[k] && forall j :: 0 <= j < k ==> fs[j] == es[..k][j];
    }
  }

  lemma {:induction false} PrefixKnown(words: seq<Str>, u: Str, w: Str)
    requires PrefixClosed(words) && u in words && w <= u
    ensures w in words
    decreases |u|
  {
    if |w| < |u| {
      PrefixKnown(words, u[..|u| - 1], w);
    } else {
      assert w == u;
    }
  }

  lemma LinkedUrlKnown(patterns: seq<UrlPattern>, dict: map<Str, nat>, t: Table, p: (int, int))
    requires PatternsOk(patterns, dict, t) && IsLink(t, p)
    ensures t.urls[p.1 - 1] in dict
  {
    assert PatternOk(patterns, dict, t, p.1 - 1);
  }

  /** A longer known word goes on along some edge. */
  lemma GoesOn(nodes: seq<Node>, words: seq<Str>, up: seq<nat>, n: nat, u: Str) returns (k: nat)
    requires IsTrie(nodes, words, up) && n < |nodes| && u in words && words[n] <= u && words[n] != u
    ensures k < |nodes[n].edgelist| && words[n] + [nodes[n].edgelist[k].c] <= u
  {
    hide EdgesOk, LinkedToParent, Goto, FindEdge;
    var w, es := words[n], nodes[n].edgelist;
    TrieIsPrefixClosed(nodes, words, up);
    GotoMeaning(nodes, words, up, n, u[|w|]);
    hide IsTrie, PrefixClosed;
    var c := u[|w|];
    PrefixKnown(words, u, w + [c]);
    var r := FindEdge(es, c).value;
    k :| k < |es| && es[k] == Edge(c, r);
  }

  /** The links below a node are its own and those below its edges. */
  lemma AllBelow(nodes: seq<Node>, words: seq<Str>, up: seq<nat>, dict: map<Str, nat>, patterns: seq<UrlPattern>,
                 t: Table, n: nat)
    requires IsTrie(nodes, words, up) && n < |nodes| && DictOk(words, dict) && PatternsOk(patterns, dict, t)
    ensures forall p :: Dumped(t, words[n], p) <==>
              DumpedAt(t, words[n], p) || DumpedBelow(t, words[n], nodes[n].edgelist, p)
  {
    hide PatternsOk, EdgesOk, LinkedToParent;
    forall p | Dumped(t, words[n], p) && !DumpedAt(t, words[n], p)
      ensures DumpedBelow(t, words[n], nodes[n].edgelist, p)
    {
      LinkedUrlKnown(patterns, dict, t, p);
      var k := GoesOn(nodes, words, up, n, t.urls[p.1 - 1]);
      assert Dumped(t, words[n] + [nodes[n].edgelist[k].c], p);
    }
    forall p, k | 0 <= k < |nodes[n].edgelist| && Dumped(t, words[n] + [nodes[n].edgelist[k].c], p)
      ensures Dumped(t, words[n], p)
    {
      assert words[n] <= words[n] + [nodes[n].edgelist[k].c] <= t.urls[p.1 - 1];
    }
  }

  lemma NothingNew(patterns: seq<UrlPattern>, dict: map<Str, nat>, t: Table, u: Str, linker: int)
    requires PatternsOk(patterns, dict, t)
    ensures |patterns| == |t.urls|
    ensures u == [] ==> Persisted(t, u, linker) == (t, -1)
    ensures u in dict ==> Persisted(t, u, linker).1 == -1
  {
  }

  lemma NewPattern(patterns: seq<UrlPattern>, dict: map<Str, nat>, t: Table, u: Str, linker: int)
    requires PatternsOk(patterns, dict, t) && u != [] && u !in dict
    ensures Persisted(t, u, linker).1 == |t.urls| + 1 && Persisted(t, u, linker).0.urls == t.urls + [u]
    ensures PatternsOk(patterns + [UrlPattern([linker], |t.urls| + 1)], dict[u := |patterns|],
                       Persisted(t, u, linker).0)
  {
    forall i: nat | i < |t.urls|
      ensures t.urls[i] != u
    {
      assert PatternOk(patterns, dict, t, i);
    }
    var t', dict' := Persisted(t, u, linker).0, dict[u := |patterns|];
    var patterns' := patterns + [UrlPattern([linker], |t.urls| + 1)];
    forall i: nat | i < |t'.urls|
      ensures PatternOk(patterns', dict', t', i)
    {
      assert i < |t.urls| ==> PatternOk(patterns, dict, t, i);
    }
  }

  lemma KnownPattern(patterns: seq<UrlPattern>, dict: map<Str, nat>, t: Table, u: Str)
    requires PatternsOk(patterns, dict, t) && u in dict
    ensures dict[u] < |patterns| == |t.urls| && t.urls[dict[u]] == u && PatternOk(patterns, dict, t, dict[u])
  {
    var i: nat :| i < |t.urls| && t.urls[i] == u;
    assert PatternOk(patterns, dict, t, i);
  }

  /** A link that is not in the list goes to its front; one that is changes nothing. */
  lemma LinkAdded(patterns: seq<UrlPattern>, dict: map<Str, nat>, t: Table, u: Str, linker: int)
    requires PatternsOk(patterns, dict, t) && u in dict
    ensures dict[u] < |patterns| && Persisted(t, u, linker).0.urls == t.urls
    ensures var list := patterns[dict[u]].linklist;
            PatternsOk(if linker in list then patterns
                       else patterns[dict[u] := patterns[dict[u]].(linklist := [linker] + list)],
                       dict, Persisted(t, u, linker).0)
  {
    KnownPattern(patterns, dict, t, u);
    var a := dict[u];
    var list := patterns[a].linklist;
    var patterns' := if linker in list then patterns else patterns[a := patterns[a].(linklist := [linker] + list)];
    forall j: nat | j < |t.urls|
      ensures PatternOk(patterns', dict, Persisted(t, u, linker).0, j)
    {
      assert PatternOk(patterns, dict, t, j);
      assert j != a ==> t.urls[j] != u;
    }
  }

  /** What the node of a string says about it. */
  lemma MatchAt(nodes: seq<Node>, words: seq<Str>, up: seq<nat>, dict: map<Str, nat>, n: nat)
    requires IsTrie(nodes, words, up) && Pending(nodes, words, dict, {}) && n < |nodes| && DictOk(words, dict)
    ensures n < |words| && (words[n] == [] <==> nodes[n].matchlist.RootTag?) && (n == 0 <==> words[n] == [])
    ensures words[n] != [] ==>
              nodes[n].matchlist == Matches(if words[n] in dict then [Pattern(dict[words[n]], words[n])] else [])
  {
    if n > 0 {
      assert LinkedToParent(nodes, words, up, n);
      assert MatchesOwn(nodes, words, dict, n);
    }
  }
}
