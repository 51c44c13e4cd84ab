/** The node arena of ac_auto.h. Node 0 is the start node; a pointer is an index into the arena.
    `words` and `up` are ghost views: the string spelled by the path to a node, and its parent. */
module AcTrie {
  import opened Strings
  import opened SuffixWords

  datatype Option<T> = None | Some(value: T)

  /** A stored string: the pointer the C code keeps, and the bytes found there. */
  datatype Pattern = Pattern(addr: nat, s: Str)

  datatype Edge = Edge(c: Byte, p: nat)

  /** `RootTag` is the value 1 that marks the start node. */
  datatype MatchList = RootTag | Matches(list: seq<Pattern>)

  datatype Node = Node(fs: Option<nat>, edgelist: seq<Edge>, matchlist: MatchList)

  ghost predicate EdgesOk(nodes: seq<Node>, words: seq<Str>, up: seq<nat>, n: nat)
    requires n < |nodes| == |words| == |up|
  {
    var es := nodes[n].edgelist;
    && (forall k :: 0 <= k < |es| ==>
          0 < es[k].p < |nodes| && up[es[k].p] == n && words[es[k].p] == words[n] + [es[k].c])
    && (forall k, l :: 0 <= k < l < |es| ==> es[k].c != es[l].c)
  }

  ghost predicate LinkedToParent(nodes: seq<Node>, words: seq<Str>, up: seq<nat>, m: nat)
    requires m < |nodes| == |words| == |up|
  {
    && up[m] < |nodes|
    && words[m] != []
    && words[m] == words[up[m]] + [words[m][|words[m]| - 1]]
    && Edge(words[m][|words[m]| - 1], m) in nodes[up[m]].edgelist
  }

  ghost predicate IsTrie(nodes: seq<Node>, words: seq<Str>, up: seq<nat>) {
    && 0 < |nodes| == |words| == |up|
    && words[0] == []
    && (forall i, j :: 0 <= i < j < |words| ==> words[i] != words[j])
    && (forall n :: 0 <= n < |nodes| ==> (nodes[n].matchlist.RootTag? <==> n == 0))
    && (forall n :: 0 <= n < |nodes| ==> EdgesOk(nodes, words, up, n))
    && (forall m :: 0 < m < |nodes| ==> LinkedToParent(nodes, words, up, m))
  }

  lemma TrieIsPrefixClosed(nodes: seq<Node>, words: seq<Str>, up: seq<nat>)
    requires IsTrie(nodes, words, up)
    ensures PrefixClosed(words)
  {
    assert words[0] in words;
    forall w | w in words && w != []
      ensures w[..|w| - 1] in words
    {
      var m :| 0 <= m < |words| && words[m] == w;
      assert LinkedToParent(nodes, words, up, m);
      assert w[..|w| - 1] == words[up[m]];
    }
  }

  /** What the edge loop of ac_goto finds. */
  function FindEdge(es: seq<Edge>, c: Byte): (r: Option<nat>)
    ensures r.Some? ==> Edge(c, r.value) in es
    ensures r.None? ==> forall p :: Edge(c, p) !in es
  {
    if es == [] then None
    else if es[0].c == c then Some(es[0].p)
    else FindEdge(es[1..], c)
  }

  function Goto(nodes: seq<Node>, n: nat, c: Byte): Option<nat>
    requires n < |nodes|
  {
    match FindEdge(nodes[n].edgelist, c)
    case Some(p) => Some(p)
    case None => if nodes[n].matchlist.RootTag? then Some(n) else None
  }

  /** In a trie, ac_goto finds the node of the extended word when there is one; otherwise it
      stays at the start node, or reports failure anywhere else. */
  lemma GotoMeaning(nodes: seq<Node>, words: seq<Str>, up: seq<nat>, n: nat, c: Byte)
    requires IsTrie(nodes, words, up) && n < |nodes|
    ensures FindEdge(nodes[n].edgelist, c).Some? <==> words[n] + [c] in words
    ensures var r := FindEdge(nodes[n].edgelist, c);
            r.Some? ==> 0 < r.value < |nodes| && words[r.value] == words[n] + [c]
    ensures Goto(nodes, n, c).None? <==> n != 0 && words[n] + [c] !in words
  {
    assert EdgesOk(nodes, words, up, n);
    if words[n] + [c] in words {
      var m :| 0 <= m < |words| && words[m] == words[n] + [c];
      assert LinkedToParent(nodes, words, up, m);
      assert words[n] == words[m][..|words[m]| - 1] == words[up[m]];
      assert up[m] == n;
    }
  }

  /** ac_goto never fails at the start node, and otherwise leads to the longest known suffix. */
  lemma GotoReaches(nodes: seq<Node>, words: seq<Str>, up: seq<nat>, n: nat, c: Byte)
    requires IsTrie(nodes, words, up) && n < |nodes| && Goto(nodes, n, c).Some?
    ensures [] in words
    ensures var r := Goto(nodes, n, c).value;
            r < |nodes| && words[r] == LongestSuffix(words, words[n] + [c]) && |words[r]| <= |words[n]| + 1
  {
    assert words[0] in words;
    GotoMeaning(nodes, words, up, n, c);
    if words[n] + [c] !in words {
      assert words[0] + [c] == [c] && [c][1..] == [];
    }
  }

  // ---- the state of set_fs ----

  ghost predicate FailsRight(nodes: seq<Node>, words: seq<Str>, m: nat)
    requires m < |nodes| == |words| && [] in words && words[m] != []
  {
    && nodes[m].fs.Some?
    && nodes[m].fs.value < |nodes|
    && words[nodes[m].fs.value] == LongestSuffix(words, words[m][1..])
  }

  ghost predicate NoDuplicates(list: seq<Pattern>) {
    forall i, j :: 0 <= i < j < |list| ==> list[i].s != list[j].s
  }

  /** An inserted pattern, under the pointer it was inserted with. */
  ghost predicate Inserted(dict: map<Str, nat>, pat: Pattern) {
    pat.s in dict && dict[pat.s] == pat.addr
  }

  /** The list holds exactly the inserted patterns that end in word `w`, each once. */
  ghost predicate ListsSuffixes(list: seq<Pattern>, dict: map<Str, nat>, w: Str) {
    && NoDuplicates(list)
    && forall pat :: pat in list <==> Inserted(dict, pat) && IsSuffix(pat.s, w)
  }

  ghost predicate MatchesRight(nodes: seq<Node>, words: seq<Str>, dict: map<Str, nat>, m: nat)
    requires m < |nodes| == |words|
  {
    nodes[m].matchlist.Matches? && ListsSuffixes(nodes[m].matchlist.list, dict, words[m])
  }

  /** Before set_fs a node lists at most the pattern that spells the node's own word. */
  ghost predicate MatchesOwn(nodes: seq<Node>, words: seq<Str>, dict: map<Str, nat>, m: nat)
    requires m < |nodes| == |words|
  {
    nodes[m].matchlist == Matches(if words[m] in dict then [Pattern(dict[words[m]], words[m])] else [])
  }

  /** Every inserted string is non-empty and has its node. */
  ghost predicate DictOk(words: seq<Str>, dict: map<Str, nat>) {
    forall s :: s in dict ==> s != [] && s in words
  }

  /** A node of depth one: its longest proper known suffix is the empty word. */
  lemma FirstLevel(nodes: seq<Node>, words: seq<Str>, dict: map<Str, nat>, m: nat)
    requires m < |nodes| == |words| && |words[m]| == 1 && [] in words && words[0] == []
    requires DictOk(words, dict) && MatchesOwn(nodes, words, dict, m) && nodes[m].fs == Some(0)
    ensures FailsRight(nodes, words, m) && MatchesRight(nodes, words, dict, m)
  {
  }

  /** What merge_matchlist leaves: the own patterns, and those of `theirs` with a string not among them. */
  ghost predicate Merged(merged: seq<Pattern>, own: seq<Pattern>, theirs: seq<Pattern>) {
    && NoDuplicates(merged)
    && forall pat :: pat in merged <==> pat in own || (pat in theirs && forall o :: o in own ==> o.s != pat.s)
  }

  lemma MergedStep(list: seq<Pattern>, own: seq<Pattern>, theirs: seq<Pattern>, i: nat)
    requires i < |theirs| && NoDuplicates(theirs) && Merged(list, own, theirs[..i])
    ensures var isNew := forall pat :: pat in list ==> pat.s != theirs[i].s;
            Merged(if isNew then [theirs[i]] + list else list, own, theirs[..i + 1])
  {
  }

  /** The merged list of a deeper node: its own pattern, and what its fail node lists. */
  lemma MergedListRight(own: seq<Pattern>, theirs: seq<Pattern>, merged: seq<Pattern>,
                        words: seq<Str>, dict: map<Str, nat>, w: Str)
    requires w != [] && [] in words && DictOk(words, dict)
    requires own == if w in dict then [Pattern(dict[w], w)] else []
    requires ListsSuffixes(theirs, dict, LongestSuffix(words, w[1..]))
    requires Merged(merged, own, theirs)
    ensures ListsSuffixes(merged, dict, w)
  {
    var f := LongestSuffix(words, w[1..]);
    forall pat
      ensures pat in merged <==> Inserted(dict, pat) && IsSuffix(pat.s, w)
    {
      if Inserted(dict, pat) && |pat.s| < |w| {
        KnownSuffixes(words, w[1..], pat.s);
      } else {
        assert |pat.s| == |w| ==> w[|w| - |pat.s|..] == w;
        assert IsSuffix(pat.s, f) ==> |pat.s| < |w|;
      }
    }
  }
}
