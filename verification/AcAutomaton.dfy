/** ac_auto.h: building the trie, setting the fail links breadth first, and stepping. */
module AcAutomaton {
  import opened Strings
  import opened SuffixWords
  import opened AcTrie

  /** `after` differs from `before` at most in fail links and match lists. */
  ghost predicate SameShape(before: seq<Node>, after: seq<Node>) {
    && |before| == |after|
    && forall n :: 0 <= n < |before| ==>
         before[n].edgelist == after[n].edgelist && (before[n].matchlist.RootTag? <==> after[n].matchlist.RootTag?)
  }

  lemma SameShapeTransitive(a: seq<Node>, b: seq<Node>, c: seq<Node>)
    requires SameShape(a, b) && SameShape(b, c)
    ensures SameShape(a, c) && |a| == |b| == |c|
  {
  }

  lemma TrieIgnoresLinks(before: seq<Node>, after: seq<Node>, words: seq<Str>, up: seq<nat>)
    requires IsTrie(before, words, up) && SameShape(before, after)
    ensures IsTrie(after, words, up)
  {
    forall n | 0 <= n < |after|
      ensures EdgesOk(after, words, up, n)
    {
      assert EdgesOk(before, words, up, n);
    }
    forall m | 0 < m < |after|
      ensures LinkedToParent(after, words, up, m)
    {
      assert LinkedToParent(before, words, up, m);
    }
  }

  /** The queue of set_fs: distinct finished nodes, by depth, spanning at most two levels. */
  ghost predicate QueueOk(words: seq<Str>, q: seq<nat>, done: set<nat>, depth: nat) {
    && (forall i :: 0 <= i < |q| ==> q[i] in done && 0 < q[i] < |words| && depth <= |words[q[i]]| <= depth + 1)
    && (forall i, j :: 0 <= i < j < |q| ==> q[i] != q[j] && |words[q[i]]| <= |words[q[j]]|)
  }

  ghost predicate Expanded(n: nat, q: seq<nat>, done: set<nat>) {
    n == 0 || (n in done && n !in q)
  }

  /** Finished nodes have their final fail link and match list. */
  ghost predicate Final(nodes: seq<Node>, words: seq<Str>, dict: map<Str, nat>, done: set<nat>)
    requires |nodes| == |words| && [] in words
  {
    forall m :: m in done ==>
      0 < m < |nodes| && words[m] != [] && FailsRight(nodes, words, m) && MatchesRight(nodes, words, dict, m)
  }

  /** Unfinished nodes still list only their own word. */
  ghost predicate Pending(nodes: seq<Node>, words: seq<Str>, dict: map<Str, nat>, done: set<nat>)
    requires |nodes| == |words|
  {
    forall m :: 0 < m < |nodes| && m !in done ==> MatchesOwn(nodes, words, dict, m)
  }

  ghost predicate Targeted(es: seq<Edge>, k: nat, m: nat)
    requires k <= |es|
  {
    exists l :: 0 <= l < k && es[l].p == m
  }

  /** When the first `k` edges of `cur` have been handled, node `m` is finished exactly when its
      parent's edge to it has been handled. */
  ghost predicate CoverageAt(nodes: seq<Node>, up: seq<nat>, q: seq<nat>, done: set<nat>, cur: nat, k: nat, m: nat)
    requires cur < |nodes| == |up| && k <= |nodes[cur].edgelist| && m < |nodes|
  {
    m in done <==> if up[m] == cur then Targeted(nodes[cur].edgelist, k, m) else Expanded(up[m], q, done)
  }

  ghost predicate Coverage(nodes: seq<Node>, up: seq<nat>, q: seq<nat>, done: set<nat>, cur: nat, k: nat)
    requires cur < |nodes| == |up| && k <= |nodes[cur].edgelist|
  {
    forall m :: 0 < m < |nodes| ==> CoverageAt(nodes, up, q, done, cur, k, m)
  }

  /** The state of set_fs when the first `k` edges of `cur` have been handled. */
  ghost predicate Frontier(nodes: seq<Node>, words: seq<Str>, up: seq<nat>, dict: map<Str, nat>,
                           q: seq<nat>, done: set<nat>, cur: nat, k: nat) {
    && cur < |nodes| == |words| == |up| && k <= |nodes[cur].edgelist|
    && IsTrie(nodes, words, up) && [] in words && DictOk(words, dict)
    && Expanded(cur, q, done)
    && QueueOk(words, q, done, |words[cur]|)
    && Final(nodes, words, dict, done)
    && Pending(nodes, words, dict, done)
    && Coverage(nodes, up, q, done, cur, k)
  }

  /** Breadth-first order: every node no deeper than the current one is already final. */
  lemma {:induction false} ShallowNodesDone(nodes: seq<Node>, words: seq<Str>, up: seq<nat>, dict: map<Str, nat>,
                                            q: seq<nat>, done: set<nat>, cur: nat, k: nat, m: nat)
    requires Frontier(nodes, words, up, dict, q, done, cur, k)
    requires 0 < m < |nodes| && |words[m]| <= |words[cur]|
    ensures m in done
    decreases |words[m]|
  {
    assert LinkedToParent(nodes, words, up, m);
    assert |words[up[m]]| == |words[m]| - 1;
    assert CoverageAt(nodes, up, q, done, cur, k, m);
    if up[m] != 0 {
      ShallowNodesDone(nodes, words, up, dict, q, done, cur, k, up[m]);
    }
  }

  /** An edge not handled yet leads to an unfinished node. */
  lemma EdgeTargetIsNew(nodes: seq<Node>, words: seq<Str>, up: seq<nat>, q: seq<nat>, done: set<nat>, cur: nat, k: nat)
    requires IsTrie(nodes, words, up) && cur < |nodes| && k < |nodes[cur].edgelist|
    requires Coverage(nodes, up, q, done, cur, k)
    ensures var m := nodes[cur].edgelist[k].p;
            0 < m < |nodes| && up[m] == cur && words[m] == words[cur] + [nodes[cur].edgelist[k].c] && m !in done
  {
    assert EdgesOk(nodes, words, up, cur);
    var es := nodes[cur].edgelist;
    var m := es[k].p;
    forall l | 0 <= l < k
      ensures es[l].p != m
    {
      assert words[es[l].p] == words[cur] + [es[l].c];
      assert words[m] == words[cur] + [es[k].c];
      assert words[m][|words[cur]|] != words[es[l].p][|words[cur]|];
    }
    assert !Targeted(es, k, m);
    assert CoverageAt(nodes, up, q, done, cur, k, m);
  }

  lemma CoverageGrows(nodes: seq<Node>, nodes': seq<Node>, up: seq<nat>, q: seq<nat>, done: set<nat>, cur: nat,
                      k: nat, m: nat)
    requires cur < |nodes| == |up| && k < |nodes[cur].edgelist|
    requires SameShape(nodes, nodes') && Coverage(nodes, up, q, done, cur, k)
    requires m == nodes[cur].edgelist[k].p && 0 < m < |nodes| && up[m] == cur && m !in done
    ensures Coverage(nodes', up, q + [m], done + {m}, cur, k + 1)
  {
    var q', done', es := q + [m], done + {m}, nodes[cur].edgelist;
    forall i {:trigger up[i]} | 0 < i < |nodes'|
      ensures CoverageAt(nodes', up, q', done', cur, k + 1, i)
    {
      assert CoverageAt(nodes, up, q, done, cur, k, i);
      assert Targeted(es, k, i) ==> Targeted(es, k + 1, i);
      assert Targeted(es, k + 1, m) by { assert es[k].p == m; }
    }
  }

  lemma FinalGrows(nodes: seq<Node>, nodes': seq<Node>, words: seq<Str>, dict: map<Str, nat>, done: set<nat>, m: nat)
    requires |nodes| == |nodes'| == |words| && [] in words && 0 < m < |nodes| && nodes' == nodes[m := nodes'[m]]
    requires Final(nodes, words, dict, done) && Pending(nodes, words, dict, done)
    requires words[m] != [] && FailsRight(nodes', words, m) && MatchesRight(nodes', words, dict, m)
    ensures Final(nodes', words, dict, done + {m}) && Pending(nodes', words, dict, done + {m})
  {
  }

  /** Handling the next edge of `cur`: its target becomes final and joins the queue. */
  lemma EdgeHandled(nodes: seq<Node>, nodes': seq<Node>, words: seq<Str>, up: seq<nat>, dict: map<Str, nat>,
                    q: seq<nat>, done: set<nat>, cur: nat, k: nat, m: nat)
    requires Frontier(nodes, words, up, dict, q, done, cur, k) && k < |nodes[cur].edgelist|
    requires m == nodes[cur].edgelist[k].p && Finished(nodes, nodes', words, dict, m)
    ensures Frontier(nodes', words, up, dict, q + [m], done + {m}, cur, k + 1)
  {
    hide Final, Pending;
    EdgeTargetIsNew(nodes, words, up, q, done, cur, k);
    TrieIgnoresLinks(nodes, nodes', words, up);
    hide IsTrie, FailsRight, MatchesRight;
    CoverageGrows(nodes, nodes', up, q, done, cur, k, m);
    FinalGrows(nodes, nodes', words, dict, done, m);
  }

  /** An edge leads from every parent to its child. */
  lemma ParentTargets(nodes: seq<Node>, words: seq<Str>, up: seq<nat>, m: nat)
    requires IsTrie(nodes, words, up) && 0 < m < |nodes|
    ensures up[m] < |nodes| && |words[m]| == |words[up[m]]| + 1
    ensures Targeted(nodes[up[m]].edgelist, |nodes[up[m]].edgelist|, m)
  {
    assert LinkedToParent(nodes, words, up, m);
    var es := nodes[up[m]].edgelist;
    var l :| 0 <= l < |es| && es[l] == Edge(words[m][|words[m]| - 1], m);
    assert es[l].p == m;
  }

  /** Taking the next node from the queue once all edges of `prev` have been handled. */
  lemma NodeDequeued(nodes: seq<Node>, words: seq<Str>, up: seq<nat>, dict: map<Str, nat>,
                     q: seq<nat>, done: set<nat>, prev: nat)
    requires prev < |nodes| && Frontier(nodes, words, up, dict, q, done, prev, |nodes[prev].edgelist|) && q != []
    ensures 0 < q[0] < |nodes| && q[0] in done && !Expanded(q[0], q, done) && Expanded(q[0], q[1..], done)
    ensures forall n: nat :: Expanded(n, q, done) ==> Expanded(n, q[1..], done)
    ensures Frontier(nodes, words, up, dict, q[1..], done, q[0], 0)
  {
    hide IsTrie, Final, Pending;
    var cur := q[0];
    hide QueueOk;
    forall m | 0 < m < |nodes|
      ensures CoverageAt(nodes, up, q[1..], done, cur, 0, m)
    {
      ParentTargets(nodes, words, up, m);
      assert CoverageAt(nodes, up, q, done, prev, |nodes[prev].edgelist|, m);
    }
  }

  /** When the queue runs empty, every node is final. */
  lemma {:induction false} AllNodesDone(nodes: seq<Node>, words: seq<Str>, up: seq<nat>, dict: map<Str, nat>,
                                        done: set<nat>, prev: nat, m: nat)
    requires prev < |nodes| && Frontier(nodes, words, up, dict, [], done, prev, |nodes[prev].edgelist|)
    requires 0 < m < |nodes|
    ensures m in done
    decreases |words[m]|
  {
    ParentTargets(nodes, words, up, m);
    assert CoverageAt(nodes, up, [], done, prev, |nodes[prev].edgelist|, m);
    if up[m] != prev && up[m] != 0 {
      AllNodesDone(nodes, words, up, dict, done, prev, up[m]);
    }
  }

  /** The links of all nodes no deeper than `depth` are final. */
  ghost predicate LinksRight(nodes: seq<Node>, words: seq<Str>, depth: nat)
    requires |nodes| == |words| && [] in words
  {
    forall m :: 0 < m < |nodes| && |words[m]| <= depth ==> words[m] != [] && FailsRight(nodes, words, m)
  }

  /** Following one fail link: the node gets shallower and the answer stays. */
  lemma FailLinkStep(nodes: seq<Node>, words: seq<Str>, up: seq<nat>, n: nat, depth: nat, c: Byte)
    requires IsTrie(nodes, words, up) && [] in words && n < |nodes| && |words[n]| <= depth
    requires LinksRight(nodes, words, depth) && Goto(nodes, n, c).None?
    ensures nodes[n].fs.Some? && nodes[n].fs.value < |nodes|
    ensures words[n] != [] && words[nodes[n].fs.value] == LongestSuffix(words, words[n][1..])
    ensures LongestSuffix(words, words[n] + [c]) == LongestSuffix(words, words[nodes[n].fs.value] + [c])
  {
    TrieIsPrefixClosed(nodes, words, up);
    GotoMeaning(nodes, words, up, n, c);
    assert FailsRight(nodes, words, n);
    FailStep(words, words[n], c);
  }

  lemma TriedAtFirst(nodes: seq<Node>, words: seq<Str>, up: seq<nat>, n: nat)
    requires IsTrie(nodes, words, up) && n < |nodes|
    ensures |words| == |nodes| && IsSuffix(words[n], words[n]) && |AtLeast(words, words[n], |words[n]|)| == 1
  {
    assert words[n][|words[n]| - |words[n]|..] == words[n];
    FirstTried(words, words[n]);
  }

  /** The word ac_goto succeeds with is one shorter than the word reached, or both are empty. */
  lemma TriedAtLast(nodes: seq<Node>, words: seq<Str>, up: seq<nat>, n: nat, state: nat, c: Byte)
    requires IsTrie(nodes, words, up) && n < |nodes| && state < |nodes| && Goto(nodes, state, c).Some?
    ensures |words| == |nodes| && Goto(nodes, state, c).value < |nodes|
    ensures Tried(words, words[n], words[Goto(nodes, state, c).value]) == AtLeast(words, words[n], |words[state]|)
  {
    GotoMeaning(nodes, words, up, state, c);
    hide IsSuffix;
  }

  /** Everything the handling of edge `e` of `cur` relies on. */
  ghost predicate CanLink(nodes: seq<Node>, words: seq<Str>, up: seq<nat>, dict: map<Str, nat>,
                          done: set<nat>, cur: nat, e: Edge) {
    && cur < |nodes| == |words| == |up| && 0 < e.p < |nodes|
    && IsTrie(nodes, words, up) && [] in words && DictOk(words, dict)
    && words[cur] != [] && LinksRight(nodes, words, |words[cur]|)
    && (forall m :: 0 < m < |nodes| && |words[m]| <= |words[cur]| ==> MatchesRight(nodes, words, dict, m) && m != e.p)
    && words[e.p] == words[cur] + [e.c]
    && MatchesOwn(nodes, words, dict, e.p)
  }

  /** Only node `m` has changed, and it is now final. */
  ghost predicate Finished(before: seq<Node>, after: seq<Node>, words: seq<Str>, dict: map<Str, nat>, m: nat) {
    && m < |before| == |words| && [] in words && words[m] != []
    && SameShape(before, after)
    && after == before[m := after[m]]
    && FailsRight(after, words, m)
    && MatchesRight(after, words, dict, m)
  }

  /** Breadth-first order makes the next edge ready to be handled. */
  lemma NextEdgeCanLink(nodes: seq<Node>, words: seq<Str>, up: seq<nat>, dict: map<Str, nat>,
                        q: seq<nat>, done: set<nat>, cur: nat, k: nat)
    requires Frontier(nodes, words, up, dict, q, done, cur, k) && k < |nodes[cur].edgelist| && cur in done
    ensures CanLink(nodes, words, up, dict, done, cur, nodes[cur].edgelist[k])
    ensures nodes[cur].edgelist[k].p !in done
  {
    EdgeTargetIsNew(nodes, words, up, q, done, cur, k);
    ShallowLinksRight(nodes, words, up, dict, q, done, cur, k);
  }

  lemma ShallowLinksRight(nodes: seq<Node>, words: seq<Str>, up: seq<nat>, dict: map<Str, nat>,
                          q: seq<nat>, done: set<nat>, cur: nat, k: nat)
    requires Frontier(nodes, words, up, dict, q, done, cur, k)
    ensures LinksRight(nodes, words, |words[cur]|)
    ensures forall m :: 0 < m < |nodes| && |words[m]| <= |words[cur]| ==> m in done
  {
    forall m: nat | 0 < m < |nodes| && |words[m]| <= |words[cur]|
      ensures m in done && FailsRight(nodes, words, m)
    {
      ShallowNodesDone(nodes, words, up, dict, q, done, cur, k, m);
    }
  }

  /** What a node lists once it is final; the start node lists nothing. */
  function ListOf(nodes: seq<Node>, n: nat): seq<Pattern>
    requires n < |nodes|
  {
    if nodes[n].matchlist.Matches? then nodes[n].matchlist.list else []
  }

  /** The node reached from the fail node of `cur` is the right fail node for its child, and its
      own list is already final. */
  lemma LinkTarget(nodes: seq<Node>, words: seq<Str>, up: seq<nat>, dict: map<Str, nat>, done: set<nat>,
                   cur: nat, e: Edge, t: nat)
    requires CanLink(nodes, words, up, dict, done, cur, e)
    requires FailsRight(nodes, words, cur) && t < |nodes|
    requires words[t] == LongestSuffix(words, words[nodes[cur].fs.value] + [e.c])
    ensures words[t] == LongestSuffix(words, words[e.p][1..]) && t != e.p
    ensures nodes[e.p].matchlist.Matches? && NoDuplicates(ListOf(nodes, e.p)) && NoDuplicates(ListOf(nodes, t))
    ensures ListsSuffixes(ListOf(nodes, t), dict, words[t])
  {
    LinkWord(nodes, words, up, cur, e.c, words[e.p]);
    assert MatchesOwn(nodes, words, dict, e.p);
    if t == 0 {
      RootListsNothing(words, dict);
    } else {
      assert MatchesRight(nodes, words, dict, t);
    }
  }

  lemma RootListsNothing(words: seq<Str>, dict: map<Str, nat>)
    requires DictOk(words, dict)
    ensures ListsSuffixes([], dict, [])
  {
  }

  lemma LinkWord(nodes: seq<Node>, words: seq<Str>, up: seq<nat>, cur: nat, c: Byte, w: Str)
    requires IsTrie(nodes, words, up) && [] in words && cur < |nodes| && words[cur] != []
    requires FailsRight(nodes, words, cur) && w == words[cur] + [c]
    ensures LongestSuffix(words, words[nodes[cur].fs.value] + [c]) == LongestSuffix(words, w[1..])
    ensures |LongestSuffix(words, w[1..])| <= |words[cur]|
    ensures words[0] == [] && nodes[0].matchlist.RootTag?
  {
    TrieIsPrefixClosed(nodes, words, up);
    assert w[1..] == words[cur][1..] + [c];
    ForgetPrefix(words, words[cur][1..], c);
  }

  /** With its link set and the fail node's list merged in, the target of `e` is final. */
  lemma MergeFinishes(nodes: seq<Node>, nodes': seq<Node>, words: seq<Str>, up: seq<nat>, dict: map<Str, nat>,
                      done: set<nat>, cur: nat, e: Edge, t: nat)
    requires CanLink(nodes, words, up, dict, done, cur, e)
    requires t < |nodes| == |nodes'| && words[t] == LongestSuffix(words, words[e.p][1..])
    requires ListsSuffixes(ListOf(nodes, t), dict, words[t])
    requires nodes'[e.p].matchlist.Matches?
    requires nodes' == nodes[e.p := nodes[e.p].(fs := Some(t), matchlist := nodes'[e.p].matchlist)]
    requires Merged(nodes'[e.p].matchlist.list, ListOf(nodes, e.p), ListOf(nodes, t))
    ensures Finished(nodes, nodes', words, dict, e.p)
  {
    assert MatchesOwn(nodes, words, dict, e.p);
    assert words[e.p] != [];
    MergedListRight(ListOf(nodes, e.p), ListOf(nodes, t), nodes'[e.p].matchlist.list, words, dict, words[e.p]);
  }

  lemma EdgeInRange(nodes: seq<Node>, words: seq<Str>, up: seq<nat>, dict: map<Str, nat>,
                    q: seq<nat>, done: set<nat>, cur: nat, k: nat)
    requires cur < |nodes| && Frontier(nodes, words, up, dict, q, done, cur, k) && k < |nodes[cur].edgelist|
    ensures nodes[cur].edgelist[k].p < |nodes|
  {
    EdgeTargetIsNew(nodes, words, up, q, done, cur, k);
  }

  lemma FirstLevelFinished(nodes: seq<Node>, nodes': seq<Node>, words: seq<Str>, up: seq<nat>, dict: map<Str, nat>,
                           q: seq<nat>, done: set<nat>, k: nat)
    requires 0 < |nodes| && Frontier(nodes, words, up, dict, q, done, 0, k) && k < |nodes[0].edgelist|
    requires var m := nodes[0].edgelist[k].p;
             m < |nodes| && nodes' == nodes[m := nodes[m].(fs := Some(0))]
    ensures Finished(nodes, nodes', words, dict, nodes[0].edgelist[k].p)
  {
    var m := nodes[0].edgelist[k].p;
    EdgeTargetIsNew(nodes, words, up, q, done, 0, k);
    assert MatchesOwn(nodes, words, dict, m);
    FirstLevel(nodes', words, dict, m);
  }

  lemma NowReady(nodes: seq<Node>, words: seq<Str>, up: seq<nat>, dict: map<Str, nat>, done: set<nat>, prev: nat)
    requires prev < |nodes| && Frontier(nodes, words, up, dict, [], done, prev, |nodes[prev].edgelist|)
    ensures IsTrie(nodes, words, up) && [] in words && DictOk(words, dict)
    ensures forall m :: 0 < m < |nodes| ==>
              words[m] != [] && FailsRight(nodes, words, m) && MatchesRight(nodes, words, dict, m)
  {
    forall m: nat | 0 < m < |nodes|
      ensures m in done
    {
      AllNodesDone(nodes, words, up, dict, done, prev, m);
    }
  }

  /** The list of the state reached holds the inserted patterns that end the text read. */
  lemma StateListsSuffixes(nodes: seq<Node>, words: seq<Str>, up: seq<nat>, dict: map<Str, nat>, n: nat, read: Str)
    requires IsTrie(nodes, words, up) && [] in words && DictOk(words, dict)
    requires n < |nodes| && words[n] == LongestSuffix(words, read)
    requires n != 0 ==> MatchesRight(nodes, words, dict, n)
    ensures ListsSuffixes(ListOf(nodes, n), dict, read)
  {
  }

  // ---- growing the trie ----

  function WithNode(nodes: seq<Node>, n: nat, c: Byte): seq<Node>
    requires n < |nodes|
  {
    nodes[n := nodes[n].(edgelist := [Edge(c, |nodes|)] + nodes[n].edgelist)] + [Node(None, [], Matches([]))]
  }

  lemma EdgesGrow(nodes: seq<Node>, words: seq<Str>, up: seq<nat>, n: nat, c: Byte, i: nat)
    requires IsTrie(nodes, words, up) && n < |nodes| && words[n] + [c] !in words && i <= |nodes|
    ensures EdgesOk(WithNode(nodes, n, c), words + [words[n] + [c]], up + [n], i)
  {
    GotoMeaning(nodes, words, up, n, c);
    if i < |nodes| {
      assert EdgesOk(nodes, words, up, i);
      hide IsTrie;
      var es := nodes[i].edgelist;
      assert forall k :: 0 <= k < |es| ==> es[k] == Edge(es[k].c, es[k].p);
    }
  }

  lemma TrieGrows(nodes: seq<Node>, words: seq<Str>, up: seq<nat>, n: nat, c: Byte)
    requires IsTrie(nodes, words, up) && n < |nodes| && words[n] + [c] !in words
    ensures IsTrie(WithNode(nodes, n, c), words + [words[n] + [c]], up + [n])
  {
    var nodes', words', up', m := WithNode(nodes, n, c), words + [words[n] + [c]], up + [n], |nodes|;
    forall i | 0 <= i < |nodes'|
      ensures EdgesOk(nodes', words', up', i)
    {
      EdgesGrow(nodes, words, up, n, c, i);
    }
    forall i | 0 < i < |nodes'|
      ensures LinkedToParent(nodes', words', up', i)
    {
      if i < m {
        assert LinkedToParent(nodes, words, up, i);
      } else {
        assert nodes'[n].edgelist[0] == Edge(c, m);
      }
    }
  }

  /** The known words are the old ones and the first `n` prefixes of `str`. */
  ghost predicate Spelled(before: seq<Str>, words: seq<Str>, str: Str, n: nat)
    requires n <= |str|
  {
    && before <= words
    && (forall i :: 0 <= i <= n ==> str[..i] in words)
    && (forall w :: w in words ==> w in before || w <= str[..n])
  }

  lemma SpelledStep(before: seq<Str>, words: seq<Str>, str: Str, n: nat)
    requires n < |str| && Spelled(before, words, str, n)
    ensures str[..n + 1] == str[..n] + [str[n]]
    ensures str[..n + 1] in words ==> Spelled(before, words, str, n + 1)
    ensures Spelled(before, words + [str[..n + 1]], str, n + 1)
  {
  }

  lemma OwnMatchesGrow(nodes: seq<Node>, words: seq<Str>, dict: map<Str, nat>, n: nat, c: Byte)
    requires n < |nodes| == |words| && words[n] + [c] !in words && DictOk(words, dict)
    requires Pending(nodes, words, dict, {})
    ensures Pending(WithNode(nodes, n, c), words + [words[n] + [c]], dict, {})
  {
  }

  class Automaton {
    var nodes: seq<Node>
    var cmpnum: nat
    ghost var words: seq<Str>
    ghost var up: seq<nat>
    ghost var dict: map<Str, nat>

    /** The state between calls of build_pattern. */
    ghost predicate Built()
      reads `nodes, `words, `up, `dict
    {
      && IsTrie(nodes, words, up)
      && nodes[0].fs == Some(0)
      && DictOk(words, dict)
      && Pending(nodes, words, dict, {})
    }

    /** The state after set_fs. */
    ghost predicate Ready()
      reads `nodes, `words, `up, `dict
    {
      && IsTrie(nodes, words, up)
      && [] in words
      && DictOk(words, dict)
      && forall m :: 0 < m < |nodes| ==>
           words[m] != [] && FailsRight(nodes, words, m) && MatchesRight(nodes, words, dict, m)
    }

    /** The state machine as main initialises it. */
    constructor ()
      ensures Built() && dict == map[] && words == [[]] && cmpnum == 0
    {
      nodes := [Node(Some(0), [], RootTag)];
      words, up, dict, cmpnum := [[]], [0], map[], 0;
    }

    method AcGoto(n: nat, c: Byte) returns (r: Option<nat>)
      requires n < |nodes|
      ensures r == Goto(nodes, n, c)
    {
      var es := nodes[n].edgelist;
      var i := 0;
      while i < |es|
        invariant 0 <= i <= |es|
        invariant FindEdge(es, c) == FindEdge(es[i..], c)
      {
        if es[i].c == c {
          return Some(es[i].p);
        }
        i := i + 1;
      }
      if nodes[n].matchlist.RootTag? {
        return Some(n);
      }
      return None;
    }

    method NoSuchString(n: nat, s: Str) returns (r: bool)
      requires n < |nodes| && nodes[n].matchlist.Matches?
      ensures r <==> forall pat :: pat in nodes[n].matchlist.list ==> pat.s != s
    {
      var list := nodes[n].matchlist.list;
      for i := 0 to |list|
        invariant forall j :: 0 <= j < i ==> list[j].s != s
      {
        if list[i].s == s {
          return false;
        }
      }
      return true;
    }

    /** The body of the while loop of build_pattern that creates a missing node. */
    method AddNode(n: nat, c: Byte) returns (m: nat)
      requires Built() && n < |nodes| && words[n] + [c] !in words
      modifies this`nodes, this`words, this`up
      ensures Built()
      ensures m == old(|nodes|) == |nodes| - 1
      ensures words == old(words) + [old(words)[n] + [c]]
    {
      m := |nodes|;
      TrieGrows(nodes, words, up, n, c);
      OwnMatchesGrow(nodes, words, dict, n, c);
      assert forall s :: s in dict ==> s in words + [words[n] + [c]];
      nodes := nodes[n := nodes[n].(edgelist := [Edge(c, m)] + nodes[n].edgelist)] + [Node(None, [], Matches([]))];
      words, up := words + [words[n] + [c]], up + [n];
    }

    /** The while loop of build_pattern: walk down the trie, creating the nodes that are missing. */
    method WalkOrCreate(str: Str) returns (current: nat)
      requires Built()
      modifies this`nodes, this`words, this`up
      ensures Built() && current < |nodes| && words[current] == str
      ensures Spelled(old(words), words, str, |str|)
    {
      var sp: nat := 0;
      current := 0;
      hide IsTrie, Pending;
      while sp < |str|
        invariant 0 <= sp <= |str| && current < |nodes| == |words| == |up|
        invariant Built()
        invariant words[current] == str[..sp]
        invariant Spelled(old(words), words, str, sp)
      {
        var temp := AcGoto(current, str[sp]);
        GotoMeaning(nodes, words, up, current, str[sp]);
        SpelledStep(old(words), words, str, sp);
        if temp.None? || temp.value == current {
          current := AddNode(current, str[sp]);
        } else {
          current := temp.value;
        }
        sp := sp + 1;
      }
      assert str[..|str|] == str;
    }

    /** build_pattern: inserts a string once; the empty string and a known one change no list. */
    method BuildPattern(addr: nat, str: Str) returns (flag: bool)
      requires Built()
      modifies this`nodes, this`words, this`up, this`dict
      ensures Built()
      ensures flag <==> str != [] && str !in old(dict)
      ensures dict == if flag then old(dict)[str := addr] else old(dict)
      ensures Spelled(old(words), words, str, |str|)
    {
      flag := false;
      var current := WalkOrCreate(str);
      if current != 0 {
        assert LinkedToParent(nodes, words, up, current);
        assert MatchesOwn(nodes, words, dict, current);
        assert str in dict ==> nodes[current].matchlist.list[0].s == str;
        var isNew := NoSuchString(current, str);
        if isNew {
          flag := true;
          AddPattern(current, Pattern(addr, str));
        }
      }
    }

    method AddPattern(n: nat, pat: Pattern)
      requires Built() && 0 < n < |nodes| && pat.s == words[n] && pat.s !in dict
      modifies this`nodes, this`dict
      ensures Built() && dict == old(dict)[pat.s := pat.addr]
    {
      ghost var before := nodes;
      assert MatchesOwn(nodes, words, dict, n);
      nodes := nodes[n := nodes[n].(matchlist := Matches([pat] + nodes[n].matchlist.list))];
      dict := dict[pat.s := pat.addr];
      TrieIgnoresLinks(before, nodes, words, up);
      assert LinkedToParent(nodes, words, up, n);
      assert words[n] in words;
      forall m | 0 < m < |nodes|
        ensures MatchesOwn(nodes, words, dict, m)
      {
        assert MatchesOwn(before, words, old(dict), m);
      }
    }

    /** merge_matchlist: the patterns of `source` the target does not have yet are put in front. */
    method MergeMatchlist(target: nat, source: nat)
      requires target < |nodes| && source < |nodes| && target != source
      requires nodes[target].matchlist.Matches?
      requires NoDuplicates(ListOf(nodes, target)) && NoDuplicates(ListOf(nodes, source))
      modifies this`nodes
      ensures |nodes| == old(|nodes|) && nodes[target].matchlist.Matches?
      ensures nodes == old(nodes)[target := old(nodes)[target].(matchlist := nodes[target].matchlist)]
      ensures Merged(nodes[target].matchlist.list, ListOf(old(nodes), target), ListOf(old(nodes), source))
    {
      assert Merged(ListOf(nodes, target), ListOf(nodes, target), []);
      if nodes[source].matchlist.RootTag? {
        return;
      }
      hide Merged;
      var theirs := nodes[source].matchlist.list;
      ghost var own := nodes[target].matchlist.list;
      var i := 0;
      while i < |theirs|
        invariant 0 <= i <= |theirs|
        invariant |nodes| == old(|nodes|) && nodes[target].matchlist.Matches?
        invariant nodes == old(nodes)[target := old(nodes)[target].(matchlist := nodes[target].matchlist)]
        invariant Merged(nodes[target].matchlist.list, own, theirs[..i])
      {
        var list := nodes[target].matchlist.list;
        var isNew := NoSuchString(target, theirs[i].s);
        MergedStep(list, own, theirs, i);
        if isNew {
          nodes := nodes[target := nodes[target].(matchlist := Matches([theirs[i]] + list))];
        }
        i := i + 1;
      }
      assert theirs[..i] == theirs;
    }

    /** The inner fail loop of set_fs, and the loop of processing: follow fail links until the
        byte `c` has somewhere to go. `steps` counts the calls of ac_goto: one for every known suffix from
        the word of `n` down to the one that is extended. */
    method FailUntilGoto(n: nat, c: Byte) returns (t: nat, steps: nat)
      requires IsTrie(nodes, words, up) && [] in words && n < |nodes| && LinksRight(nodes, words, |words[n]|)
      ensures t < |nodes| && words[t] == LongestSuffix(words, words[n] + [c])
      ensures steps == |Tried(words, words[n], words[t])|
      ensures steps + |words[t]| <= |words[n]| + 2
    {
      hide IsTrie, IsSuffix, AtLeast;
      var state: nat := n;
      var destiny := AcGoto(state, c);
      steps := 1;
      TriedAtFirst(nodes, words, up, n);
      while destiny.None?
        invariant state < |nodes| && destiny == Goto(nodes, state, c)
        invariant IsSuffix(words[state], words[n]) && steps == |AtLeast(words, words[n], |words[state]|)|
        invariant |words[state]| + steps <= |words[n]| + 1
        invariant LongestSuffix(words, words[n] + [c]) == LongestSuffix(words, words[state] + [c])
        decreases |words[state]|
      {
        FailLinkStep(nodes, words, up, state, |words[n]|, c);
        NextTried(words, words[n], words[state]);
        state := nodes[state].fs.value;
        destiny := AcGoto(state, c);
        steps := steps + 1;
      }
      GotoReaches(nodes, words, up, state, c);
      t := destiny.value;
      TriedAtLast(nodes, words, up, n, state, c);
    }

    /** The body of the inner for loop of set_fs, for the edge `e` of `cur` below the first level. */
    method LinkEdgeTarget(cur: nat, e: Edge, ghost done: set<nat>)
      requires CanLink(nodes, words, up, dict, done, cur, e)
      modifies this`nodes
      ensures Finished(old(nodes), nodes, words, dict, e.p)
    {
      hide IsTrie, NoDuplicates, ListsSuffixes, MatchesRight, Merged, Finished, LongestSuffix, Tried, AtLeast, IsSuffix;
      assert FailsRight(nodes, words, cur);
      var f: nat := nodes[cur].fs.value;
      var t, _ := FailUntilGoto(f, e.c);
      LinkTarget(nodes, words, up, dict, done, cur, e, t);
      nodes := nodes[e.p := nodes[e.p].(fs := Some(t))];
      MergeMatchlist(e.p, t);
      MergeFinishes(old(nodes), nodes, words, up, dict, done, cur, e, t);
    }

    /** The inner for loop of set_fs: all edges of the node just taken from the queue. */
    method ExpandEdges(cur: nat, q0: seq<nat>, ghost done0: set<nat>) returns (q: seq<nat>, ghost done: set<nat>)
      requires cur < |nodes| && Frontier(nodes, words, up, dict, q0, done0, cur, 0) && cur in done0
      modifies this`nodes
      ensures SameShape(old(nodes), nodes)
      ensures Frontier(nodes, words, up, dict, q, done, cur, |nodes[cur].edgelist|)
      ensures forall n :: Expanded(n, q0, done0) ==> Expanded(n, q, done)
    {
      hide Frontier, CanLink, FailsRight, MatchesRight;
      q, done := q0, done0;
      var es := nodes[cur].edgelist;
      var k := 0;
      while k < |es|
        invariant 0 <= k <= |es| && SameShape(old(nodes), nodes)
        invariant Frontier(nodes, words, up, dict, q, done, cur, k) && cur in done
        invariant forall n :: Expanded(n, q0, done0) ==> Expanded(n, q, done)
      {
        NextEdgeCanLink(nodes, words, up, dict, q, done, cur, k);
        ghost var before := nodes;
        LinkEdgeTarget(cur, es[k], done);
        EdgeHandled(before, nodes, words, up, dict, q, done, cur, k, es[k].p);
        q := q + [es[k].p];
        done := done + {es[k].p};
        k := k + 1;
      }
    }

    /** The first for loop of set_fs. */
    method LinkFirstLevel() returns (q: seq<nat>, ghost done: set<nat>)
      requires Built()
      modifies this`nodes
      ensures SameShape(old(nodes), nodes)
      ensures 0 < |nodes| && Frontier(nodes, words, up, dict, q, done, 0, |nodes[0].edgelist|)
    {
      q, done := [], {};
      var es := nodes[0].edgelist;
      var k := 0;
      assert Frontier(nodes, words, up, dict, q, done, 0, 0) by {
        assert words[0] in words;
      }
      hide Frontier, FailsRight, MatchesRight;
      while k < |es|
        invariant 0 <= k <= |es| && 0 < |nodes| && SameShape(old(nodes), nodes)
        invariant Frontier(nodes, words, up, dict, q, done, 0, k)
      {
        ghost var before := nodes;
        EdgeInRange(nodes, words, up, dict, q, done, 0, k);
        nodes := nodes[es[k].p := nodes[es[k].p].(fs := Some(0))];
        FirstLevelFinished(before, nodes, words, up, dict, q, done, k);
        EdgeHandled(before, nodes, words, up, dict, q, done, 0, k, es[k].p);
        q := q + [es[k].p];
        done := done + {es[k].p};
        k := k + 1;
      }
    }

    /** set_fs: breadth first, every node gets its fail link and its complete match list. */
    method SetFs()
      requires Built()
      modifies this`nodes
      ensures Ready() && SameShape(old(nodes), nodes)
    {
      hide Frontier, Expanded, FailsRight, MatchesRight, IsTrie, DictOk, Pending, SameShape, Built;
      var q, done := LinkFirstLevel();
      ghost var prev: nat := 0;
      ghost var left := set n: nat {:trigger nodes[n]} | 0 < n < |nodes|;
      while q != []
        invariant prev < |nodes| && SameShape(old(nodes), nodes)
        invariant Frontier(nodes, words, up, dict, q, done, prev, |nodes[prev].edgelist|)
        invariant forall n: nat :: 0 < n < |nodes| && !Expanded(n, q, done) ==> n in left
        decreases left
      {
        var cur: nat := q[0];
        NodeDequeued(nodes, words, up, dict, q, done, prev);
        ghost var before := nodes;
        q := q[1..];
        q, done := ExpandEdges(cur, q, done);
        SameShapeTransitive(old(nodes), before, nodes);
        prev := cur;
        left := left - {cur};
      }
      NowReady(nodes, words, up, dict, done, prev);
    }

    lemma LinksReady()
      requires Ready()
      ensures IsTrie(nodes, words, up) && |nodes| == |words| && [] in words
      ensures forall n :: 0 <= n < |nodes| ==> LinksRight(nodes, words, |words[n]|)
    {
    }

    /** What the state reached says about the whole text read. */
    lemma ByteRead(state: nat, c: Byte, read: Str, t: nat, steps: nat)
      requires Ready() && state < |nodes| == |words| && words[state] == LongestSuffix(words, read)
      requires t < |nodes| && words[t] == LongestSuffix(words, words[state] + [c])
      requires steps == |Tried(words, words[state], words[t])|
      ensures words[t] == LongestSuffix(words, read + [c]) && steps == |Tried(words, read, words[t])| >= 1
      ensures ListsSuffixes(ListOf(nodes, t), dict, read + [c])
    {
      TrieIsPrefixClosed(nodes, words, up);
      hide IsTrie, Tried, AtLeast, IsSuffix, ListsSuffixes, PrefixClosed, MatchesRight;
      ForgetPrefix(words, read, c);
      TriedAlike(words, read, words[t]);
      StateListsSuffixes(nodes, words, up, dict, t, read + [c]);
    }

    /** processing: one byte of the text. The new state spells the longest suffix of the text read
        that the trie knows, the list holds exactly the inserted patterns ending here, each once. One
        comparison is counted for every word tried, and they are paid for by two per byte minus the depth
        gained. */
    method Processing(state: nat, c: Byte, ghost read: Str) returns (destiny: nat, result: seq<Pattern>)
      requires Ready() && state < |nodes| && words[state] == LongestSuffix(words, read)
      modifies this`cmpnum
      ensures destiny < |nodes| && words[destiny] == LongestSuffix(words, read + [c])
      ensures ListsSuffixes(result, dict, read + [c])
      ensures cmpnum == old(cmpnum) + |Tried(words, read, words[destiny])| >= old(cmpnum) + 1
      ensures cmpnum + |words[destiny]| <= old(cmpnum) + |words[state]| + 2
    {
      var steps;
      LinksReady();
      hide *;
      destiny, steps := FailUntilGoto(state, c);
      cmpnum := cmpnum + steps;
      ByteRead(state, c, read, destiny, steps);
      if nodes[destiny].matchlist.Matches? {
        return destiny, nodes[destiny].matchlist.list;
      }
      return destiny, [];
    }
  }
}
