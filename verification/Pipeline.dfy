/** ac_auto.c `main` without its file handling: load the patterns, build the automaton, count every
    match of the text in the hash table, fold the buckets and list the result. */
module Pipeline {
  import opened Strings
  import opened SuffixWords
  import opened AcTrie
  import opened AcAutomaton
  import Buckets
  import CountTable

  ghost predicate Injective(dict: map<Str, nat>) {
    forall s, t :: s in dict && t in dict && s != t ==> dict[s] != dict[t]
  }

  /** Every inserted string is found at its address in the pattern storage. */
  ghost predicate Stored(dict: map<Str, nat>, storage: map<nat, Str>) {
    forall s :: s in dict ==> dict[s] in storage && storage[dict[s]] == s
  }

  function StringAt(storage: map<nat, Str>, addr: nat): Str {
    if addr in storage then storage[addr] else []
  }

  /** Different strings stored at their addresses have different addresses. */
  lemma StoredIsInjective(dict: map<Str, nat>, storage: map<nat, Str>)
    requires Stored(dict, storage)
    ensures Injective(dict)
  {
  }

  /** The words a trie of these lines knows: their prefixes. */
  ghost predicate KnowsPrefixes(words: seq<Str>, lines: seq<Str>) {
    forall w :: w in words <==> w == [] || exists l :: l in lines && w <= l
  }

  lemma {:induction false} PrefixesAreKnown(words: seq<Str>, w: Str, l: Str)
    requires PrefixClosed(words) && l in words && w <= l
    ensures w in words
  {
    if w != l {
      assert l[..|l| - 1] in words && w <= l[..|l| - 1];
      PrefixesAreKnown(words, w, l[..|l| - 1]);
    } else {
      assert w in words;
    }
  }

  /** One more line adds its prefixes. */
  lemma LineSpelled(before: seq<Str>, words: seq<Str>, lines: seq<Str>, line: Str)
    requires KnowsPrefixes(before, lines) && Spelled(before, words, line, |line|)
    ensures KnowsPrefixes(words, lines + [line])
  {
    forall w
      ensures w in words <==> w == [] || exists l :: l in lines + [line] && w <= l
    {
      assert line[..|line|] == line;
      if w in words && w !in before {
        assert line in lines + [line];
      }
      if w in before && w != [] {
        var l :| l in lines && w <= l;
        assert l in lines + [line];
      }
      if l :| l in lines + [line] && w <= l {
        if l in lines {
          assert w in before;
        } else {
          assert w == line[..|w|];
        }
      }
    }
  }

  /** The first loop of main. A line that changes nothing is overwritten by the next one, so an
      address once taken keeps its string. */
  method LoadPatterns(lines: seq<Str>) returns (machine: Automaton, storage: map<nat, Str>, count: nat)
    ensures fresh(machine) && machine.Built() && machine.cmpnum == 0
    ensures Stored(machine.dict, storage)
    ensures forall s :: s in machine.dict <==> s in lines && s != []
    ensures KnowsPrefixes(machine.words, lines)
    ensures count == |machine.dict|
  {
    hide Spelled, KnowsPrefixes, IsTrie, DictOk, AcAutomaton.Pending;
    machine := new Automaton();
    storage := map[];
    count := 0;
    var pp: nat := 0;
    NoLines();
    for i := 0 to |lines|
      invariant machine.Built() && fresh(machine) && machine.cmpnum == 0
      invariant Stored(machine.dict, storage) && count == |machine.dict|
      invariant forall s :: s in machine.dict <==> s in lines[..i] && s != []
      invariant forall s :: s in machine.dict ==> machine.dict[s] < pp
      invariant KnowsPrefixes(machine.words, lines[..i])
    {
      var line := lines[i];
      assert lines[..i + 1] == lines[..i] + [line];
      storage := storage[pp := line];
      ghost var words := machine.words;
      var changed := machine.BuildPattern(pp, line);
      LineSpelled(words, machine.words, lines[..i], line);
      if changed {
        pp := pp + |line| + 1;
        count := count + 1;
      }
    }
    assert lines[..|lines|] == lines;
  }

  lemma NoLines()
    ensures KnowsPrefixes([[]], [])
  {
  }

  function Get(counts: map<nat, nat>, addr: nat): nat {
    if addr in counts then counts[addr] else 0
  }

  ghost predicate Listed(list: seq<Pattern>, j: nat, s: Str)
    requires j <= |list|
  {
    exists l :: 0 <= l < j && list[l].s == s
  }

  /** `i` bytes have been counted, and of the matches ending at the next byte the first `j`. */
  ghost predicate Tally(counts: map<nat, nat>, dict: map<Str, nat>, text: Str, i: nat, list: seq<Pattern>, j: nat)
    requires j <= |list|
  {
    && (forall s :: s in dict ==>
          Get(counts, dict[s]) == CountBefore(s, text, i - |s| + 1) + if Listed(list, j, s) then 1 else 0)
    && (forall a :: a in counts ==> exists s :: s in dict && dict[s] == a)
  }

  lemma TallyPut(counts: map<nat, nat>, dict: map<Str, nat>, text: Str, i: nat, list: seq<Pattern>, j: nat)
    requires j < |list| && Injective(dict) && NoDuplicates(list) && Inserted(dict, list[j])
    requires Tally(counts, dict, text, i, list, j)
    ensures var a := list[j].addr; Tally(counts[a := Get(counts, a) + 1], dict, text, i, list, j + 1)
  {
  }

  /** With all matches that end at the next byte counted, the tally has advanced by one byte. */
  lemma TallyByte(counts: map<nat, nat>, dict: map<Str, nat>, text: Str, i: nat, list: seq<Pattern>)
    requires i < |text| && Tally(counts, dict, text, i, list, |list|)
    requires ListsSuffixes(list, dict, text[..i + 1])
    ensures Tally(counts, dict, text, i + 1, [], 0)
  {
    forall s | s in dict
      ensures Get(counts, dict[s]) == CountBefore(s, text, i + 1 - |s| + 1) + 0
    {
      SuffixIsOccurrence(s, text, i + 1);
      var pat := Pattern(dict[s], s);
      assert pat in list <==> IsSuffix(s, text[..i + 1]);
      assert forall l :: 0 <= l < |list| ==> list[l] in list && list[l] == Pattern(dict[list[l].s], list[l].s);
    }
    assert forall s :: !Listed([], 0, s);
  }

  /** The matching loop: every hit of every pattern is counted under the pattern's pointer. */
  method MatchText(machine: Automaton, table: CountTable.Table, text: Str) returns (count: nat)
    requires machine.Ready() && Injective(machine.dict)
    requires table.Valid() && table.counts == map[] && table.cells == [] && machine.cmpnum == 0
    modifies machine`cmpnum, table, table.table
    ensures table.Valid() && count == |table.counts|
    ensures Tally(table.counts, machine.dict, text, |text|, [], 0)
    ensures machine.Ready() && machine.cmpnum == TriedUpTo(machine.words, text, |text|)
    ensures |text| <= machine.cmpnum <= 2 * |text|
  {
    count := 0;
    var state: nat := 0;
    hide *;
    MatchStarts(machine, text);
    var i := 0;
    while i < |text|
      invariant 0 <= i <= |text|
      invariant machine.Ready() && state < |machine.nodes|
      invariant machine.words[state] == LongestSuffix(machine.words, text[..i])
      invariant table.Valid() && count == |table.counts|
      invariant Tally(table.counts, machine.dict, text, i, [], 0)
      invariant machine.cmpnum == TriedUpTo(machine.words, text, i) >= i
      invariant machine.cmpnum + |machine.words[state]| <= 2 * i
    {
      state, count := MatchByte(machine, table, state, count, text, i);
      i := i + 1;
    }
  }

  /** The body of the loop: one byte of the text. */
  method MatchByte(machine: Automaton, table: CountTable.Table, before: nat, counted: nat, text: Str, i: nat)
    returns (state: nat, count: nat)
    requires i < |text| && machine.Ready() && Injective(machine.dict) && before < |machine.nodes|
    requires machine.words[before] == LongestSuffix(machine.words, text[..i])
    requires table.Valid() && counted == |table.counts| && Tally(table.counts, machine.dict, text, i, [], 0)
    modifies machine`cmpnum, table, table.table
    ensures machine.Ready() && state < |machine.nodes|
    ensures machine.words[state] == LongestSuffix(machine.words, text[..i + 1])
    ensures table.Valid() && count == |table.counts| && Tally(table.counts, machine.dict, text, i + 1, [], 0)
    ensures machine.cmpnum - old(machine.cmpnum) ==
            TriedUpTo(machine.words, text, i + 1) - TriedUpTo(machine.words, text, i) >= 1
    ensures machine.cmpnum + |machine.words[state]| <= old(machine.cmpnum) + |machine.words[before]| + 2
  {
    hide *;
    PrefixStep(text, i);
    OneByteTried(machine, text, i);
    var result;
    state, result := machine.Processing(before, text[i], text[..i]);
    count := CountMatches(table, result, counted, machine.dict, text, i);
  }

  lemma OneByteTried(machine: Automaton, text: Str, i: nat)
    requires machine.Ready() && i < |text|
    ensures [] in machine.words
    ensures TriedUpTo(machine.words, text, i + 1) == TriedUpTo(machine.words, text, i) +
            |Tried(machine.words, text[..i], LongestSuffix(machine.words, text[..i + 1]))|
  {
  }

  lemma PrefixStep(text: Str, i: nat)
    requires i < |text|
    ensures text[..i + 1] == text[..i] + [text[i]]
  {
  }

  lemma MatchStarts(machine: Automaton, text: Str)
    requires machine.Ready()
    ensures 0 < |machine.nodes| && 0 < |machine.words| && machine.words[0] == []
    ensures [] in machine.words && machine.words[0] == LongestSuffix(machine.words, text[..0])
    ensures Tally(map[], machine.dict, text, 0, [], 0) && TriedUpTo(machine.words, text, 0) == 0
  {
  }

  /** The inner while loop over the match list of the state reached. */
  method CountMatches(table: CountTable.Table, result: seq<Pattern>, before: nat, ghost dict: map<Str, nat>,
                      ghost text: Str, ghost i: nat)
    returns (count: nat)
    requires table.Valid() && before == |table.counts| && i < |text|
    requires Injective(dict) && ListsSuffixes(result, dict, text[..i + 1]) && Tally(table.counts, dict, text, i, [], 0)
    modifies table, table.table
    ensures table.Valid() && count == |table.counts|
    ensures Tally(table.counts, dict, text, i + 1, [], 0)
  {
    hide ListsSuffixes, NoDuplicates, Inserted, Injective, Tally, Buckets.TableOk;
    count := before;
    TallyOpens(table.counts, dict, text, i, result);
    var j := 0;
    while j < |result|
      invariant 0 <= j <= |result| && table.Valid() && count == |table.counts|
      invariant Tally(table.counts, dict, text, i, result, j)
    {
      ListEntry(result, dict, text[..i + 1], j);
      TallyPut(table.counts, dict, text, i, result, j);
      var isNew := table.Put(result[j].addr);
      if isNew {
        count := count + 1;
      }
      j := j + 1;
    }
    TallyByte(table.counts, dict, text, i, result);
  }

  lemma TallyOpens(counts: map<nat, nat>, dict: map<Str, nat>, text: Str, i: nat, list: seq<Pattern>)
    requires Tally(counts, dict, text, i, [], 0)
    ensures Tally(counts, dict, text, i, list, 0)
  {
  }

  lemma ListEntry(list: seq<Pattern>, dict: map<Str, nat>, w: Str, j: nat)
    requires ListsSuffixes(list, dict, w) && j < |list|
    ensures NoDuplicates(list) && Inserted(dict, list[j])
  {
  }

  /** What the result file must say about the patterns of `lines` and the text. */
  ghost predicate CorrectReport(report: seq<(Str, nat)>, lines: seq<Str>, text: Str) {
    && (forall i, j :: 0 <= i < j < |report| ==> report[i].1 >= report[j].1 && report[i].0 != report[j].0)
    && (forall i :: 0 <= i < |report| ==>
          report[i].0 in lines && report[i].0 != [] && report[i].1 == Occurrences(report[i].0, text) > 0)
    && (forall p :: p in lines && p != [] && Occurrences(p, text) > 0 ==> (p, Occurrences(p, text)) in report)
  }

  /** After the whole text, the count under a pattern's pointer is its number of occurrences. */
  lemma TallyIsOccurrences(counts: map<nat, nat>, dict: map<Str, nat>, text: Str, s: Str)
    requires Tally(counts, dict, text, |text|, [], 0) && s in dict && s != []
    ensures Get(counts, dict[s]) == Occurrences(s, text)
  {
    assert !Listed([], 0, s);
    CountIsOccurrences(s, text, |text| - |s| + 1);
  }

  lemma ReportIsCorrect(rows: seq<(nat, nat)>, report: seq<(Str, nat)>, counts: map<nat, nat>, dict: map<Str, nat>,
                        storage: map<nat, Str>, lines: seq<Str>, text: Str)
    requires CountTable.SortedReport(rows, counts)
    requires Stored(dict, storage) && (forall s :: s in dict <==> s in lines && s != [])
    requires Tally(counts, dict, text, |text|, [], 0)
    requires |report| == |rows|
    requires forall i :: 0 <= i < |rows| ==> report[i] == (StringAt(storage, rows[i].0), rows[i].1)
    ensures CorrectReport(report, lines, text)
  {
    forall i | 0 <= i < |report|
      ensures report[i].0 in dict && dict[report[i].0] == rows[i].0 && report[i].1 == Occurrences(report[i].0, text) > 0
    {
      assert rows[i].0 in counts;
      var s :| s in dict && dict[s] == rows[i].0;
      TallyIsOccurrences(counts, dict, text, s);
    }
    forall p | p in lines && p != [] && Occurrences(p, text) > 0
      ensures (p, Occurrences(p, text)) in report
    {
      TallyIsOccurrences(counts, dict, text, p);
      var i :| 0 <= i < |rows| && rows[i] == (dict[p], counts[dict[p]]);
      assert report[i] == (p, Occurrences(p, text));
    }
  }

  lemma EmptyIsKnown(lines: seq<Str>)
    ensures forall words :: KnowsPrefixes(words, lines) ==> [] in words
  {
  }

  /** The whole program: for any pattern lines, text, hash function and table length, the result
      lists exactly the patterns that occur, each once, with the number of its occurrences,
      most frequent first. The comparisons are those of the words tried at every byte, `known` being the
      prefixes of the lines: at least one and on average at most two for each byte of the text. */
  method CountPatterns(lines: seq<Str>, text: Str, hash: Str -> nat, length: nat)
    returns (report: seq<(Str, nat)>, count: nat, cmpnum: nat, ghost known: seq<Str>)
    requires 0 < length
    ensures CorrectReport(report, lines, text)
    ensures count == |report|
    ensures KnowsPrefixes(known, lines) && [] in known && cmpnum == TriedUpTo(known, text, |text|)
    ensures |text| <= cmpnum <= 2 * |text|
  {
    EmptyIsKnown(lines);
    hide *;
    var machine, storage, _ := LoadPatterns(lines);
    machine.SetFs();
    known := machine.words;
    StoredIsInjective(machine.dict, storage);
    var table := new CountTable.Table(length, a => hash(StringAt(storage, a)) % length);
    count := MatchText(machine, table, text);
    cmpnum := machine.cmpnum;
    ghost var counts := table.counts;
    var rows := table.Report();
    CountTable.ReportSize(rows, counts);
    report := seq(|rows|, i requires 0 <= i < |rows| => (StringAt(storage, rows[i].0), rows[i].1));
    ReportIsCorrect(rows, report, counts, machine.dict, storage, lines, text);
  }
}
