# Verified model of the course laboratories

The repository holds four laboratories in C. This project models their algorithmic cores in Dafny and
proves what they are for:

- **lab3, counting patterns in a text.** The Aho-Corasick automaton, the self-ordering hash chains, the
  tournament of list merges, the KMP matcher with its optimised failure table, and the brute-force
  matcher. All three programs give every pattern the number of positions at which it occurs, overlaps
  included.
- **lab2, indexes over byte strings.** The B+ tree of order 8, the crit-bit tree, the AVL tree and the
  4-way radix tree with its `shrink`. Each is a set of strings after any sequence of insertions, and each
  keeps its shape invariant.
- **lab4, the crawler.** The locked queues, whose emptiness test is outside the lock, stepped one access to
  shared memory at a time in every interleaving, and the trie that numbers URLs and records who links to
  them.
- **lab1, UTF-8.** The encoder, the decoder, the validator, the length and the comparison; and exactly which
  accepted strings RFC 3629 forbids.

Linked nodes are records in an arena, a sequence that the methods of a class reassign; a pointer is an
index (`Pointers.Ptr`) or a tagged link (`Tries.Link`). A `void **` into a trie is a `Tries.Place`. Ghost
values beside an arena say what it stands for: the word spelled by a trie node, the bound and the height
of a B+ node, the tree below a pointer, the list behind a queue. Strings are sequences of bytes before the
terminator; `Strings.At` reads position `|s|` as 0 and no further, so the loops over C strings are shown
not to read behind the terminator. There are two exceptions, and both are stated exactly. `search_tree` of
the radix tree reads a byte behind the key when it visits a node with `pos / 4 > |u|`, before it finds the
position too large; the model reads an arbitrary byte there and shows that no answer depends on it. `utf8len`
walks over the terminator when stepping by announced lengths does not land on it.

The counters the programs report (`cmpnum`) are proved exactly, as the size of a set of comparisons, words or
nodes, next to their bounds.

How the files depend on each other:

| part | files |
|---|---|
| shared | `Strings`, `Order` (string_cmp), `Pointers`, `Tries` |
| lab3 | `Kmp`, `Scan`; `SuffixWords`, `AcTrie`, `AcAutomaton`; `Chains`, `Buckets`, `Merging`, `Reduction`, `CountTable`; `Pipeline`, `Matchers` |
| lab2 B+ tree | `BTree`, `BTreeSearch`, `BTreeSize`, `BTreeInsert`, `BTreeSplit`, `BTreeAttach`, `BTreeSpine`, `BTreeHoles`, `BPlusTree` |
| lab2 others | `CritBits`, `CritTrees`, `CritBit`; `AvlTrees`, `Avl`; `RadixDigits`, `RadixTrees`, `RadixGrowth`, `RadixShrink`, `RadixEdges`, `RadixSet` |
| lab4 | `UrlQueue`, `QueueSteps`, `UrlTable`, `UrlTrie`, `Crawler`, `CrawlerProgress`, `CrawlerRuns` |
| lab1 | `Utf8Bits`, `Utf8`, `Utf8Rfc`, `Utf8Valid`, `Utf8Order` |

`dafny verify dfyconfig.toml` checks everything.

## Model

| member | source | states |
|---|---|---|
| Kmp.GetNext | lab3-patmatch/Multikmp/multikmp.c:16-31 | entry v is the largest border of the first v bytes whose next byte differs from byte v, or -1; the loop follows the optimised entries while it writes them |
| Kmp.LongestExtends | lab3-patmatch/Multikmp/multikmp.c:21-24 | after a match the tried border, extended, is the longest border one byte further |
| Kmp.EntryIsNextVal | lab3-patmatch/Multikmp/multikmp.c:24-27 | when the byte behind the longest border agrees, that border's own entry is the right one |
| Kmp.FollowNext | lab3-patmatch/Multikmp/multikmp.c:28-29 | following the optimised entry discards only borders that fail on this byte too |
| Kmp.MismatchSkips | lab3-patmatch/Multikmp/multikmp.c:87-93 | a mismatch moves the candidate start past positions that hold no match only |
| Scan.MatchStep | lab3-patmatch/Multikmp/multikmp.c:84-86 | after a match no earlier start is alive, so the next byte is compared for this start only |
| Scan.DoneAfterMismatch | lab3-patmatch/Multikmp/multikmp.c:87-93 | after a mismatch no byte is ever compared for a start passed over |
| Scan.FallbackCompares | lab3-patmatch/Multikmp/multikmp.c:88 | the start fallen back to is compared at the same byte: its rivals all failed, the nearest on another byte |
| Scan.HitStep | lab3-patmatch/Multikmp/multikmp.c:79-83 | after a match that does not end the text the loop starts afresh one byte further |
| Scan.KmpCount | lab3-patmatch/Multikmp/multikmp.c:75-97 | the count is the number of overlapping occurrences, although the loop rewinds by l2-1 after a hit; cmpnum grows by exactly the number of pairs of a start and a byte such that the start is alive there, no earlier live start agrees on the byte and the nearest one expects another byte; that is at least l1 + hits*(l2-1) and at most 2*l1 + hits*(l2-2), hits being the matches that do not end the text |
| Scan.BruteForceCount | lab3-patmatch/strstr/strstr.c:42-59 | the brute-force loop counts the same occurrences and never reads behind a terminator; cmpnum grows by exactly the number of pairs of a start and a byte up to which the pattern agrees, for the starts up to the first that reaches the end of the text; that is at least l1 and at most l1*(l2+1) |
| Matchers.MultiKmp | lab3-patmatch/Multikmp/multikmp.c:52-103 | every pattern of the list gets its number of occurrences; cmpnum is the sum of the comparisons over the patterns, with the sums of both bounds |
| Matchers.MultiStrstr | lab3-patmatch/strstr/strstr.c:40-66 | the same counts from the brute-force program; cmpnum is the sum of its comparisons, at least l1 per pattern and at most the sum of l1*(l2+1) |
| Matchers.AllPrograms | lab3-patmatch/ac_auto/ac_auto.c:26-86 | run on the same lines and text, the three programs agree: equal counts, and the automaton reports a pattern exactly when its count is positive, with that count |
| Strings.CountIsOccurrences | lab3-patmatch/strstr/strstr.c:45-59 | counting candidate positions one by one gives the cardinality of the set of occurrences |
| SuffixWords.KnownSuffixes | lab3-patmatch/ac_auto/ac_auto.h:138-150 | the known suffixes of a text are the known suffixes of its longest known suffix, which is why fail links suffice |
| SuffixWords.FailStep | lab3-patmatch/ac_auto/ac_auto.h:165-167 | failing from one known word to the next searches the longest known suffix of the extended text |
| AcTrie.GotoMeaning | lab3-patmatch/ac_auto/ac_auto.h:24-35 | ac_goto finds the child spelling the extended word exactly when it exists, and otherwise fails except at the start node |
| AcTrie.MergedListRight | lab3-patmatch/ac_auto/ac_auto.h:139-150 | own pattern plus the fail node's list is exactly the list of inserted suffixes, each once |
| AcAutomaton.Automaton.AcGoto | lab3-patmatch/ac_auto/ac_auto.h:24-35 | the edge loop computes that transition |
| AcAutomaton.Automaton.NoSuchString | lab3-patmatch/ac_auto/ac_auto.h:38-44 | true exactly when no listed pattern has the string |
| AcAutomaton.Automaton.WalkOrCreate | lab3-patmatch/ac_auto/ac_auto.h:53-69 | ends at the node that spells the string; the new words are prefixes of it |
| AcAutomaton.Automaton.BuildPattern | lab3-patmatch/ac_auto/ac_auto.h:49-78 | 1 exactly for a non-empty new string, which is then the only addition to the dictionary |
| AcAutomaton.Automaton.MergeMatchlist | lab3-patmatch/ac_auto/ac_auto.h:139-150 | target keeps its patterns and gains those of the source it lacks, without duplicates |
| AcAutomaton.ShallowNodesDone | lab3-patmatch/ac_auto/ac_auto.h:161-171 | breadth-first order: when a node is expanded, every node no deeper is final |
| AcAutomaton.LinkTarget | lab3-patmatch/ac_auto/ac_auto.h:165-168 | the link found is the node of the longest known proper suffix, already final |
| SuffixWords.NextTried | lab3-patmatch/ac_auto/ac_auto.h:179-182 | the word a fail link leads to is the only known suffix of its length or longer that has not been tried |
| AcAutomaton.Automaton.FailUntilGoto | lab3-patmatch/ac_auto/ac_auto.h:165-167 | the inner loop ends at the longest known suffix of the extended word; it calls ac_goto once for every known suffix of the word it starts from that is at least as long as the one extended |
| AcAutomaton.Automaton.ExpandEdges | lab3-patmatch/ac_auto/ac_auto.h:164-170 | one dequeued node: its children become final and are queued |
| AcAutomaton.Automaton.SetFs | lab3-patmatch/ac_auto/ac_auto.h:153-173 | every node gets the fail link of its longest proper known suffix and the list of all inserted suffixes |
| AcAutomaton.Automaton.Processing | lab3-patmatch/ac_auto/ac_auto.h:175-188 | the state is the longest suffix read that the trie knows, the list is exactly the inserted suffixes; cmpnum grows by exactly the number of known suffixes of the text read that are tried, which depth pays for |
| Chains.RelinkedIsChain | lab3-patmatch/ac_auto/hash.h:57-73 | moving an entry to an earlier place leaves a linked list of the same entries |
| CountTable.Table.Put | lab3-patmatch/ac_auto/hash.h:31-76 | counts one more for the key; 1 exactly for a new key; chains stay duplicate-free and non-increasing |
| Merging.MergePermutes | lab3-patmatch/ac_auto/hash.h:89-101 | the order in which merge takes entries is a permutation of both lists |
| Merging.MergeOrdered | lab3-patmatch/ac_auto/hash.h:89-101 | and is non-increasing if both lists are |
| Merging.TakeFirst | lab3-patmatch/ac_auto/hash.h:89-99 | one round relinks the larger head behind the merged part |
| CountTable.Table.Merge | lab3-patmatch/ac_auto/hash.h:78-103 | two non-increasing lists become one non-increasing list of exactly their entries |
| Reduction.PairMerged | lab3-patmatch/ac_auto/ac_auto.c:73-76 | merging one pair keeps every live list sorted and every entry in exactly one of them |
| Reduction.NextRound | lab3-patmatch/ac_auto/ac_auto.c:71-78 | after a round the live lists sit at multiples of the doubled stride |
| CountTable.Table.FoldBuckets | lab3-patmatch/ac_auto/ac_auto.c:69-78 | for any table length, bucket 0 ends as one sorted list of all entries; a bucket merged away is never read |
| CountTable.Table.Report | lab3-patmatch/ac_auto/ac_auto.c:69-82 | the rows are the keys with their counts, each once, non-increasing |
| Pipeline.LoadPatterns | lab3-patmatch/ac_auto/ac_auto.c:27-37 | the dictionary is the set of non-empty lines, each under its own address; the count is its size; the trie knows exactly the prefixes of the lines |
| Pipeline.CountMatches | lab3-patmatch/ac_auto/ac_auto.c:53-57 | the matches ending at one byte are each counted once |
| Pipeline.MatchText | lab3-patmatch/ac_auto/ac_auto.c:46-62 | after the text every pattern has its occurrences counted; cmpnum is the sum over the bytes of the words tried there, at least one and on average at most two per byte |
| Pipeline.ReportIsCorrect | lab3-patmatch/ac_auto/ac_auto.c:81-82 | pointer keys are sound: each row names its pattern and its occurrences, and no occurring pattern is missing |
| Pipeline.CountPatterns | lab3-patmatch/ac_auto/ac_auto.c:26-86 | end to end: exactly the occurring patterns, each once, with their occurrences, most frequent first; cmpnum is the sum over the bytes of the text of the prefixes of lines tried there, between the text length and twice that |
| Order.StringCmpLoop | lab2-tree/public.h:47-59 | the loop of string_cmp computes the lexicographic comparison without reading behind a terminator |
| Order.TotalOrder | lab2-tree/public.h:47-59 | string_cmp is antisymmetric and 0 only for equal strings |
| Order.LessTransitive | lab2-tree/public.h:47-59 | string_cmp is transitive |
| BTree.MaxAtRoot | lab2-tree/BPlusTree.h:134-139 | no key of any node exceeds the first key of the root |
| BTreeSearch.ChildFits | lab2-tree/BPlusTree.h:56-61 | descending into the child chosen keeps the key within the bounds of the node |
| BTreeSearch.LeafDecides | lab2-tree/BPlusTree.h:46-55 | the leaf a search ends in decides membership for the whole tree |
| BTreeSearch.LeafKeysDescend | lab2-tree/BPlusTree.h:148-152 | the leaf list from data holds its keys in strictly descending order |
| BTreeSearch.LeafKeysComplete | lab2-tree/BPlusTree.h:192-196 | a key is in the leaf list exactly when it is in the tree |
| BPlusTree.BPlus.Search | lab2-tree/BPlusTree.h:30-35 | the number of keys not below the string |
| BPlusTree.BPlus.SearchTree | lab2-tree/BPlusTree.h:37-118 | the tag is 1 exactly for a stored key, with its leaf slot; otherwise the place where it belongs; the nodes visited are one per level, each the child below the smallest key not below the string, and cmpnum grows by 1 for each and for each key in it not below the string; at most 9 per level, and a tree with its root at level h > 0 holds at least 2*4^h keys |
| BTreeSize.LayerSize | lab2-tree/BPlusTree.h:142-170 | the nodes of one layer: at least two below the root, and four times as many with each layer further down |
| BTreeSize.KeysAtLeast | lab2-tree/BPlusTree.h:142-199 | so the leaf list of a tree with its root at level h > 0 holds at least 2*4^h keys |
| BPlusTree.BPlus.ShiftIn | lab2-tree/BPlusTree.h:124-131 | opens one slot in both arrays and fills it, changing nothing else |
| BPlusTree.BPlus.RaiseAncestors | lab2-tree/BPlusTree.h:133-139 | a new largest key replaces the old one in exactly the ancestors that held it |
| BPlusTree.BPlus.Insert | lab2-tree/BPlusTree.h:120-140 | slot and upward correction together |
| BTreeInsert.LeafInserted | lab2-tree/BPlusTree.h:120-140 | inserting in a leaf keeps the whole shape, up to one key too many there |
| BTreeInsert.LeafInsertionKeys | lab2-tree/BPlusTree.h:124-131 | and adds exactly that key |
| BTreeInsert.LeafInsertionLeaves | lab2-tree/BPlusTree.h:124-139 | and keeps the leaf list |
| BTreeSpine.ParentOfLargest | lab2-tree/BPlusTree.h:134-138 | the parent of a node with the largest key holds it first, so Search answers 1 |
| BPlusTree.BPlus.Split | lab2-tree/BPlusTree.h:142-170 | the upper slots go to a new node, the moved children learn their parent, the leaf list runs through both halves |
| BTreeSplit.NodeSplit | lab2-tree/BPlusTree.h:142-170 | a split keeps the whole shape, the right half not yet being in the parent |
| BTreeSplit.SplitKeepsKeys | lab2-tree/BPlusTree.h:155-161 | a split loses and invents no key |
| BTreeSplit.SplitKeepsLeaves | lab2-tree/BPlusTree.h:148-152 | the new leaf follows the split one in the leaf list |
| BTreeAttach.SiblingAttached | lab2-tree/BPlusTree.h:211-227 | entering the right half where Search puts its key completes the tree, up to one key too many in the parent |
| BTreeAttach.AttachKeepsLeaves | lab2-tree/BPlusTree.h:211-227 | and changes neither the leaf list nor the stored keys |
| BPlusTree.BPlus.InsertInto | lab2-tree/BPlusTree.h:211-213 | one round of the climbing loop |
| BPlusTree.BPlus.SplitFull | lab2-tree/BPlusTree.h:217-220 | the split of the climbing loop, with the key that goes up |
| BPlusTree.BPlus.NewRoot | lab2-tree/BPlusTree.h:172-199 | the first key makes a single leaf; a split root gets a root above its halves; the tree is complete |
| BTreeAttach.RootGrown | lab2-tree/BPlusTree.h:185-191 | under a new root all leaves are still at one depth |
| BPlusTree.BPlus.InsertBTree | lab2-tree/BPlusTree.h:201-232 | the climbing loop ends with a well-formed tree that has exactly one more key |
| BPlusTree.BPlus.InsertKey | lab2-tree/BPlusTree.h:234-244 | 1 exactly for a new key; shape, fill limits, parent pointers, separator keys and leaf list are kept |
| CritBits.DifferenceMask | lab2-tree/PATRICA.h:69-89 | the mask isolates the highest differing bit, and the two bytes lie on different sides of it |
| CritBits.SidesOrderStrings | lab2-tree/PATRICA.h:35-36 | strings on sides 0 and 1 of a critical bit are in string_cmp order |
| CritTrees.WalkDecides | lab2-tree/PATRICA.h:28-39 | the walk ends at the string itself exactly when it is stored |
| CritTrees.WalkStep | lab2-tree/PATRICA.h:28-38 | each step tests a later bit, within the string the walk ends at |
| CritTrees.PassedNode | lab2-tree/PATRICA.h:101-116 | a node passed on the way down is decided before the new critical bit |
| CritTrees.GrownIsGood | lab2-tree/PATRICA.h:101-118 | splicing a node in at the critical bit keeps bits ascending, agreement before each bit, and sides |
| CritTrees.GrownStores | lab2-tree/PATRICA.h:95-118 | and adds exactly the new string |
| CritTrees.InOrderAscends | lab2-tree/PATRICA.h:81-118 | the left-to-right traversal is strictly ascending and lists the set |
| CritTrees.NodesAndStrings | lab2-tree/PATRICA.h:90-98 | one node fewer than strings |
| CritBit.StringSet.Walk | lab2-tree/PATRICA.h:28-38 | the walk ends at a stored string, visits exactly the nodes above it and tests no bit twice |
| CritBit.StringSet.Contains | lab2-tree/PATRICA.h:21-40 | true exactly for inserted strings; cmpnum grows by the number of nodes above the string the walk ends at, the string itself on a hit; at most 8 tests per byte of that string and its terminator |
| CritBit.StringSet.FirstDifference | lab2-tree/PATRICA.h:69-82 | the first differing byte, the terminators included, or equality |
| CritBit.StringSet.FindPlace | lab2-tree/PATRICA.h:101-116 | ends where the new node keeps the bits ascending |
| CritBit.StringSet.Splice | lab2-tree/PATRICA.h:90-118 | stores the new node in the pointer found |
| CritBit.StringSet.Insert | lab2-tree/PATRICA.h:43-120 | 1 exactly if the string was there, else 2 and the set has one more element |
| CritBit.StringSet.Load | lab2-tree/PATRICA.c:12-15 | any sequence of insertions yields the set of its strings, counted once each, with one node fewer |
| CritBit.StringSet.Traversal | lab2-tree/PATRICA.h:81-118 | traversal of the arena's tree is the set in ascending order |
| AvlTrees.RotLKeeps | lab2-tree/AVL.h:18-25 | a left rotation keeps keys, order and nodes |
| AvlTrees.RotRKeeps | lab2-tree/AVL.h:27-34 | a right rotation keeps keys, order and nodes |
| AvlTrees.LeftSingleBalanced | lab2-tree/AVL.h:43-46 | the single case: heights and factors right, height restored |
| AvlTrees.LeftDoubleBalanced | lab2-tree/AVL.h:47-66 | the double case with its three settings of factors |
| AvlTrees.RightSingleBalanced | lab2-tree/AVL.h:77-80 | the mirrored single case |
| AvlTrees.RightDoubleBalanced | lab2-tree/AVL.h:82-101 | the mirrored double case |
| AvlTrees.SizeBound | lab2-tree/AVL.h:105-162 | a balanced tree of height h holds at least Fib(h+2)-1 keys |
| Avl.AvlTree.LRotate | lab2-tree/AVL.h:18-25 | the pointer writes perform that rotation and touch no other node |
| Avl.AvlTree.RRotate | lab2-tree/AVL.h:27-34 | the same for the right rotation |
| Avl.AvlTree.LeftBalance | lab2-tree/AVL.h:36-68 | a left side too high by one becomes a balanced tree of that side's height with the same keys |
| Avl.AvlTree.RightBalance | lab2-tree/AVL.h:70-103 | mirrored |
| Avl.AvlTree.InsertAVL | lab2-tree/AVL.h:105-162 | 0 and nothing changed for a known key; else key added, order and balance factors right, taller exactly when the height grew by one |
| Avl.AvlTree.SearchAVL | lab2-tree/AVL.h:164-172 | finds a node with the word exactly if it is stored; the nodes visited are the way from the root to it or to the null pointer in its place, so a word found costs its depth plus one; at most height + 1 |
| Avl.AvlTree.Insert | lab2-tree/AVL.h:105-162 | one insertion into the whole tree: 1 exactly for a new key, which is the only one added |
| Avl.AvlTree.Load | lab2-tree/AVL.c:13-17 | any sequence of insertions yields a balanced tree with exactly its keys |
| Avl.AvlTree.Search | lab2-tree/AVL.h:164-172 | the same for the whole tree: the search cost exactly, and against the number of keys |
| RadixDigits.AgreeIsPrefix | lab2-tree/RadixTree.h:38-39 | equal base-4 digits are equal bytes |
| RadixTrees.SearchStep | lab2-tree/RadixTree.h:38-69 | what a node allows the search to conclude, skipped digits included |
| RadixTrees.LastDigit | lab2-tree/RadixTree.h:44-65 | at the last digit any string on that side may be compared instead |
| RadixGrowth.GrownIsGood | lab2-tree/RadixTree.h:98-130 | inserting digit by digit keeps the tree in order and adds exactly the key, even when a stored string is replaced by a node |
| RadixSet.KeySet.NewChild | lab2-tree/RadixTree.h:100-113 | a null pointer or a string on the path is replaced by a node |
| RadixSet.KeySet.OldChild | lab2-tree/RadixTree.h:114-128 | a node on the path; at the last digit its mask decides |
| RadixSet.KeySet.Insert | lab2-tree/RadixTree.h:75-131 | for a non-empty key: 0 exactly if it is there, else 1 and exactly that key is added |
| RadixSet.KeySet.Orphan | lab2-tree/RadixTree.h:133-146 | the only child, or null |
| RadixShrink.ShrinkKeeps | lab2-tree/RadixTree.h:148-163 | shrinking keeps every key and leaves no node that could be left out |
| RadixSet.KeySet.ShrinkAt | lab2-tree/RadixTree.h:148-163 | the recursion through parent pointers performs that shrinking in place |
| RadixSet.KeySet.Shrink | lab2-tree/RadixTree.h:148-163 | the set is the same before and after |
| RadixSet.KeySet.Leftmost | lab2-tree/RadixTree.h:50-58 | the descent ends at a string stored below |
| RadixSet.KeySet.Search | lab2-tree/RadixTree.h:22-71 | for a non-empty key, true exactly if it was inserted, before and after shrinking, whatever is read behind the key; that read happens exactly when the nodes on the way of the key's digits lead to one with pos >= 4*(length+1); for the empty key the root's mask decides |
| RadixEdges.BehindStep | lab2-tree/RadixTree.h:37-41 | what one node contributes to that: its own position, or the way on from its child |
| RadixEdges.FullReadsInside | lab2-tree/RadixTree.h:37-41 | before shrinking no search reads behind the terminator |
| RadixEdges.EmptyKeyAnswer | lab2-tree/RadixTree.h:28-36 | after shrinking, the empty key, which was not inserted, is found exactly when some key begins all keys, its last digit apart |
| RadixEdges.SingleKeyFindsEmpty | lab2-tree/RadixTree.h:28-36 | so it is found in every shrunk tree with a single key |
| RadixSet.KeySet.Load | lab2-tree/RadixTree.c:12-17 | inserting any list of non-empty keys and shrinking yields the set of the list |
| QueueSteps.EnqueueAlone | lab4-crawler/bcrawler.h:43-55 | the steps of enqueue, not interrupted, append the element |
| QueueSteps.DequeueAlone | lab4-crawler/bcrawler.h:57-71 | the steps of dequeue, not interrupted, take the first element; its test fails exactly on an empty queue |
| QueueSteps.TestSound | lab4-crawler/bcrawler.h:60-61 | the unlocked test: a queue that looks non-empty is not empty |
| QueueSteps.StepKeeps | lab4-crawler/bcrawler.h:43-71 | every access to shared memory by every thread keeps the queue invariant: order, mutual exclusion, and no null dereference |
| UrlTable.KnownUrls | lab4-crawler/bcrawler.h:130-185 | exactly the non-empty URLs received are known |
| UrlTable.LinksOf | lab4-crawler/bcrawler.h:158-183 | the links of a URL are exactly the pages it was received from |
| UrlTable.FirstSeenOrder | lab4-crawler/bcrawler.h:150-156 | numbers follow the order of first appearance |
| UrlTrie.Urls.UrlPersistence | lab4-crawler/bcrawler.h:130-185 | 1, 2, ... for new URLs, -1 for empty and known ones, whose duplicate-free list of links gains the linker |
| UrlTrie.Urls.DumpLink | lab4-crawler/bcrawler.h:187-199 | writes every link below a node exactly once, and nothing else |
| Crawler.NextKeeps | lab4-crawler/bcrawler.c:138-157 | every step of every thread keeps the system invariant |
| CrawlerProgress.NobodyStuck | lab4-crawler/bcrawler.h:43-71 | in every state of every run: a thread inside enqueue or dequeue can step when the lock is free or its own, whoever holds a lock is inside, an idle consumer with a non-empty list and a free lock can start, an element in hand can be recorded, and any link may come in |
| Crawler.Safety | lab4-crawler/bcrawler.c:138-157 | in every interleaving both queues are first-in first-out without loss or duplication, no thread pops an empty queue, and the table holds what was received |
| Crawler.SentIsNumbered | lab4-crawler/bcrawler.c:173-177 | between two rounds of recv_thread the elements ever put on send_queue are the seed and the numbered URLs in order, current_id of them |
| CrawlerRuns.RunServes | lab4-crawler/bcrawler.c:138-157 | from every state of a run with recv_thread idle, its lock free and something to take, some continuation records the first element waiting, queues it with the next number exactly if its URL is new, and ends with recv_thread idle |
| CrawlerRuns.RunSends | lab4-crawler/bcrawler.h:57-71 | likewise send_thread can take the first element waiting for it, changing nothing else |
| CrawlerRuns.EveryCrawlHappens | lab4-crawler/bcrawler.c:138-177 | for every seed and every list of links there is a run that records exactly those in order and sends the seed and each new URL once, in the order of the numbers |
| Utf8Bits.MaskTests | lab1-hash/utf8/utf8.h:998-1005 | the mask tests of the code are comparisons with 0x80, 0x800 and 0x10000 |
| Utf8.EncodeWellFormed | lab1-hash/utf8/utf8.h:997-1053 | an encoding has the announced length, passes the tests, decodes to its code point and does not start like a continuation |
| Utf8.WellFormedDecodes | lab1-hash/utf8/utf8.h:890-995 | bytes that pass the tests are the encoding of what utf8codepoint reads |
| Utf8.CodePoint | lab1-hash/utf8/utf8.h:970-995 | the code point read and the position behind it, also where the bytes read include the terminator |
| Utf8.LoneByte | lab1-hash/utf8/utf8.h:989-992 | a byte that starts no code point is read alone, as 2^32 - 256 plus the byte |
| Utf8.ReadValue | lab1-hash/utf8/utf8.h:974-992 | any other first byte announces the length by its range, and the value is made of its low bits and the low six bits of the bytes behind it, whether they are well-formed or not |
| Utf8.CatCodePoint | lab1-hash/utf8/utf8.h:1009-1053 | writes exactly the encoding, or nothing and null if there is not enough room |
| Utf8.EncodedParses | lab1-hash/utf8/utf8.h:970-1053 | decoding what was encoded gives the code points back |
| Utf8.ParsedIsEncoded | lab1-hash/utf8/utf8.h:890-995 | a valid string is the encoding of what is decoded from it |
| Utf8Valid.Check | lab1-hash/utf8/utf8.h:894-957 | one round of utf8valid: the length of a code point exactly if it is well-formed and not followed by a continuation byte that spoils it; otherwise nothing from here on is valid |
| Utf8Valid.Valid | lab1-hash/utf8/utf8.h:890-962 | null exactly for encodings of code point sequences; otherwise the first place where the string goes wrong; nothing behind the terminator is read; a rejected string is not UTF-8 by RFC 3629 either, an accepted one is unless it decodes to a surrogate or beyond 0x10FFFF |
| Utf8Valid.NothingLater | lab1-hash/utf8/utf8.h:894-957 | where a round fails, the string is valid up to no later position, except directly behind a code point that only the next byte spoils |
| Utf8Valid.OneFirstFault | lab1-hash/utf8/utf8.h:890-962 | a string goes wrong first at one place only, so the position returned is determined |
| Utf8Valid.ValidMeansEncoded | lab1-hash/utf8/utf8.h:890-962 | the code point sequence of a valid string is unique |
| Utf8Rfc.CharIsScalar | lab1-hash/utf8/utf8.h:894-957 | the octet grammar of section 4 of RFC 3629 takes a code point exactly when it passes the tests of utf8valid and is a Unicode scalar value |
| Utf8Rfc.RfcIsScalar | lab1-hash/utf8/utf8.h:890-962 | a string is in that grammar exactly when it passes utf8valid and decodes to scalar values only |
| Utf8Rfc.RfcMeansEncoded | lab1-hash/utf8/utf8.h:1009-1053 | the grammar is exactly what utf8catcodepoint writes for sequences of scalar values |
| Utf8Rfc.BeyondRfc | lab1-hash/utf8/utf8.h:894-939 | the two kinds of failing input: an encoded surrogate and an encoded 0x110000 pass utf8valid |
| Utf8.ParsedLands | lab1-hash/utf8/utf8.h:426-451 | a valid string is walked in as many steps as it has code points, ending on the terminator |
| Utf8.Len | lab1-hash/utf8/utf8.h:426-451 | for any string: the walk stays inside exactly when stepping by announced lengths lands on the terminator, and then counts the steps; on a valid string, its code points |
| Utf8Order.EncodedOrder | lab1-hash/utf8/utf8.h:312-329 | comparing encodings byte by byte compares the code point sequences |
| Utf8Order.Cmp | lab1-hash/utf8/utf8.h:312-329 | utf8cmp orders valid strings as code point sequences |

## Left out

- Pattern files, text files, result files, timing, progress output and `qsort`: patterns and text are parameters.
- malloc failure, `free`, buffer capacities and memory accounting; an arena only grows. `global_stats.cmpnum` is modelled where a bound on it is stated.
- CountTable.Table.Report: the order of rows with equal counts.
- UrlTrie.Urls.DumpLink: the order in which links are written.
- Overflow of the int counters and of `current_id`.
- The byte layout of the pattern storage in `ac_auto.c`: it is a map from addresses to strings; an address advances only when a line was inserted.
- `APHash` is any function of the string, and the table may have any positive length.
- The end of the text in `ac_auto.c`: the loop ends at a NUL byte, and the text is the bytes before it.
- Empty patterns for KMP and brute force; `build_pattern` rejects the empty string and is modelled so.
- The internal queue of `set_fs` is a sequence; the fail link of an edge target is stored once, after the inner loop.
- `bupt_searchTree` and `SearchB_Tree` differ only in counting and are one method; the second store of `ap` after `Insert` in `InsertB_Tree` repeats what `Insert` stored.
- Deletion: no index of lab2 has it.
- RadixSet.KeySet.Insert: the empty key, which sets the root pointer to 1 or adds 1 to the root's mask, and keys inserted after `shrink`, where `insert` would take the depth for the position.
- RadixSet.KeySet.Load: lists with an empty key in them, for the same reason; a mark set for it in an empty tree would be overwritten by the next key.
- RadixSet.KeySet.Search: the empty key when the root pointer holds the mark 1. New radix nodes are taken to be zeroed, as in `Trie.h`.
- A pointer parameter that is written through (`BBSTree *`, `int *`) is an in- and an out-parameter of the AVL methods.
- The stop condition, sockets, events and PCRE of the crawler: fetching a page puts any URLs on the receive queue. `send_thread_once` is `send_thread`; the model also allows `recv_thread` to run before it, which only adds interleavings.
- The seed URL, which bypasses `url_persistence` and may be found again under a number of its own; the `s` field of a URL pattern, which points into a freed element and is never read.
- Utf8.Len: what the code counts once it has stepped over the terminator.
- Values of 2^21 and above in `utf8catcodepoint`; the rest of `utf8.h`.
- lab1's array, hash-table and Bloom searches, the general hash functions, `Trie.h`, `csapp.c`, `reg.c`.
