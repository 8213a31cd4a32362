# Word trie, keyword index, friend graph and polynomials in Dafny

This project models four components of a Java data-structures repository
and proves properties of them.

- **Compressed trie** (`Trie.java`). Words are inserted in order into a
  first-child / next-sibling tree. Each edge label is an index range
  `(wordIndex, startIndex, endIndex)` into the word array, not a copy of the
  characters. `completionList` answers with the leaves whose words start
  with a prefix. The Java object graph becomes an arena: a `seq<TrieNode>`
  field of the class `Trie.Trie`, with child and sibling links held as
  indices. Insertion rewires that arena in place. The ghost `Chain` tree
  (module `TrieShape`) states the invariants:
  - labels are ranges of stored words;
  - siblings start with distinct characters;
  - every root-to-leaf path spells its word;
  - there is exactly one leaf per inserted word.
- **Keyword index** (`LittleSearchEngine.java`), in class
  `SearchEngine.LittleSearchEngine` and module `SearchEngine`:
  - keyword extraction;
  - the binary-search insertion that keeps an occurrence list descending by
    frequency;
  - folding one document's keywords into the master index;
  - the "kw1 or kw2" top-five search.
- **Friend graph** (`Friends.java`), in modules `Friends`, `FriendGraph`,
  `SchoolGroups` and `DepthFirst`. The graph is `members`, an adjacency
  `seq<seq<nat>>` and a name index. Three searches are modelled:
  - the breadth-first shortest chain with a parent array;
  - the cliques of a school, which are its same-school connected components;
  - the connectors (articulation points) found by the recursive depth-first
    search over the `dfsnum`, `back`, `origin` and `connector` arrays, which
    stay `array<int>` and are updated in place.
- **Polynomials** (`Polynomial.java`), in module `Polynomial`. A linked list
  of terms is the sequence of its terms, ascending in degree from the front:
  - `add` is an ordered merge that drops cancelled degrees;
  - `multiply` is a loop that adds one term's products at a time.

## Model

| member | source | states |
|---|---|---|
| Trie.MakeCode | Trie.java:32-40 | the label built for a suffix of word i is the range of word i that spells exactly that suffix |
| Trie.Trie.BuildTrie | Trie.java:24-30 | after inserting all words in order the trie invariant holds over all of them: every label is a range of a stored word, sibling labels start with distinct characters, and there is exactly one leaf per word, whose path spells it |
| Trie.Trie.InsertNext | Trie.java:26-28 | one round of the build loop inserts the next word and keeps the trie invariant |
| Trie.InsertKeepsInvariant | Trie.java:26-28 | inserting word i below the root of a valid trie over i words gives a valid trie over i + 1 words |
| Trie.Trie.SearchTrie | Trie.java:42-83 | inserting the rest of word i below node n adds exactly one leaf, for word i; n's children stay a good chain; new nodes are appended; no cell outside n's subtree changes |
| Trie.Trie.SearchSiblings | Trie.java:58-82 | the sibling loop descends into the sibling that continues the word, or splits the one that shares a first part with it, or else appends a leaf; in each case the word is inserted as SearchTrie states |
| Trie.Trie.Descend | Trie.java:46-48 | when a child's label is a prefix of the word, the rest is inserted below that child: the new chain is the old one with only that child's subtree replaced, and the word is inserted |
| Trie.Trie.SplitChild | Trie.java:50-56 | when a child shares k >= 1 but not all of its characters with the word, the child keeps those k characters; a new node below it takes the rest of its label and its children; a new leaf for the rest of the word follows that node; the new arena is exactly SplitNodes of the old one, the new chain is the old one with only that child replaced, and the word is inserted |
| Trie.SplitNodes | Trie.java:50-56 | the arena after a split: the two new nodes are appended, the split node keeps the first k characters and points to the tail, and every other node is unchanged |
| Trie.Trie.AppendSibling | Trie.java:79-81 | when no sibling starts with the word's first character, a leaf for the whole remaining word is appended after the last sibling: the new arena is exactly AppendNodes of the old one, the new chain is the old one with that leaf added last, and the word is inserted |
| Trie.AppendNodes | Trie.java:79-81 | the arena after an append: one new leaf at the end, the last sibling points to it, and every other node is unchanged |
| Trie.FirstChildStep | Trie.java:43-44 | a node without children gets the leaf of the remaining word as its only child, and the word is inserted |
| Trie.DescendStep | Trie.java:46-48 | after the recursive insertion below a child, the parent's chain holds the new word besides its old words |
| Trie.SplitStep | Trie.java:50-56 | a split keeps the old path: the shortened label followed by the tail node's label is the old label, the old children hang under the tail node, and the chain gains exactly the new word |
| Trie.SplitPaths | Trie.java:51-55 | the cut label and the rest of the word differ right after the k shared characters, so the new leaf and the tail node start with different characters |
| Trie.AppendStep | Trie.java:79-81 | a leaf whose first character no sibling has, appended after the last sibling, adds exactly its word to the chain |
| Trie.Trie.WordTrie | Trie.java:120-125 | the characters of a node's label are the characters startIndex..endIndex of the word it points into |
| Trie.Trie.PrefixOf | Trie.java:92-103 | true iff the node's label is a prefix of the word; a word that ends inside the label is excluded, because the loop would read past its end |
| Trie.Trie.PPrefixOf | Trie.java:104-119 | 2 iff the word is a prefix of the label, 1 iff the label is a proper prefix of the word, 0 iff they differ before either ends |
| Trie.Trie.Common | Trie.java:85-91 | the length of the longest common prefix of label and word: they agree before it and differ at it |
| Trie.Trie.PrintAll | Trie.java:156-170 | the result is the list given followed by the leaves below the node, left to right |
| Trie.Trie.LeavesBelow | Trie.java:156-170 | the leaves below a node are leaves of the arena, each listed once, and their words are exactly the words below the node |
| Trie.Trie.FindNode | Trie.java:172-200 | corrected: an empty prefix gives the node itself; otherwise None iff no word below starts with the prefix, and else a node below which lie exactly the words that start with it |
| Trie.Trie.FindNodeAsWritten | Trie.java:172-200 | as written: correct whenever some word starts with the prefix; when none does, the walk ends at the deepest node whose path the prefix continues, and none of that node's children continues it; the answer is None exactly when that node has no children, and otherwise that node, below which lie the words that start with its path |
| Trie.Trie.ChildStep | Trie.java:188-197 | one comparison with a child: if the prefix lies inside its label, its words are the matches; if the label is a proper prefix, the matches are those below it; if they differ, the matches lie in the later siblings |
| Trie.Trie.CompletionList | Trie.java:145-154 | corrected: None iff the prefix is non-empty and no word starts with it; otherwise the leaves of exactly the words that start with it, each once (the root alone for an empty trie) |
| Trie.Trie.StuckView | Trie.java:176-177 | where the walk as written stops short of an unmatched prefix: the node has no children iff every word that starts with its path ends there; the words that continue that path with the next character share a stem that the prefix leaves |
| Trie.Trie.CompletionListAsWritten | Trie.java:145-154 | as written: the correct leaves whenever some word starts with the prefix; for an unmatched prefix, the leaves of the words that start with a proper prefix q of it, and null only when every such word ends at q |
| Trie.ExampleMatches | Trie.java:130-134 | for bear, bull, stock, bell: "b" is matched by bear, bull and bell, "be" by bear and bell, "bell" by bell, and "bz" and "bex" by none |
| Trie.ExampleStuckAtB | Trie.java:188-198 | on "bz" the walk as written stops at the node spelling "b" |
| Trie.ExampleStuckAtBe | Trie.java:188-198 | on "bex" the walk as written stops at the node spelling "be" |
| Trie.CompletionExamples | Trie.java:127-143 | the documented example gives bear, bull, bell for "b", bear, bell for "be" and bell for "bell", and the corrected list gives null for "bz"; the code as written answers "bz" with bear, bull, bell and "bex" with bear, bell |
| TrieShape.LeafPathsAreWords | Trie.java:16-30 | in a good chain every root-to-leaf path of labels spells the leaf's word |
| TrieShape.SiblingHeadsDistinct | Trie.java:46-81 | two different siblings of a good chain start with different characters |
| TrieShape.GoodLabelsInRange | Trie.java:39 | every label of a good chain is a non-empty range 0 <= startIndex <= endIndex < length of one stored word |
| TrieShape.LeavesInArena | Trie.java:156-170 | the leaves of a chain are arena cells with no child, and each carries the label of its word |
| TrieShape.LeavesDistinct | Trie.java:156-170 | no leaf is listed twice |
| Ascii.Lower | LittleSearchEngine.java:112 | the word in lower case, character by character: an upper-case ASCII letter is mapped to the code point 32 higher ('A'..'Z' to 'a'..'z') and nothing else changes |
| Ascii.LowerIdempotent | LittleSearchEngine.java:112 | lowering twice is lowering once |
| SearchEngine.LetterRun | LittleSearchEngine.java:114-128 | the length of the run of letters at the front of the word: letters before it and a non-letter at it |
| SearchEngine.LittleSearchEngine.GetKeyword | LittleSearchEngine.java:111-135 | the scan that deletes punctuation in place computes KeywordOf of the word and the noise words |
| SearchEngine.KeywordOfSpec | LittleSearchEngine.java:111-135 | independently of the scan: a keyword exists iff the lowered word holds only letters and the six punctuation characters, no letter follows punctuation, and its letters are neither empty nor a noise word; the keyword is those letters |
| SearchEngine.KeywordShape | LittleSearchEngine.java:129-134 | a keyword is non-empty, all lower-case letters, not a noise word, and a prefix of the lowered word |
| SearchEngine.KeywordStripsPunctuation | LittleSearchEngine.java:102-103 | "Word?!?!" yields "word" |
| SearchEngine.KeywordRejectsOtherCharacters | LittleSearchEngine.java:124-125 | an apostrophe or a digit gives no keyword |
| SearchEngine.KeywordRejectsLetterAfterPunctuation | LittleSearchEngine.java:115-116 | a letter after punctuation gives no keyword |
| SearchEngine.KeywordRejectsEmptyAndNoise | LittleSearchEngine.java:129-131 | punctuation alone, and a noise word, give no keyword |
| SearchEngine.Place | LittleSearchEngine.java:162-181 | the place the same search chooses (low once the range is empty, mid on a tie) lies between low and high + 1 |
| SearchEngine.RecursiveInsert | LittleSearchEngine.java:158-185 | fewer than two occurrences: unchanged and null; otherwise the result is exactly list followed by the midpoints (high + low) / 2 the search probes, in order (Probes: left on a less frequent occurrence, right on a more frequent one, stopping on a tie or an empty range), and the last occurrence is moved to exactly the place the search chooses (Place) |
| SearchEngine.InsertLastOccurrence | LittleSearchEngine.java:149-155 | fewer than two occurrences: null and unchanged; otherwise the result is exactly the midpoints probed over 0..n-2 and the occurrence goes to exactly the place chosen; the midpoints lie in [0, n-2], the list keeps its length and its multiset, a tie with the last midpoint inserts there, and a descending prefix makes the whole list descending |
| SearchEngine.ProbedFacts | LittleSearchEngine.java:149-155 | for the search over all of occs: at least one midpoint, all in [0, n-2]; the place lies in [0, n-1]; a tie with the last midpoint places there; a descending prefix stays descending with the occurrence inserted at the place |
| SearchEngine.ProbesInRange | LittleSearchEngine.java:168-174 | the search keeps the list handed in and adds only midpoints of the range it is given, at least one exactly when that range is not empty |
| SearchEngine.ProbesTie | LittleSearchEngine.java:176-180 | when the last midpoint probed ties with the occurrence placed, the place chosen is that midpoint |
| SearchEngine.ProbesExamples | LittleSearchEngine.java:158-185 | frequencies 5, 3, 1 and a new 4 probe 1 then 0 and place at 1; frequencies 3, 3, 3 and a new 3 probe 1 and place there |
| SearchEngine.PlaceSplits | LittleSearchEngine.java:162-181 | when the range searched brackets the right place in a descending prefix, the place chosen has no less frequent occurrence before it and no more frequent one from it on |
| SearchEngine.PlaceSplitsAtTie | LittleSearchEngine.java:176-180 | a tie at mid places there, which splits a descending prefix |
| SearchEngine.PlaceSplitsNarrowed | LittleSearchEngine.java:170-174 | without a tie the search continues in the half that still brackets the place, so the place chosen still splits the prefix |
| SearchEngine.InsertDescending | LittleSearchEngine.java:168-181 | inserting between the more and the less frequent occurrences keeps a descending list descending |
| SearchEngine.InsertMultiset | LittleSearchEngine.java:164-165 | insertion is a permutation: the multiset gains exactly the inserted occurrence |
| SearchEngine.Narrow | LittleSearchEngine.java:170-175 | probing mid keeps the invariant: everything before low is more frequent and everything after high less frequent than the occurrence placed |
| SearchEngine.AppendAndPlace | LittleSearchEngine.java:83-89 | appending an occurrence and placing it gives the old list with that occurrence inserted, still descending |
| SearchEngine.PlacedGains | LittleSearchEngine.java:86-87 | what insertLastOccurrence leaves of a list with x appended is the old list with x inserted at one place, descending when the old list was |
| SearchEngine.LittleSearchEngine.MergeKeywords | LittleSearchEngine.java:74-91 | a new keyword gets a list of just its occurrence, a known one gains exactly one occurrence in descending place, keywords not in the document are untouched, and a valid index stays valid |
| SearchEngine.FoldStep | LittleSearchEngine.java:76-90 | folding one more keyword keeps the index folded from the old one and keeps every list non-empty and descending |
| SearchEngine.AddDocument | LittleSearchEngine.java:236-243 | a document is added at the end unless already present: the list is extended by at most one, holds the old documents and the new one, and stays without repeats |
| SearchEngine.MergePermutation | LittleSearchEngine.java:216-235 | the merge of two lists is a permutation of their concatenation |
| SearchEngine.MergeDescending | LittleSearchEngine.java:216-235 | the merge of two descending lists is descending |
| SearchEngine.MergeTies | LittleSearchEngine.java:222-224 | among the occurrences of any one frequency, the merge lists all of kw1's before all of kw2's, each in its own order |
| SearchEngine.Top5Properties | LittleSearchEngine.java:216-235 | the search gives null iff neither keyword is indexed; otherwise at most five documents, none twice, each from kw1's or kw2's list, and all documents of both lists when fewer than five |
| SearchEngine.LittleSearchEngine.Top5Search | LittleSearchEngine.java:244-316 | corrected: the loop computes the first five distinct documents of the two lists merged by frequency with ties to kw1 |
| SearchEngine.Top5AsWritten | LittleSearchEngine.java:244-316 | as written: null iff neither keyword is indexed; at most five documents, none twice, extending the ones collected |
| SearchEngine.Top5AsWrittenFrom | LittleSearchEngine.java:260-314 | the loop as written takes only documents of the two lists, from the current positions on, and with fewer than five at the end it has taken all of them |
| SearchEngine.Top5AsWrittenProperties | LittleSearchEngine.java:260-314 | the loop as written answers only documents of kw1's or kw2's list, and all of them when it answers fewer than five |
| SearchEngine.Top5TieCounterexample | LittleSearchEngine.java:301-311 | with kw1 in d1 and d2 three times each and kw2 in d3 three times, the loop as written answers d1, d3, d2 and the merge answers d1, d2, d3 |
| Friends.ShortestChain | Friends.java:23-74 | equal names (ignoring case) give null; a chain found starts at p1, ends at p2, follows friendships, and no chain between them is shorter; null for different names means no chain exists |
| Friends.ScanFriends | Friends.java:52-69 | scanning a friend list enqueues each unvisited friend once, marks it and records its parent, keeping the breadth-first invariants |
| Friends.PushParents | Friends.java:42-45 | the stack pushed by following parents from p2 reaches p1 and holds a walk along friendships of p2's distance |
| Friends.PopNames | Friends.java:46-48 | popping the stack gives the names in reverse order of pushing |
| FriendGraph.BfsShortest | Friends.java:37-69 | when a member leaves the queue, no walk from the source reaches it in fewer friendships than its distance |
| FriendGraph.NoChainLeft | Friends.java:72 | a search that empties its queue without meeting p2 leaves no chain from p1 to p2 |
| FriendGraph.ChainOfFriends | Friends.java:12-16 | as names, a chain starts with p1, ends with p2, and each name is a friend of the next |
| Friends.Cliques | Friends.java:88-134 | the cliques are non-empty lists of students of the school, without repeats, pairwise disjoint, covering every student, closed under same-school friendship; the list is empty iff the school has no students |
| Friends.CliqueFrom | Friends.java:98-128 | the breadth-first search from a student collects a group closed under same-school friendship and reachable from that student |
| Friends.ScanSchoolFriends | Friends.java:106-127 | scanning a friend list enqueues and names each unvisited friend at the school |
| SchoolGroups.CliquesAreComponents | Friends.java:96-129 | two students share a clique iff one reaches the other through students of the school |
| SchoolGroups.NoCliques | Friends.java:85-86 | a school has no cliques iff it has no students |
| Friends.Connectors | Friends.java:142-173 | every member gets a distinct dfsnum in 1..n; back <= dfsnum; each back number is its low point (the least of its dfsnum, its tree children's back numbers and the dfsnum of its friends other than its origin); a root is marked iff it has two or more tree children, a non-root iff some tree child's back number reaches dfsnum; the answer lists the marked members in index order without repeats |
| Friends.SearchMembers | Friends.java:144-163 | the search from every unvisited member, in index order, leaves the arrays Connectors describes |
| Friends.MarkedNames | Friends.java:164-168 | the names of the members marked 1, in index order |
| Friends.Dfs | Friends.java:176-201 | a call numbers the members it reaches in order; each of them ends settled (connector rule and low point); members reached earlier keep their numbers |
| Friends.FriendLoop | Friends.java:183-197 | after the loop over a friend list, newContacts is the number of tree children found and the loop state holds for the whole list |
| Friends.FriendTurn | Friends.java:183-197 | one friend's turn: an unvisited friend becomes a tree child, a visited one other than the origin only lowers the back number, and the origin changes nothing |
| Friends.BackEdge | Friends.java:194-196 | a visited friend other than the origin lowers the back number to its dfsnum |
| Friends.AdoptChild | Friends.java:188-191 | after a tree child's search, the back number drops to the child's, and a non-root is marked when the child's back number reaches its dfsnum |
| DepthFirst.SearchDone | Friends.java:177-199 | once everyone is visited and every call returned, the dfsnum values are distinct and in 1..n, back lies in 1..dfsnum, every origin is an earlier-numbered friend, and every member obeys the connector rule and has its low point as back number |
| DepthFirst.FlaggedIndexes | Friends.java:164-168 | exactly the members marked 1, in increasing index order |
| Polynomial.Add | Polynomial.java:61-92 | adding an empty list gives the other list; the sum has at most as many terms as both together |
| Polynomial.AddCoeff | Polynomial.java:71-78 | every coefficient of the sum is the sum of the two coefficients |
| Polynomial.AddDegrees | Polynomial.java:80-87 | every degree of the sum is a degree of one of the inputs |
| Polynomial.AddAscending | Polynomial.java:80-87 | the sum of two ascending lists is ascending |
| Polynomial.AddNoZeroTerms | Polynomial.java:72-73 | terms that cancel are left out, so no zero term appears |
| Polynomial.AddCanonical | Polynomial.java:61-92 | for canonical inputs, the sum is canonical and holds a degree iff its two coefficients do not cancel |
| Polynomial.MultiplyHelper | Polynomial.java:113-119 | same length as poly2, and term k is (t.coeff * poly2[k].coeff, t.degree + poly2[k].degree) |
| Polynomial.MultiplyHelperCoeff | Polynomial.java:116 | multiplying by t scales the coefficient of x^(d - t.degree) into that of x^d |
| Polynomial.FoldProductsCoeff | Polynomial.java:104-111 | the fold of add computes the product: its coefficients are those of the accumulator plus those of poly1 * poly2 |
| Polynomial.Multiply | Polynomial.java:104-111 | the loop is the left fold of add over each term's products; an empty factor gives the empty list; every coefficient is the product's; ascending poly2 gives an ascending result; no zero terms in, none out |

## Left out

- TrieShape.WellFormedWords: the trie is modelled only for non-empty words of at most 32768 characters, none a prefix of another. For longer words the casts to `short` at Trie.java:33-34, 39, 54-55 and 72-73 wrap. With a prefix, `prefixOf` and `common` read past the end of the shorter word. Java also accepts the single empty word, giving a root with one empty-label leaf; that case is not modelled.
- Trie.Trie.PrefixOf: requires that the word does not end inside the label, where the Java loop reads past the word's end and throws.
- Ascii.Lower: folds ASCII only. Java's `toLowerCase` also maps other characters (for example U+212A, the Kelvin sign, to 'k'). So getKeyword of that character is "k" in Java and None in the model.
- Polynomial.Add: coefficients are exact reals. Java adds `float`s and tests the rounded sum `== 0` (Polynomial.java:72); rounding is not modelled.
- Polynomial.MultiplyHelper: coefficients are exact reals and degrees unbounded integers. Java multiplies `float`s and adds `int` degrees at Polynomial.java:116. A float product of two non-zero coefficients can underflow to 0.0f, and the degree sum wraps past 2^31 - 1; neither is modelled.
- Polynomial.Multiply: built on MultiplyHelper's exact products, so its "no zero terms in, none out" does not hold of the Java code. There, an underflowing product at Polynomial.java:116 gives a 0.0f term that `add` keeps whenever it has no like term to merge with.
- Friends.ShortestChain: requires that p1 names a member when the names differ. Java throws a NullPointerException at Friends.java:33 otherwise.
- Friends.Cliques: requires a symmetric friendship relation, which the clique contract (components, closure) relies on. The Java code runs on any adjacency.
- SearchEngine.RecursiveInsert: works on a value sequence. Java removes and re-adds elements of the ArrayList in place (LittleSearchEngine.java:164-165, 178-179), so aliasing of that list by callers is not modelled.
- Polynomial.Add: works on value lists. Java returns a new first node that shares the rest of the non-null input (Polynomial.java:66, 69), so node identity and sharing are not modelled.
- The debug `System.out.println` calls in `top5search`, `shortestChain`, `cliques`, `connectors` and `dfs` are dropped.
- `makeIndex` and `loadKeywordsFromDocument` read files (LittleSearchEngine.java:41-63, 197-214). The keyword maps they produce are inputs here.
- `Polynomial.read`, `toString` and `evaluate` (Scanner input, formatting, floating-point powers) and `Trie.print` are console and string output.
- The helper classes `Graph`, `Person`, `Friend`, `Occurrence`, `TrieNode`, `Indexes`, `Queue` and `Stack` are not part of this model. They are represented by the datatypes and sequences they are used as.
- Expression.java and SearchApp.java are not part of this model.

## Findings

| source | as written | input that shows it | evidently intended | confidence | as-written member | corrected member |
|---|---|---|---|---|---|---|
| Trie.java:198 | when no child of the node reached continues the prefix, `findNode` returns that node, so `completionList` lists the leaves below it | words bear, bull, stock, bell: prefix "bz" gives bear, bull, bell, and "bex" gives bear, bell | null for a prefix no word starts with, as the comment at Trie.java:143 promises | not executed | Trie.Trie.CompletionListAsWritten | Trie.Trie.CompletionList |
| LittleSearchEngine.java:301-311 | on equal frequencies the loop adds kw1's document and then kw2's, so a second kw1 document of the same frequency comes after kw2's | kw1 in d1 and d2 three times each, kw2 in d3 three times: the answer is d1, d3, d2 | all of kw1's documents of a frequency before kw2's (LittleSearchEngine.java:222-224): d1, d2, d3 | not executed | SearchEngine.Top5TieCounterexample | SearchEngine.LittleSearchEngine.Top5Search |
