/**
 * The shape of a compressed trie stored as an arena of first-child /
 * next-sibling nodes, and the facts about it that the trie operations use.
 *
 * An edge label is a range of one stored word (an Indexes value), never a
 * copy of its characters. The ghost datatype Chain describes a sibling chain
 * together with everything below it: each Link carries the arena index of a
 * node, its label, the chain of its children and the rest of its siblings.
 * Rep ties a Chain to the arena; Good states the trie invariants of a chain
 * whose parent spells `pre`.
 */
module TrieShape {
  import opened Wrappers

  /** Words up to this length keep every index of the source within a Java short. */
  const MaxWordLength := 32768

  /** Characters startIndex..endIndex (both inclusive) of allWords[wordIndex]. */
  datatype Indexes = Indexes(wordIndex: nat, startIndex: int, endIndex: int)

  /** One arena cell: the root has no label; links are arena indices, None for null. */
  datatype TrieNode = TrieNode(substr: Option<Indexes>, firstChild: Option<nat>, sibling: Option<nat>)

  predicate IsPrefix(p: string, s: string) {
    |p| <= |s| && s[..|p|] == p
  }

  predicate IsSuffix(p: string, s: string) {
    |p| <= |s| && s[|s| - |p|..] == p
  }

  /**
   * The input the trie is built for: nonempty words of bounded length, no
   * word a prefix of another (so no word occurs twice either).
   */
  ghost predicate WellFormedWords(words: seq<string>) {
    (forall i :: 0 <= i < |words| ==> 0 < |words[i]| <= MaxWordLength)
    && (forall i, j :: 0 <= i < |words| && 0 <= j < |words| && i != j ==> !IsPrefix(words[i], words[j]))
  }

  /** A label that denotes a (possibly empty) range of an existing word. */
  predicate InRange(words: seq<string>, ix: Indexes) {
    ix.wordIndex < |words| && 0 <= ix.startIndex <= ix.endIndex + 1 <= |words[ix.wordIndex]|
  }

  /** The characters a label stands for. */
  function Spell(words: seq<string>, ix: Indexes): string {
    if InRange(words, ix) then words[ix.wordIndex][ix.startIndex..ix.endIndex + 1] else []
  }

  /** The first character of a label. */
  ghost function HeadOf(words: seq<string>, ix: Indexes): char {
    if ix.wordIndex < |words| && 0 <= ix.startIndex < |words[ix.wordIndex]|
    then words[ix.wordIndex][ix.startIndex] else ' '
  }

  /** A sibling chain and the subtrees below its nodes. */
  datatype Chain = End | Link(id: nat, lab: Indexes, child: Chain, next: Chain)

  ghost function Ids(c: Chain): set<nat> {
    match c
    case End => {}
    case Link(id, _, child, next) => {id} + Ids(child) + Ids(next)
  }

  /** No arena index occurs twice: the chain describes a tree. */
  ghost predicate Unique(c: Chain) {
    match c
    case End => true
    case Link(id, _, child, next) =>
      id !in Ids(child) && id !in Ids(next) && Ids(child) !! Ids(next)
      && Unique(child) && Unique(next)
  }

  /** The arena, entered through pointer p, holds exactly the chain c. */
  ghost predicate Rep(ns: seq<TrieNode>, p: Option<nat>, c: Chain)
    decreases c
  {
    match c
    case End => p == None
    case Link(id, lab, child, next) =>
      p == Some(id) && id < |ns| && ns[id].substr == Some(lab)
      && Rep(ns, ns[id].firstChild, child) && Rep(ns, ns[id].sibling, next)
  }

  /** The first characters of the labels along a sibling chain. */
  ghost function Heads(words: seq<string>, c: Chain): set<char> {
    match c
    case End => {}
    case Link(_, lab, _, next) => {HeadOf(words, lab)} + Heads(words, next)
  }

  /**
   * The trie invariant of a chain whose parent node spells pre, when the
   * words below bound have been inserted: every label is a nonempty range
   * of an inserted word that starts right after pre and continues it; a
   * leaf's label runs to the end of its word, so the leaf spells that word;
   * and no two siblings start with the same character.
   */
  ghost predicate Good(words: seq<string>, c: Chain, pre: string, bound: nat) {
    match c
    case End => true
    case Link(_, lab, child, next) =>
      lab.wordIndex < bound && lab.wordIndex < |words|
      && lab.startIndex == |pre| && |pre| <= lab.endIndex < |words[lab.wordIndex]|
      && words[lab.wordIndex][..|pre|] == pre
      && (child == End ==> lab.endIndex == |words[lab.wordIndex]| - 1)
      && HeadOf(words, lab) !in Heads(words, next)
      && Good(words, child, words[lab.wordIndex][..lab.endIndex + 1], bound)
      && Good(words, next, pre, bound)
  }

  /** The arena indices of the leaves, in depth-first sibling order. */
  ghost function Leaves(c: Chain): seq<nat>
    decreases c, 0
  {
    match c
    case End => []
    case Link(id, _, child, next) => NodeLeaves(id, child) + Leaves(next)
  }

  /** The leaves below one node: the node itself when it has no children. */
  ghost function NodeLeaves(id: nat, child: Chain): seq<nat>
    decreases child, 1
  {
    if child == End then [id] else Leaves(child)
  }

  /** The word indices of the leaf labels, in the same order as Leaves. */
  ghost function LeafWords(c: Chain): seq<nat>
    decreases c, 0
  {
    match c
    case End => []
    case Link(_, lab, child, next) => NodeLeafWords(lab, child) + LeafWords(next)
  }

  /** The word indices of the leaves below one node with this label and these children. */
  ghost function NodeLeafWords(lab: Indexes, child: Chain): seq<nat>
    decreases child, 1
  {
    if child == End then [lab.wordIndex] else LeafWords(child)
  }

  /** For every leaf, the concatenation of the labels from the root down to it. */
  ghost function LeafPaths(words: seq<string>, c: Chain, pre: string): seq<string> {
    match c
    case End => []
    case Link(_, lab, child, next) =>
      var path := pre + Spell(words, lab);
      (if child == End then [path] else LeafPaths(words, child, path)) + LeafPaths(words, next, pre)
  }

  ghost function Size(c: Chain): nat {
    match c
    case End => 0
    case Link(_, _, child, next) => 1 + Size(child) + Size(next)
  }

  ghost function SiblingCount(c: Chain): nat {
    match c
    case End => 0
    case Link(_, _, _, next) => 1 + SiblingCount(next)
  }

  /** s is c or one of the chains reached from c by following next. */
  ghost predicate SiblingSuffix(c: Chain, s: Chain) {
    s == c || (c.Link? && SiblingSuffix(c.next, s))
  }

  /** c with the sibling y given a new label and new children. */
  ghost function ReplaceAt(c: Chain, y: nat, lab': Indexes, child': Chain): Chain {
    match c
    case End => End
    case Link(id, lab, child, next) =>
      if id == y then Link(id, lab', child', next)
      else Link(id, lab, child, ReplaceAt(next, y, lab', child'))
  }

  /** c with the chain leaf put after its last sibling. */
  ghost function AppendLast(c: Chain, leaf: Chain): Chain {
    match c
    case End => leaf
    case Link(id, lab, child, next) => Link(id, lab, child, AppendLast(next, leaf))
  }

  /** The set {lo, lo + 1, ..., hi - 1}. */
  ghost function Range(lo: nat, hi: nat): set<nat>
    decreases hi
  {
    if hi <= lo then {} else Range(lo, hi - 1) + {hi - 1}
  }

  /** The multiset {0, 1, ..., n - 1}. */
  ghost function Upto(n: nat): multiset<nat> {
    if n == 0 then multiset{} else Upto(n - 1) + multiset{n - 1}
  }

  /** The word indices below bound whose words start with p. */
  ghost function Matches(words: seq<string>, bound: nat, p: string): set<nat> {
    set w | 0 <= w < bound && w < |words| && IsPrefix(p, words[w])
  }

  /** The leaf word indices of c whose words start with p. */
  ghost function MatchIn(words: seq<string>, c: Chain, p: string): set<nat> {
    set w | w in LeafWords(c) && w < |words| && IsPrefix(p, words[w])
  }

  /**
   * The word indices below one node whose words start with p: the node's
   * own word when it is a leaf, otherwise those of its leaves.
   */
  ghost function NodeMatch(words: seq<string>, lab: Option<Indexes>, child: Chain, p: string): set<nat> {
    if child != End then MatchIn(words, child, p)
    else if lab.Some? && lab.value.wordIndex < |words| && IsPrefix(p, words[lab.value.wordIndex])
    then {lab.value.wordIndex}
    else {}
  }

  /** Two arenas hold the same cells at every index of s. */
  ghost predicate Agree(ns: seq<TrieNode>, ns': seq<TrieNode>, s: set<nat>) {
    forall y :: y in s ==> y < |ns| && y < |ns'| && ns'[y] == ns[y]
  }

  /** Cell x of ns is a leaf: it has a label and no children. */
  ghost predicate IsLeaf(ns: seq<TrieNode>, x: nat) {
    x < |ns| && ns[x].firstChild == None && ns[x].substr.Some?
  }

  /** The word indices of the labelled cells in list. */
  ghost function WordsOf(ns: seq<TrieNode>, list: seq<nat>): set<nat> {
    set x | x in list && x < |ns| && ns[x].substr.Some? :: ns[x].substr.value.wordIndex
  }

  /** list holds leaves of ns, each once, and their words are exactly ws. */
  ghost predicate ListsLeaves(ns: seq<TrieNode>, list: seq<nat>, ws: set<nat>) {
    (forall x :: x in list ==> IsLeaf(ns, x))
    && (forall j, k :: 0 <= j < k < |list| ==> list[j] != list[k])
    && WordsOf(ns, list) == ws
  }

  /**
   * Node x of ns, whose children form cx and whose path is prex, as the
   * invariant describes it when the words below b have been inserted.
   */
  ghost predicate ViewAt(words: seq<string>, ns: seq<TrieNode>, b: nat, x: nat, cx: Chain, prex: string) {
    x < |ns| && Rep(ns, ns[x].firstChild, cx) && Unique(cx) && Good(words, cx, prex, b)
    && match ns[x].substr
       case None => prex == []
       case Some(lab) => lab.wordIndex < |words| && (cx == End ==> prex == words[lab.wordIndex])
  }

  /**
   * The arena ns grew from ns0 below node n: n's children, which formed c0,
   * form c, whose new nodes are the cells appended; no cell outside n's
   * subtree changed, nor n's own label and sibling.
   */
  ghost predicate ArenaGrown(ns0: seq<TrieNode>, ns: seq<TrieNode>, n: nat, c0: Chain, c: Chain) {
    |ns| >= |ns0| && n < |ns0|
    && Rep(ns, ns[n].firstChild, c) && Unique(c) && Ids(c) == Ids(c0) + Range(|ns0|, |ns|)
    && (forall y :: 0 <= y < |ns0| && y != n && y !in Ids(c0) ==> ns[y] == ns0[y])
    && ns[n].substr == ns0[n].substr && ns[n].sibling == ns0[n].sibling
  }

  /** The chain c0 became c, good with word i inserted, holding word i besides c0's words. */
  ghost predicate GainedWord(words: seq<string>, c0: Chain, c: Chain, pre: string, i: nat) {
    Good(words, c, pre, i + 1) && multiset(LeafWords(c)) == multiset(LeafWords(c0)) + multiset{i}
  }

  /**
   * The trie invariant: the arena holds shape below an unlabelled root,
   * every other node occurs in shape exactly once, shape is a good trie
   * over the first count words and has exactly one leaf per inserted word.
   */
  ghost predicate TrieInvariant(words: seq<string>, ns: seq<TrieNode>, shape: Chain, count: nat) {
    WellFormedWords(words) && count <= |words|
    && |ns| >= 1 && ns[0].substr == None && ns[0].sibling == None
    && Rep(ns, ns[0].firstChild, shape) && Unique(shape)
    && Ids(shape) == Range(1, |ns|)
    && Good(words, shape, [], count)
    && multiset(LeafWords(shape)) == Upto(count)
  }

  // ----- Basic facts -----

  lemma {:induction false} RepBounds(ns: seq<TrieNode>, p: Option<nat>, c: Chain)
    requires Rep(ns, p, c)
    ensures forall y :: y in Ids(c) ==> y < |ns|
    decreases c
  {
    match c
    case End =>
    case Link(id, _, child, next) =>
      RepBounds(ns, ns[id].firstChild, child);
      RepBounds(ns, ns[id].sibling, next);
  }

  lemma AgreeSubset(ns: seq<TrieNode>, ns': seq<TrieNode>, s: set<nat>, t: set<nat>)
    requires Agree(ns, ns', s) && t <= s
    ensures Agree(ns, ns', t)
  {
  }

  /** Rep reads the arena only at the indices of the chain. */
  lemma {:induction false} RepFrame(ns: seq<TrieNode>, ns': seq<TrieNode>, p: Option<nat>, c: Chain)
    requires Rep(ns, p, c)
    requires Agree(ns, ns', Ids(c))
    ensures Rep(ns', p, c)
    decreases c
  {
    match c
    case End =>
    case Link(id, _, child, next) =>
      RepFrame(ns, ns', ns[id].firstChild, child);
      RepFrame(ns, ns', ns[id].sibling, next);
  }

  /** The first sibling of a good chain, alone, is good. */
  lemma GoodFirst(words: seq<string>, c: Chain, pre: string, b: nat)
    requires Good(words, c, pre, b) && c.Link?
    ensures Good(words, Link(c.id, c.lab, c.child, End), pre, b) && Good(words, c.next, pre, b)
    ensures HeadOf(words, c.lab) !in Heads(words, c.next)
  {
  }

  /** What a good chain says about its first sibling. */
  lemma GoodParts(words: seq<string>, c: Chain, pre: string, b: nat)
    requires Good(words, c, pre, b) && c.Link?
    ensures Good(words, c.next, pre, b)
    ensures Good(words, c.child, words[c.lab.wordIndex][..c.lab.endIndex + 1], b)
    ensures c.lab.wordIndex < |words| && c.lab.startIndex == |pre| && |pre| <= c.lab.endIndex < |words[c.lab.wordIndex]|
    ensures words[c.lab.wordIndex][..|pre|] == pre
    ensures c.child == End ==> c.lab.endIndex == |words[c.lab.wordIndex]| - 1
  {
  }

  /** A good node put in front of a good chain that does not share its first character gives a good chain. */
  lemma GoodCons(words: seq<string>, id: nat, lab: Indexes, child: Chain, next: Chain, pre: string, b: nat)
    requires Good(words, Link(id, lab, child, End), pre, b) && Good(words, next, pre, b)
    requires HeadOf(words, lab) !in Heads(words, next)
    ensures Good(words, Link(id, lab, child, next), pre, b)
  {
  }

  lemma {:induction false} GoodMono(words: seq<string>, c: Chain, pre: string, b: nat, b': nat)
    requires Good(words, c, pre, b) && b <= b'
    ensures Good(words, c, pre, b')
    decreases c
  {
    match c
    case End =>
    case Link(_, lab, child, next) =>
      GoodMono(words, child, words[lab.wordIndex][..lab.endIndex + 1], b, b');
      GoodMono(words, next, pre, b, b');
  }

  lemma {:induction false} SuffixFacts(c: Chain, s: Chain)
    requires SiblingSuffix(c, s)
    ensures Ids(s) <= Ids(c) && Size(s) <= Size(c) && SiblingCount(s) <= SiblingCount(c)
    ensures Unique(c) ==> Unique(s)
    ensures forall words :: Heads(words, s) <= Heads(words, c)
  {
    if s != c {
      SuffixFacts(c.next, s);
    }
  }

  lemma {:induction false} SuffixRep(ns: seq<TrieNode>, p: Option<nat>, c: Chain, s: Chain)
    requires Rep(ns, p, c) && SiblingSuffix(c, s) && s.Link?
    ensures Rep(ns, Some(s.id), s)
    decreases c
  {
    if s != c {
      SuffixRep(ns, ns[c.id].sibling, c.next, s);
    }
  }

  lemma {:induction false} SuffixGood(words: seq<string>, c: Chain, s: Chain, pre: string, b: nat)
    requires Good(words, c, pre, b) && SiblingSuffix(c, s)
    ensures Good(words, s, pre, b)
    decreases c
  {
    if s != c {
      SuffixGood(words, c.next, s, pre, b);
    }
  }

  lemma SuffixNext(c: Chain, s: Chain)
    requires SiblingSuffix(c, s) && s.Link?
    ensures SiblingSuffix(c, s.next)
  {
    if s != c {
      SuffixNext(c.next, s);
    }
  }

  /** A sibling found in a chain of distinct indices is the first link of the chain iff it has the first link's index. */
  lemma SuffixAtHead(c: Chain, s: Chain)
    requires Unique(c) && SiblingSuffix(c, s) && s.Link? && c.Link? && s.id == c.id
    ensures s == c
  {
    if s != c {
      SuffixFacts(c.next, s);
    }
  }

  lemma SuffixOfLink(c: Chain, s: Chain)
    requires SiblingSuffix(c, s) && s.Link? && c.Link? && s != c
    ensures SiblingSuffix(c.next, s)
  {
  }

  /** What a sibling of a good chain held by the arena carries. */
  lemma SiblingFacts(words: seq<string>, ns: seq<TrieNode>, p: Option<nat>, c: Chain, pre: string, b: nat, s: Chain)
    requires Rep(ns, p, c) && Good(words, c, pre, b) && SiblingSuffix(c, s) && s.Link?
    ensures Rep(ns, Some(s.id), s) && s.id < |ns| && ns[s.id].substr == Some(s.lab)
    ensures Good(words, s, pre, b) && s.lab.wordIndex < b
    ensures InRange(words, s.lab) && |Spell(words, s.lab)| >= 1 && Spell(words, s.lab)[0] == HeadOf(words, s.lab)
    ensures words[s.lab.wordIndex][..s.lab.endIndex + 1] == pre + Spell(words, s.lab)
    ensures HeadOf(words, s.lab) in Heads(words, c) && HeadOf(words, s.lab) !in Heads(words, s.next)
    ensures Ids(s) <= Ids(c) && (Unique(c) ==> Unique(s))
  {
    SuffixRep(ns, p, c, s);
    SuffixGood(words, c, s, pre, b);
    SuffixFacts(c, s);
    PathStep(words, s.lab, pre);
  }

  /** A good link with new, good, nonempty children, alone in its chain, is good for a larger bound. */
  lemma GoodWithChild(words: seq<string>, s: Chain, child': Chain, pre: string, b: nat, b': nat)
    requires Good(words, s, pre, b) && s.Link? && b <= b' && child' != End
    requires Good(words, child', words[s.lab.wordIndex][..s.lab.endIndex + 1], b')
    ensures Good(words, Link(s.id, s.lab, child', End), pre, b')
  {
  }

  /** What follows the first k characters of the rest of a word is a suffix of the word. */
  lemma LaterRestIsSuffix(pre: string, word: string, w: string, k: nat)
    requires pre + word == w && k <= |word|
    ensures IsSuffix(word[k..], w)
  {
    assert (pre + word[..k]) + word[k..] == w by {
      assert word == word[..k] + word[k..];
    }
    RestIsSuffix(pre + word[..k], word[k..], w);
  }

  lemma RestIsSuffix(pre: string, word: string, w: string)
    requires pre + word == w
    ensures IsSuffix(word, w)
  {
    assert w[|w| - |word|..] == (pre + word)[|pre|..];
  }

  /** A node's path: the parent's path followed by the node's label. */
  lemma PathStep(words: seq<string>, lab: Indexes, pre: string)
    requires lab.wordIndex < |words| && lab.startIndex == |pre|
    requires |pre| <= lab.endIndex < |words[lab.wordIndex]|
    requires words[lab.wordIndex][..|pre|] == pre
    ensures InRange(words, lab)
    ensures words[lab.wordIndex][..lab.endIndex + 1] == pre + Spell(words, lab)
    ensures |Spell(words, lab)| >= 1 && Spell(words, lab)[0] == HeadOf(words, lab)
  {
    var w := words[lab.wordIndex];
    assert w[..lab.endIndex + 1] == w[..|pre|] + w[|pre|..lab.endIndex + 1];
  }

  /** The label of the last |word| characters of words[i] spells word, when word is a suffix of it. */
  /** A character of a suffix, counted from the end of the word. */
  lemma SuffixChar(w: string, word: string, k: nat)
    requires IsSuffix(word, w) && k < |word|
    ensures |w| - |word| + k < |w| && word[k] == w[|w| - |word| + k]
  {
    assert w[|w| - |word|..][k] == w[|w| - |word| + k];
  }

  lemma SuffixLabel(words: seq<string>, i: nat, word: string)
    requires i < |words| && IsSuffix(word, words[i])
    ensures Spell(words, Indexes(i, |words[i]| - |word|, |words[i]| - 1)) == word
  {
    var w := words[i];
    assert InRange(words, Indexes(i, |w| - |word|, |w| - 1));
    assert w[|w| - |word|..|w|] == w[|w| - |word|..];
  }

  // ----- Replacing one sibling -----

  lemma {:induction false} ReplaceRep(ns: seq<TrieNode>, ns': seq<TrieNode>, p: Option<nat>, c: Chain,
                                      y: nat, ly: Indexes, cy: Chain, ny: Chain, ly': Indexes, cy': Chain)
    requires Rep(ns, p, c) && Unique(c) && SiblingSuffix(c, Link(y, ly, cy, ny))
    requires Agree(ns, ns', Ids(c) - ({y} + Ids(cy)))
    requires y < |ns| && y < |ns'| && ns'[y].substr == Some(ly') && ns'[y].sibling == ns[y].sibling
    requires Rep(ns', ns'[y].firstChild, cy')
    ensures Rep(ns', p, ReplaceAt(c, y, ly', cy'))
    decreases c
  {
    var id := c.id;
    var kept := Ids(c) - ({y} + Ids(cy));
    if id == y {
      SuffixAtHead(c, Link(y, ly, cy, ny));
      assert Ids(ny) <= kept;
      AgreeSubset(ns, ns', kept, Ids(ny));
      RepFrame(ns, ns', ns[y].sibling, ny);
    } else {
      SuffixFacts(c.next, Link(y, ly, cy, ny));
      assert {y} + Ids(cy) <= Ids(c.next);
      assert Ids(c.child) <= kept;
      AgreeSubset(ns, ns', kept, Ids(c.child));
      RepFrame(ns, ns', ns[id].firstChild, c.child);
      AgreeSubset(ns, ns', kept, Ids(c.next) - ({y} + Ids(cy)));
      ReplaceRep(ns, ns', ns[id].sibling, c.next, y, ly, cy, ny, ly', cy');
    }
  }

  lemma {:induction false} ReplaceIds(c: Chain, y: nat, ly: Indexes, cy: Chain, ny: Chain,
                                      ly': Indexes, cy': Chain, extra: set<nat>)
    requires Unique(c) && SiblingSuffix(c, Link(y, ly, cy, ny))
    requires Unique(cy') && Ids(cy') == Ids(cy) + extra && extra !! Ids(c)
    ensures Unique(ReplaceAt(c, y, ly', cy'))
    ensures Ids(ReplaceAt(c, y, ly', cy')) == Ids(c) + extra
  {
    if c.id == y {
      SuffixAtHead(c, Link(y, ly, cy, ny));
    } else {
      SuffixFacts(c.next, Link(y, ly, cy, ny));
      ReplaceIds(c.next, y, ly, cy, ny, ly', cy', extra);
    }
  }

  lemma {:induction false} ReplaceHeads(words: seq<string>, c: Chain, y: nat, ly: Indexes, cy: Chain, ny: Chain,
                                        ly': Indexes, cy': Chain)
    requires Unique(c) && SiblingSuffix(c, Link(y, ly, cy, ny))
    requires HeadOf(words, ly') == HeadOf(words, ly)
    ensures Heads(words, ReplaceAt(c, y, ly', cy')) == Heads(words, c)
    decreases c
  {
    if c.id == y {
      SuffixAtHead(c, Link(y, ly, cy, ny));
    } else {
      SuffixFacts(c.next, Link(y, ly, cy, ny));
      ReplaceHeads(words, c.next, y, ly, cy, ny, ly', cy');
    }
  }

  lemma {:induction false} ReplaceGood(words: seq<string>, c: Chain, pre: string, b: nat, b': nat,
                                       y: nat, ly: Indexes, cy: Chain, ny: Chain, ly': Indexes, cy': Chain)
    requires Good(words, c, pre, b) && b <= b'
    requires Unique(c) && SiblingSuffix(c, Link(y, ly, cy, ny))
    requires HeadOf(words, ly') == HeadOf(words, ly)
    requires Good(words, Link(y, ly', cy', End), pre, b')
    ensures Good(words, ReplaceAt(c, y, ly', cy'), pre, b')
    decreases c
  {
    if c.id == y {
      SuffixAtHead(c, Link(y, ly, cy, ny));
      GoodMono(words, ny, pre, b, b');
      assert ReplaceAt(c, y, ly', cy') == Link(y, ly', cy', ny);
      GoodCons(words, y, ly', cy', ny, pre, b');
    } else {
      SuffixFacts(c.next, Link(y, ly, cy, ny));
      GoodFirst(words, c, pre, b);
      GoodMono(words, Link(c.id, c.lab, c.child, End), pre, b, b');
      ReplaceHeads(words, c.next, y, ly, cy, ny, ly', cy');
      ReplaceGood(words, c.next, pre, b, b', y, ly, cy, ny, ly', cy');
      assert ReplaceAt(c, y, ly', cy') == Link(c.id, c.lab, c.child, ReplaceAt(c.next, y, ly', cy'));
      GoodCons(words, c.id, c.lab, c.child, ReplaceAt(c.next, y, ly', cy'), pre, b');
    }
  }

  lemma MultisetAddFront(f: multiset<nat>, a: multiset<nat>, b: multiset<nat>, a': multiset<nat>, b': multiset<nat>)
    requires a + b == a' + b'
    ensures f + a + b == f + a' + b'
  {
    assert f + a + b == f + (a + b);
    assert f + a' + b' == f + (a' + b');
  }

  lemma MultisetSwap(a: multiset<nat>, m: multiset<nat>, b: multiset<nat>)
    ensures b + m + a == a + m + b
  {
  }

  lemma MultisetCancel(a: multiset<nat>, b: multiset<nat>, m: multiset<nat>, extra: multiset<nat>)
    requires a + m == b + m + extra
    ensures a == b + extra
  {
    forall x ensures a[x] == (b + extra)[x] {
      assert (a + m)[x] == (b + m + extra)[x];
    }
  }

  lemma {:induction false} RangeUnion(lo: nat, mid: nat, hi: nat)
    requires lo <= mid <= hi
    ensures Range(lo, mid) + Range(mid, hi) == Range(lo, hi)
    decreases hi
  {
    if hi > mid {
      RangeUnion(lo, mid, hi - 1);
    }
  }

  lemma LeafWordsLink(c: Chain)
    requires c.Link?
    ensures multiset(LeafWords(c)) == multiset(NodeLeafWords(c.lab, c.child)) + multiset(LeafWords(c.next))
  {
  }

  lemma {:induction false} ReplaceLeafWords(c: Chain, y: nat, ly: Indexes, cy: Chain, ny: Chain,
                                            ly': Indexes, cy': Chain)
    requires Unique(c) && SiblingSuffix(c, Link(y, ly, cy, ny))
    ensures multiset(LeafWords(ReplaceAt(c, y, ly', cy'))) + multiset(NodeLeafWords(ly, cy))
         == multiset(LeafWords(c)) + multiset(NodeLeafWords(ly', cy'))
  {
    if c.id == y {
      SuffixAtHead(c, Link(y, ly, cy, ny));
      var r := ReplaceAt(c, y, ly', cy');
      assert r == Link(y, ly', cy', ny);
      LeafWordsLink(c);
      LeafWordsLink(r);
      MultisetSwap(multiset(NodeLeafWords(ly, cy)), multiset(LeafWords(ny)), multiset(NodeLeafWords(ly', cy')));
    } else {
      SuffixFacts(c.next, Link(y, ly, cy, ny));
      ReplaceLeafWords(c.next, y, ly, cy, ny, ly', cy');
      var r := ReplaceAt(c, y, ly', cy');
      assert r == Link(c.id, c.lab, c.child, ReplaceAt(c.next, y, ly', cy'));
      LeafWordsLink(c);
      LeafWordsLink(r);
      var f, a, b, a', b' := multiset(NodeLeafWords(c.lab, c.child)), multiset(LeafWords(ReplaceAt(c.next, y, ly', cy'))),
        multiset(NodeLeafWords(ly, cy)), multiset(LeafWords(c.next)), multiset(NodeLeafWords(ly', cy'));
      MultisetAddFront(f, a, b, a', b');
    }
  }

  lemma {:induction false} ReplaceSuffix(c: Chain, y: nat, ly: Indexes, cy: Chain, ny: Chain,
                                         ly': Indexes, cy': Chain)
    requires Unique(c) && SiblingSuffix(c, Link(y, ly, cy, ny))
    ensures SiblingSuffix(ReplaceAt(c, y, ly', cy'), Link(y, ly', cy', ny))
    ensures SiblingCount(ReplaceAt(c, y, ly', cy')) == SiblingCount(c)
  {
    if c.id == y {
      SuffixAtHead(c, Link(y, ly, cy, ny));
    } else {
      SuffixFacts(c.next, Link(y, ly, cy, ny));
      ReplaceSuffix(c.next, y, ly, cy, ny, ly', cy');
    }
  }

  // ----- Appending a sibling -----

  lemma {:induction false} AppendRep(ns: seq<TrieNode>, ns': seq<TrieNode>, p: Option<nat>, c: Chain,
                                     z: nat, lz: Indexes, cz: Chain, leaf: Chain)
    requires Rep(ns, p, c) && Unique(c) && SiblingSuffix(c, Link(z, lz, cz, End))
    requires Agree(ns, ns', Ids(c) - {z})
    requires z < |ns| && z < |ns'| && leaf.Link? && ns'[z] == ns[z].(sibling := Some(leaf.id))
    requires Rep(ns', Some(leaf.id), leaf)
    ensures Rep(ns', p, AppendLast(c, leaf))
    decreases c
  {
    var id := c.id;
    var kept := Ids(c) - {z};
    if id == z {
      SuffixAtHead(c, Link(z, lz, cz, End));
      assert Ids(cz) <= kept;
      AgreeSubset(ns, ns', kept, Ids(cz));
      RepFrame(ns, ns', ns[z].firstChild, cz);
    } else {
      SuffixFacts(c.next, Link(z, lz, cz, End));
      assert z in Ids(c.next);
      assert Ids(c.child) <= kept;
      AgreeSubset(ns, ns', kept, Ids(c.child));
      RepFrame(ns, ns', ns[id].firstChild, c.child);
      AgreeSubset(ns, ns', kept, Ids(c.next) - {z});
      AppendRep(ns, ns', ns[id].sibling, c.next, z, lz, cz, leaf);
    }
  }

  lemma {:induction false} AppendIds(c: Chain, leaf: Chain)
    ensures Ids(AppendLast(c, leaf)) == Ids(c) + Ids(leaf)
    ensures Unique(c) && Unique(leaf) && Ids(c) !! Ids(leaf) ==> Unique(AppendLast(c, leaf))
  {
    match c
    case End =>
    case Link(_, _, _, next) =>
      AppendIds(next, leaf);
  }

  lemma {:induction false} AppendHeads(words: seq<string>, c: Chain, leaf: Chain)
    ensures Heads(words, AppendLast(c, leaf)) == Heads(words, c) + Heads(words, leaf)
    decreases c
  {
    match c
    case End =>
    case Link(_, _, _, next) =>
      AppendHeads(words, next, leaf);
  }

  lemma {:induction false} AppendLeafWords(c: Chain, leaf: Chain)
    ensures LeafWords(AppendLast(c, leaf)) == LeafWords(c) + LeafWords(leaf)
  {
    match c
    case End =>
    case Link(_, lab, child, next) =>
      AppendLeafWords(next, leaf);
      assert LeafWords(AppendLast(c, leaf)) == NodeLeafWords(lab, child) + LeafWords(AppendLast(next, leaf));
  }

  lemma {:induction false} AppendGood(words: seq<string>, c: Chain, pre: string, b: nat, b': nat, leaf: Chain)
    requires Good(words, c, pre, b) && b <= b'
    requires Good(words, leaf, pre, b')
    requires Heads(words, c) !! Heads(words, leaf)
    ensures Good(words, AppendLast(c, leaf), pre, b')
    decreases c
  {
    match c
    case End =>
    case Link(_, lab, child, next) =>
      GoodMono(words, child, words[lab.wordIndex][..lab.endIndex + 1], b, b');
      AppendHeads(words, next, leaf);
      AppendGood(words, next, pre, b, b', leaf);
  }

  // ----- What the invariant says about the leaves -----

  /** Every word below a chain whose parent spells pre starts with pre. */
  lemma {:induction false} GoodWordsExtend(words: seq<string>, c: Chain, pre: string, b: nat)
    requires Good(words, c, pre, b)
    ensures forall w :: w in LeafWords(c) ==> w < |words| && w < b && IsPrefix(pre, words[w])
    decreases c
  {
    match c
    case End =>
    case Link(_, lab, child, next) =>
      var path := words[lab.wordIndex][..lab.endIndex + 1];
      PathStep(words, lab, pre);
      GoodWordsExtend(words, child, path, b);
      GoodWordsExtend(words, next, pre, b);
      forall w | w in NodeLeafWords(lab, child) ensures w < |words| && w < b && IsPrefix(pre, words[w]) {
        if child != End {
          assert IsPrefix(path, words[w]);
          assert words[w][..|pre|] == path[..|pre|];
        }
      }
  }

  /**
   * In a chain whose parent spells pre, the words below the sibling whose
   * label starts with character ch are all the words of the chain that
   * continue pre with ch; siblings starting with another character hold
   * none of them.
   */
  lemma {:induction false} NoMatchOtherHeads(words: seq<string>, c: Chain, pre: string, b: nat, p: string)
    requires Good(words, c, pre, b)
    requires |p| > |pre| && p[..|pre|] == pre && p[|pre|] !in Heads(words, c)
    ensures MatchIn(words, c, p) == {}
    decreases c
  {
    match c
    case End =>
    case Link(_, lab, child, next) =>
      GoodParts(words, c, pre, b);
      NoMatchOtherHeads(words, next, pre, b, p);
      var path := words[lab.wordIndex][..lab.endIndex + 1];
      PathStep(words, lab, pre);
      if child != End {
        GoodWordsExtend(words, child, path, b);
      }
      forall w | w in NodeLeafWords(lab, child) && w < |words|
        ensures !IsPrefix(p, words[w])
      {
        if child != End {
          assert IsPrefix(path, words[w]);
        }
        assert words[w][|pre|] == HeadOf(words, lab);
        if |p| <= |words[w]| {
          assert words[w][..|p|][|pre|] == words[w][|pre|];
        }
      }
      assert LeafWords(c) == NodeLeafWords(lab, child) + LeafWords(next);
  }

  /** Each path of paths spells the word with the index at the same position of ws. */
  ghost predicate PathsSpell(words: seq<string>, paths: seq<string>, ws: seq<nat>) {
    |paths| == |ws| && forall k :: 0 <= k < |ws| ==> ws[k] < |words| && paths[k] == words[ws[k]]
  }

  lemma PathsSpellConcat(words: seq<string>, paths: seq<string>, ws: seq<nat>, paths': seq<string>, ws': seq<nat>)
    requires PathsSpell(words, paths, ws) && PathsSpell(words, paths', ws')
    ensures PathsSpell(words, paths + paths', ws + ws')
  {
    forall k | 0 <= k < |ws + ws'| ensures (ws + ws')[k] < |words| && (paths + paths')[k] == words[(ws + ws')[k]] {
      if k >= |ws| {
        assert (ws + ws')[k] == ws'[k - |ws|] && (paths + paths')[k] == paths'[k - |ws|];
      }
    }
  }

  /** The leaf paths of a good chain are exactly the words of its leaves. */
  lemma {:induction false} LeafPathsAreWords(words: seq<string>, c: Chain, pre: string, b: nat)
    requires Good(words, c, pre, b)
    ensures PathsSpell(words, LeafPaths(words, c, pre), LeafWords(c))
    decreases c
  {
    match c
    case End =>
    case Link(_, lab, child, next) =>
      var path := words[lab.wordIndex][..lab.endIndex + 1];
      PathStep(words, lab, pre);
      LeafPathsAreWords(words, child, path, b);
      LeafPathsAreWords(words, next, pre, b);
      var front := if child == End then [path] else LeafPaths(words, child, path);
      if child == End {
        assert path == words[lab.wordIndex];
      }
      assert PathsSpell(words, front, NodeLeafWords(lab, child));
      PathsSpellConcat(words, front, NodeLeafWords(lab, child), LeafPaths(words, next, pre), LeafWords(next));
  }

  /** Siblings in a good chain have pairwise distinct first characters. */
  lemma {:induction false} SiblingHeadsDistinct(words: seq<string>, c: Chain, pre: string, b: nat,
                                                s: Chain, t: Chain)
    requires Good(words, c, pre, b)
    requires SiblingSuffix(c, s) && SiblingSuffix(s, t) && s.Link? && t.Link? && s != t
    ensures HeadOf(words, s.lab) != HeadOf(words, t.lab)
    decreases c
  {
    if s == c {
      SuffixOfLink(s, t);
      SuffixFacts(c.next, t);
    } else {
      SuffixGood(words, c, c.next, pre, b);
      SiblingHeadsDistinct(words, c.next, pre, b, s, t);
    }
  }

  /** Every label of a good chain is a nonempty range of one stored word. */
  lemma {:induction false} GoodLabelsInRange(words: seq<string>, c: Chain, pre: string, b: nat)
    requires Good(words, c, pre, b)
    ensures forall ix :: ix in Labels(c) ==>
      ix.wordIndex < |words| && 0 <= ix.startIndex <= ix.endIndex < |words[ix.wordIndex]|
    decreases c
  {
    match c
    case End =>
    case Link(_, lab, child, next) =>
      GoodLabelsInRange(words, child, words[lab.wordIndex][..lab.endIndex + 1], b);
      GoodLabelsInRange(words, next, pre, b);
  }

  ghost function Labels(c: Chain): set<Indexes> {
    match c
    case End => {}
    case Link(_, lab, child, next) => {lab} + Labels(child) + Labels(next)
  }

  /** The leaves a chain lists are leaves of the arena and carry the listed word indices. */
  lemma {:induction false} LeavesInArena(ns: seq<TrieNode>, p: Option<nat>, c: Chain)
    requires Rep(ns, p, c)
    ensures |Leaves(c)| == |LeafWords(c)|
    ensures forall k :: 0 <= k < |Leaves(c)| ==>
      Leaves(c)[k] < |ns| && ns[Leaves(c)[k]].firstChild == None
      && ns[Leaves(c)[k]].substr.Some? && ns[Leaves(c)[k]].substr.value.wordIndex == LeafWords(c)[k]
    decreases c
  {
    match c
    case End =>
    case Link(id, _, child, next) =>
      LeavesInArena(ns, ns[id].firstChild, child);
      LeavesInArena(ns, ns[id].sibling, next);
  }

  lemma {:induction false} LeavesDistinct(c: Chain)
    requires Unique(c)
    ensures forall y :: y in Leaves(c) ==> y in Ids(c)
    ensures forall j, k :: 0 <= j < k < |Leaves(c)| ==> Leaves(c)[j] != Leaves(c)[k]
  {
    match c
    case End =>
    case Link(id, _, child, next) =>
      LeavesDistinct(child);
      LeavesDistinct(next);
      var front := NodeLeaves(id, child);
      assert forall y :: y in front ==> y in {id} + Ids(child);
      forall j, k | 0 <= j < k < |Leaves(c)| ensures Leaves(c)[j] != Leaves(c)[k] {
        if k < |front| {
        } else if j >= |front| {
          assert Leaves(c)[j] == Leaves(next)[j - |front|];
          assert Leaves(c)[k] == Leaves(next)[k - |front|];
        } else {
          assert Leaves(c)[j] in front;
          assert Leaves(c)[k] in Leaves(next);
        }
      }
  }

  lemma {:induction false} UptoSize(n: nat)
    ensures |Upto(n)| == n
  {
    if n > 0 {
      UptoSize(n - 1);
    }
  }

  lemma {:induction false} UptoMembers(n: nat)
    ensures forall w: nat :: w in Upto(n) <==> w < n
    ensures forall w: nat :: Upto(n)[w] == if w < n then 1 else 0
  {
    if n > 0 {
      UptoMembers(n - 1);
      assert forall w: nat :: Upto(n)[w] == Upto(n - 1)[w] + multiset{n - 1}[w];
    }
  }

  lemma {:induction false} RangeMembers(lo: nat, hi: nat)
    ensures forall j: nat :: j in Range(lo, hi) <==> lo <= j < hi
    decreases hi
  {
    if hi > lo {
      RangeMembers(lo, hi - 1);
    }
  }

  // ----- What a search for a prefix can conclude at one sibling -----

  lemma MatchInLink(words: seq<string>, c: Chain, p: string)
    requires c.Link?
    ensures MatchIn(words, c, p) == NodeMatch(words, Some(c.lab), c.child, p) + MatchIn(words, c.next, p)
  {
    assert forall w :: w in LeafWords(c) <==> w in NodeLeafWords(c.lab, c.child) || w in LeafWords(c.next);
  }

  /** Every word below the first link of a good chain starts with the parent's path and the link's label. */
  lemma {:induction false} BelowLinkExtends(words: seq<string>, c: Chain, pre: string, b: nat)
    requires Good(words, c, pre, b) && c.Link?
    ensures InRange(words, c.lab)
    ensures forall w :: w in NodeLeafWords(c.lab, c.child) ==>
      w < |words| && IsPrefix(pre + Spell(words, c.lab), words[w])
    decreases c
  {
    PathStep(words, c.lab, pre);
    var path := words[c.lab.wordIndex][..c.lab.endIndex + 1];
    if c.child != End {
      GoodWordsExtend(words, c.child, path, b);
    }
  }

  lemma PrefixesOfOneWord(a: string, b: string, s: string)
    requires IsPrefix(a, s) && IsPrefix(b, s)
    ensures IsPrefix(a, b) || IsPrefix(b, a)
  {
    if |a| <= |b| {
      assert b[..|a|] == s[..|a|];
    } else {
      assert a[..|b|] == s[..|b|];
    }
  }

  lemma PrefixConcat(pre: string, a: string, b: string)
    ensures IsPrefix(pre + a, pre + b) <==> IsPrefix(a, b)
  {
    if IsPrefix(a, b) {
      assert (pre + b)[..|pre + a|] == pre + b[..|a|];
    }
    if IsPrefix(pre + a, pre + b) {
      assert b[..|a|] == (pre + b)[..|pre + a|][|pre|..];
    }
  }

  lemma PrefixTrans(a: string, b: string, s: string)
    requires IsPrefix(a, b) && IsPrefix(b, s)
    ensures IsPrefix(a, s)
  {
    assert s[..|a|] == s[..|b|][..|a|];
  }

  /** A label that neither extends q nor is extended by q holds no word that starts with pre + q. */
  lemma {:induction false} MismatchNoMatch(words: seq<string>, c: Chain, pre: string, b: nat, q: string)
    requires Good(words, c, pre, b) && c.Link?
    requires !IsPrefix(Spell(words, c.lab), q) && !IsPrefix(q, Spell(words, c.lab))
    ensures NodeMatch(words, Some(c.lab), c.child, pre + q) == {}
    decreases c
  {
    BelowLinkExtends(words, c, pre, b);
    var s := Spell(words, c.lab);
    forall w | w in NodeLeafWords(c.lab, c.child) && w < |words|
      ensures !IsPrefix(pre + q, words[w])
    {
      if IsPrefix(pre + q, words[w]) {
        PrefixesOfOneWord(pre + q, pre + s, words[w]);
        PrefixConcat(pre, q, s);
        PrefixConcat(pre, s, q);
      }
    }
    MatchInEmpty(words, c, pre + q);
  }

  lemma MatchInEmpty(words: seq<string>, c: Chain, p: string)
    requires c.Link?
    requires forall w :: w in NodeLeafWords(c.lab, c.child) && w < |words| ==> !IsPrefix(p, words[w])
    ensures NodeMatch(words, Some(c.lab), c.child, p) == {}
  {
  }

  /** When q ends inside a label, every word below that label starts with pre + q. */
  lemma {:induction false} InsideLabelAllMatch(words: seq<string>, c: Chain, pre: string, b: nat, q: string)
    requires Good(words, c, pre, b) && c.Link?
    requires IsPrefix(q, Spell(words, c.lab))
    ensures NodeMatch(words, Some(c.lab), c.child, pre + q) == NodeMatch(words, Some(c.lab), c.child, [])
    decreases c
  {
    BelowLinkExtends(words, c, pre, b);
    var s := Spell(words, c.lab);
    PrefixConcat(pre, q, s);
    forall w | w in NodeLeafWords(c.lab, c.child) && w < |words|
      ensures IsPrefix(pre + q, words[w])
    {
      PrefixTrans(pre + q, pre + s, words[w]);
    }
  }

  /** Once one sibling starts with the first character of q, the later siblings hold no word starting with pre + q. */
  lemma {:induction false} LaterSiblingsNoMatch(words: seq<string>, c: Chain, pre: string, b: nat, q: string)
    requires Good(words, c, pre, b) && c.Link? && |q| >= 1
    requires IsPrefix(Spell(words, c.lab), q) || IsPrefix(q, Spell(words, c.lab))
    ensures MatchIn(words, c.next, pre + q) == {}
    decreases c
  {
    PathStep(words, c.lab, pre);
    assert (pre + q)[|pre|] == q[0] == HeadOf(words, c.lab);
    assert (pre + q)[..|pre|] == pre;
    NoMatchOtherHeads(words, c.next, pre, b, pre + q);
  }

  lemma {:induction false} LeafWordsNonEmpty(words: seq<string>, c: Chain, pre: string, b: nat)
    requires Good(words, c, pre, b) && c.Link?
    ensures |NodeLeafWords(c.lab, c.child)| > 0
    decreases c
  {
    if c.child != End {
      LeafWordsNonEmpty(words, c.child, words[c.lab.wordIndex][..c.lab.endIndex + 1], b);
    }
  }

  /** A first character that some sibling's label starts with is the next character of some word below. */
  lemma {:induction false} HeadHasWord(words: seq<string>, c: Chain, pre: string, b: nat, ch: char)
    requires Good(words, c, pre, b) && ch in Heads(words, c)
    ensures MatchIn(words, c, pre + [ch]) != {}
    decreases c
  {
    MatchInLink(words, c, pre + [ch]);
    if HeadOf(words, c.lab) == ch {
      BelowLinkExtends(words, c, pre, b);
      LeafWordsNonEmpty(words, c, pre, b);
      var w := NodeLeafWords(c.lab, c.child)[0];
      assert w in NodeLeafWords(c.lab, c.child);
      PathStep(words, c.lab, pre);
      PrefixTrans(pre + [ch], pre + Spell(words, c.lab), words[w]) by {
        assert (pre + Spell(words, c.lab))[..|pre| + 1] == pre + [ch];
      }
      assert w in NodeMatch(words, Some(c.lab), c.child, pre + [ch]);
    } else {
      HeadHasWord(words, c.next, pre, b, ch);
    }
  }

  /** Every first character on a good chain continues some word below it. */
  lemma HeadsHaveWords(words: seq<string>, c: Chain, pre: string, b: nat)
    requires Good(words, c, pre, b)
    ensures forall ch :: ch in Heads(words, c) ==> MatchIn(words, c, pre + [ch]) != {}
  {
    forall ch | ch in Heads(words, c) ensures MatchIn(words, c, pre + [ch]) != {} {
      HeadHasWord(words, c, pre, b, ch);
    }
  }

  /** Inserting word i below a node whose path is pre never meets a label that contains the rest of word i. */
  lemma WordNotInsideLabel(words: seq<string>, lab: Indexes, pre: string, word: string, i: nat)
    requires WellFormedWords(words) && i < |words| && pre + word == words[i]
    requires lab.wordIndex < |words| && lab.wordIndex != i
    requires lab.startIndex == |pre| && |pre| <= lab.endIndex < |words[lab.wordIndex]|
    requires words[lab.wordIndex][..|pre|] == pre
    ensures InRange(words, lab) && |Spell(words, lab)| >= 1 && Spell(words, lab)[0] == HeadOf(words, lab)
    ensures !IsPrefix(word, Spell(words, lab))
    ensures IsPrefix(Spell(words, lab), word) ==> lab.endIndex < |words[lab.wordIndex]| - 1
  {
    PathStep(words, lab, pre);
    var w := words[lab.wordIndex];
    var s := Spell(words, lab);
    assert IsPrefix(pre + s, w);
    if IsPrefix(word, s) {
      PrefixConcat(pre, word, s);
      PrefixTrans(words[i], pre + s, w);
    }
    PrefixConcat(pre, s, word);
  }

  /** No label on the sibling chain c continues rem or is continued by it. */
  ghost predicate NoneContinue(words: seq<string>, c: Chain, rem: string) {
    match c
    case End => true
    case Link(_, lab, _, next) =>
      !IsPrefix(Spell(words, lab), rem) && !IsPrefix(rem, Spell(words, lab)) && NoneContinue(words, next, rem)
  }

  lemma {:induction false} NoneContinueAt(words: seq<string>, c: Chain, rem: string, link: Chain)
    requires NoneContinue(words, c, rem) && SiblingSuffix(c, link) && link.Link?
    ensures !IsPrefix(Spell(words, link.lab), rem) && !IsPrefix(rem, Spell(words, link.lab))
    decreases c
  {
    if c != link {
      NoneContinueAt(words, c.next, rem, link);
    }
  }

  /** The sibling whose label starts with a given first character. */
  lemma {:induction false} HeadLink(words: seq<string>, c: Chain, ch: char) returns (link: Chain)
    requires ch in Heads(words, c)
    ensures SiblingSuffix(c, link) && link.Link? && HeadOf(words, link.lab) == ch
    decreases c
  {
    if HeadOf(words, c.lab) == ch {
      link := c;
    } else {
      link := HeadLink(words, c.next, ch);
    }
  }

  /**
   * Past the parent's path pre, a string p whose next character is the
   * first character of one sibling's label can only match words below that
   * sibling.
   */
  lemma {:induction false} MatchAtHead(words: seq<string>, c: Chain, pre: string, b: nat, link: Chain, p: string)
    requires Good(words, c, pre, b) && SiblingSuffix(c, link) && link.Link?
    requires |p| > |pre| && p[..|pre|] == pre && p[|pre|] == HeadOf(words, link.lab)
    ensures MatchIn(words, c, p) == NodeMatch(words, Some(link.lab), link.child, p)
    decreases c
  {
    MatchInLink(words, c, p);
    GoodFirst(words, c, pre, b);
    if c == link {
      NoMatchOtherHeads(words, c.next, pre, b, p);
    } else {
      SiblingHeadsDistinct(words, c, pre, b, c, link);
      PathStep(words, c.lab, pre);
      var q := p[|pre|..];
      assert pre + q == p;
      assert Spell(words, c.lab)[0] != q[0];
      MismatchNoMatch(words, c, pre, b, q);
      SuffixGood(words, c, c.next, pre, b);
      MatchAtHead(words, c.next, pre, b, link, p);
    }
  }

  /**
   * When no label on the chain continues rem, the words below it that
   * continue pre with the first character of rem all start with one stem
   * (pre and that sibling's label) which pre + rem leaves.
   */
  lemma ChainStem(words: seq<string>, c: Chain, pre: string, b: nat, rem: string) returns (stem: string)
    requires Good(words, c, pre, b) && |rem| >= 1 && NoneContinue(words, c, rem)
    requires MatchIn(words, c, pre + [rem[0]]) != {}
    ensures IsPrefix(pre + [rem[0]], stem) && !IsPrefix(stem, pre + rem)
    ensures forall w :: w in MatchIn(words, c, pre + [rem[0]]) ==> IsPrefix(stem, words[w])
  {
    var ch := rem[0];
    var p1 := pre + [ch];
    assert p1[..|pre|] == pre && p1[|pre|] == ch;
    if ch !in Heads(words, c) {
      NoMatchOtherHeads(words, c, pre, b, p1);
    }
    var link := HeadLink(words, c, ch);
    MatchAtHead(words, c, pre, b, link, p1);
    SuffixGood(words, c, link, pre, b);
    BelowLinkExtends(words, link, pre, b);
    GoodFirst(words, link, pre, b);
    PathStep(words, link.lab, pre);
    var s := Spell(words, link.lab);
    stem := pre + s;
    assert p1 == pre + s[..1];
    PrefixConcat(pre, s[..1], s);
    NoneContinueAt(words, c, rem, link);
    PrefixConcat(pre, s, rem);
  }

  /** Every arena index of a chain holds a label of that chain. */
  lemma {:induction false} RepLabels(ns: seq<TrieNode>, p: Option<nat>, c: Chain)
    requires Rep(ns, p, c)
    ensures forall y :: y in Ids(c) ==> y < |ns| && ns[y].substr.Some? && ns[y].substr.value in Labels(c)
    decreases c
  {
    match c
    case End =>
    case Link(id, _, child, next) =>
      RepLabels(ns, ns[id].firstChild, child);
      RepLabels(ns, ns[id].sibling, next);
  }
}
