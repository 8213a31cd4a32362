/**
 * The compressed trie of Trie.java: built by inserting a list of words in
 * order, then asked for the completion list of a prefix.
 *
 * The Java graph of TrieNode objects is an arena here: a sequence of cells
 * indexed by node number, node 0 being the root, with first-child and
 * sibling links held as indices. The ghost field shape is the tree the arena
 * holds below the root (see TrieShape).
 */
module Trie {
  import opened Wrappers
  import opened TrieShape

  // ----- One insertion, on the arena as a value -----

  /** Word i is about to be inserted below node n of ns, whose path is pre and whose children form c. */
  ghost predicate ReadyAt(words: seq<string>, ns: seq<TrieNode>, n: nat, c: Chain, pre: string, word: string, i: nat) {
    WellFormedWords(words) && i < |words| && pre + word == words[i] && |word| >= 1
    && n < |ns| && Rep(ns, ns[n].firstChild, c) && Unique(c) && n !in Ids(c)
    && Good(words, c, pre, i)
  }

  /**
   * Word i has been inserted below node n: its children, which formed c0
   * in the arena ns0, form c in ns, a good chain with one more leaf, for
   * word i; new nodes were appended; cells outside n's subtree are kept.
   */
  ghost predicate Inserted(words: seq<string>, ns0: seq<TrieNode>, ns: seq<TrieNode>, n: nat, c0: Chain, c: Chain,
                           pre: string, i: nat) {
    ArenaGrown(ns0, ns, n, c0, c) && GainedWord(words, c0, c, pre, i)
  }

  /** ns is ns0 with the cells added appended and cell y replaced by v. */
  ghost predicate Extended(ns0: seq<TrieNode>, ns: seq<TrieNode>, added: seq<TrieNode>, y: nat, v: TrieNode) {
    |ns| == |ns0| + |added| && y < |ns0| && ns[y] == v
    && (forall j :: |ns0| <= j < |ns| ==> ns[j] == added[j - |ns0|])
    && (forall j :: 0 <= j < |ns0| && j != y ==> ns[j] == ns0[j])
  }

  /**
   * The arena after node y is split after k characters of its label: y keeps
   * them and its first child becomes a new node holding the rest of the label
   * and y's old children, followed by a new leaf with label code.
   */
  function SplitNodes(ns0: seq<TrieNode>, y: nat, k: nat, code: Indexes): (ns: seq<TrieNode>)
    requires y < |ns0| && ns0[y].substr.Some?
    ensures Extended(ns0, ns, [TrieNode(Some(code), None, None),
                               TrieNode(Some(CutFrom(ns0[y].substr.value, k)), ns0[y].firstChild, Some(|ns0|))],
                     y, ns0[y].(substr := Some(CutAt(ns0[y].substr.value, k)), firstChild := Some(|ns0| + 1)))
  {
    (ns0 + [TrieNode(Some(code), None, None), TrieNode(Some(CutFrom(ns0[y].substr.value, k)), ns0[y].firstChild, Some(|ns0|))])
      [y := ns0[y].(substr := Some(CutAt(ns0[y].substr.value, k)), firstChild := Some(|ns0| + 1))]
  }

  /** The arena after a new leaf with label code is linked in as the next sibling of node z. */
  function AppendNodes(ns0: seq<TrieNode>, z: nat, code: Indexes): (ns: seq<TrieNode>)
    requires z < |ns0|
    ensures Extended(ns0, ns, [TrieNode(Some(code), None, None)], z, ns0[z].(sibling := Some(|ns0|)))
  {
    (ns0 + [TrieNode(Some(code), None, None)])[z := ns0[z].(sibling := Some(|ns0|))]
  }

  lemma ExtendedByUpdate(ns0: seq<TrieNode>, added: seq<TrieNode>, y: nat, v: TrieNode)
    requires y < |ns0|
    ensures Extended(ns0, (ns0 + added)[y := v], added, y, v)
  {
  }

  /** A new leaf for word, the rest of word i after pre, is a good chain on its own. */
  lemma LeafGood(words: seq<string>, i: nat, pre: string, word: string, id: nat, code: Indexes)
    requires i < |words| && pre + word == words[i] && |word| >= 1
    requires code == Indexes(i, |words[i]| - |word|, |words[i]| - 1)
    ensures Good(words, Link(id, code, End, End), pre, i + 1)
    ensures Heads(words, Link(id, code, End, End)) == {word[0]}
    ensures LeafWords(Link(id, code, End, End)) == [i]
  {
    assert words[i][..|pre|] == pre;
    assert HeadOf(words, code) == word[0];
  }

  /** The leaf for the rest of word i becomes the first child of a node without children (Trie.java:43-44). */
  lemma FirstChildStep(words: seq<string>, ns0: seq<TrieNode>, ns: seq<TrieNode>, n: nat, word: string, i: nat,
                       c: Chain, pre: string, code: Indexes)
    requires ReadyAt(words, ns0, n, c, pre, word, i) && ns0[n].firstChild.None?
    requires code == Indexes(i, |words[i]| - |word|, |words[i]| - 1)
    requires Extended(ns0, ns, [TrieNode(Some(code), None, None)], n, ns0[n].(firstChild := Some(|ns0|)))
    ensures Inserted(words, ns0, ns, n, c, Link(|ns0|, code, End, End), pre, i)
  {
    RangeMembers(|ns0|, |ns|);
    LeafGood(words, i, pre, word, |ns0|, code);
    assert Rep(ns, Some(|ns0|), Link(|ns0|, code, End, End));
  }

  /** Descending into sibling link, whose label the rest word continues: the recursive call may be made. */
  lemma DescendReady(words: seq<string>, ns: seq<TrieNode>, n: nat, word: string, i: nat,
                     c: Chain, pre: string, link: Chain)
    requires ReadyAt(words, ns, n, c, pre, word, i)
    requires link.Link? && SiblingSuffix(c, link)
    requires IsPrefix(Spell(words, link.lab), word)
    ensures link.id < |ns| && ns[link.id].substr == Some(link.lab) && InRange(words, link.lab)
    ensures 1 <= |Spell(words, link.lab)| == 1 + link.lab.endIndex - link.lab.startIndex <= |word| && link.child != End
    ensures ReadyAt(words, ns, link.id, link.child, pre + Spell(words, link.lab), word[|Spell(words, link.lab)|..], i)
  {
    SiblingFacts(words, ns, ns[n].firstChild, c, pre, i, link);
    WordNotInsideLabel(words, link.lab, pre, word, i);
    var s := Spell(words, link.lab);
    assert word == s + word[|s|..];
    assert (pre + s) + word[|s|..] == words[i];
  }

  /** Giving sibling link the label ly' and the children cy', in the arena: nothing outside link's subtree changes. */
  lemma ReplaceArena(ns0: seq<TrieNode>, ns: seq<TrieNode>, n: nat, c: Chain, link: Chain, ly': Indexes, cy': Chain)
    requires n < |ns0| && Rep(ns0, ns0[n].firstChild, c) && Unique(c) && n !in Ids(c)
    requires link.Link? && SiblingSuffix(c, link)
    requires |ns| >= |ns0| && link.id < |ns0| && ns[link.id].substr == Some(ly') && ns[link.id].sibling == ns0[link.id].sibling
    requires Rep(ns, ns[link.id].firstChild, cy') && Unique(cy') && Ids(cy') == Ids(link.child) + Range(|ns0|, |ns|)
    requires forall j :: 0 <= j < |ns0| && j != link.id && j !in Ids(link.child) ==> ns[j] == ns0[j]
    ensures Rep(ns, ns[n].firstChild, ReplaceAt(c, link.id, ly', cy'))
    ensures Unique(ReplaceAt(c, link.id, ly', cy'))
    ensures Ids(ReplaceAt(c, link.id, ly', cy')) == Ids(c) + Range(|ns0|, |ns|)
    ensures forall j :: 0 <= j < |ns0| && j != n && j !in Ids(c) ==> ns[j] == ns0[j]
    ensures ns[n] == ns0[n]
  {
    SuffixRep(ns0, ns0[n].firstChild, c, link);
    SuffixFacts(c, link);
    RepBounds(ns0, ns0[n].firstChild, c);
    RangeMembers(|ns0|, |ns|);
    assert Range(|ns0|, |ns|) !! Ids(c);
    ReplaceRep(ns0, ns, ns0[n].firstChild, c, link.id, link.lab, link.child, link.next, ly', cy');
    ReplaceIds(c, link.id, link.lab, link.child, link.next, ly', cy', Range(|ns0|, |ns|));
  }

  /** Giving sibling link the label ly' and the children cy', which hold word i besides link's words, keeps c good. */
  lemma ReplaceContents(words: seq<string>, c: Chain, pre: string, i: nat, link: Chain, ly': Indexes, cy': Chain)
    requires Good(words, c, pre, i) && Unique(c) && link.Link? && SiblingSuffix(c, link)
    requires HeadOf(words, ly') == HeadOf(words, link.lab)
    requires Good(words, Link(link.id, ly', cy', End), pre, i + 1)
    requires multiset(NodeLeafWords(ly', cy')) == multiset(NodeLeafWords(link.lab, link.child)) + multiset{i}
    ensures GainedWord(words, c, ReplaceAt(c, link.id, ly', cy'), pre, i)
  {
    assert link == Link(link.id, link.lab, link.child, link.next);
    ReplaceGood(words, c, pre, i, i + 1, link.id, link.lab, link.child, link.next, ly', cy');
    ReplaceGainsWord(c, i, link, ly', cy');
  }

  /** Replacing the words below one sibling by the same words and word i adds word i to the chain. */
  lemma ReplaceGainsWord(c: Chain, i: nat, link: Chain, ly': Indexes, cy': Chain)
    requires Unique(c) && link.Link? && SiblingSuffix(c, link)
    requires multiset(NodeLeafWords(ly', cy')) == multiset(NodeLeafWords(link.lab, link.child)) + multiset{i}
    ensures multiset(LeafWords(ReplaceAt(c, link.id, ly', cy'))) == multiset(LeafWords(c)) + multiset{i}
  {
    assert link == Link(link.id, link.lab, link.child, link.next);
    ReplaceLeafWords(c, link.id, link.lab, link.child, link.next, ly', cy');
    var a := multiset(LeafWords(ReplaceAt(c, link.id, ly', cy')));
    var b := multiset(LeafWords(c));
    var m := multiset(NodeLeafWords(link.lab, link.child));
    assert a + m == b + (m + multiset{i}) == b + m + multiset{i};
    MultisetCancel(a, b, m, multiset{i});
  }

  /** After the recursive call below sibling link, n's children are c with link's children replaced (Trie.java:46-48, 62-64). */
  lemma DescendStep(words: seq<string>, ns0: seq<TrieNode>, ns: seq<TrieNode>, n: nat, word: string, i: nat,
                    c: Chain, pre: string, link: Chain, cy': Chain)
    requires ReadyAt(words, ns0, n, c, pre, word, i)
    requires link.Link? && SiblingSuffix(c, link)
    requires IsPrefix(Spell(words, link.lab), word)
    requires Inserted(words, ns0, ns, link.id, link.child, cy', pre + Spell(words, link.lab), i)
    ensures Inserted(words, ns0, ns, n, c, ReplaceAt(c, link.id, link.lab, cy'), pre, i)
  {
    DescendArena(words, ns0, ns, n, word, i, c, pre, link, cy');
    DescendContents(words, i, pre, word, c, link, cy');
  }

  /** The arena half of DescendStep. */
  lemma DescendArena(words: seq<string>, ns0: seq<TrieNode>, ns: seq<TrieNode>, n: nat, word: string, i: nat,
                     c: Chain, pre: string, link: Chain, cy': Chain)
    requires ReadyAt(words, ns0, n, c, pre, word, i)
    requires link.Link? && SiblingSuffix(c, link)
    requires IsPrefix(Spell(words, link.lab), word)
    requires Inserted(words, ns0, ns, link.id, link.child, cy', pre + Spell(words, link.lab), i)
    ensures ArenaGrown(ns0, ns, n, c, ReplaceAt(c, link.id, link.lab, cy'))
  {
    DescendReady(words, ns0, n, word, i, c, pre, link);
    ReplaceArena(ns0, ns, n, c, link, link.lab, cy');
  }

  /** The contents half of DescendStep: word i joins the words below sibling link. */
  lemma DescendContents(words: seq<string>, i: nat, pre: string, word: string, c: Chain, link: Chain, cy': Chain)
    requires WellFormedWords(words) && i < |words| && pre + word == words[i]
    requires Good(words, c, pre, i) && Unique(c)
    requires link.Link? && SiblingSuffix(c, link) && IsPrefix(Spell(words, link.lab), word)
    requires Good(words, cy', pre + Spell(words, link.lab), i + 1)
    requires multiset(LeafWords(cy')) == multiset(LeafWords(link.child)) + multiset{i}
    ensures GainedWord(words, c, ReplaceAt(c, link.id, link.lab, cy'), pre, i)
  {
    SuffixGood(words, c, link, pre, i);
    PathStep(words, link.lab, pre);
    WordNotInsideLabel(words, link.lab, pre, word, i);
    assert link.child != End;
    assert cy' != End by {
      assert i in multiset(LeafWords(cy'));
    }
    DescendGood(words, c, pre, i, link, cy');
    assert NodeLeafWords(link.lab, link.child) == LeafWords(link.child);
    assert NodeLeafWords(link.lab, cy') == LeafWords(cy');
    ReplaceGainsWord(c, i, link, link.lab, cy');
  }

  /** New children for sibling link, good for its path one bound higher, keep c good. */
  lemma DescendGood(words: seq<string>, c: Chain, pre: string, i: nat, link: Chain, cy': Chain)
    requires Good(words, c, pre, i) && Unique(c) && link.Link? && SiblingSuffix(c, link)
    requires Good(words, link, pre, i) && cy' != End
    requires Good(words, cy', words[link.lab.wordIndex][..link.lab.endIndex + 1], i + 1)
    ensures Good(words, ReplaceAt(c, link.id, link.lab, cy'), pre, i + 1)
  {
    GoodWithChild(words, link, cy', pre, i, i + 1);
    assert link == Link(link.id, link.lab, link.child, link.next);
    ReplaceGood(words, c, pre, i, i + 1, link.id, link.lab, link.child, link.next, link.lab, cy');
  }

  /** A label cut after its first k characters. */
  function CutAt(lab: Indexes, k: nat): (head: Indexes)
    ensures head.wordIndex == lab.wordIndex && head.startIndex == lab.startIndex
    ensures head.endIndex - head.startIndex + 1 == k
  {
    lab.(endIndex := lab.startIndex + k - 1)
  }

  /** A label without its first k characters. */
  function CutFrom(lab: Indexes, k: nat): (tail: Indexes)
    ensures tail.wordIndex == lab.wordIndex && tail.endIndex == lab.endIndex
    ensures tail.startIndex - lab.startIndex == k
  {
    lab.(startIndex := lab.startIndex + k)
  }

  /** The chain of sibling link after it is split after k characters, the new nodes being t (the tail) and l (the leaf). */
  ghost function SplitLink(link: Chain, k: nat, t: nat, l: nat, code: Indexes): Chain
    requires link.Link?
  {
    Link(link.id, CutAt(link.lab, k), Link(t, CutFrom(link.lab, k), link.child, Link(l, code, End, End)), link.next)
  }

  /** The new nodes of a split, in the arena: the tail holds link's old children and the leaf follows it. */
  lemma SplitArena(ns0: seq<TrieNode>, ns: seq<TrieNode>, link: Chain, k: nat, code: Indexes)
    requires link.Link? && Rep(ns0, Some(link.id), link) && Unique(link)
    requires forall j :: j in Ids(link) ==> j < |ns0|
    requires Extended(ns0, ns, [TrieNode(Some(code), None, None),
                                TrieNode(Some(CutFrom(link.lab, k)), ns0[link.id].firstChild, Some(|ns0|))],
                      link.id, ns0[link.id].(substr := Some(CutAt(link.lab, k)), firstChild := Some(|ns0| + 1)))
    ensures Rep(ns, ns[link.id].firstChild, SplitLink(link, k, |ns0| + 1, |ns0|, code).child)
    ensures Unique(SplitLink(link, k, |ns0| + 1, |ns0|, code).child)
    ensures Ids(SplitLink(link, k, |ns0| + 1, |ns0|, code).child) == Ids(link.child) + Range(|ns0|, |ns|)
  {
    var below := SplitLink(link, k, |ns0| + 1, |ns0|, code).child;
    RangeMembers(|ns0|, |ns|);
    assert link.id !in Ids(link.child) && Ids(link.child) <= Ids(link);
    assert Agree(ns0, ns, Ids(link.child));
    RepFrame(ns0, ns, ns0[link.id].firstChild, link.child);
    assert Rep(ns, Some(|ns0|), below.next);
    assert Ids(below.next) == {|ns0|};
  }

  /** The chain a split puts below link is good, one bound higher, and link keeps its first character. */
  lemma SplitGood(words: seq<string>, i: nat, pre: string, word: string, k: nat, link: Chain, t: nat, l: nat, code: Indexes)
    requires i < |words| && pre + word == words[i]
    requires link.Link? && Good(words, link, pre, i)
    requires 1 <= k < |Spell(words, link.lab)| && k < |word|
    requires Spell(words, link.lab)[..k] == word[..k] && Spell(words, link.lab)[k] != word[k]
    requires code == Indexes(i, |words[i]| - |word[k..]|, |words[i]| - 1)
    ensures Good(words, Link(link.id, CutAt(link.lab, k), SplitLink(link, k, t, l, code).child, End), pre, i + 1)
    ensures HeadOf(words, CutAt(link.lab, k)) == HeadOf(words, link.lab)
  {
    var lab := link.lab;
    SplitPaths(words, i, pre, word, lab, k);
    GoodMono(words, link.child, words[lab.wordIndex][..lab.endIndex + 1], i, i + 1);
    SplitBelowGood(words, i, pre + word[..k], word[k..], link.child, lab, k, t, l, code);
    var below := SplitLink(link, k, t, l, code).child;
    CutGood(words, i, pre, link.id, lab, k, below);
  }

  /** A label cut after k characters, above a good chain for the path it now ends, is good. */
  lemma CutGood(words: seq<string>, i: nat, pre: string, id: nat, lab: Indexes, k: nat, below: Chain)
    requires lab.wordIndex < i + 1 && lab.wordIndex < |words| && 1 <= k
    requires lab.startIndex == |pre| && lab.startIndex + k <= lab.endIndex < |words[lab.wordIndex]|
    requires words[lab.wordIndex][..|pre|] == pre
    requires below != End && Good(words, below, words[lab.wordIndex][..lab.startIndex + k], i + 1)
    ensures Good(words, Link(id, CutAt(lab, k), below, End), pre, i + 1)
  {
  }

  /** Where a label is cut after k characters shared with word, the path so far is pre + word[..k]. */
  lemma SplitPaths(words: seq<string>, i: nat, pre: string, word: string, lab: Indexes, k: nat)
    requires i < |words| && pre + word == words[i]
    requires lab.wordIndex < |words| && lab.startIndex == |pre| && |pre| <= lab.endIndex < |words[lab.wordIndex]|
    requires words[lab.wordIndex][..|pre|] == pre
    requires 1 <= k < |Spell(words, lab)| && k < |word|
    requires Spell(words, lab)[..k] == word[..k] && Spell(words, lab)[k] != word[k]
    ensures words[lab.wordIndex][..lab.startIndex + k] == pre + word[..k]
    ensures (pre + word[..k]) + word[k..] == words[i]
    ensures HeadOf(words, CutFrom(lab, k)) != word[k..][0]
    ensures HeadOf(words, CutAt(lab, k)) == HeadOf(words, lab)
  {
    PathStep(words, lab, pre);
    var s := Spell(words, lab);
    var w := words[lab.wordIndex];
    assert w[..lab.startIndex + k] == (pre + s)[..|pre| + k];
    assert word == word[..k] + word[k..];
    assert HeadOf(words, CutFrom(lab, k)) == s[k];
  }

  /** The node for the rest of a cut label, with the old children and the new leaf as its next sibling, is good. */
  lemma SplitBelowGood(words: seq<string>, i: nat, p: string, rest: string, child: Chain, lab: Indexes, k: nat,
                       t: nat, l: nat, code: Indexes)
    requires i < |words| && p + rest == words[i] && |rest| >= 1
    requires lab.wordIndex < i + 1 && lab.wordIndex < |words| && 1 <= k
    requires lab.startIndex + k <= lab.endIndex < |words[lab.wordIndex]|
    requires |p| == lab.startIndex + k && words[lab.wordIndex][..lab.startIndex + k] == p
    requires Good(words, child, words[lab.wordIndex][..lab.endIndex + 1], i + 1)
    requires child == End ==> lab.endIndex == |words[lab.wordIndex]| - 1
    requires HeadOf(words, CutFrom(lab, k)) != rest[0]
    requires code == Indexes(i, |words[i]| - |rest|, |words[i]| - 1)
    ensures Good(words, Link(t, CutFrom(lab, k), child, Link(l, code, End, End)), p, i + 1)
  {
    LeafGood(words, i, p, rest, l, code);
  }

  /** A split adds exactly the leaf's word below link. */
  lemma SplitLeafWords(link: Chain, k: nat, t: nat, l: nat, code: Indexes)
    requires link.Link?
    ensures NodeLeafWords(CutAt(link.lab, k), SplitLink(link, k, t, l, code).child)
         == NodeLeafWords(link.lab, link.child) + [code.wordIndex]
  {
    var below := SplitLink(link, k, t, l, code).child;
    assert LeafWords(below.next) == [code.wordIndex];
    assert NodeLeafWords(below.lab, link.child) == NodeLeafWords(link.lab, link.child);
  }

  /** After a split of sibling link, c is still good, one bound higher, and holds word i besides its words. */
  lemma SplitChain(words: seq<string>, c: Chain, pre: string, word: string, i: nat, k: nat, link: Chain, t: nat, l: nat, code: Indexes)
    requires i < |words| && pre + word == words[i]
    requires Good(words, c, pre, i) && Unique(c) && link.Link? && SiblingSuffix(c, link)
    requires 1 <= k < |Spell(words, link.lab)| && k < |word|
    requires Spell(words, link.lab)[..k] == word[..k] && Spell(words, link.lab)[k] != word[k]
    requires code == Indexes(i, |words[i]| - |word[k..]|, |words[i]| - 1)
    ensures GainedWord(words, c, ReplaceAt(c, link.id, CutAt(link.lab, k), SplitLink(link, k, t, l, code).child), pre, i)
  {
    var labS := CutAt(link.lab, k);
    var below := SplitLink(link, k, t, l, code).child;
    SuffixGood(words, c, link, pre, i);
    SplitGood(words, i, pre, word, k, link, t, l, code);
    SplitLeafWords(link, k, t, l, code);
    assert multiset(NodeLeafWords(labS, below)) == multiset(NodeLeafWords(link.lab, link.child)) + multiset{i} by {
      assert NodeLeafWords(labS, below) == NodeLeafWords(link.lab, link.child) + [i];
    }
    ReplaceContents(words, c, pre, i, link, labS, below);
  }

  /**
   * Splitting sibling link after its first k characters, which the rest word
   * shares with it: link keeps them, a new node below it takes the rest of
   * its label and its children, and a new leaf for word i follows that node
   * (Trie.java:50-56, 68-74).
   */
  lemma SplitStep(words: seq<string>, ns0: seq<TrieNode>, ns: seq<TrieNode>, n: nat, word: string, i: nat, k: nat,
                  c: Chain, pre: string, link: Chain, code: Indexes)
    requires ReadyAt(words, ns0, n, c, pre, word, i)
    requires link.Link? && SiblingSuffix(c, link) && link.id < |ns0|
    requires 1 <= k < |Spell(words, link.lab)| && k < |word|
    requires Spell(words, link.lab)[..k] == word[..k] && Spell(words, link.lab)[k] != word[k]
    requires code == Indexes(i, |words[i]| - |word[k..]|, |words[i]| - 1)
    requires Extended(ns0, ns, [TrieNode(Some(code), None, None),
                                TrieNode(Some(CutFrom(link.lab, k)), ns0[link.id].firstChild, Some(|ns0|))],
                      link.id, ns0[link.id].(substr := Some(CutAt(link.lab, k)), firstChild := Some(|ns0| + 1)))
    ensures Inserted(words, ns0, ns, n, c, ReplaceAt(c, link.id, CutAt(link.lab, k), SplitLink(link, k, |ns0| + 1, |ns0|, code).child), pre, i)
  {
    SplitStepArena(words, ns0, ns, n, word, i, k, c, pre, link, code);
    SplitChain(words, c, pre, word, i, k, link, |ns0| + 1, |ns0|, code);
  }

  /** The arena half of SplitStep. */
  lemma SplitStepArena(words: seq<string>, ns0: seq<TrieNode>, ns: seq<TrieNode>, n: nat, word: string, i: nat, k: nat,
                       c: Chain, pre: string, link: Chain, code: Indexes)
    requires ReadyAt(words, ns0, n, c, pre, word, i)
    requires link.Link? && SiblingSuffix(c, link) && link.id < |ns0|
    requires Extended(ns0, ns, [TrieNode(Some(code), None, None),
                                TrieNode(Some(CutFrom(link.lab, k)), ns0[link.id].firstChild, Some(|ns0|))],
                      link.id, ns0[link.id].(substr := Some(CutAt(link.lab, k)), firstChild := Some(|ns0| + 1)))
    ensures ArenaGrown(ns0, ns, n, c, ReplaceAt(c, link.id, CutAt(link.lab, k), SplitLink(link, k, |ns0| + 1, |ns0|, code).child))
  {
    var labS := CutAt(link.lab, k);
    var below := SplitLink(link, k, |ns0| + 1, |ns0|, code).child;
    SuffixRep(ns0, ns0[n].firstChild, c, link);
    SuffixFacts(c, link);
    RepBounds(ns0, ns0[n].firstChild, c);
    SplitArena(ns0, ns, link, k, code);
    ReplaceArena(ns0, ns, n, c, link, labS, below);
  }

  /** Appending leaf after the last sibling of c, in the arena: the sibling link of last is all that changes. */
  lemma AppendArena(ns0: seq<TrieNode>, ns: seq<TrieNode>, n: nat, c: Chain, last: Chain, code: Indexes)
    requires n < |ns0| && Rep(ns0, ns0[n].firstChild, c) && Unique(c) && n !in Ids(c)
    requires last.Link? && last.next == End && SiblingSuffix(c, last) && last.id < |ns0|
    requires Extended(ns0, ns, [TrieNode(Some(code), None, None)], last.id, ns0[last.id].(sibling := Some(|ns0|)))
    ensures ArenaGrown(ns0, ns, n, c, AppendLast(c, Link(|ns0|, code, End, End)))
  {
    SuffixFacts(c, last);
    RepBounds(ns0, ns0[n].firstChild, c);
    var leafLink := Link(|ns0|, code, End, End);
    RangeMembers(|ns0|, |ns|);
    assert Ids(leafLink) == {|ns0|} == Range(|ns0|, |ns|);
    assert |ns0| !in Ids(c);
    AppendRep(ns0, ns, ns0[n].firstChild, c, last.id, last.lab, last.child, leafLink);
    AppendIds(c, leafLink);
  }

  /** No sibling starts with the rest word's first character: its leaf goes after the last sibling (Trie.java:79-81). */
  lemma AppendStep(words: seq<string>, ns0: seq<TrieNode>, ns: seq<TrieNode>, n: nat, word: string, i: nat,
                   c: Chain, pre: string, last: Chain, code: Indexes)
    requires ReadyAt(words, ns0, n, c, pre, word, i)
    requires last.Link? && last.next == End && SiblingSuffix(c, last) && last.id < |ns0|
    requires word[0] !in Heads(words, c)
    requires code == Indexes(i, |words[i]| - |word|, |words[i]| - 1)
    requires Extended(ns0, ns, [TrieNode(Some(code), None, None)], last.id, ns0[last.id].(sibling := Some(|ns0|)))
    ensures Inserted(words, ns0, ns, n, c, AppendLast(c, Link(|ns0|, code, End, End)), pre, i)
  {
    AppendArena(ns0, ns, n, c, last, code);
    AppendContents(words, i, pre, word, c, |ns0|, code);
  }

  /** The contents half of AppendStep: a leaf for word i, whose first character no sibling has, joins c. */
  lemma AppendContents(words: seq<string>, i: nat, pre: string, word: string, c: Chain, id: nat, code: Indexes)
    requires i < |words| && pre + word == words[i] && |word| >= 1
    requires Good(words, c, pre, i) && word[0] !in Heads(words, c)
    requires code == Indexes(i, |words[i]| - |word|, |words[i]| - 1)
    ensures GainedWord(words, c, AppendLast(c, Link(id, code, End, End)), pre, i)
  {
    var leafLink := Link(id, code, End, End);
    LeafGood(words, i, pre, word, id, code);
    AppendGood(words, c, pre, i, i + 1, leafLink);
    AppendLeafWords(c, leafLink);
  }

  /** A lone root is a valid trie over no words. */
  lemma EmptyInvariant(words: seq<string>)
    requires WellFormedWords(words)
    ensures TrieInvariant(words, [TrieNode(None, None, None)], End, 0)
  {
    RangeMembers(1, 1);
  }

  /** The next word may be inserted at the root of a valid trie. */
  lemma ReadyAtRoot(words: seq<string>, ns: seq<TrieNode>, shape: Chain, i: nat)
    requires TrieInvariant(words, ns, shape, i) && i < |words|
    ensures ReadyAt(words, ns, 0, shape, [], words[i], i)
  {
    RangeMembers(1, |ns|);
    assert [] + words[i] == words[i];
  }

  /** makeCode: the label of the last |word| characters of allWords[i]. */
  method MakeCode(word: string, allWords: seq<string>, i: nat) returns (code: Indexes)
    requires i < |allWords| && IsSuffix(word, allWords[i])
    ensures code == Indexes(i, |allWords[i]| - |word|, |allWords[i]| - 1)
    ensures Spell(allWords, code) == word
  {
    var w := allWords[i];
    ghost var d := |w| - |word|;
    SuffixLabel(allWords, i, word);
    var a := |word| - 1;
    var b := |w| - 1;
    if a >= 0 {
      SuffixChar(w, word, a);
    }
    while a >= 0 && b >= 0 && word[a] == w[b]
      invariant -1 <= a < |word| && b == a + d
      invariant a >= 0 ==> word[a] == w[b]
    {
      if a >= 1 {
        SuffixChar(w, word, a - 1);
      }
      a := a - 1;
      b := b - 1;
    }
    assert a == -1;
    code := Indexes(i, b + 1, |w| - 1);
  }

  /** Inserting word i at the root of a valid trie over i words gives a valid trie over i + 1 words. */
  lemma InsertKeepsInvariant(words: seq<string>, ns0: seq<TrieNode>, ns: seq<TrieNode>, shape: Chain, c: Chain, i: nat)
    requires TrieInvariant(words, ns0, shape, i) && i < |words|
    requires Inserted(words, ns0, ns, 0, shape, c, [], i)
    ensures TrieInvariant(words, ns, c, i + 1)
  {
    RangeUnion(1, |ns0|, |ns|);
  }

  class Trie {
    /** The words the trie indexes; every label is a range of one of them. */
    const allWords: seq<string>
    /** The arena of nodes; index 0 is the root. */
    var nodes: seq<TrieNode>
    /** The tree the arena holds below the root. */
    ghost var shape: Chain
    /** How many words, from the front of allWords, have been inserted. */
    ghost var count: nat

    /** The trie invariant (see TrieInvariant). */
    ghost predicate Valid()
      reads this
    {
      TrieInvariant(allWords, nodes, shape, count)
    }

    /** Node x carries a label that is a range of a stored word. */
    ghost predicate Labelled(x: nat)
      reads this
    {
      x < |nodes| && nodes[x].substr.Some? && InRange(allWords, nodes[x].substr.value)
    }

    /** buildTrie: inserts allWords[0], allWords[1], ... in this order into an empty trie. */
    constructor BuildTrie(allWords: seq<string>)
      requires WellFormedWords(allWords)
      ensures Valid() && this.allWords == allWords && count == |allWords|
    {
      this.allWords := allWords;
      nodes := [TrieNode(None, None, None)];
      shape := End;
      count := 0;
      new;
      EmptyInvariant(allWords);
      var i := 0;
      while i < |allWords|
        invariant 0 <= i <= |allWords| && count == i && this.allWords == allWords && Valid()
      {
        InsertNext(i);
        i := i + 1;
      }
    }

    /** One round of buildTrie's loop: inserts the next word at the root. */
    method InsertNext(i: nat)
      requires Valid() && count == i < |allWords|
      modifies this
      ensures Valid() && count == i + 1
    {
      ghost var ns0, shape0 := nodes, shape;
      ReadyAtRoot(allWords, nodes, shape, i);
      shape := SearchTrie(0, allWords[i], i, shape, []);
      count := i + 1;
      InsertKeepsInvariant(allWords, ns0, nodes, shape0, shape, i);
    }

    /** searchTrie: inserts word, the rest of allWords[i] after pre, below node n, whose children form c. */
    method SearchTrie(n: nat, word: string, i: nat, ghost c: Chain, ghost pre: string) returns (ghost c': Chain)
      requires ReadyAt(allWords, nodes, n, c, pre, word, i)
      modifies this`nodes
      ensures Inserted(allWords, old(nodes), nodes, n, c, c', pre, i)
      decreases |word|, 2
    {
      var ns0 := nodes;
      if ns0[n].firstChild.None? {
        RestIsSuffix(pre, word, allWords[i]);
        var code := MakeCode(word, allWords, i);
        var leaf := TrieNode(Some(code), None, None);
        var ns := (ns0 + [leaf])[n := ns0[n].(firstChild := Some(|ns0|))];
        ExtendedByUpdate(ns0, [leaf], n, ns0[n].(firstChild := Some(|ns0|)));
        FirstChildStep(allWords, ns0, ns, n, word, i, c, pre, code);
        c' := Link(|ns0|, code, End, End);
        nodes := ns;
        return;
      }
      var fc := nodes[n].firstChild.value;
      SiblingFacts(allWords, nodes, nodes[n].firstChild, c, pre, i, c);
      WordNotInsideLabel(allWords, c.lab, pre, word, i);
      var isPrefix := PrefixOf(fc, word);
      if isPrefix {
        c' := Descend(n, fc, word, i, c, pre, c);
        return;
      }
      var k := Common(fc, word);
      if k != 0 {
        ghost var link';
        c', link' := SplitChild(n, fc, word, i, k, c, pre, c);
      } else {
        c' := SearchSiblings(n, word, i, c, pre);
      }
    }

    /**
     * The sibling loop of searchTrie (Trie.java:58-81), entered when the
     * first child does not start with the first character of word: the
     * sibling that does, if any, is descended into or split, and otherwise
     * a leaf is appended after the last sibling.
     */
    method SearchSiblings(n: nat, word: string, i: nat, ghost c: Chain, ghost pre: string) returns (ghost c': Chain)
      requires ReadyAt(allWords, nodes, n, c, pre, word, i)
      requires c.Link? && HeadOf(allWords, c.lab) != word[0]
      modifies this`nodes
      ensures Inserted(allWords, old(nodes), nodes, n, c, c', pre, i)
      decreases |word|, 1
    {
      ghost var ns0 := nodes;
      SiblingFacts(allWords, nodes, nodes[n].firstChild, c, pre, i, c);
      var present := nodes[n].firstChild.value;
      var found := false;
      ghost var cur := c;
      ghost var rest := c;
      while nodes[present].sibling.Some?
        invariant present < |nodes|
        invariant rest.Link? && rest.id == present && Rep(nodes, Some(present), rest)
        invariant !found ==> cur == c && nodes == ns0 && SiblingSuffix(c, rest)
                             && (word[0] in Heads(allWords, c) ==> word[0] in Heads(allWords, rest.next))
        invariant found ==> Inserted(allWords, ns0, nodes, n, c, cur, pre, i) && SiblingSuffix(cur, rest)
                            && SiblingSuffix(c, rest.next) && word[0] !in Heads(allWords, rest.next)
        decreases SiblingCount(rest)
      {
        ghost var before := SiblingCount(rest);
        var y := nodes[present].sibling.value;
        ghost var link := rest.next;
        assert before == 1 + SiblingCount(link);
        if !found {
          SuffixNext(c, rest);
        }
        SiblingFacts(allWords, ns0, ns0[n].firstChild, c, pre, i, link);
        WordNotInsideLabel(allWords, link.lab, pre, word, i);
        var isPrefix := PrefixOf(y, word);
        if isPrefix {
          assert !found by {
            assert Spell(allWords, link.lab)[0] == word[0];
          }
          cur := Descend(n, y, word, i, c, pre, link);
          found := true;
          break;
        }
        var k := Common(y, word);
        if k != 0 {
          assert word[0] == HeadOf(allWords, link.lab) by {
            assert Spell(allWords, link.lab)[..k][0] == word[..k][0];
          }
          assert !found && link.Link? && SiblingCount(link) == 1 + SiblingCount(link.next);
          cur, rest := SplitChild(n, y, word, i, k, c, pre, link);
          assert SiblingCount(rest) == 1 + SiblingCount(link.next);
          SuffixNext(c, link);
          SuffixRep(nodes, nodes[n].firstChild, cur, rest);
          found := true;
        } else {
          if found {
            SuffixNext(cur, rest);
            SuffixNext(c, link);
          }
          rest := link;
        }
        present := y;
      }
      if !found {
        cur := AppendSibling(n, present, word, i, c, pre, rest);
      }
      c' := cur;
    }

    /** The label of sibling y is a prefix of word: insert the rest below y (Trie.java:46-48, 62-64). */
    method Descend(n: nat, y: nat, word: string, i: nat, ghost c: Chain, ghost pre: string, ghost link: Chain)
      returns (ghost c': Chain)
      requires ReadyAt(allWords, nodes, n, c, pre, word, i)
      requires link.Link? && link.id == y && SiblingSuffix(c, link)
      requires IsPrefix(Spell(allWords, link.lab), word)
      modifies this`nodes
      ensures Inserted(allWords, old(nodes), nodes, n, c, c', pre, i)
      ensures exists cy' :: c' == ReplaceAt(c, y, link.lab, cy')
      decreases |word|, 0
    {
      var ns0 := nodes;
      DescendReady(allWords, ns0, n, word, i, c, pre, link);
      var a := 1 + ns0[y].substr.value.endIndex - ns0[y].substr.value.startIndex;
      ghost var cy' := SearchTrie(y, word[a..], i, link.child, pre + Spell(allWords, link.lab));
      DescendStep(allWords, ns0, nodes, n, word, i, c, pre, link, cy');
      c' := ReplaceAt(c, y, link.lab, cy');
    }

    /**
     * Sibling y shares its first k characters, but not all, with word: y
     * keeps them, a new node takes the rest of y's label and y's children,
     * and a new leaf for the rest of word follows it (Trie.java:50-56, 68-74).
     */
    method SplitChild(n: nat, y: nat, word: string, i: nat, k: nat, ghost c: Chain, ghost pre: string, ghost link: Chain)
      returns (ghost c': Chain, ghost link': Chain)
      requires ReadyAt(allWords, nodes, n, c, pre, word, i)
      requires link.Link? && link.id == y && SiblingSuffix(c, link)
      requires 1 <= k < |Spell(allWords, link.lab)| && k < |word|
      requires Spell(allWords, link.lab)[..k] == word[..k] && Spell(allWords, link.lab)[k] != word[k]
      modifies this`nodes
      ensures Inserted(allWords, old(nodes), nodes, n, c, c', pre, i)
      ensures link'.Link? && link'.id == y && link'.next == link.next && SiblingSuffix(c', link')
      ensures c' == ReplaceAt(c, y, CutAt(link.lab, k), link'.child)
      ensures link' == SplitLink(link, k, |old(nodes)| + 1, |old(nodes)|, Indexes(i, |allWords[i]| - (|word| - k), |allWords[i]| - 1))
      ensures y < |old(nodes)| && old(nodes)[y].substr.Some?
      ensures nodes == SplitNodes(old(nodes), y, k, Indexes(i, |allWords[i]| - (|word| - k), |allWords[i]| - 1))
    {
      var ns0 := nodes;
      SiblingFacts(allWords, ns0, ns0[n].firstChild, c, pre, i, link);
      LaterRestIsSuffix(pre, word, allWords[i], k);
      var code := MakeCode(word[k..], allWords, i);
      assert code == Indexes(i, |allWords[i]| - (|word| - k), |allWords[i]| - 1);
      var ns := SplitNodes(ns0, y, k, code);
      SplitStep(allWords, ns0, ns, n, word, i, k, c, pre, link, code);
      link' := SplitLink(link, k, |ns0| + 1, |ns0|, code);
      assert link' == SplitLink(link, k, |ns0| + 1, |ns0|, Indexes(i, |allWords[i]| - (|word| - k), |allWords[i]| - 1));
      c' := ReplaceAt(c, link.id, CutAt(link.lab, k), link'.child);
      ReplaceSuffix(c, y, link.lab, link.child, link.next, link'.lab, link'.child);
      nodes := ns;
    }

    /** No sibling starts with the first character of word: a leaf for it goes after the last sibling z (Trie.java:79-81). */
    method AppendSibling(n: nat, z: nat, word: string, i: nat, ghost c: Chain, ghost pre: string, ghost last: Chain)
      returns (ghost c': Chain)
      requires ReadyAt(allWords, nodes, n, c, pre, word, i)
      requires last.Link? && last.id == z && last.next == End && SiblingSuffix(c, last)
      requires word[0] !in Heads(allWords, c)
      modifies this`nodes
      ensures Inserted(allWords, old(nodes), nodes, n, c, c', pre, i)
      ensures c' == AppendLast(c, Link(|old(nodes)|, Indexes(i, |allWords[i]| - |word|, |allWords[i]| - 1), End, End))
      ensures z < |old(nodes)|
      ensures nodes == AppendNodes(old(nodes), z, Indexes(i, |allWords[i]| - |word|, |allWords[i]| - 1))
    {
      var ns0 := nodes;
      SiblingFacts(allWords, ns0, ns0[n].firstChild, c, pre, i, last);
      RestIsSuffix(pre, word, allWords[i]);
      var code := MakeCode(word, allWords, i);
      assert code == Indexes(i, |allWords[i]| - |word|, |allWords[i]| - 1);
      var ns := AppendNodes(ns0, z, code);
      AppendStep(allWords, ns0, ns, n, word, i, c, pre, last, code);
      c' := AppendLast(c, Link(|ns0|, code, End, End));
      nodes := ns;
    }

    /** wordTrie: the characters the label of node x stands for. */
    function WordTrie(x: nat): (s: string)
      reads this
      requires Labelled(x)
      ensures |s| == nodes[x].substr.value.endIndex - nodes[x].substr.value.startIndex + 1
      ensures forall k :: 0 <= k < |s| ==>
        s[k] == allWords[nodes[x].substr.value.wordIndex][nodes[x].substr.value.startIndex + k]
    {
      Spell(allWords, nodes[x].substr.value)
    }

    /** prefixOf: whether the label of x is a prefix of word; word must not end inside the label. */
    method PrefixOf(x: nat, word: string) returns (result: bool)
      requires Labelled(x) && !(|word| < |WordTrie(x)| && IsPrefix(word, WordTrie(x)))
      ensures result <==> IsPrefix(WordTrie(x), word)
    {
      var a := WordTrie(x);
      var b := word;
      result := true;
      var i := 0;
      while i < |a|
        invariant 0 <= i <= |a| && i <= |b| && a[..i] == b[..i] && (i < |a| ==> i < |b|)
      {
        if a[i] != b[i] {
          result := false;
          break;
        }
        i := i + 1;
      }
    }

    /**
     * pprefixOf: 2 when word is a prefix of the label of x, 1 when the label
     * is a proper prefix of word, 0 when they differ before either ends.
     */
    method PPrefixOf(x: nat, word: string) returns (result: int)
      requires Labelled(x) && |word| >= 1
      ensures result == 2 <==> IsPrefix(word, WordTrie(x))
      ensures result == 1 <==> IsPrefix(WordTrie(x), word) && |WordTrie(x)| < |word|
      ensures result == 0 <==> !IsPrefix(word, WordTrie(x)) && !IsPrefix(WordTrie(x), word)
    {
      var a := WordTrie(x);
      var b := word;
      result := 1;
      var i := 0;
      while i < |a|
        invariant 0 <= i <= |a| && i < |b| && a[..i] == b[..i]
      {
        if a[i] != b[i] {
          result := 0;
          break;
        }
        if i + 1 == |b| {
          result := 2;
          assert a[..i + 1] == b;
          break;
        }
        i := i + 1;
      }
    }

    /** common: the length of the longest common prefix of the label of x and word, when neither contains the other. */
    method Common(x: nat, word: string) returns (k: nat)
      requires Labelled(x) && !IsPrefix(WordTrie(x), word) && !IsPrefix(word, WordTrie(x))
      ensures k < |WordTrie(x)| && k < |word|
      ensures WordTrie(x)[..k] == word[..k] && WordTrie(x)[k] != word[k]
    {
      var s := WordTrie(x);
      k := 0;
      while s[k] == word[k]
        invariant k < |s| && k < |word| && s[..k] == word[..k]
        decreases |s| - k
      {
        assert s[..k + 1] == word[..k + 1];
        k := k + 1;
      }
    }

    // ----- Completion -----

    /** Node x has children cx, spells prex, and lies in a good trie over the inserted words. */
    ghost predicate NodeView(x: nat, cx: Chain, prex: string)
      reads this
    {
      ViewAt(allWords, nodes, count, x, cx, prex)
    }

    /** The words below node x, which has children cx. */
    ghost function Below(x: nat, cx: Chain): set<nat>
      reads this
      requires x < |nodes|
    {
      NodeMatch(allWords, nodes[x].substr, cx, [])
    }

    lemma RootView()
      requires Valid()
      ensures NodeView(0, shape, [])
      ensures count > 0 <==> shape != End
      ensures forall p :: NodeMatch(allWords, nodes[0].substr, shape, p) == Matches(allWords, count, p)
    {
      UptoMembers(count);
      if shape != End {
        LeafWordsNonEmpty(allWords, shape, [], count);
        GoodWordsExtend(allWords, shape, [], count);
        assert LeafWords(shape)[0] in multiset(LeafWords(shape));
      }
      forall p ensures NodeMatch(allWords, nodes[0].substr, shape, p) == Matches(allWords, count, p) {
        if shape != End {
          assert forall w :: w in LeafWords(shape) <==> w in multiset(LeafWords(shape));
        }
      }
    }

    /** The child y of node n on the sibling chain c is seen through its own NodeView. */
    lemma ChildView(n: nat, c: Chain, pre: string, link: Chain)
      requires NodeView(n, c, pre) && link.Link? && SiblingSuffix(c, link)
      ensures NodeView(link.id, link.child, pre + Spell(allWords, link.lab))
      ensures nodes[link.id].substr == Some(link.lab) && InRange(allWords, link.lab) && Labelled(link.id)
      ensures WordTrie(link.id) == Spell(allWords, link.lab)
      ensures Rep(nodes, Some(link.id), link) && Good(allWords, link, pre, count)
      ensures |Spell(allWords, link.lab)| >= 1 && Spell(allWords, link.lab)[0] == HeadOf(allWords, link.lab)
      ensures HeadOf(allWords, link.lab) in Heads(allWords, c)
    {
      SuffixRep(nodes, nodes[n].firstChild, c, link);
      SuffixGood(allWords, c, link, pre, count);
      SuffixFacts(c, link);
      PathStep(allWords, link.lab, pre);
      var w := allWords[link.lab.wordIndex];
      if link.child == End {
        assert w[..link.lab.endIndex + 1] == w;
      }
      assert WordTrie(link.id) == w[link.lab.startIndex..link.lab.endIndex + 1];
    }

    /** Every word below a node starts with the node's path. */
    lemma BelowStartsWithPath(n: nat, c: Chain, pre: string)
      requires NodeView(n, c, pre)
      ensures Below(n, c) == NodeMatch(allWords, nodes[n].substr, c, pre)
    {
      if c != End {
        GoodWordsExtend(allWords, c, pre, count);
      }
    }

    /** Some word lies below every child of a node. */
    lemma ChildHasWords(n: nat, c: Chain, pre: string, link: Chain)
      requires NodeView(n, c, pre) && link.Link? && SiblingSuffix(c, link)
      ensures link.id < |nodes| && Below(link.id, link.child) != {}
    {
      ChildView(n, c, pre, link);
      LeafWordsNonEmpty(allWords, link, pre, count);
      BelowLinkExtends(allWords, link, pre, count);
      var w := NodeLeafWords(link.lab, link.child)[0];
      assert w in NodeLeafWords(link.lab, link.child);
      assert IsPrefix([], allWords[w]);
      assert w in Below(link.id, link.child);
    }

    /**
     * One comparison of findNode: how the words below n that start with
     * pre + prefix relate to the child link, by the outcome of comparing
     * prefix with the child's label.
     */
    lemma ChildStep(n: nat, c: Chain, pre: string, link: Chain, prefix: string)
      requires NodeView(n, c, pre) && link.Link? && SiblingSuffix(c, link) && |prefix| >= 1
      ensures NodeView(link.id, link.child, pre + Spell(allWords, link.lab)) && Labelled(link.id)
      ensures nodes[link.id].substr == Some(link.lab) && WordTrie(link.id) == Spell(allWords, link.lab)
      ensures 1 <= |Spell(allWords, link.lab)| == 1 + link.lab.endIndex - link.lab.startIndex
      ensures IsPrefix(prefix, Spell(allWords, link.lab)) ==>
        MatchIn(allWords, link, pre + prefix) == Below(link.id, link.child)
      ensures IsPrefix(Spell(allWords, link.lab), prefix) && |Spell(allWords, link.lab)| < |prefix| ==>
        (pre + Spell(allWords, link.lab)) + prefix[|Spell(allWords, link.lab)|..] == pre + prefix
        && MatchIn(allWords, link, pre + prefix) == NodeMatch(allWords, nodes[link.id].substr, link.child, pre + prefix)
      ensures !IsPrefix(prefix, Spell(allWords, link.lab)) && !IsPrefix(Spell(allWords, link.lab), prefix) ==>
        MatchIn(allWords, link, pre + prefix) == MatchIn(allWords, link.next, pre + prefix)
      ensures IsPrefix(prefix, Spell(allWords, link.lab)) || IsPrefix(Spell(allWords, link.lab), prefix) ==>
        prefix[0] in Heads(allWords, c)
    {
      ChildView(n, c, pre, link);
      var s := Spell(allWords, link.lab);
      MatchInLink(allWords, link, pre + prefix);
      if IsPrefix(prefix, s) {
        LaterSiblingsNoMatch(allWords, link, pre, count, prefix);
        InsideLabelAllMatch(allWords, link, pre, count, prefix);
      } else if IsPrefix(s, prefix) {
        LaterSiblingsNoMatch(allWords, link, pre, count, prefix);
        assert prefix == s + prefix[|s|..];
      } else {
        MismatchNoMatch(allWords, link, pre, count, prefix);
      }
    }

    /**
     * findNode, corrected: the node below which exactly the words starting
     * with prefix lie (pre + prefix counted from the root), or None when no
     * word below n starts with it.
     */
    method FindNode(n: nat, prefix: string, ghost c: Chain, ghost pre: string)
      returns (r: Option<nat>, ghost cr: Chain, ghost prer: string)
      requires NodeView(n, c, pre)
      ensures prefix == [] ==> r == Some(n) && cr == c
      ensures prefix != [] ==> (r.None? <==> NodeMatch(allWords, nodes[n].substr, c, pre + prefix) == {})
      ensures r.Some? ==> (NodeView(r.value, cr, prer)
        && Below(r.value, cr) == NodeMatch(allWords, nodes[n].substr, c, pre + prefix))
      decreases |prefix|
    {
      ghost var P := pre + prefix;
      ghost var M := NodeMatch(allWords, nodes[n].substr, c, P);
      if |prefix| == 0 {
        assert P == pre;
        BelowStartsWithPath(n, c, pre);
        return Some(n), c, pre;
      }
      if nodes[n].firstChild.None? {
        return None, End, [];
      }
      // The first child, then each later sibling in turn.
      var present := nodes[n].firstChild.value;
      ghost var rest := c;
      while true
        invariant rest.Link? && rest.id == present && SiblingSuffix(c, rest) && Rep(nodes, Some(present), rest)
        invariant M == MatchIn(allWords, rest, P)
        decreases SiblingCount(rest)
      {
        ChildStep(n, c, pre, rest, prefix);
        var t := PPrefixOf(present, prefix);
        if t == 1 {
          var a := 1 + nodes[present].substr.value.endIndex - nodes[present].substr.value.startIndex;
          assert M == NodeMatch(allWords, nodes[present].substr, rest.child, (pre + Spell(allWords, rest.lab)) + prefix[a..]);
          r, cr, prer := FindNode(present, prefix[a..], rest.child, pre + Spell(allWords, rest.lab));
          return;
        }
        if t == 2 {
          ChildHasWords(n, c, pre, rest);
          return Some(present), rest.child, pre + Spell(allWords, rest.lab);
        }
        if nodes[present].sibling.None? {
          assert rest.next == End && M == {};
          return None, End, [];
        }
        SuffixNext(c, rest);
        present := nodes[present].sibling.value;
        rest := rest.next;
      }
    }

    /**
     * What findNode as written answers from node n (children c, path pre)
     * for prefix: r, with the ghost node at (children cr, path prer) where
     * the walk stopped. An empty prefix gives n itself. When some word below
     * n starts with pre + prefix, r is a node below which exactly those words
     * lie. When none does, the walk ended at the deepest node whose path
     * prer the searched path continues, none of whose children continues
     * it; r is None exactly when that node has no children (Trie.java:176-177),
     * and otherwise it is that node (Trie.java:198), below which lie the
     * words that start with prer.
     */
    ghost predicate StopsAt(n: nat, prefix: string, c: Chain, pre: string,
                            r: Option<nat>, at: nat, cr: Chain, prer: string)
      reads this
    {
      n < |nodes| && NodeView(at, cr, prer) && IsPrefix(pre, prer) && (r.Some? ==> r.value == at)
      && (prefix == [] ==> r == Some(n) && cr == c && prer == pre)
      && (NodeMatch(allWords, nodes[n].substr, c, pre + prefix) != {} ==>
            r.Some? && Below(at, cr) == NodeMatch(allWords, nodes[n].substr, c, pre + prefix))
      && (prefix != [] && NodeMatch(allWords, nodes[n].substr, c, pre + prefix) == {} ==>
            IsPrefix(prer, pre + prefix) && |prer| < |pre + prefix|
            && (r.None? <==> cr == End)
            && NoneContinue(allWords, cr, (pre + prefix)[|prer|..])
            && Below(at, cr) == NodeMatch(allWords, nodes[n].substr, c, prer))
    }

    /**
     * findNode as written: identical to FindNode except that, when no child
     * of the node reached continues the rest of the prefix, it returns that
     * node (Trie.java:198) instead of null; see StopsAt. The result is stated
     * as StopsAt(...) == true so that the verifier checks it as one fact at
     * each return rather than clause by clause.
     */
    method FindNodeAsWritten(n: nat, prefix: string, ghost c: Chain, ghost pre: string)
      returns (r: Option<nat>, ghost at: nat, ghost cr: Chain, ghost prer: string)
      requires NodeView(n, c, pre)
      ensures StopsAt(n, prefix, c, pre, r, at, cr, prer) == true
      decreases |prefix|
    {
      ghost var P := pre + prefix;
      ghost var M := NodeMatch(allWords, nodes[n].substr, c, P);
      BelowStartsWithPath(n, c, pre);
      if |prefix| == 0 {
        assert P == pre;
        return Some(n), n, c, pre;
      }
      assert P[|pre|..] == prefix;
      if nodes[n].firstChild.None? {
        return None, n, c, pre;
      }
      var present := nodes[n].firstChild.value;
      ghost var rest := c;
      while true
        invariant rest.Link? && rest.id == present && SiblingSuffix(c, rest) && Rep(nodes, Some(present), rest)
        invariant M == MatchIn(allWords, rest, P)
        invariant NoneContinue(allWords, c, prefix) == NoneContinue(allWords, rest, prefix)
        decreases SiblingCount(rest)
      {
        ChildStep(n, c, pre, rest, prefix);
        var t := PPrefixOf(present, prefix);
        if t == 1 {
          var a := 1 + nodes[present].substr.value.endIndex - nodes[present].substr.value.startIndex;
          ghost var path := pre + Spell(allWords, rest.lab);
          assert M == NodeMatch(allWords, nodes[present].substr, rest.child, path + prefix[a..]);
          r, at, cr, prer := FindNodeAsWritten(present, prefix[a..], rest.child, path);
          PrefixTrans(pre, path, prer);
          if M == {} {
            assert prer[|pre|] == path[|pre|] == HeadOf(allWords, rest.lab);
            MatchAtHead(allWords, c, pre, count, rest, prer);
          }
          return;
        }
        if t == 2 {
          ChildHasWords(n, c, pre, rest);
          return Some(present), present, rest.child, pre + Spell(allWords, rest.lab);
        }
        if nodes[present].sibling.None? {
          assert rest.next == End && M == {};
          return Some(n), n, c, pre;
        }
        SuffixNext(c, rest);
        present := nodes[present].sibling.value;
        rest := rest.next;
      }
    }

    /** printAll: appends to list the leaves below node x, from left to right. */
    method PrintAll(x: nat, list: seq<nat>, ghost cx: Chain) returns (r: seq<nat>)
      requires x < |nodes| && Rep(nodes, nodes[x].firstChild, cx)
      ensures r == list + NodeLeaves(x, cx)
      decreases Size(cx)
    {
      if nodes[x].firstChild.None? {
        return list + [x];
      }
      var present := nodes[x].firstChild.value;
      ghost var rest := cx;
      r := PrintAll(present, list, cx.child);
      while nodes[present].sibling.Some?
        invariant rest.Link? && rest.id == present && SiblingSuffix(cx, rest) && Rep(nodes, Some(present), rest)
        invariant r + Leaves(rest.next) == list + Leaves(cx)
        decreases SiblingCount(rest)
      {
        var y := nodes[present].sibling.value;
        SuffixNext(cx, rest);
        SuffixFacts(cx, rest.next);
        ghost var link := rest.next;
        ghost var r0 := r;
        r := PrintAll(y, r, link.child);
        assert Leaves(link) == NodeLeaves(link.id, link.child) + Leaves(link.next);
        assert r + Leaves(link.next) == r0 + Leaves(link);
        present := y;
        rest := link;
      }
      assert rest.next == End;
    }

    /** The leaves below a node are leaves of the arena, each listed once, and carry exactly the words below it. */
    lemma LeavesBelow(x: nat, cx: Chain, prex: string)
      requires NodeView(x, cx, prex) && (cx != End || nodes[x].substr.Some?)
      ensures ListsLeaves(nodes, NodeLeaves(x, cx), Below(x, cx))
    {
      if cx != End {
        LeavesInArena(nodes, nodes[x].firstChild, cx);
        LeavesDistinct(cx);
        GoodWordsExtend(allWords, cx, prex, count);
        var list := Leaves(cx);
        forall w | w in LeafWords(cx) ensures w in WordsOf(nodes, list) {
          var k :| 0 <= k < |LeafWords(cx)| && LeafWords(cx)[k] == w;
          assert list[k] in list;
        }
        forall w | w in WordsOf(nodes, list) ensures w in LeafWords(cx) {
          var l :| l in list && l < |nodes| && nodes[l].substr.Some? && nodes[l].substr.value.wordIndex == w;
          var k :| 0 <= k < |list| && list[k] == l;
        }
      }
    }

    /**
     * completionList, corrected: the leaves whose words start with prefix,
     * or None when there are none. As in the source, an empty prefix on an
     * empty trie yields the root alone.
     */
    method CompletionList(prefix: string) returns (r: Option<seq<nat>>)
      requires Valid()
      ensures r.None? <==> prefix != [] && Matches(allWords, count, prefix) == {}
      ensures r.Some? && count == 0 ==> r.value == [0]
      ensures r.Some? && count > 0 ==> ListsLeaves(nodes, r.value, Matches(allWords, count, prefix))
    {
      var list: seq<nat> := [];
      RootView();
      var x, cx, prex := FindNode(0, prefix, shape, []);
      assert [] + prefix == prefix;
      if x.None? {
        return None;
      }
      if count > 0 {
        LeavesBelow(x.value, cx, prex);
      } else {
        RangeMembers(1, |nodes|);
      }
      var leaves := PrintAll(x.value, list, cx);
      return Some(leaves);
    }

    /**
     * Where the walk of findNode as written stops on a prefix no word starts
     * with: at the node at, whose path q falls short of prefix and none of
     * whose children continues it. No word continues past q exactly when at
     * has no children; and the words that continue q with the next character
     * of prefix all share a stem that prefix leaves.
     */
    lemma StuckView(prefix: string, at: nat, cx: Chain, q: string) returns (stem: string)
      requires Valid() && NodeView(at, cx, q)
      requires IsPrefix(q, prefix) && |q| < |prefix| && Matches(allWords, count, prefix) == {}
      requires NoneContinue(allWords, cx, prefix[|q|..]) && Below(at, cx) == Matches(allWords, count, q)
      ensures cx == End <==> forall w :: w in Matches(allWords, count, q) ==> |allWords[w]| == |q|
      ensures Matches(allWords, count, q + [prefix[|q|]]) != {} ==>
        IsPrefix(q + [prefix[|q|]], stem) && !IsPrefix(stem, prefix)
        && forall w :: w in Matches(allWords, count, q + [prefix[|q|]]) ==> IsPrefix(stem, allWords[w])
    {
      stem := [];
      if cx != End {
        LeafWordsNonEmpty(allWords, cx, q, count);
        BelowLinkExtends(allWords, cx, q, count);
        GoodFirst(allWords, cx, q, count);
        PathStep(allWords, cx.lab, q);
        var w := NodeLeafWords(cx.lab, cx.child)[0];
        assert w in LeafWords(cx);
        assert w in Below(at, cx);
      }
      var rem := prefix[|q|..];
      var p1 := q + [rem[0]];
      assert prefix == q + rem && p1 == q + [prefix[|q|]];
      forall w | w in Matches(allWords, count, p1) ensures w in MatchIn(allWords, cx, p1) {
        PrefixTrans(q, p1, allWords[w]);
        assert w in Below(at, cx);
      }
      if Matches(allWords, count, p1) != {} {
        stem := ChainStem(allWords, cx, q, count, rem);
      }
    }

    /**
     * completionList as written, on top of FindNodeAsWritten: correct when
     * some word starts with prefix. When none does, the walk stops at the
     * node at (children cx, path q), the deepest node on the way whose path
     * prefix continues and none of whose children continues the rest of
     * prefix; the answer is the leaves below at instead of null, and null
     * only when at is a leaf or the trie is empty.
     */
    method CompletionListAsWritten(prefix: string)
        returns (r: Option<seq<nat>>, ghost q: string, ghost stem: string, ghost at: nat, ghost cx: Chain)
      requires Valid()
      ensures r.None? ==> prefix != [] && Matches(allWords, count, prefix) == {}
      ensures prefix == [] ==> r.Some?
      ensures r.Some? && count == 0 ==> r.value == [0]
      ensures Matches(allWords, count, prefix) != {} ==>
        r.Some? && ListsLeaves(nodes, r.value, Matches(allWords, count, prefix))
      ensures NodeView(at, cx, q) && (r.Some? ==> r.value == NodeLeaves(at, cx))
      ensures prefix != [] && Matches(allWords, count, prefix) == {} ==>
        IsPrefix(q, prefix) && |q| < |prefix|
        && (r.None? <==> forall w :: w in Matches(allWords, count, q) ==> |allWords[w]| == |q|)
        && NoneContinue(allWords, cx, prefix[|q|..]) && Below(at, cx) == Matches(allWords, count, q)
        && (r.Some? ==> ListsLeaves(nodes, r.value, Matches(allWords, count, q)))
        && (Matches(allWords, count, q + [prefix[|q|]]) != {} ==>
              IsPrefix(q + [prefix[|q|]], stem) && !IsPrefix(stem, prefix)
              && forall w :: w in Matches(allWords, count, q + [prefix[|q|]]) ==> IsPrefix(stem, allWords[w]))
    {
      var list: seq<nat> := [];
      RootView();
      var x;
      ghost var prex;
      x, at, cx, prex := FindNodeAsWritten(0, prefix, shape, []);
      assert [] + prefix == prefix;
      q, stem := prex, [];
      if prefix != [] && Matches(allWords, count, prefix) == {} {
        stem := StuckView(prefix, at, cx, prex);
      }
      if x.None? {
        return None, q, stem, at, cx;
      }
      if cx != End || nodes[at].substr.Some? {
        LeavesBelow(at, cx, prex);
      }
      var leaves := PrintAll(x.value, list, cx);
      return Some(leaves), q, stem, at, cx;
    }
  }

  /** The words of the example in the completionList documentation. */
  const ExampleWords: seq<string> := ["bear", "bull", "stock", "bell"]

  lemma ExampleWellFormed()
    ensures WellFormedWords(ExampleWords)
  {
    var words := ExampleWords;
    assert |words| == 4;
    assert words[0][..4] == "bear" && words[1][..4] == "bull" && words[2][..4] == "stoc" && words[3][..4] == "bell";
    forall i, j | 0 <= i < 4 && 0 <= j < 4 && i != j ensures !IsPrefix(words[i], words[j]) {
      // The first four characters already tell the words apart.
      assert words[i][..4] != words[j][..4];
    }
  }

  /** The example words that start with p, decided word by word. */
  lemma ExampleMatchesOf(p: string, ws: set<nat>)
    requires forall w :: 0 <= w < 4 ==> (w in ws <==> IsPrefix(p, ExampleWords[w]))
    requires forall w :: w in ws ==> w < 4
    ensures Matches(ExampleWords, 4, p) == ws
  {
  }

  lemma ExampleMatches()
    ensures Matches(ExampleWords, 4, "b") == {0, 1, 3}
    ensures Matches(ExampleWords, 4, "be") == {0, 3}
    ensures Matches(ExampleWords, 4, "bell") == {3}
    ensures Matches(ExampleWords, 4, "bz") == {} && Matches(ExampleWords, 4, "bex") == {}
  {
    var words := ExampleWords;
    assert words[0][..1] == "b" && words[1][..1] == "b" && words[2][..1] == "s" && words[3][..1] == "b";
    assert words[0][..2] == "be" && words[1][..2] == "bu" && words[3][..2] == "be";
    assert words[0][..3] == "bea" && words[3][..3] == "bel";
    assert words[0][..4] == "bear" && words[1][..4] == "bull" && words[3][..4] == "bell";
    ExampleMatchesOf("b", {0, 1, 3});
    ExampleMatchesOf("be", {0, 3});
    ExampleMatchesOf("bell", {3});
    ExampleMatchesOf("bz", {});
    ExampleMatchesOf("bex", {});
  }

  /**
   * Two example words that start with c but differ right after it admit no
   * common stem longer than c.
   */
  lemma ShortStem(stem: string, c: string, v: nat, w: nat)
    requires |c| >= 1 && IsPrefix(c, stem) && v < 4 && w < 4
    requires IsPrefix(stem, ExampleWords[v]) && IsPrefix(stem, ExampleWords[w])
    requires |c| < |ExampleWords[v]| && |c| < |ExampleWords[w]|
    requires ExampleWords[v][|c|] != ExampleWords[w][|c|]
    ensures stem == c
  {
  }

  /**
   * On bz the walk as written stops at the node spelling b: the words
   * continuing the empty path with b (bear, bull, bell) share no stem
   * longer than b, which bz does not leave.
   */
  lemma ExampleStuckAtB(q: string, stem: string)
    requires IsPrefix(q, "bz") && |q| < 2
    requires Matches(ExampleWords, 4, q + ["bz"[|q|]]) != {} ==>
      IsPrefix(q + ["bz"[|q|]], stem) && !IsPrefix(stem, "bz")
      && forall w :: w in Matches(ExampleWords, 4, q + ["bz"[|q|]]) ==> IsPrefix(stem, ExampleWords[w])
    ensures q == "b"
  {
    ExampleMatches();
    if q == [] {
      assert q + ["bz"[|q|]] == "b";
      assert 0 in Matches(ExampleWords, 4, "b") && 1 in Matches(ExampleWords, 4, "b");
      ShortStem(stem, "b", 0, 1);
    }
    assert q == "bz"[..1];
  }

  /** On bex the walk as written stops at the node spelling be. */
  lemma ExampleStuckAtBe(q: string, stem: string)
    requires IsPrefix(q, "bex") && |q| < 3
    requires Matches(ExampleWords, 4, q + ["bex"[|q|]]) != {} ==>
      IsPrefix(q + ["bex"[|q|]], stem) && !IsPrefix(stem, "bex")
      && forall w :: w in Matches(ExampleWords, 4, q + ["bex"[|q|]]) ==> IsPrefix(stem, ExampleWords[w])
    ensures q == "be"
  {
    ExampleMatches();
    if |q| == 0 {
      assert q + ["bex"[|q|]] == "b";
      assert 0 in Matches(ExampleWords, 4, "b") && 1 in Matches(ExampleWords, 4, "b");
      ShortStem(stem, "b", 0, 1);
    } else if |q| == 1 {
      assert q + ["bex"[|q|]] == "be";
      assert 0 in Matches(ExampleWords, 4, "be") && 3 in Matches(ExampleWords, 4, "be");
      ShortStem(stem, "be", 0, 3);
    }
    assert q == "bex"[..2];
  }

  /**
   * The example of the completionList documentation (bear, bull, stock,
   * bell) with prefixes b, be and bell, and what the code as written
   * answers for bz and bex, which no word starts with: the leaves below
   * the node spelling b, and below the node spelling be.
   */
  method CompletionExamples() returns (t: Trie, b: seq<nat>, be: seq<nat>, bell: seq<nat>,
                                       bz: Option<seq<nat>>, bzAsWritten: seq<nat>, bexAsWritten: seq<nat>)
    ensures t.allWords == ExampleWords
    ensures ListsLeaves(t.nodes, b, {0, 1, 3}) && ListsLeaves(t.nodes, be, {0, 3}) && ListsLeaves(t.nodes, bell, {3})
    ensures bz == None
    ensures ListsLeaves(t.nodes, bzAsWritten, {0, 1, 3}) && ListsLeaves(t.nodes, bexAsWritten, {0, 3})
  {
    ExampleWellFormed();
    ExampleMatches();
    t := new Trie.BuildTrie(ExampleWords);
    var r := t.CompletionList("b");
    b := r.value;
    r := t.CompletionList("be");
    be := r.value;
    r := t.CompletionList("bell");
    bell := r.value;
    bz := t.CompletionList("bz");
    ghost var q, stem, at, cx;
    r, q, stem, at, cx := t.CompletionListAsWritten("bz");
    ExampleStuckAtB(q, stem);
    assert |ExampleWords[0]| != |q|;
    bzAsWritten := r.value;
    r, q, stem, at, cx := t.CompletionListAsWritten("bex");
    ExampleStuckAtBe(q, stem);
    assert |ExampleWords[0]| != |q|;
    bexAsWritten := r.value;
  }
}
