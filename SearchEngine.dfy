/**
 * The keyword index of the little search engine: keyword extraction,
 * descending occurrence lists kept sorted by a binary-search insertion,
 * folding one document's keywords into the master index, and the
 * "kw1 or kw2" top-five search.
 */
module SearchEngine {
  import opened Wrappers
  import opened Ascii

  /** A keyword's occurrence in one document: the document's name and how often the keyword occurs there. */
  datatype Occurrence = Occurrence(document: string, frequency: int)

  // ---------------------------------------------------------------------
  // Keywords
  // ---------------------------------------------------------------------

  predicate IsLetter(c: char) {
    'a' <= c <= 'z'
  }

  /** The six characters that count as punctuation. */
  predicate IsPunct(c: char) {
    c == '.' || c == ',' || c == '?' || c == ':' || c == ';' || c == '!'
  }

  /** The length of the longest run of letters at the front of s. */
  function LetterRun(s: string): (k: nat)
    ensures k <= |s|
    ensures forall j :: 0 <= j < k ==> IsLetter(s[j])
    ensures k < |s| ==> !IsLetter(s[k])
  {
    if s == [] || !IsLetter(s[0]) then 0 else 1 + LetterRun(s[1..])
  }

  /**
   * The keyword a word stands for: the word in lower case must be a run of
   * letters followed only by punctuation; the run is the keyword unless it
   * is empty or a noise word.
   */
  function KeywordOf(noise: set<string>, word: string): Option<string>
  {
    var w := Lower(word);
    var k := LetterRun(w);
    if (forall j :: k <= j < |w| ==> IsPunct(w[j])) && 0 < k && w[..k] !in noise then Some(w[..k]) else None
  }

  /** The letters of s, in order: s with every other character removed. */
  function Letters(s: string): string
  {
    if s == [] then [] else (if IsLetter(s[0]) then [s[0]] else []) + Letters(s[1..])
  }

  /** Every character is a letter or punctuation. */
  predicate OnlyWordChars(s: string) {
    forall j :: 0 <= j < |s| ==> IsLetter(s[j]) || IsPunct(s[j])
  }

  /** No letter follows a punctuation character. */
  predicate PunctuationTrails(s: string) {
    forall j1, j2 :: 0 <= j1 < j2 < |s| && IsPunct(s[j1]) ==> !IsLetter(s[j2])
  }

  lemma {:induction false} LettersOfRun(s: string, k: nat)
    requires k <= |s|
    requires forall j :: 0 <= j < k ==> IsLetter(s[j])
    requires forall j :: k <= j < |s| ==> IsPunct(s[j])
    ensures Letters(s) == s[..k]
  {
    if s != [] {
      if k == 0 {
        LettersOfRun(s[1..], 0);
      } else {
        LettersOfRun(s[1..], k - 1);
        assert s[..k] == [s[0]] + s[1..][..k - 1];
      }
    }
  }

  /**
   * The keyword test stated without the letter run: a word yields a keyword
   * exactly when its lower-case form holds only letters and punctuation,
   * no letter follows punctuation, and what is left once the punctuation is
   * stripped is neither empty nor a noise word; the keyword is that remainder.
   */
  lemma KeywordOfSpec(noise: set<string>, word: string)
    ensures var w := Lower(word);
      KeywordOf(noise, word) ==
        if OnlyWordChars(w) && PunctuationTrails(w) && Letters(w) != [] && Letters(w) !in noise
        then Some(Letters(w)) else None
  {
    var w := Lower(word);
    if forall j :: LetterRun(w) <= j < |w| ==> IsPunct(w[j]) {
      RunThenPunctuation(w);
    } else {
      RunThenOther(w);
    }
  }

  /** A letter run followed only by punctuation is a well-shaped word whose letters are the run. */
  lemma RunThenPunctuation(w: string)
    requires forall j :: LetterRun(w) <= j < |w| ==> IsPunct(w[j])
    ensures OnlyWordChars(w) && PunctuationTrails(w) && Letters(w) == w[..LetterRun(w)]
  {
    var k := LetterRun(w);
    LettersOfRun(w, k);
    assert PunctuationTrails(w) by {
      forall j1, j2 | 0 <= j1 < j2 < |w| && IsPunct(w[j1])
        ensures !IsLetter(w[j2])
      {
        assert k <= j1;
      }
    }
  }

  /** A letter run followed by anything but punctuation leaves a word of another shape. */
  lemma RunThenOther(w: string)
    requires !forall j :: LetterRun(w) <= j < |w| ==> IsPunct(w[j])
    ensures !(OnlyWordChars(w) && PunctuationTrails(w))
  {
    var k := LetterRun(w);
    var j :| k <= j < |w| && !IsPunct(w[j]);
    if !IsLetter(w[j]) {
      assert !OnlyWordChars(w) by {
        assert !(IsLetter(w[j]) || IsPunct(w[j]));
      }
    } else if !IsPunct(w[k]) {
      assert !OnlyWordChars(w) by {
        assert !(IsLetter(w[k]) || IsPunct(w[k]));
      }
    } else {
      assert !PunctuationTrails(w) by {
        assert k < j && IsPunct(w[k]) && IsLetter(w[j]);
      }
    }
  }

  /** Deleting the character at k from w0 with d characters already deleted there. */
  lemma DeleteAt(w0: string, k: nat, d: nat, w: string)
    requires k + d < |w0| && w == w0[..k] + w0[k + d..]
    ensures w[k] == w0[k + d]
    ensures w[..k] + w[k + 1..] == w0[..k] + w0[k + d + 1..]
  {
    assert w[..k] == w0[..k];
    assert w[k + 1..] == w0[k + d + 1..];
  }

  /** A keyword is a non-empty run of lower-case letters that is not a noise word. */
  lemma KeywordShape(noise: set<string>, word: string, kw: string)
    requires KeywordOf(noise, word) == Some(kw)
    ensures |kw| >= 1 && kw !in noise
    ensures forall j :: 0 <= j < |kw| ==> IsLetter(kw[j])
    ensures kw <= Lower(word)
  {
  }

  lemma LowerWordExample()
    ensures Lower("Word?!?!") == "word?!?!"
  {
  }

  lemma LetterRunExample()
    ensures LetterRun("word?!?!") == 4
  {
  }

  /** Trailing punctuation is stripped and the word is folded to lower case. */
  lemma KeywordStripsPunctuation()
    ensures KeywordOf({}, "Word?!?!") == Some("word")
  {
    LowerWordExample();
    LetterRunExample();
    var w := "word?!?!";
    forall j | 4 <= j < |w| ensures IsPunct(w[j]) {
      assert j == 4 || j == 5 || j == 6 || j == 7;
    }
    assert w[..4] == "word";
  }

  /** A character that is neither a letter nor punctuation rejects the word. */
  lemma KeywordRejectsOtherCharacters()
    ensures KeywordOf({}, "it's") == None
    ensures KeywordOf({}, "r2d2") == None
  {
    var w := Lower("it's");
    assert w[2] == '\'' && LetterRun(w) == 2;
    var v := Lower("r2d2");
    assert v[1] == '2' && LetterRun(v) == 1;
  }

  /** A letter after punctuation rejects the word. */
  lemma KeywordRejectsLetterAfterPunctuation()
    ensures KeywordOf({}, "a.b") == None
  {
    var w := Lower("a.b");
    assert w[2] == 'b' && LetterRun(w) == 1;
  }

  /** Punctuation alone, and a noise word, give no keyword. */
  lemma KeywordRejectsEmptyAndNoise()
    ensures KeywordOf({}, "?!") == None
    ensures KeywordOf({"the"}, "The.") == None
  {
    var w := Lower("?!");
    assert w[0] == '?' && LetterRun(w) == 0;
    var v := Lower("The.");
    assert v == "the." by {
      forall k | 0 <= k < 4 ensures v[k] == "the."[k] {
        assert v[k] == LowerChar("The."[k]);
      }
    }
    assert LetterRun(v) == 3;
    assert v[..3] == "the";
  }

  // ---------------------------------------------------------------------
  // Occurrence lists
  // ---------------------------------------------------------------------

  /** Frequencies never increase along the list. */
  ghost predicate Descending(s: seq<Occurrence>) {
    forall j, k :: 0 <= j < k < |s| ==> s[j].frequency >= s[k].frequency
  }

  /** s with x placed at position p. */
  function Insert(s: seq<Occurrence>, p: nat, x: Occurrence): seq<Occurrence>
    requires p <= |s|
  {
    s[..p] + [x] + s[p..]
  }

  lemma InsertDescending(s: seq<Occurrence>, p: nat, x: Occurrence)
    requires p <= |s| && Descending(s)
    requires forall j :: 0 <= j < p ==> s[j].frequency >= x.frequency
    requires forall j :: p <= j < |s| ==> s[j].frequency <= x.frequency
    ensures Descending(Insert(s, p, x))
  {
    var t := Insert(s, p, x);
    forall j, k | 0 <= j < k < |t|
      ensures t[j].frequency >= t[k].frequency
    {
      if k < p {
      } else if k == p {
        assert t[j] == s[j];
      } else if j < p {
        assert t[j] == s[j] && t[k] == s[k - 1];
      } else if j == p {
        assert t[k] == s[k - 1];
      } else {
        assert t[j] == s[j - 1] && t[k] == s[k - 1];
      }
    }
  }

  lemma InsertMultiset(s: seq<Occurrence>, p: nat, x: Occurrence)
    requires p <= |s|
    ensures multiset(Insert(s, p, x)) == multiset(s) + multiset{x}
  {
    assert s == s[..p] + s[p..];
  }

  /**
   * What the binary search knows about the range it has left: once the
   * prefix is descending, everything before low is more frequent than x
   * and everything after high is less frequent.
   */
  ghost predicate Bracketed(prefix: seq<Occurrence>, x: Occurrence, high: int, low: int) {
    Descending(prefix) ==>
      (forall j :: 0 <= j < low && j < |prefix| ==> prefix[j].frequency > x.frequency) &&
      (forall j :: high < j < |prefix| && 0 <= j ==> prefix[j].frequency < x.frequency)
  }

  /** Position p of prefix is where x belongs: no less frequent occurrence before it, no more frequent one from it on. */
  ghost predicate Splits(prefix: seq<Occurrence>, x: Occurrence, p: int) {
    (forall j :: 0 <= j < p && j < |prefix| ==> prefix[j].frequency >= x.frequency) &&
    (forall j :: p <= j < |prefix| && 0 <= j ==> prefix[j].frequency <= x.frequency)
  }

  /** Probing mid narrows the bracket to the half that can still hold x. */
  lemma Narrow(prefix: seq<Occurrence>, x: Occurrence, high: int, low: int, mid: int)
    requires Bracketed(prefix, x, high, low) && 0 <= low <= mid <= high < |prefix|
    ensures prefix[mid].frequency < x.frequency ==> Bracketed(prefix, x, mid - 1, low)
    ensures prefix[mid].frequency > x.frequency ==> Bracketed(prefix, x, high, mid + 1)
  {
    if Descending(prefix) {
      assert forall j :: 0 <= j < mid ==> prefix[j].frequency >= prefix[mid].frequency;
      assert forall j :: mid < j < |prefix| ==> prefix[j].frequency <= prefix[mid].frequency;
    }
  }

  /**
   * The binary search for the place of the last occurrence of occs among
   * positions low..high + 1 of the ones before it probes mid = (high + low) / 2,
   * goes left when occs[mid] is less frequent than the last occurrence, right
   * when it is more frequent, and stops on a tie. Probes is list followed by
   * every midpoint probed, in order.
   */
  function Probes(occs: seq<Occurrence>, high: int, low: int, list: seq<int>): seq<int>
    requires 0 <= low <= high + 1 <= |occs| - 1
    decreases high - low + 1
  {
    if high < low then list
    else
      var mid := (high + low) / 2;
      if occs[mid].frequency < occs[|occs| - 1].frequency then Probes(occs, mid - 1, low, list + [mid])
      else if occs[mid].frequency > occs[|occs| - 1].frequency then Probes(occs, high, mid + 1, list + [mid])
      else list + [mid]
  }

  /** The place the same search chooses: mid on a tie, and low once the range is empty. */
  function Place(occs: seq<Occurrence>, high: int, low: int): (p: int)
    requires 0 <= low <= high + 1 <= |occs| - 1
    ensures low <= p <= high + 1
    decreases high - low + 1
  {
    if high < low then low
    else
      var mid := (high + low) / 2;
      if occs[mid].frequency < occs[|occs| - 1].frequency then Place(occs, mid - 1, low)
      else if occs[mid].frequency > occs[|occs| - 1].frequency then Place(occs, high, mid + 1)
      else mid
  }

  /** A probe that finds a less frequent occurrence continues in the left half. */
  lemma ProbeLeft(occs: seq<Occurrence>, high: int, low: int, list: seq<int>, mid: int)
    requires 0 <= low <= high < |occs| - 1 && mid == (high + low) / 2
    requires occs[mid].frequency < occs[|occs| - 1].frequency
    ensures Probes(occs, high, low, list) == Probes(occs, mid - 1, low, list + [mid])
    ensures Place(occs, high, low) == Place(occs, mid - 1, low)
  {
  }

  /** A probe that finds a more frequent occurrence continues in the right half. */
  lemma ProbeRight(occs: seq<Occurrence>, high: int, low: int, list: seq<int>, mid: int)
    requires 0 <= low <= high < |occs| - 1 && mid == (high + low) / 2
    requires occs[mid].frequency > occs[|occs| - 1].frequency
    ensures Probes(occs, high, low, list) == Probes(occs, high, mid + 1, list + [mid])
    ensures Place(occs, high, low) == Place(occs, high, mid + 1)
  {
  }

  /** A probe that finds an equal frequency ends the search at mid. */
  lemma ProbeHit(occs: seq<Occurrence>, high: int, low: int, list: seq<int>, mid: int)
    requires 0 <= low <= high < |occs| - 1 && mid == (high + low) / 2
    requires occs[mid].frequency == occs[|occs| - 1].frequency
    ensures Probes(occs, high, low, list) == list + [mid]
    ensures Place(occs, high, low) == mid
  {
  }

  /**
   * The search keeps list as it is and adds only midpoints of the range it
   * is given, at least one exactly when that range is not empty.
   */
  lemma {:induction false} ProbesInRange(occs: seq<Occurrence>, high: int, low: int, list: seq<int>, m: seq<int>)
    requires 0 <= low <= high + 1 <= |occs| - 1 && m == Probes(occs, high, low, list)
    ensures |list| <= |m| && m[..|list|] == list
    ensures forall k :: |list| <= k < |m| ==> low <= m[k] <= high
    ensures low <= high <==> |m| > |list|
    decreases high - low + 1
  {
    if low <= high {
      var mid := (high + low) / 2;
      if occs[mid].frequency < occs[|occs| - 1].frequency {
        ProbeLeft(occs, high, low, list, mid);
        ProbesInRange(occs, mid - 1, low, list + [mid], m);
        assert m[..|list|] == (list + [mid])[..|list|] && m[|list|] == (list + [mid])[|list|];
      } else if occs[mid].frequency > occs[|occs| - 1].frequency {
        ProbeRight(occs, high, low, list, mid);
        ProbesInRange(occs, high, mid + 1, list + [mid], m);
        assert m[..|list|] == (list + [mid])[..|list|] && m[|list|] == (list + [mid])[|list|];
      } else {
        ProbeHit(occs, high, low, list, mid);
      }
    }
  }

  /** The last element of a non-empty list of midpoints. */
  function Last(m: seq<int>): int
    requires |m| >= 1
  {
    m[|m| - 1]
  }

  /**
   * When the last midpoint the search probed ties with the last occurrence,
   * the search chooses that midpoint.
   */
  lemma {:induction false} ProbesTie(occs: seq<Occurrence>, high: int, low: int, list: seq<int>, m: seq<int>)
    requires 0 <= low <= high + 1 <= |occs| - 1 && m == Probes(occs, high, low, list)
    requires |m| > |list| && 0 <= Last(m) < |occs| && occs[Last(m)].frequency == occs[|occs| - 1].frequency
    ensures Place(occs, high, low) == Last(m)
    decreases high - low + 1
  {
    var mid := (high + low) / 2;
    if occs[mid].frequency < occs[|occs| - 1].frequency {
      ProbeLeft(occs, high, low, list, mid);
      if mid - 1 < low {
        // The search ends on mid, which does not tie.
        assert false;
      }
      ProbesInRange(occs, mid - 1, low, list + [mid], m);
      ProbesTie(occs, mid - 1, low, list + [mid], m);
    } else if occs[mid].frequency > occs[|occs| - 1].frequency {
      ProbeRight(occs, high, low, list, mid);
      if high < mid + 1 {
        // The search ends on mid, which does not tie.
        assert false;
      }
      ProbesInRange(occs, high, mid + 1, list + [mid], m);
      ProbesTie(occs, high, mid + 1, list + [mid], m);
    } else {
      ProbeHit(occs, high, low, list, mid);
    }
  }

  /**
   * Two searches worked by hand: frequencies 5, 3, 1 followed by a new 4
   * probe 1 then 0 and insert at 1; frequencies 3, 3, 3 followed by a new 3
   * probe 1 and insert there.
   */
  lemma ProbesExamples()
    ensures Probes([Occurrence("a", 5), Occurrence("b", 3), Occurrence("c", 1), Occurrence("d", 4)], 2, 0, []) == [1, 0]
    ensures Place([Occurrence("a", 5), Occurrence("b", 3), Occurrence("c", 1), Occurrence("d", 4)], 2, 0) == 1
    ensures Probes([Occurrence("a", 3), Occurrence("b", 3), Occurrence("c", 3), Occurrence("d", 3)], 2, 0, []) == [1]
    ensures Place([Occurrence("a", 3), Occurrence("b", 3), Occurrence("c", 3), Occurrence("d", 3)], 2, 0) == 1
  {
    var o := [Occurrence("a", 5), Occurrence("b", 3), Occurrence("c", 1), Occurrence("d", 4)];
    assert Probes(o, 0, 1, [1, 0]) == [1, 0] && Place(o, 0, 1) == 1;
    assert Probes(o, 0, 0, [1]) == [1, 0] && Place(o, 0, 0) == 1;
  }

  /**
   * The place the search over prefix + [x] chooses splits a descending
   * prefix where x belongs, provided the range searched brackets that place.
   */
  lemma {:induction false} PlaceSplits(prefix: seq<Occurrence>, x: Occurrence, high: int, low: int)
    requires 0 <= low <= high + 1 <= |prefix|
    requires Descending(prefix) && Bracketed(prefix, x, high, low)
    ensures Splits(prefix, x, Place(prefix + [x], high, low))
    decreases high - low + 1, 1
  {
    if high < low {
      assert Place(prefix + [x], high, low) == low;
    } else {
      var mid := (high + low) / 2;
      assert (prefix + [x])[mid] == prefix[mid];
      if prefix[mid].frequency == x.frequency {
        PlaceSplitsAtTie(prefix, x, high, low, mid);
      } else {
        PlaceSplitsNarrowed(prefix, x, high, low, mid);
      }
    }
  }

  /** On a tie at mid the search stops there, which splits a descending prefix. */
  lemma PlaceSplitsAtTie(prefix: seq<Occurrence>, x: Occurrence, high: int, low: int, mid: int)
    requires 0 <= low <= high < |prefix| && mid == (high + low) / 2
    requires Descending(prefix) && prefix[mid].frequency == x.frequency
    ensures Splits(prefix, x, Place(prefix + [x], high, low))
  {
    assert (prefix + [x])[mid] == prefix[mid];
    assert Place(prefix + [x], high, low) == mid;
    assert forall j :: 0 <= j < mid ==> prefix[j].frequency >= prefix[mid].frequency;
    assert forall j :: mid < j < |prefix| ==> prefix[j].frequency <= prefix[mid].frequency;
  }

  /** Without a tie at mid the search goes on in the half that still brackets the place. */
  lemma {:induction false} PlaceSplitsNarrowed(prefix: seq<Occurrence>, x: Occurrence, high: int, low: int, mid: int)
    requires 0 <= low <= high < |prefix| && mid == (high + low) / 2
    requires Descending(prefix) && Bracketed(prefix, x, high, low) && prefix[mid].frequency != x.frequency
    ensures Splits(prefix, x, Place(prefix + [x], high, low))
    decreases high - low + 1, 0
  {
    var occs := prefix + [x];
    assert occs[mid] == prefix[mid] && occs[|occs| - 1] == x;
    Narrow(prefix, x, high, low, mid);
    if prefix[mid].frequency < x.frequency {
      assert Place(occs, high, low) == Place(occs, mid - 1, low);
      PlaceSplits(prefix, x, mid - 1, low);
    } else {
      assert Place(occs, high, low) == Place(occs, high, mid + 1);
      PlaceSplits(prefix, x, high, mid + 1);
    }
  }

  /**
   * Moves the last occurrence of occs into the prefix before it, at the
   * place pos the binary search between low and high chooses; the result is
   * list followed by the midpoints the search probes. Lists of fewer than
   * two occurrences are left alone and give no midpoints.
   */
  method RecursiveInsert(occs: seq<Occurrence>, high: int, low: int, list: seq<int>)
      returns (occs': seq<Occurrence>, r: Option<seq<int>>, ghost pos: nat)
    requires |occs| >= 2 ==> 0 <= low <= high + 1 <= |occs| - 1
    ensures |occs| <= 1 ==> occs' == occs && r == None
    ensures |occs| >= 2 ==> r == Some(Probes(occs, high, low, list)) && pos == Place(occs, high, low)
    ensures |occs| >= 2 ==> occs' == Insert(occs[..|occs| - 1], pos, occs[|occs| - 1])
    decreases if low <= high then high - low + 1 else 0
  {
    if |occs| == 0 || |occs| == 1 {
      return occs, None, 0;
    }
    var x := occs[|occs| - 1];
    if high < low {
      occs', r, pos := Insert(occs[..|occs| - 1], low, x), Some(list), low;
    } else {
      var mid := (high + low) / 2;
      var list' := list + [mid];
      if occs[mid].frequency < x.frequency {
        ProbeLeft(occs, high, low, list, mid);
        occs', r, pos := RecursiveInsert(occs, mid - 1, low, list');
      } else if occs[mid].frequency > x.frequency {
        ProbeRight(occs, high, low, list, mid);
        occs', r, pos := RecursiveInsert(occs, high, mid + 1, list');
      } else {
        // The source's last branch, which returns null, follows a three-way
        // comparison of integers and cannot be reached.
        occs', r, pos := Insert(occs[..|occs| - 1], mid, x), Some(list'), mid;
      }
    }
  }

  /**
   * Moves the last occurrence of occs to its place in the prefix before it;
   * the result lists the midpoints the binary search probed, or is None for
   * a list of fewer than two occurrences. The midpoints lie in 0..n-2, and
   * when the last one probed has the same frequency, the occurrence goes
   * there; a descending prefix gives a descending list.
   */
  method InsertLastOccurrence(occs: seq<Occurrence>) returns (occs': seq<Occurrence>, r: Option<seq<int>>, ghost pos: nat)
    ensures |occs| <= 1 ==> occs' == occs && r == None
    ensures |occs| >= 2 ==> r == Some(Probes(occs, |occs| - 2, 0, [])) && pos == Place(occs, |occs| - 2, 0)
    ensures |occs| >= 2 ==> |r.value| >= 1 && forall k :: 0 <= k < |r.value| ==> 0 <= r.value[k] <= |occs| - 2
    ensures |occs| >= 2 ==> pos <= |occs| - 1 && occs' == Insert(occs[..|occs| - 1], pos, occs[|occs| - 1])
    ensures |occs| >= 2 && occs[r.value[|r.value| - 1]].frequency == occs[|occs| - 1].frequency ==>
      pos == r.value[|r.value| - 1]
    ensures |occs'| == |occs| && multiset(occs') == multiset(occs)
    ensures |occs| >= 2 && Descending(occs[..|occs| - 1]) ==> Descending(occs')
  {
    occs', r, pos := RecursiveInsert(occs, |occs| - 2, 0, []);
    if |occs| >= 2 {
      ProbedFacts(occs, r.value, pos, 0);
      InsertMultiset(occs[..|occs| - 1], pos, occs[|occs| - 1]);
      assert occs == occs[..|occs| - 1] + [occs[|occs| - 1]];
    }
  }

  /**
   * What InsertLastOccurrence promises about the midpoints mids and the
   * place pos of the search over all of occs, which starts at low = 0.
   */
  lemma ProbedFacts(occs: seq<Occurrence>, mids: seq<int>, pos: int, low: int)
    requires low == 0 && |occs| >= 2
    requires mids == Probes(occs, |occs| - 2, low, []) && pos == Place(occs, |occs| - 2, low)
    ensures |mids| >= 1 && forall k :: 0 <= k < |mids| ==> 0 <= mids[k] <= |occs| - 2
    ensures 0 <= pos <= |occs| - 1
    ensures occs[mids[|mids| - 1]].frequency == occs[|occs| - 1].frequency ==> pos == mids[|mids| - 1]
    ensures Descending(occs[..|occs| - 1]) ==> Descending(Insert(occs[..|occs| - 1], pos, occs[|occs| - 1]))
  {
    ProbesInRange(occs, |occs| - 2, low, [], mids);
    if occs[mids[|mids| - 1]].frequency == occs[|occs| - 1].frequency {
      ProbesTie(occs, |occs| - 2, low, [], mids);
    }
    if Descending(occs[..|occs| - 1]) {
      assert occs == occs[..|occs| - 1] + [occs[|occs| - 1]];
      PlaceSplits(occs[..|occs| - 1], occs[|occs| - 1], |occs| - 2, low);
      InsertDescending(occs[..|occs| - 1], pos, occs[|occs| - 1]);
    }
  }

  /** new is old with x inserted at some place, keeping it descending. */
  ghost predicate Gained(old_: seq<Occurrence>, x: Occurrence, new_: seq<Occurrence>) {
    |new_| == |old_| + 1 &&
    multiset(new_) == multiset(old_) + multiset{x} &&
    (exists p: nat :: p <= |old_| && new_ == Insert(old_, p, x)) &&
    (Descending(old_) ==> Descending(new_))
  }

  /**
   * Appends an occurrence to a keyword's list and moves it to its place
   * by frequency.
   */
  method AppendAndPlace(occs: seq<Occurrence>, x: Occurrence) returns (occs': seq<Occurrence>)
    ensures Gained(occs, x, occs')
  {
    var a := occs + [x];
    var mids;
    ghost var pos;
    occs', mids, pos := InsertLastOccurrence(a);
    PlacedGains(occs, x, a, occs', pos);
  }

  /** The list InsertLastOccurrence leaves after x was appended to occs has gained x. */
  lemma PlacedGains(occs: seq<Occurrence>, x: Occurrence, a: seq<Occurrence>, occs': seq<Occurrence>, pos: nat)
    requires a == occs + [x]
    requires |a| <= 1 ==> occs' == a
    requires |a| >= 2 ==> pos <= |a| - 1 && occs' == Insert(a[..|a| - 1], pos, a[|a| - 1])
    requires |a| >= 2 && Descending(a[..|a| - 1]) ==> Descending(occs')
    ensures Gained(occs, x, occs')
  {
    assert a[..|a| - 1] == occs && a[|a| - 1] == x;
    var p := if |a| == 1 then 0 else pos;
    assert occs' == Insert(occs, p, x);
    InsertMultiset(occs, p, x);
  }

  // ---------------------------------------------------------------------
  // Searching two keywords
  // ---------------------------------------------------------------------

  /** Adds a document to a result list unless it is already there. */
  function AddDocument(c: seq<string>, d: string): (r: seq<string>)
    ensures c <= r && |r| <= |c| + 1
    ensures forall e :: e in r <==> e in c || e == d
    ensures Distinct(c) ==> Distinct(r)
  {
    if d in c then c else c + [d]
  }

  predicate Distinct(c: seq<string>) {
    forall j, k :: 0 <= j < k < |c| ==> c[j] != c[k]
  }

  /** Some occurrence in s is in document d. */
  predicate Mentions(s: seq<Occurrence>, d: string) {
    exists k :: 0 <= k < |s| && s[k].document == d
  }

  /** The occurrence list of a keyword, empty when it is not indexed. */
  function ListOf(index: map<string, seq<Occurrence>>, kw: string): seq<Occurrence>
  {
    if kw in index then index[kw] else []
  }

  /**
   * Merges two lists by frequency; on equal frequencies the first list's
   * occurrence comes first.
   */
  function Merge(a: seq<Occurrence>, b: seq<Occurrence>): seq<Occurrence>
    decreases |a| + |b|
  {
    if a == [] then b
    else if b == [] then a
    else if a[0].frequency >= b[0].frequency then [a[0]] + Merge(a[1..], b)
    else [b[0]] + Merge(a, b[1..])
  }

  lemma {:induction false} MergePermutation(a: seq<Occurrence>, b: seq<Occurrence>)
    ensures multiset(Merge(a, b)) == multiset(a) + multiset(b)
    decreases |a| + |b|
  {
    if a == [] || b == [] {
    } else if a[0].frequency >= b[0].frequency {
      MergePermutation(a[1..], b);
      assert Merge(a, b) == [a[0]] + Merge(a[1..], b);
      assert a == [a[0]] + a[1..];
    } else {
      MergePermutation(a, b[1..]);
      assert Merge(a, b) == [b[0]] + Merge(a, b[1..]);
      assert b == [b[0]] + b[1..];
    }
  }

  /** No occurrence of s is more frequent than f. */
  ghost predicate AtMost(s: seq<Occurrence>, f: int) {
    forall k :: 0 <= k < |s| ==> s[k].frequency <= f
  }

  lemma {:induction false} MergeAtMost(a: seq<Occurrence>, b: seq<Occurrence>, f: int)
    requires AtMost(a, f) && AtMost(b, f)
    ensures AtMost(Merge(a, b), f)
    decreases |a| + |b|
  {
    if a == [] || b == [] {
    } else if a[0].frequency >= b[0].frequency {
      MergeAtMost(a[1..], b, f);
    } else {
      MergeAtMost(a, b[1..], f);
    }
  }

  lemma ConsDescending(x: Occurrence, s: seq<Occurrence>)
    requires Descending(s) && AtMost(s, x.frequency)
    ensures Descending([x] + s)
  {
    var t := [x] + s;
    forall j, k | 0 <= j < k < |t|
      ensures t[j].frequency >= t[k].frequency
    {
      assert t[k] == s[k - 1];
      if j > 0 {
        assert t[j] == s[j - 1];
      }
    }
  }

  /** Merging two descending lists gives a descending list. */
  lemma {:induction false} MergeDescending(a: seq<Occurrence>, b: seq<Occurrence>)
    requires Descending(a) && Descending(b)
    ensures Descending(Merge(a, b))
    decreases |a| + |b|
  {
    if a == [] || b == [] {
    } else if a[0].frequency >= b[0].frequency {
      MergeDescending(a[1..], b);
      MergeAtMost(a[1..], b, a[0].frequency);
      ConsDescending(a[0], Merge(a[1..], b));
    } else {
      MergeDescending(a, b[1..]);
      MergeAtMost(a, b[1..], b[0].frequency);
      ConsDescending(b[0], Merge(a, b[1..]));
    }
  }

  /** The occurrences of s with frequency f, in their order in s. */
  function AtFrequency(s: seq<Occurrence>, f: int): seq<Occurrence>
  {
    if s == [] then [] else (if s[0].frequency == f then [s[0]] else []) + AtFrequency(s[1..], f)
  }

  lemma {:induction false} AtFrequencyAbove(s: seq<Occurrence>, f: int)
    requires forall k :: 0 <= k < |s| ==> s[k].frequency < f
    ensures AtFrequency(s, f) == []
  {
    if s != [] {
      AtFrequencyAbove(s[1..], f);
    }
  }

  /**
   * Ties are broken in favour of the first list: among the occurrences of
   * any one frequency, the merge lists all of a's before all of b's, each
   * in its own order.
   */
  lemma {:induction false} MergeTies(a: seq<Occurrence>, b: seq<Occurrence>, f: int)
    requires Descending(a)
    ensures AtFrequency(Merge(a, b), f) == AtFrequency(a, f) + AtFrequency(b, f)
    decreases |a| + |b|
  {
    if a == [] {
    } else if b == [] {
      assert AtFrequency(b, f) == [];
    } else if a[0].frequency >= b[0].frequency {
      MergeTies(a[1..], b, f);
      assert Merge(a, b)[1..] == Merge(a[1..], b);
    } else {
      MergeTies(a, b[1..], f);
      assert Merge(a, b)[1..] == Merge(a, b[1..]);
      if b[0].frequency == f {
        assert forall k :: 0 <= k < |a| ==> a[0].frequency >= a[k].frequency;
        AtFrequencyAbove(a, f);
      }
    }
  }

  /**
   * The documents of s, in order and each once, added to c until c holds
   * five of them.
   */
  function FirstDocuments(s: seq<Occurrence>, c: seq<string>): seq<string>
  {
    if |c| >= 5 || s == [] then c else FirstDocuments(s[1..], AddDocument(c, s[0].document))
  }

  /**
   * Starting from at most five distinct documents, the collection stays at
   * most five and distinct and extends c.
   */
  lemma {:induction false} FirstDocumentsBounded(s: seq<Occurrence>, c: seq<string>)
    requires |c| <= 5 && Distinct(c)
    ensures c <= FirstDocuments(s, c) && |FirstDocuments(s, c)| <= 5 && Distinct(FirstDocuments(s, c))
  {
    if |c| < 5 && s != [] {
      FirstDocumentsBounded(s[1..], AddDocument(c, s[0].document));
    }
  }

  /** The collection takes only documents of s. */
  lemma {:induction false} FirstDocumentsFrom(s: seq<Occurrence>, c: seq<string>)
    ensures forall d :: d in FirstDocuments(s, c) ==> d in c || Mentions(s, d)
  {
    if |c| < 5 && s != [] {
      var c' := AddDocument(c, s[0].document);
      FirstDocumentsFrom(s[1..], c');
      forall d | d in FirstDocuments(s, c) ensures d in c || Mentions(s, d) {
        if d !in c' {
          var k :| 0 <= k < |s[1..]| && s[1..][k].document == d;
          assert s[k + 1].document == d;
        }
      }
    }
  }

  /** A collection that ends with fewer than five documents has taken every document of s. */
  lemma {:induction false} FirstDocumentsComplete(s: seq<Occurrence>, c: seq<string>)
    ensures |FirstDocuments(s, c)| < 5 ==> forall k :: 0 <= k < |s| ==> s[k].document in FirstDocuments(s, c)
  {
    if |c| < 5 && s != [] {
      var c' := AddDocument(c, s[0].document);
      FirstDocumentsComplete(s[1..], c');
      var r := FirstDocuments(s, c);
      if |r| < 5 {
        FirstDocumentsKeeps(s[1..], c');
        forall k | 0 <= k < |s| ensures s[k].document in r {
          if k > 0 {
            assert s[k] == s[1..][k - 1];
          }
        }
      }
    }
  }

  /** The collection never drops a document it already has. */
  lemma {:induction false} FirstDocumentsKeeps(s: seq<Occurrence>, c: seq<string>)
    ensures forall d :: d in c ==> d in FirstDocuments(s, c)
  {
    if |c| < 5 && s != [] {
      FirstDocumentsKeeps(s[1..], AddDocument(c, s[0].document));
    }
  }

  /**
   * The "kw1 or kw2" search: none when neither keyword is indexed, and
   * otherwise the first five distinct documents of the two lists merged by
   * frequency, ties going to kw1.
   */
  function Top5Of(index: map<string, seq<Occurrence>>, kw1: string, kw2: string): Option<seq<string>>
  {
    if kw1 !in index && kw2 !in index then None
    else Some(FirstDocuments(Merge(ListOf(index, kw1), ListOf(index, kw2)), []))
  }

  lemma MergeMentions(a: seq<Occurrence>, b: seq<Occurrence>, d: string)
    ensures Mentions(Merge(a, b), d) <==> Mentions(a, d) || Mentions(b, d)
  {
    var m := Merge(a, b);
    MergePermutation(a, b);
    if Mentions(m, d) {
      var k :| 0 <= k < |m| && m[k].document == d;
      assert m[k] in multiset(m);
      if m[k] in multiset(a) {
        var j :| 0 <= j < |a| && a[j] == m[k];
      } else {
        var j :| 0 <= j < |b| && b[j] == m[k];
      }
    }
    if Mentions(a, d) {
      var j :| 0 <= j < |a| && a[j].document == d;
      assert a[j] in multiset(m);
      var k :| 0 <= k < |m| && m[k] == a[j];
    }
    if Mentions(b, d) {
      var j :| 0 <= j < |b| && b[j].document == d;
      assert b[j] in multiset(m);
      var k :| 0 <= k < |m| && m[k] == b[j];
    }
  }

  /**
   * The search result is none exactly when neither keyword is indexed;
   * otherwise it has at most five documents, none twice, each found in
   * kw1's or kw2's list, and with fewer than five it holds every document
   * of both lists.
   */
  lemma Top5Properties(index: map<string, seq<Occurrence>>, kw1: string, kw2: string)
    ensures Top5Of(index, kw1, kw2).None? <==> kw1 !in index && kw2 !in index
    ensures Top5Of(index, kw1, kw2).Some? ==>
      var r := Top5Of(index, kw1, kw2).value;
      |r| <= 5 && Distinct(r) &&
      (forall d :: d in r ==> Mentions(ListOf(index, kw1), d) || Mentions(ListOf(index, kw2), d)) &&
      (|r| < 5 ==> forall d :: Mentions(ListOf(index, kw1), d) || Mentions(ListOf(index, kw2), d) ==> d in r)
  {
    var a, b := ListOf(index, kw1), ListOf(index, kw2);
    var m := Merge(a, b);
    FirstDocumentsBounded(m, []);
    FirstDocumentsFrom(m, []);
    FirstDocumentsComplete(m, []);
    forall d ensures Mentions(m, d) <==> Mentions(a, d) || Mentions(b, d) {
      MergeMentions(a, b, d);
    }
  }

  /**
   * The search loop as the source writes it: on equal frequencies, while
   * fewer than four documents are collected, it takes kw1's document and
   * then kw2's, so a later kw1 document of the same frequency lands after
   * kw2's. A keyword that is not indexed has no list (None), which the loop
   * treats like an exhausted one. The source's second check that kw1's
   * list is exhausted, once kw2's is (LittleSearchEngine.java:287), cannot
   * succeed there and is left out.
   */
  function Top5AsWritten(a: Option<seq<Occurrence>>, b: Option<seq<Occurrence>>, i: nat, j: nat, c: seq<string>): (r: Option<seq<string>>)
    requires a.Some? ==> i <= |a.value|
    requires b.Some? ==> j <= |b.value|
    requires |c| <= 5 && Distinct(c)
    ensures r.None? <==> |c| < 5 && a.None? && b.None?
    ensures r.Some? ==> c <= r.value && |r.value| <= 5 && Distinct(r.value)
    decreases (if a.Some? then |a.value| - i else 0) + (if b.Some? then |b.value| - j else 0)
  {
    if |c| >= 5 then Some(c)
    else if a.None? && b.None? then None
    else if a.None? then
      if |b.value| <= j then Some(c) else Top5AsWritten(a, b, i, j + 1, AddDocument(c, b.value[j].document))
    else if b.None? then
      if |a.value| <= i then Some(c) else Top5AsWritten(a, b, i + 1, j, AddDocument(c, a.value[i].document))
    else if |a.value| <= i then
      if |b.value| <= j then Some(c) else Top5AsWritten(a, b, i, j + 1, AddDocument(c, b.value[j].document))
    else if |b.value| <= j then
      Top5AsWritten(a, b, i + 1, j, AddDocument(c, a.value[i].document))
    else if a.value[i].frequency > b.value[j].frequency then
      Top5AsWritten(a, b, i + 1, j, AddDocument(c, a.value[i].document))
    else if a.value[i].frequency < b.value[j].frequency then
      Top5AsWritten(a, b, i, j + 1, AddDocument(c, b.value[j].document))
    else if |c| < 4 then
      Top5AsWritten(a, b, i + 1, j + 1, AddDocument(AddDocument(c, a.value[i].document), b.value[j].document))
    else
      Top5AsWritten(a, b, i + 1, j, AddDocument(c, a.value[i].document))
  }

  /** Some occurrence from position i on of the list a, when there is a list, is in document d. */
  predicate Pending(a: Option<seq<Occurrence>>, i: nat, d: string) {
    a.Some? && i <= |a.value| && Mentions(a.value[i..], d)
  }

  lemma MentionsFrom(s: seq<Occurrence>, i: nat)
    requires i < |s|
    ensures forall d :: Mentions(s[i..], d) <==> s[i].document == d || Mentions(s[i + 1..], d)
  {
    forall d | Mentions(s[i..], d) ensures s[i].document == d || Mentions(s[i + 1..], d) {
      var k :| 0 <= k < |s[i..]| && s[i..][k].document == d;
      if k > 0 {
        assert s[i + 1..][k - 1] == s[i..][k];
      }
    }
    forall d | Mentions(s[i + 1..], d) ensures Mentions(s[i..], d) {
      var k :| 0 <= k < |s[i + 1..]| && s[i + 1..][k].document == d;
      assert s[i..][k + 1] == s[i + 1..][k];
    }
    assert s[i..][0] == s[i];
  }

  /**
   * Advancing the position in list a past a document that has been
   * collected in c2 loses no pending document.
   */
  lemma PendingStep(a: Option<seq<Occurrence>>, i: nat, i2: nat, c2: seq<string>)
    requires a.Some? ==> i <= |a.value|
    requires i2 == i || (a.Some? && i < |a.value| && i2 == i + 1 && a.value[i].document in c2)
    ensures forall d :: Pending(a, i2, d) ==> Pending(a, i, d)
    ensures forall d :: Pending(a, i, d) ==> d in c2 || Pending(a, i2, d)
  {
    if i2 != i {
      MentionsFrom(a.value, i);
    }
  }

  /**
   * One round of the loop as written, when it goes on: the positions and
   * collection it moves to, the documents it adds (the current ones of the
   * lists it advances), and the pending documents it passes over.
   */
  lemma Top5Round(a: Option<seq<Occurrence>>, b: Option<seq<Occurrence>>, i: nat, j: nat, c: seq<string>)
      returns (i2: nat, j2: nat, c2: seq<string>)
    requires a.Some? ==> i <= |a.value|
    requires b.Some? ==> j <= |b.value|
    requires |c| < 5 && Distinct(c)
    requires (a.Some? && i < |a.value|) || (b.Some? && j < |b.value|)
    ensures (a.Some? ==> i2 <= |a.value|) && (b.Some? ==> j2 <= |b.value|) && |c2| <= 5 && Distinct(c2)
    ensures (if a.Some? then |a.value| - i2 else 0) + (if b.Some? then |b.value| - j2 else 0)
      < (if a.Some? then |a.value| - i else 0) + (if b.Some? then |b.value| - j else 0)
    ensures Top5AsWritten(a, b, i, j, c) == Top5AsWritten(a, b, i2, j2, c2)
    ensures forall d :: d in c2 ==> d in c || Pending(a, i, d) || Pending(b, j, d)
    ensures forall d :: Pending(a, i2, d) ==> Pending(a, i, d)
    ensures forall d :: Pending(b, j2, d) ==> Pending(b, j, d)
    ensures forall d :: Pending(a, i, d) ==> d in c2 || Pending(a, i2, d)
    ensures forall d :: Pending(b, j, d) ==> d in c2 || Pending(b, j2, d)
  {
    var moreA := a.Some? && i < |a.value|;
    var moreB := b.Some? && j < |b.value|;
    if moreA {
      assert a.value[i..][0] == a.value[i];
    }
    if moreB {
      assert b.value[j..][0] == b.value[j];
    }
    i2, j2, c2 := i, j, c;
    if !moreA {
      j2, c2 := j + 1, AddDocument(c, b.value[j].document);
    } else if !moreB {
      i2, c2 := i + 1, AddDocument(c, a.value[i].document);
    } else if a.value[i].frequency > b.value[j].frequency {
      i2, c2 := i + 1, AddDocument(c, a.value[i].document);
    } else if a.value[i].frequency < b.value[j].frequency {
      j2, c2 := j + 1, AddDocument(c, b.value[j].document);
    } else if |c| < 4 {
      i2, j2, c2 := i + 1, j + 1, AddDocument(AddDocument(c, a.value[i].document), b.value[j].document);
    } else {
      i2, c2 := i + 1, AddDocument(c, a.value[i].document);
    }
    PendingStep(a, i, i2, c2);
    PendingStep(b, j, j2, c2);
  }

  /**
   * The loop as written takes only documents of the two lists (from the
   * current positions on), and when it ends with fewer than five documents
   * it has taken every document of both lists.
   */
  lemma {:induction false} Top5AsWrittenFrom(a: Option<seq<Occurrence>>, b: Option<seq<Occurrence>>, i: nat, j: nat, c: seq<string>)
    requires a.Some? ==> i <= |a.value|
    requires b.Some? ==> j <= |b.value|
    requires |c| <= 5 && Distinct(c)
    ensures Top5AsWritten(a, b, i, j, c).Some? ==>
      var r := Top5AsWritten(a, b, i, j, c).value;
      (forall d :: d in r ==> d in c || Pending(a, i, d) || Pending(b, j, d))
      && (|r| < 5 ==> forall d :: Pending(a, i, d) || Pending(b, j, d) ==> d in r)
    decreases (if a.Some? then |a.value| - i else 0) + (if b.Some? then |b.value| - j else 0)
  {
    if |c| >= 5 || (a.None? && b.None?) {
      return;
    }
    if !(a.Some? && i < |a.value|) && !(b.Some? && j < |b.value|) {
      if a.Some? {
        assert a.value[i..] == [];
      }
      if b.Some? {
        assert b.value[j..] == [];
      }
      return;
    }
    var i2, j2, c2 := Top5Round(a, b, i, j, c);
    Top5AsWrittenFrom(a, b, i2, j2, c2);
  }

  /**
   * What Top5Properties proves of the merge holds for the loop as written
   * too: each document it answers comes from kw1's or kw2's list, and an
   * answer of fewer than five documents holds every document of both.
   */
  lemma Top5AsWrittenProperties(a: Option<seq<Occurrence>>, b: Option<seq<Occurrence>>)
    ensures Top5AsWritten(a, b, 0, 0, []).Some? ==>
      var r := Top5AsWritten(a, b, 0, 0, []).value;
      (forall d :: d in r ==> (a.Some? && Mentions(a.value, d)) || (b.Some? && Mentions(b.value, d)))
      && (|r| < 5 ==> forall d :: (a.Some? && Mentions(a.value, d)) || (b.Some? && Mentions(b.value, d)) ==> d in r)
  {
    Top5AsWrittenFrom(a, b, 0, 0, []);
    if a.Some? {
      assert a.value[0..] == a.value;
    }
    if b.Some? {
      assert b.value[0..] == b.value;
    }
  }

  /** kw1's list in the tie example: three occurrences in d1 and three in d2. */
  const TieFirst := [Occurrence("d1", 3), Occurrence("d2", 3)]
  /** kw2's list in the tie example: three occurrences in d3. */
  const TieSecond := [Occurrence("d3", 3)]

  lemma DocumentNamesDiffer()
    ensures "d1" != "d2" && "d1" != "d3" && "d2" != "d3"
  {
    assert "d1"[1] != "d2"[1] && "d1"[1] != "d3"[1] && "d2"[1] != "d3"[1];
  }

  lemma AsWrittenTieRun()
    ensures Top5AsWritten(Some(TieFirst), Some(TieSecond), 0, 0, []) == Some(["d1", "d3", "d2"])
  {
    var a, b := TieFirst, TieSecond;
    DocumentNamesDiffer();
    assert AddDocument(AddDocument([], "d1"), "d3") == ["d1", "d3"];
    assert AddDocument(["d1", "d3"], "d2") == ["d1", "d3", "d2"];
    assert Top5AsWritten(Some(a), Some(b), 2, 1, ["d1", "d3", "d2"]) == Some(["d1", "d3", "d2"]);
    assert Top5AsWritten(Some(a), Some(b), 1, 1, ["d1", "d3"]) == Some(["d1", "d3", "d2"]);
  }

  lemma MergedTieRun()
    ensures FirstDocuments(Merge(TieFirst, TieSecond), []) == ["d1", "d2", "d3"]
  {
    var a, b := TieFirst, TieSecond;
    DocumentNamesDiffer();
    assert Merge(a[1..], b) == [a[1]] + b;
    assert Merge(a, b) == [a[0], a[1], b[0]];
    assert AddDocument([], "d1") == ["d1"];
    assert AddDocument(["d1"], "d2") == ["d1", "d2"];
    assert AddDocument(["d1", "d2"], "d3") == ["d1", "d2", "d3"];
    assert FirstDocuments([], ["d1", "d2", "d3"]) == ["d1", "d2", "d3"];
    assert FirstDocuments([b[0]], ["d1", "d2"]) == ["d1", "d2", "d3"];
    assert FirstDocuments([a[1], b[0]], ["d1"]) == ["d1", "d2", "d3"];
    assert [a[0], a[1], b[0]][1..] == [a[1], b[0]];
  }

  /**
   * kw1 occurs three times in d1 and in d2, kw2 three times in d3: the
   * loop as written answers d1, d3, d2, although d2 ties with d3 and so
   * should come before it; the merge answers d1, d2, d3.
   */
  lemma Top5TieCounterexample()
    ensures Top5AsWritten(Some(TieFirst), Some(TieSecond), 0, 0, []) != Some(FirstDocuments(Merge(TieFirst, TieSecond), []))
    ensures Top5AsWritten(Some(TieFirst), Some(TieSecond), 0, 0, []) == Some(["d1", "d3", "d2"])
    ensures FirstDocuments(Merge(TieFirst, TieSecond), []) == ["d1", "d2", "d3"]
  {
    AsWrittenTieRun();
    MergedTieRun();
    DocumentNamesDiffer();
    assert ["d1", "d3", "d2"][1] != ["d1", "d2", "d3"][1];
  }

  /** Every indexed keyword has a non-empty, descending occurrence list. */
  ghost predicate IndexValid(index: map<string, seq<Occurrence>>) {
    forall kw :: kw in index ==> |index[kw]| >= 1 && Descending(index[kw])
  }

  /**
   * index is index0 with the keywords in done folded in from kws: a new
   * keyword has just its occurrence, a known one has gained it, and the
   * other keywords are as they were.
   */
  ghost predicate Folded(index0: map<string, seq<Occurrence>>, kws: map<string, Occurrence>, done: set<string>,
                         index: map<string, seq<Occurrence>>) {
    done <= kws.Keys &&
    index.Keys == index0.Keys + done &&
    (forall kw :: kw in index0 && kw !in done ==> index[kw] == index0[kw]) &&
    (forall kw :: kw in done && kw !in index0 ==> index[kw] == [kws[kw]]) &&
    (forall kw :: kw in done && kw in index0 ==> Gained(index0[kw], kws[kw], index[kw]))
  }

  lemma FoldStep(index0: map<string, seq<Occurrence>>, kws: map<string, Occurrence>, done: set<string>,
                 index: map<string, seq<Occurrence>>, key: string, list: seq<Occurrence>)
    requires Folded(index0, kws, done, index) && key in kws && key !in done
    requires key !in index ==> list == [kws[key]]
    requires key in index ==> Gained(index[key], kws[key], list)
    ensures Folded(index0, kws, done + {key}, index[key := list])
    ensures IndexValid(index) ==> IndexValid(index[key := list])
  {
    if IndexValid(index) && key in index {
      assert Descending(index[key]);
    }
  }

  // ---------------------------------------------------------------------
  // The index
  // ---------------------------------------------------------------------

  /**
   * The search engine: each keyword's occurrences across the documents,
   * and the noise words that are never keywords.
   */
  class LittleSearchEngine {
    var keywordsIndex: map<string, seq<Occurrence>>
    var noiseWords: set<string>

    /** Every indexed keyword has a non-empty, descending occurrence list. */
    ghost predicate Valid()
      reads this
    {
      IndexValid(keywordsIndex)
    }

    /** An empty index over the given noise words. */
    constructor(noise: set<string>)
      ensures keywordsIndex == map[] && noiseWords == noise
      ensures Valid()
    {
      keywordsIndex := map[];
      noiseWords := noise;
    }

    /**
     * The keyword a word stands for, computed by scanning the lower-case
     * word and deleting each punctuation character after the letters, in
     * place, as the scan meets it.
     */
    method GetKeyword(word: string) returns (r: Option<string>)
      ensures r == KeywordOf(noiseWords, word)
    {
      ghost var w0 := Lower(word);
      ghost var k := LetterRun(w0);
      ghost var d := 0;  // punctuation characters deleted so far
      var w := Lower(word);
      var flawless := true;
      var i := 0;
      while i < |w|
        invariant 0 <= i <= |w| && |w| + d == |w0|
        invariant flawless ==> w == w0 && d == 0 && i <= k
        invariant !flawless ==> i == k && 0 < d && w == w0[..k] + w0[k + d..]
        invariant forall j :: k <= j < k + d ==> IsPunct(w0[j])
        decreases |w| - i
      {
        if !flawless && IsLetter(w[i]) {
          assert w[i] == w0[k + d];
          return None;
        } else if !IsLetter(w[i]) {
          assert i == k;
          DeleteAt(w0, k, d, w);
          if IsPunct(w[i]) {
            w := w[..i] + w[i + 1..];
            d := d + 1;
            flawless := false;
            i := i - 1;
          } else {
            return None;
          }
        }
        i := i + 1;
      }
      assert w == w0[..k];
      if w in noiseWords || |w| == 0 {
        return None;
      } else {
        return Some(w);
      }
    }

    /**
     * Folds one document's keywords into the index: a new keyword gets a
     * list of just its occurrence, a known one gets the occurrence inserted
     * at its place by frequency, and keywords the document lacks keep their
     * lists. The document's keywords are taken in no particular order.
     */
    method MergeKeywords(kws: map<string, Occurrence>)
      modifies this`keywordsIndex
      ensures keywordsIndex.Keys == old(keywordsIndex).Keys + kws.Keys
      ensures forall kw :: kw in old(keywordsIndex) && kw !in kws ==> keywordsIndex[kw] == old(keywordsIndex)[kw]
      ensures forall kw :: kw in kws && kw !in old(keywordsIndex) ==> keywordsIndex[kw] == [kws[kw]]
      ensures forall kw :: kw in kws && kw in old(keywordsIndex) ==> Gained(old(keywordsIndex)[kw], kws[kw], keywordsIndex[kw])
      ensures old(Valid()) ==> Valid()
    {
      var rest := kws.Keys;
      ghost var done: set<string> := {};
      while rest != {}
        invariant rest == kws.Keys - done
        invariant Folded(old(keywordsIndex), kws, done, keywordsIndex)
        invariant old(Valid()) ==> Valid()
        decreases rest
      {
        var key :| key in rest;
        var value := kws[key];
        var list: seq<Occurrence>;
        if key !in keywordsIndex {
          list := [value];
        } else {
          list := AppendAndPlace(keywordsIndex[key], value);
        }
        FoldStep(old(keywordsIndex), kws, done, keywordsIndex, key, list);
        keywordsIndex := keywordsIndex[key := list];
        rest := rest - {key};
        done := done + {key};
      }
    }

    /**
     * The "kw1 or kw2" search: walks kw1's and kw2's lists together, taking
     * the more frequent occurrence and, on equal frequencies, kw1's alone,
     * so that every kw1 document of a frequency comes before kw2's; it
     * stops at five documents or when both lists are used up.
     */
    method Top5Search(kw1: string, kw2: string) returns (r: Option<seq<string>>)
      ensures r == Top5Of(keywordsIndex, kw1, kw2)
    {
      if kw1 !in keywordsIndex && kw2 !in keywordsIndex {
        // neither keyword has a list
        return None;
      }
      // a keyword without a list contributes the empty list
      var a, b := ListOf(keywordsIndex, kw1), ListOf(keywordsIndex, kw2);
      var c: seq<string> := [];
      var i, j := 0, 0;
      while |c| < 5
        invariant i <= |a| && j <= |b| && |c| <= 5 && Distinct(c)
        invariant FirstDocuments(Merge(a, b), []) == FirstDocuments(Merge(a[i..], b[j..]), c)
        decreases |a| - i + |b| - j
      {
        if |a| <= i && |b| <= j {
          break;
        }
        if |b| <= j || (i < |a| && a[i].frequency >= b[j].frequency) {
          // kw1's occurrence is more frequent, ties with kw2's, or is all that is left
          TakeFirst(a, b, i, j, c);
          c := AddDocument(c, a[i].document);
          i := i + 1;
        } else {
          TakeSecond(a, b, i, j, c);
          c := AddDocument(c, b[j].document);
          j := j + 1;
        }
      }
      if |c| < 5 {
        assert a[i..] == [] && b[j..] == [];
      }
      assert FirstDocuments(Merge(a[i..], b[j..]), c) == c;
      r := Some(c);
    }
  }

  /** Taking the next occurrence of the first list. */
  lemma TakeFirst(a: seq<Occurrence>, b: seq<Occurrence>, i: nat, j: nat, c: seq<string>)
    requires i < |a| && j <= |b| && (j == |b| || a[i].frequency >= b[j].frequency)
    requires |c| < 5 && Distinct(c)
    ensures FirstDocuments(Merge(a[i..], b[j..]), c) == FirstDocuments(Merge(a[i + 1..], b[j..]), AddDocument(c, a[i].document))
  {
    assert a[i..][0] == a[i] && a[i..][1..] == a[i + 1..];
    assert j < |b| ==> b[j..][0] == b[j];
    MergeHeadFirst(a[i..], b[j..]);
    FirstDocumentsStep(Merge(a[i..], b[j..]), c);
  }

  /** Taking the next occurrence of the second list. */
  lemma TakeSecond(a: seq<Occurrence>, b: seq<Occurrence>, i: nat, j: nat, c: seq<string>)
    requires i <= |a| && j < |b| && (i == |a| || a[i].frequency < b[j].frequency)
    requires |c| < 5 && Distinct(c)
    ensures FirstDocuments(Merge(a[i..], b[j..]), c) == FirstDocuments(Merge(a[i..], b[j + 1..]), AddDocument(c, b[j].document))
  {
    assert b[j..][0] == b[j] && b[j..][1..] == b[j + 1..];
    assert i < |a| ==> a[i..][0] == a[i];
    MergeHeadSecond(a[i..], b[j..]);
    FirstDocumentsStep(Merge(a[i..], b[j..]), c);
  }

  /** The merge starts with the first list's head when it is at least as frequent. */
  lemma MergeHeadFirst(a: seq<Occurrence>, b: seq<Occurrence>)
    requires a != [] && (b == [] || a[0].frequency >= b[0].frequency)
    ensures Merge(a, b) == [a[0]] + Merge(a[1..], b)
  {
    if b == [] {
      assert a == [a[0]] + a[1..];
    }
  }

  /** The merge starts with the second list's head when it is more frequent. */
  lemma MergeHeadSecond(a: seq<Occurrence>, b: seq<Occurrence>)
    requires b != [] && (a == [] || a[0].frequency < b[0].frequency)
    ensures Merge(a, b) == [b[0]] + Merge(a, b[1..])
  {
    if a == [] {
      assert b == [b[0]] + b[1..];
    }
  }

  /** One step of the collection of documents. */
  lemma FirstDocumentsStep(s: seq<Occurrence>, c: seq<string>)
    requires s != [] && |c| < 5
    ensures FirstDocuments(s, c) == FirstDocuments(s[1..], AddDocument(c, s[0].document))
  {
  }
}
