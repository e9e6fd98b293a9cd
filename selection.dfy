/**
 * Choosing the output of a best-of-N run: the candidates that reported
 * success, in a fixed order, are sorted by size with a stable sort; the first
 * one is kept when it is strictly smaller than the original, and the original
 * is kept otherwise.
 */
module Selection {
  import opened Base

  /** The three strategies of the web service, in the order they are tried. */
  datatype Strategy = GhostscriptEbook | GhostscriptScreen | Pikepdf

  /** A successful run: which strategy produced it and the size of its output file. */
  datatype Candidate = Candidate(strategy: Strategy, size: nat)

  /**
   * What `compress_pdf` reports, `(original_size, compressed_size)`, together
   * with the strategy whose file is copied to the output (None: the input is copied).
   */
  datatype Outcome = Outcome(originalSize: nat, compressedSize: nat, chosen: Option<Strategy>)

  predicate SortedBySize(s: seq<Candidate>) {
    forall i, j :: 0 <= i < j < |s| ==> s[i].size <= s[j].size
  }

  /** Insert `c` into a sorted list in front of the first element that is not smaller. */
  function Insert(c: Candidate, s: seq<Candidate>): (r: seq<Candidate>)
    requires SortedBySize(s)
    ensures |r| == |s| + 1
    ensures r[0] == if s == [] || c.size <= s[0].size then c else s[0]
    ensures SortedBySize(r)
  {
    if s == [] || c.size <= s[0].size then [c] + s
    else [s[0]] + Insert(c, s[1..])
  }

  /** Insertion adds `c` and loses nothing. */
  lemma {:induction false} InsertPermutes(c: Candidate, s: seq<Candidate>)
    requires SortedBySize(s)
    ensures multiset(Insert(c, s)) == multiset(s) + multiset{c}
  {
    if s != [] && c.size > s[0].size {
      InsertPermutes(c, s[1..]);
      assert s == [s[0]] + s[1..];
    }
  }

  /**
   * `list.sort(key=size)`: insertion sort, which like the library's sort is
   * stable (an element is inserted in front of the equal ones that came after it).
   */
  function SortBySize(s: seq<Candidate>): (r: seq<Candidate>)
    ensures SortedBySize(r)
    ensures |r| == |s|
  {
    if s == [] then [] else Insert(s[0], SortBySize(s[1..]))
  }

  /** The sort is a permutation of its input. */
  lemma {:induction false} SortPermutes(s: seq<Candidate>)
    ensures multiset(SortBySize(s)) == multiset(s)
  {
    if s != [] {
      var t := SortBySize(s[1..]);
      assert multiset(SortBySize(s)) == multiset(t) + multiset{s[0]} by {
        InsertPermutes(s[0], t);
      }
      assert multiset(t) == multiset(s[1..]) by {
        SortPermutes(s[1..]);
      }
      assert multiset(s) == multiset(s[1..]) + multiset{s[0]} by {
        assert s == [s[0]] + s[1..];
      }
    }
  }

  /** `i` is the position of the first candidate of minimum size. */
  predicate IsFirstMin(s: seq<Candidate>, i: int) {
    && 0 <= i < |s|
    && (forall j :: 0 <= j < |s| ==> s[i].size <= s[j].size)
    && (forall j :: 0 <= j < i ==> s[j].size > s[i].size)
  }

  /** The first position of minimum size, found by a scan from the front. */
  function FirstMinIndex(s: seq<Candidate>): (r: nat)
    requires s != []
    ensures IsFirstMin(s, r)
  {
    if |s| == 1 then 0
    else
      var k := 1 + FirstMinIndex(s[1..]);
      if s[0].size <= s[k].size then 0 else k
  }

  /** The first-minimum position is unique. */
  lemma FirstMinUnique(s: seq<Candidate>, i: int, j: int)
    requires IsFirstMin(s, i) && IsFirstMin(s, j)
    ensures i == j
  {
    assert s[i].size == s[j].size;
  }

  /**
   * The head of the stable sort is the first candidate of minimum size:
   * among equal sizes, the earliest in list order wins.
   */
  lemma {:induction false} SortedHeadIsFirstMin(s: seq<Candidate>)
    requires s != []
    ensures SortBySize(s)[0] == s[FirstMinIndex(s)]
  {
    if |s| > 1 {
      SortedHeadIsFirstMin(s[1..]);
    }
  }

  /**
   * From the results of the successful runs, in the order they were appended:
   * the pair `compress_pdf` returns and the strategy whose file is copied.
   */
  function SelectBest(original: nat, results: seq<Candidate>): (r: Outcome)
    ensures r.originalSize == original && r.compressedSize <= original
    ensures results == [] ==> r == Outcome(original, original, None)
    ensures r.chosen.None? <==> forall j :: 0 <= j < |results| ==> results[j].size >= original
    ensures r.chosen.None? ==> r.compressedSize == original
    ensures r.chosen.Some? ==>
              var i := FirstMinIndex(results);
              && r.chosen == Some(results[i].strategy)
              && r.compressedSize == results[i].size < original
              && (forall j :: 0 <= j < |results| ==> r.compressedSize <= results[j].size)
              && (forall j :: 0 <= j < i ==> r.compressedSize < results[j].size)
  {
    if results == [] then Outcome(original, original, None)
    else
      var best := SortBySize(results)[0];
      SortedHeadIsFirstMin(results);
      if best.size < original then Outcome(original, best.size, Some(best.strategy))
      else Outcome(original, original, None)
  }

  /** The successful runs, in the fixed order ebook, screen, pikepdf (None: the run failed). */
  function SuccessfulInOrder(ebook: Option<nat>, screen: Option<nat>, pikepdf: Option<nat>): (r: seq<Candidate>)
    ensures |r| <= 3
    ensures forall n: nat :: Candidate(GhostscriptEbook, n) in r <==> ebook == Some(n)
    ensures forall n: nat :: Candidate(GhostscriptScreen, n) in r <==> screen == Some(n)
    ensures forall n: nat :: Candidate(Pikepdf, n) in r <==> pikepdf == Some(n)
    ensures forall i, j :: 0 <= i < j < |r| ==> Rank(r[i].strategy) < Rank(r[j].strategy)
  {
    (if ebook.Some? then [Candidate(GhostscriptEbook, ebook.value)] else [])
    + (if screen.Some? then [Candidate(GhostscriptScreen, screen.value)] else [])
    + (if pikepdf.Some? then [Candidate(Pikepdf, pikepdf.value)] else [])
  }

  /** The position of a strategy in the order of the runs. */
  function Rank(s: Strategy): nat {
    match s
    case GhostscriptEbook => 0
    case GhostscriptScreen => 1
    case Pikepdf => 2
  }

  /** A tie between strategies goes to the one that ran first. */
  lemma TieGoesToEarlier(original: nat, ebook: Option<nat>, screen: Option<nat>, pikepdf: Option<nat>)
    requires ebook.Some? && screen.Some? && ebook.value == screen.value < original
    requires pikepdf.Some? ==> pikepdf.value >= ebook.value
    ensures SelectBest(original, SuccessfulInOrder(ebook, screen, pikepdf))
              == Outcome(original, ebook.value, Some(GhostscriptEbook))
  {
    var r := SuccessfulInOrder(ebook, screen, pikepdf);
    assert r[0] == Candidate(GhostscriptEbook, ebook.value);
    assert IsFirstMin(r, 0);
    FirstMinUnique(r, 0, FirstMinIndex(r));
  }

  /**
   * The single-candidate choice of the command-line tool: the saved file when
   * it is strictly smaller, the original otherwise.
   */
  function SelectSingle(original: nat, temp: nat): (r: Outcome)
    ensures r.originalSize == original && r.compressedSize <= original
    ensures r.chosen.Some? <==> temp < original
    ensures r.chosen.Some? ==> r.compressedSize == temp && r.chosen == Some(Pikepdf)
    ensures r.chosen.None? ==> r.compressedSize == original
  {
    if temp < original then Outcome(original, temp, Some(Pikepdf))
    else Outcome(original, original, None)
  }

  /** The single-candidate choice is best-of-N over one candidate. */
  lemma SingleIsBestOfOne(original: nat, temp: nat)
    ensures SelectSingle(original, temp) == SelectBest(original, [Candidate(Pikepdf, temp)])
  {
    assert [Candidate(Pikepdf, temp)][1..] == [];
  }
}
