/**
 * GetPotentialMoveList of MinimaxManager.cs: the successor list of a board.
 * Every locus `0 .. width * height - 1` is asked for its boards in turn; a
 * candidate is considered once some candidate of the same locus (itself or
 * an earlier one) has a grid differing from the parent's, and it is added
 * unless a board `Equal` to it was added before.
 */
module Successors {
  import opened Boards

  predicate AllFit(s: seq<BoardValue>) {
    forall k :: 0 <= k < |s| ==> Fits(s[k])
  }

  /** The grid of `c` differs from the parent's in one of the parent's tiles. */
  predicate GridDiffers(parent: BoardValue, c: BoardValue)
    requires Fits(parent) && Admissible(parent, c)
  {
    Tiles(c, Cells(parent)) != Tiles(parent, Cells(parent))
  }

  /** Index of the first candidate whose grid differs from the parent's; `|cs|` if none does. */
  function FirstDiffering(parent: BoardValue, cs: seq<BoardValue>): (r: nat)
    requires Fits(parent) && AllAdmissible(parent, cs)
    ensures r <= |cs|
    ensures forall k :: 0 <= k < r ==> !GridDiffers(parent, cs[k])
    ensures r < |cs| ==> GridDiffers(parent, cs[r])
  {
    if cs == [] then 0
    else if GridDiffers(parent, cs[0]) then 0
    else 1 + FirstDiffering(parent, cs[1..])
  }

  /**
   * The candidates of one locus that pass the parent-identity test as the
   * code has it: the flag is set by the first grid-differing candidate and is
   * never cleared, so every candidate from that one on passes.
   */
  function Passing(parent: BoardValue, cs: seq<BoardValue>): seq<BoardValue>
    requires Fits(parent) && AllAdmissible(parent, cs)
  {
    cs[FirstDiffering(parent, cs)..]
  }

  /** The passing candidates of loci `0 .. n - 1`, loci ascending, each locus in its own order. */
  function Candidates(g: Game, b: BoardValue, n: int): (r: seq<BoardValue>)
    requires g.Valid() && Fits(b)
    ensures AllAdmissible(b, r) && AllFit(r)
    decreases n
  {
    if n <= 0 then []
    else
      Candidates(g, b, n - 1) + Passing(b, g.calculateAllMoves(b, n - 1))
  }

  /** Some entry of `s` is `Equal` to `c` (in the orientation `c.Equal(entry)`). */
  predicate Contains(s: seq<BoardValue>, c: BoardValue)
    requires AllFit(s) && Fits(c)
  {
    exists k :: 0 <= k < |s| && EqualValues(c, s[k])
  }

  /** The entries of `s` that are `Equal` to no earlier entry, in their order in `s`. */
  function FirstOccurrences(s: seq<BoardValue>): (r: seq<BoardValue>)
    requires AllFit(s)
    ensures |r| <= |s|
    ensures AllFit(r)
  {
    if s == [] then []
    else
      var init, last := s[..|s| - 1], s[|s| - 1];
      FirstOccurrences(init) + (if Contains(init, last) then [] else [last])
  }

  /** The successor list of `b`: first occurrences among the passing candidates of every locus. */
  function PotentialMoveList(g: Game, b: BoardValue): (r: seq<BoardValue>)
    requires g.Valid() && Fits(b)
    ensures AllFit(r)
  {
    FirstOccurrences(Candidates(g, b, Cells(b)))
  }

  /** Extending `s` by one board keeps it exactly when no entry of `s` is `Equal` to it. */
  lemma FirstOccurrencesSnoc(s: seq<BoardValue>, c: BoardValue)
    requires AllFit(s) && Fits(c)
    ensures FirstOccurrences(s + [c]) == FirstOccurrences(s) + (if Contains(s, c) then [] else [c])
  {
    assert (s + [c])[..|s|] == s;
  }

  /** Every kept entry is an entry of `s`. */
  lemma {:induction false} FirstOccurrencesFrom(s: seq<BoardValue>, k: nat)
    requires AllFit(s) && k < |FirstOccurrences(s)|
    ensures FirstOccurrences(s)[k] in s
  {
    var init, last := s[..|s| - 1], s[|s| - 1];
    var f := FirstOccurrences(init);
    if k < |f| {
      FirstOccurrencesFrom(init, k);
      assert FirstOccurrences(s)[k] == f[k];
    }
  }

  /** No two entries of `FirstOccurrences(s)` are `Equal`, in either orientation. */
  lemma {:induction false} FirstOccurrencesDistinct(s: seq<BoardValue>)
    requires AllFit(s)
    ensures forall x, y :: 0 <= x < y < |FirstOccurrences(s)| ==>
      !EqualValues(FirstOccurrences(s)[x], FirstOccurrences(s)[y]) &&
      !EqualValues(FirstOccurrences(s)[y], FirstOccurrences(s)[x])
  {
    if s != [] {
      var init, last := s[..|s| - 1], s[|s| - 1];
      FirstOccurrencesDistinct(init);
      var f, r := FirstOccurrences(init), FirstOccurrences(s);
      forall x, y | 0 <= x < y < |r|
        ensures !EqualValues(r[x], r[y]) && !EqualValues(r[y], r[x])
      {
        if y == |f| {
          assert r[y] == last && r[x] == f[x];
          FirstOccurrencesFrom(init, x);
          var q :| 0 <= q < |init| && init[q] == f[x];
          EqualSymmetric(last, f[x]);
        }
      }
    }
  }

  /** Every entry of `s` is `Equal` to some kept entry. */
  lemma {:induction false} FirstOccurrencesCover(s: seq<BoardValue>, q: nat)
    requires AllFit(s) && q < |s|
    ensures Contains(FirstOccurrences(s), s[q])
  {
    var init, last := s[..|s| - 1], s[|s| - 1];
    var f := FirstOccurrences(init);
    assert FirstOccurrences(s) == f + (if Contains(init, last) then [] else [last]);
    if q < |init| {
      FirstOccurrencesCover(init, q);
      var k :| 0 <= k < |f| && EqualValues(init[q], f[k]);
      assert FirstOccurrences(s)[k] == f[k];
    } else if Contains(init, last) {
      var q' :| 0 <= q' < |init| && EqualValues(last, init[q']);
      FirstOccurrencesCover(init, q');
      var k :| 0 <= k < |f| && EqualValues(init[q'], f[k]);
      EqualTransitive(last, init[q'], f[k]);
      assert FirstOccurrences(s)[k] == f[k];
    } else {
      EqualReflexive(last);
      assert FirstOccurrences(s)[|f|] == last;
    }
  }

  /** Looking `c` up among the kept entries answers whether it is `Equal` to any entry at all. */
  lemma ContainsFirstOccurrences(s: seq<BoardValue>, c: BoardValue)
    requires AllFit(s) && Fits(c)
    ensures Contains(FirstOccurrences(s), c) == Contains(s, c)
  {
    var f := FirstOccurrences(s);
    if Contains(f, c) {
      var k :| 0 <= k < |f| && EqualValues(c, f[k]);
      FirstOccurrencesFrom(s, k);
      var q :| 0 <= q < |s| && s[q] == f[k];
    }
    if Contains(s, c) {
      var q :| 0 <= q < |s| && EqualValues(c, s[q]);
      FirstOccurrencesCover(s, q);
      var k :| 0 <= k < |f| && EqualValues(s[q], f[k]);
      EqualTransitive(c, s[q], f[k]);
    }
  }

  /**
   * What the list holds after the first `m` candidates of a locus: the
   * earlier loci's passing candidates `before`, then this locus's candidates
   * from its first grid-differing one up to `m`.
   */
  function Window(parent: BoardValue, before: seq<BoardValue>, cs: seq<BoardValue>, m: nat): (r: seq<BoardValue>)
    requires Fits(parent) && AllFit(before) && AllAdmissible(parent, cs) && m <= |cs|
    ensures AllFit(r)
  {
    var first := FirstDiffering(parent, cs);
    before + cs[if first < m then first else m..m]
  }

  /** The flag after candidate `m`: on exactly when the first grid-differing candidate is at or before `m`. */
  lemma FlagStep(parent: BoardValue, cs: seq<BoardValue>, m: nat)
    requires Fits(parent) && AllAdmissible(parent, cs) && m < |cs|
    ensures (FirstDiffering(parent, cs) <= m) == (FirstDiffering(parent, cs) < m || GridDiffers(parent, cs[m]))
  {
  }

  lemma SliceSnoc<T>(s: seq<T>, a: nat, m: nat)
    requires a <= m < |s|
    ensures s[a..m + 1] == s[a..m] + [s[m]]
  {
  }

  /** One candidate's turn: added when the flag is on and no `Equal` board is listed yet. */
  function Admit(list: seq<BoardValue>, c: BoardValue, on: bool): seq<BoardValue>
    requires AllFit(list) && Fits(c)
  {
    if on && !Contains(list, c) then list + [c] else list
  }

  /** A candidate at or after the first grid-differing one is added unless an `Equal` board is listed. */
  lemma WindowStep(parent: BoardValue, before: seq<BoardValue>, cs: seq<BoardValue>, m: nat)
    requires Fits(parent) && AllFit(before) && AllAdmissible(parent, cs) && m < |cs|
    ensures FirstOccurrences(Window(parent, before, cs, m + 1)) ==
      Admit(FirstOccurrences(Window(parent, before, cs, m)), cs[m], FirstDiffering(parent, cs) <= m)
  {
    var first := FirstDiffering(parent, cs);
    var s := Window(parent, before, cs, m);
    if first <= m {
      SliceSnoc(cs, first, m);
      assert Window(parent, before, cs, m + 1) == s + [cs[m]];
      FirstOccurrencesSnoc(s, cs[m]);
      ContainsFirstOccurrences(s, cs[m]);
    } else {
      assert Window(parent, before, cs, m + 1) == s;
    }
  }

  /** One turn of the candidate loop keeps the loop's two invariants, from candidate `m` to `m + 1`. */
  lemma LocusStep(parent: BoardValue, before: seq<BoardValue>, cs: seq<BoardValue>, m: nat,
                  flag: bool, result: seq<BoardValue>, flag': bool, result': seq<BoardValue>)
    requires Fits(parent) && AllFit(before) && AllAdmissible(parent, cs) && m < |cs|
    requires flag == (FirstDiffering(parent, cs) < m)
    requires result == FirstOccurrences(Window(parent, before, cs, m))
    requires flag' == (flag || GridDiffers(parent, cs[m]))
    requires result' == Admit(result, cs[m], flag')
    ensures flag' == (FirstDiffering(parent, cs) < m + 1)
    ensures result' == FirstOccurrences(Window(parent, before, cs, m + 1))
  {
    FlagStep(parent, cs, m);
    WindowStep(parent, before, cs, m);
  }

  /** The tile loop of GetPotentialMoveList: stops at the first tile where `c` differs from the parent. */
  method CompareGrids(parent: BoardValue, c: BoardValue) returns (differs: bool)
    requires Fits(parent) && Admissible(parent, c)
    ensures differs == GridDiffers(parent, c)
  {
    differs := false;
    var j := 0;
    while j < Cells(parent)
      invariant 0 <= j && (j == 0 || j <= Cells(parent))
      invariant c.grid[..j] == parent.grid[..j]
    {
      if c.grid[j] != parent.grid[j] {
        differs := true;
        break;
      }
      j := j + 1;
    }
  }

  /** The scan of the boards added so far for one that `c.Equal`s. */
  method AlreadyListed(potentialBoards: seq<BoardValue>, c: BoardValue) returns (listed: bool)
    requires AllFit(potentialBoards) && Fits(c)
    ensures listed == Contains(potentialBoards, c)
  {
    listed := false;
    var t := 0;
    while t < |potentialBoards|
      invariant 0 <= t <= |potentialBoards|
      invariant forall kk :: 0 <= kk < t ==> !EqualValues(c, potentialBoards[kk])
    {
      if EqualValues(c, potentialBoards[t]) {
        listed := true;
        break;
      }
      t := t + 1;
    }
  }

  /**
   * One turn of the candidate loop: the tile comparison may set the flag,
   * and a flagged candidate is added unless an `Equal` board is listed.
   */
  method ConsiderCandidate(board: BoardValue, pgs: BoardValue, differentBoards: bool,
                           potentialBoards: seq<BoardValue>)
    returns (flag: bool, result: seq<BoardValue>)
    requires Fits(board) && Admissible(board, pgs) && AllFit(potentialBoards)
    ensures flag == (differentBoards || GridDiffers(board, pgs))
    ensures result == Admit(potentialBoards, pgs, flag)
  {
    flag := differentBoards;
    result := potentialBoards;
    var differs := CompareGrids(board, pgs);
    if differs {
      flag := true;
    }
    if flag {
      var listed := AlreadyListed(result, pgs);
      if !listed {
        result := result + [pgs];
      }
    }
  }

  /**
   * The body of GetPotentialMoveList's locus loop: the candidate loop with
   * the `differentBoards` flag, declared once for the locus, set by the tile
   * comparison and never cleared, guarding the scan of the boards added so far.
   */
  method AddLocus(board: BoardValue, possibleMoves: seq<BoardValue>, potentialBoards: seq<BoardValue>,
                  ghost before: seq<BoardValue>)
    returns (result: seq<BoardValue>)
    requires Fits(board) && AllFit(before) && AllAdmissible(board, possibleMoves)
    requires potentialBoards == FirstOccurrences(before)
    ensures result == FirstOccurrences(before + Passing(board, possibleMoves))
  {
    result := potentialBoards;
    ghost var first := FirstDiffering(board, possibleMoves);
    var differentBoards := false;
    var m := 0;
    assert Window(board, before, possibleMoves, 0) == before;
    while m < |possibleMoves|
      invariant 0 <= m <= |possibleMoves|
      invariant differentBoards == (first < m)
      invariant result == FirstOccurrences(Window(board, before, possibleMoves, m))
    {
      var flag', result' := ConsiderCandidate(board, possibleMoves[m], differentBoards, result);
      LocusStep(board, before, possibleMoves, m, differentBoards, result, flag', result');
      differentBoards, result, m := flag', result', m + 1;
    }
    assert Window(board, before, possibleMoves, m) == before + Passing(board, possibleMoves);
  }

  /** Locus `i` contributes its passing candidates after those of loci `0 .. i - 1`. */
  lemma CandidatesStep(g: Game, b: BoardValue, i: nat)
    requires g.Valid() && Fits(b)
    ensures AllAdmissible(b, g.calculateAllMoves(b, i))
    ensures Candidates(g, b, i + 1) == Candidates(g, b, i) + Passing(b, g.calculateAllMoves(b, i))
  {
  }

  /** GetPotentialMoveList: the loci `0 .. width * height - 1` in turn, each asked for its boards. */
  method GetPotentialMoveList(g: Game, board: BoardValue) returns (potentialBoards: seq<BoardValue>)
    requires g.Valid() && Fits(board)
    ensures potentialBoards == PotentialMoveList(g, board)
  {
    potentialBoards := [];
    var i := 0;
    while i < Cells(board)
      // `i` stays 0 when `width * height` is not positive
      invariant 0 <= i && (i == 0 || i <= Cells(board))
      invariant potentialBoards == FirstOccurrences(Candidates(g, board, i))
    {
      var possibleMoves := g.calculateAllMoves(board, i);
      CandidatesStep(g, board, i);
      potentialBoards := AddLocus(board, possibleMoves, potentialBoards, Candidates(g, board, i));
      i := i + 1;
    }
    AllLociVisited(g, board, i);
  }

  /** Once the locus loop stops, the list holds what every locus contributed. */
  lemma AllLociVisited(g: Game, b: BoardValue, i: int)
    requires g.Valid() && Fits(b) && 0 <= i && (i == 0 || i <= Cells(b)) && Cells(b) <= i
    ensures FirstOccurrences(Candidates(g, b, i)) == PotentialMoveList(g, b)
  {
    if i != Cells(b) {
      assert Candidates(g, b, i) == [] == Candidates(g, b, Cells(b));
    }
  }

  /** No two entries of the successor list are `Equal`. */
  lemma PotentialMovesDistinct(g: Game, b: BoardValue)
    requires g.Valid() && Fits(b)
    ensures forall x, y :: 0 <= x < y < |PotentialMoveList(g, b)| ==>
      !EqualValues(PotentialMoveList(g, b)[x], PotentialMoveList(g, b)[y])
  {
    FirstOccurrencesDistinct(Candidates(g, b, Cells(b)));
  }

  /**
   * Every passing candidate, a board of `CalculateAllMoves(i)` at or after
   * the first grid-differing one of its locus, is `Equal` to an entry.
   */
  lemma PotentialMovesCover(g: Game, b: BoardValue, i: int, j: int)
    requires g.Valid() && Fits(b) && 0 <= i < Cells(b)
    requires FirstDiffering(b, g.calculateAllMoves(b, i)) <= j < |g.calculateAllMoves(b, i)|
    ensures Contains(PotentialMoveList(g, b), g.calculateAllMoves(b, i)[j])
  {
    var c := g.calculateAllMoves(b, i)[j];
    var s := Candidates(g, b, Cells(b));
    var q := CandidatePosition(g, b, Cells(b), i, j);
    FirstOccurrencesCover(s, q);
  }

  /** Where the `j`-th candidate of locus `i` sits among the passing candidates of loci `0 .. n - 1`. */
  lemma {:induction false} CandidatePosition(g: Game, b: BoardValue, n: int, i: int, j: int) returns (q: nat)
    requires g.Valid() && Fits(b) && 0 <= i < n
    requires FirstDiffering(b, g.calculateAllMoves(b, i)) <= j < |g.calculateAllMoves(b, i)|
    ensures q < |Candidates(g, b, n)| && Candidates(g, b, n)[q] == g.calculateAllMoves(b, i)[j]
    decreases n
  {
    var prev := Candidates(g, b, n - 1);
    if i == n - 1 {
      q := |prev| + j - FirstDiffering(b, g.calculateAllMoves(b, i));
    } else {
      q := CandidatePosition(g, b, n - 1, i, j);
    }
  }

  /**
   * Every passing candidate comes from `CalculateAllMoves(i)` for a locus `i`
   * of the board, at or after the first candidate of that locus whose grid
   * differs from the parent's.
   */
  lemma {:induction false} CandidateOrigin(g: Game, b: BoardValue, n: int, q: nat)
    requires g.Valid() && Fits(b) && q < |Candidates(g, b, n)|
    ensures exists i, j ::
      && 0 <= i < n && 0 <= j < |g.calculateAllMoves(b, i)|
      && FirstDiffering(b, g.calculateAllMoves(b, i)) <= j
      && Candidates(g, b, n)[q] == g.calculateAllMoves(b, i)[j]
    decreases n
  {
    var prev := Candidates(g, b, n - 1);
    var cs := g.calculateAllMoves(b, n - 1);
    var first := FirstDiffering(b, cs);
    if q < |prev| {
      CandidateOrigin(g, b, n - 1, q);
      var i, j :| 0 <= i < n - 1 && 0 <= j < |g.calculateAllMoves(b, i)| &&
        FirstDiffering(b, g.calculateAllMoves(b, i)) <= j &&
        prev[q] == g.calculateAllMoves(b, i)[j];
      assert Candidates(g, b, n)[q] == prev[q];
    } else {
      var j := first + (q - |prev|);
      assert Candidates(g, b, n)[q] == cs[j];
    }
  }

  /** Every entry of the successor list is a passing candidate of one of the board's loci. */
  lemma PotentialMovesOrigin(g: Game, b: BoardValue, k: nat)
    requires g.Valid() && Fits(b) && k < |PotentialMoveList(g, b)|
    ensures exists i, j ::
      && 0 <= i < Cells(b) && 0 <= j < |g.calculateAllMoves(b, i)|
      && FirstDiffering(b, g.calculateAllMoves(b, i)) <= j
      && PotentialMoveList(g, b)[k] == g.calculateAllMoves(b, i)[j]
  {
    var s := Candidates(g, b, Cells(b));
    FirstOccurrencesFrom(s, k);
    var q :| 0 <= q < |s| && s[q] == PotentialMoveList(g, b)[k];
    CandidateOrigin(g, b, Cells(b), q);
  }
}
