/** The Pareto frontier over time and energy (src/lowpower_llm_cluster/operational_metrics.py:203-213). */
module Pareto {
  import opened Base

  /** What `row.get("eligible")` and the two measures come to.  A measure is None when it is absent or not a
      finite number (src/lowpower_llm_cluster/scoring_inputs.py:51-58); rows are told apart by their id. */
  datatype Row = Row(id: nat, ineligible: bool, time: Option<real>, energy: Option<real>)

  predicate Candidate(row: Row)
  {
    !row.ineligible && row.time.Some? && row.energy.Some?
  }

  predicate AllCandidates(rows: seq<Row>)
  {
    forall row | row in rows :: Candidate(row)
  }

  predicate Dominates(a: Row, b: Row)
    requires Candidate(a) && Candidate(b)
  {
    && a.time.value <= b.time.value && a.energy.value <= b.energy.value
    && (a.time.value < b.time.value || a.energy.value < b.energy.value)
  }

  function Candidates(rows: seq<Row>): (candidates: seq<Row>)
    ensures forall row :: row in candidates <==> row in rows && Candidate(row)
  {
    if rows == [] then [] else
      assert rows == rows[..|rows| - 1] + [rows[|rows| - 1]];
      Candidates(rows[..|rows| - 1]) + if Candidate(rows[|rows| - 1]) then [rows[|rows| - 1]] else []
  }

  /** Some candidate other than the row itself dominates it. */
  predicate Dominated(row: Row, candidates: seq<Row>)
    requires Candidate(row) && AllCandidates(candidates)
  {
    exists other :: other in candidates && other != row && Dominates(other, row)
  }

  /** The rows of a list no candidate dominates, in the list's order. */
  function Undominated(rows: seq<Row>, candidates: seq<Row>): (chosen: seq<Row>)
    requires AllCandidates(rows) && AllCandidates(candidates)
    ensures forall row :: row in chosen <==> row in rows && !Dominated(row, candidates)
  {
    if rows == [] then [] else
      var before, last := rows[..|rows| - 1], rows[|rows| - 1];
      assert rows == before + [last];
      Undominated(before, candidates) + if Dominated(last, candidates) then [] else [last]
  }

  function Frontier(rows: seq<Row>): seq<Row>
  {
    Undominated(Candidates(rows), Candidates(rows))
  }

  /** The `any` over the other candidates. */
  method AnyDominates(row: Row, candidates: seq<Row>) returns (beaten: bool)
    requires Candidate(row) && AllCandidates(candidates)
    ensures beaten <==> Dominated(row, candidates)
  {
    for k := 0 to |candidates|
      invariant forall other | other in candidates[..k] && other != row :: !Dominates(other, row)
    {
      assert candidates[k] in candidates;
      if candidates[k] != row && Dominates(candidates[k], row) {
        return true;
      }
      assert candidates[..k + 1] == candidates[..k] + [candidates[k]];
    }
    assert candidates[..|candidates|] == candidates;
    return false;
  }

  method ParetoFrontier(rows: seq<Row>) returns (frontier: seq<Row>)
    ensures frontier == Frontier(rows)
  {
    var candidates: seq<Row> := [];
    for k := 0 to |rows|
      invariant candidates == Candidates(rows[..k])
    {
      assert rows[..k + 1][..k] == rows[..k];
      if Candidate(rows[k]) {
        candidates := candidates + [rows[k]];
      }
    }
    assert rows[..|rows|] == rows;
    frontier := [];
    for k := 0 to |candidates|
      invariant frontier == Undominated(candidates[..k], candidates)
    {
      assert candidates[..k + 1][..k] == candidates[..k];
      var beaten := AnyDominates(candidates[k], candidates);
      if !beaten {
        frontier := frontier + [candidates[k]];
      }
    }
    assert candidates[..|candidates|] == candidates;
  }

  // ---------------------------------------------------------------- dominance

  lemma DominanceIsAnOrder(a: Row, b: Row, c: Row)
    requires Candidate(a) && Candidate(b) && Candidate(c)
    ensures !Dominates(a, a)
    ensures Dominates(a, b) && Dominates(b, c) ==> Dominates(a, c)
  {
  }

  /** How many rows of the list dominate a row. */
  ghost function Above(row: Row, candidates: seq<Row>): set<Row>
    requires Candidate(row) && AllCandidates(candidates)
  {
    set other | other in candidates && Dominates(other, row)
  }

  /** Climbing from a dominated row ends at an undominated one, because fewer and fewer rows are above. */
  lemma {:induction false} ClimbToFrontier(row: Row, candidates: seq<Row>) returns (top: Row)
    requires Candidate(row) && AllCandidates(candidates) && Dominated(row, candidates)
    ensures top in candidates && Dominates(top, row) && !Dominated(top, candidates)
    decreases |Above(row, candidates)|
  {
    top :| top in candidates && top != row && Dominates(top, row);
    if Dominated(top, candidates) {
      assert Above(top, candidates) <= Above(row, candidates);
      assert top in Above(row, candidates) && top !in Above(top, candidates);
      Shrinks(Above(top, candidates), Above(row, candidates), top);
      top := ClimbToFrontier(top, candidates);
    }
  }

  lemma Shrinks(small: set<Row>, large: set<Row>, x: Row)
    requires small <= large && x in large && x !in small
    ensures |small| < |large|
  {
    assert small <= large - {x};
    assert large == (large - {x}) + {x};
    Subset(small, large - {x});
  }

  lemma {:induction false} Subset(small: set<Row>, large: set<Row>)
    requires small <= large
    ensures |small| <= |large|
  {
    assert large == small + (large - small);
  }

  // ---------------------------------------------------------------- what the frontier is

  /** Complete: every such row left out is dominated by one that is returned. */
  lemma {:induction false} FrontierCovers(rows: seq<Row>, row: Row)
    requires row in rows && Candidate(row) && row !in Frontier(rows)
    ensures exists top :: top in Frontier(rows) && Candidate(top) && Dominates(top, row)
  {
    var top := ClimbToFrontier(row, Candidates(rows));
    assert top in Frontier(rows);
  }

  /** No eligible row with both measures dominates this one, which is one itself. */
  ghost predicate Chosen(row: Row, rows: seq<Row>)
  {
    Candidate(row) && forall other | other in rows && Candidate(other) :: !Dominates(other, row)
  }

  /** The rows that are chosen from among `all`, where and as often as they stand in `rows`. */
  ghost function KeepChosen(rows: seq<Row>, all: seq<Row>): seq<Row>
  {
    if rows == [] then [] else
      KeepChosen(rows[..|rows| - 1], all) + if Chosen(rows[|rows| - 1], all) then [rows[|rows| - 1]] else []
  }

  lemma UndominatedSnoc(rows: seq<Row>, row: Row, candidates: seq<Row>)
    requires AllCandidates(rows + [row]) && AllCandidates(rows) && Candidate(row) && AllCandidates(candidates)
    ensures Undominated(rows + [row], candidates) ==
      Undominated(rows, candidates) + if Dominated(row, candidates) then [] else [row]
  {
    assert (rows + [row])[..|rows|] == rows;
  }

  lemma {:induction false} BothPasses(rows: seq<Row>, all: seq<Row>)
    ensures Undominated(Candidates(rows), Candidates(all)) == KeepChosen(rows, all)
  {
    if rows != [] {
      var before, last := rows[..|rows| - 1], rows[|rows| - 1];
      BothPasses(before, all);
      ChosenMeans(last, all);
      assert Candidates(before) + [] == Candidates(before);
      if Candidate(last) {
        UndominatedSnoc(Candidates(before), last, Candidates(all));
      }
    }
  }

  lemma ChosenMeans(row: Row, all: seq<Row>)
    ensures Chosen(row, all) <==> Candidate(row) && !Dominated(row, Candidates(all))
  {
    if Candidate(row) {
      DominanceIsAnOrder(row, row, row);
    }
  }

  /** The two passes together are one filter of the input: sound, in input order, with every repetition. */
  lemma FrontierIsOneFilter(rows: seq<Row>)
    ensures Frontier(rows) == KeepChosen(rows, rows)
  {
    BothPasses(rows, rows);
  }

  lemma {:induction false} NoneDropped(rows: seq<Row>)
    requires AllCandidates(rows)
    ensures Candidates(rows) == rows
  {
    if rows != [] {
      var before, last := rows[..|rows| - 1], rows[|rows| - 1];
      assert rows == before + [last] && last in rows;
      assert forall row | row in before :: row in rows;
      NoneDropped(before);
    }
  }

  lemma {:induction false} AllUndominated(rows: seq<Row>, candidates: seq<Row>)
    requires AllCandidates(rows) && AllCandidates(candidates)
    requires forall row | row in rows :: !Dominated(row, candidates)
    ensures Undominated(rows, candidates) == rows
  {
    if rows != [] {
      var before, last := rows[..|rows| - 1], rows[|rows| - 1];
      assert rows == before + [last] && last in rows;
      assert forall row | row in before :: row in rows;
      AllUndominated(before, candidates);
      UndominatedSnoc(before, last, candidates);
    }
  }

  /** Applying it to its own output changes nothing. */
  lemma FrontierIsIdempotent(rows: seq<Row>)
    ensures Frontier(Frontier(rows)) == Frontier(rows)
  {
    var frontier := Frontier(rows);
    NoneDropped(frontier);
    AllUndominated(frontier, frontier);
  }

  // ---------------------------------------------------------------- in numbers

  /** The row takes part: it is not ineligible and has both measures. */
  predicate TakesPart(row: Row)
  {
    !row.ineligible && row.time.Some? && row.energy.Some?
  }

  /** As fast and as frugal, and better in one of the two; less is better. */
  predicate Beats(a: Row, b: Row)
    requires TakesPart(a) && TakesPart(b)
  {
    var (t, e, u, f) := (a.time.value, a.energy.value, b.time.value, b.energy.value);
    (t < u && e <= f) || (t <= u && e < f)
  }

  /** A row is returned exactly when it takes part and no row that takes part beats it. */
  lemma ReturnedExactly(rows: seq<Row>, row: Row)
    ensures row in Frontier(rows) <==>
      row in rows && TakesPart(row) && forall other | other in rows && TakesPart(other) :: !Beats(other, row)
  {
    var candidates := Candidates(rows);
    if row in candidates {
      assert forall other | other in candidates :: Dominates(other, row) ==> other != row;
    }
  }

  /** In particular the fastest row is returned, the more frugal one among equally fast ones. */
  lemma FastestIsReturned(rows: seq<Row>, row: Row)
    requires row in rows && TakesPart(row)
    requires forall other | other in rows && TakesPart(other) ::
      row.time.value < other.time.value ||
      (row.time.value == other.time.value && row.energy.value <= other.energy.value)
    ensures row in Frontier(rows)
  {
    ReturnedExactly(rows, row);
  }
}
