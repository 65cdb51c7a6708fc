/** `draft_goalkeeper(gk_data, criteria)`: sort the goalkeepers by Overall, keep the
    best thirty as candidates, draw `premier_league` of them at random (or take all
    of them when there are too few), and serialise each drafted player's record
    into the `GK` cell of one draft row. */
module CreatePlayers {
  import opened Wrappers
  import opened Records
  import opened Serialise

  /** `number_of_top_gk`: how many of the best goalkeepers become candidates. */
  const NumberOfTopGk: nat := 30

  /** The `criteria` dictionary of league sizes; a key still holding `None` is `None`. */
  datatype Criteria = Criteria(
    leagues: Option<int>,
    premierLeague: Option<int>,
    championship: Option<int>,
    leagueOne: Option<int>)

  /** One row of the draft table: the `Name` cell and the `GK` cell. */
  datatype DraftRow = DraftRow(name: Option<string>, gk: string)

  /** The exceptions the selection raises. */
  datatype DraftError =
    | NoneComparison  // `len(top_gk) >= None` raises TypeError
    | NegativeSample  // `sample(n=k)` with `k < 0` raises ValueError

  function Min(a: int, b: int): int {
    if a <= b then a else b
  }

  /** Non-increasing Overall from front to back. */
  predicate SortedByOverall(s: seq<Player>) {
    forall i, j :: 0 <= i < j < |s| ==> s[i].overall >= s[j].overall
  }

  /** `sorted` is one admissible result of `pool.sort_values(by="Overall",
      ascending=False)`: the same rows, best first. The sort is not stable, so
      rows with equal Overall may come in any order. */
  predicate IsSortByOverall(sorted: seq<Player>, pool: seq<Player>) {
    SortedByOverall(sorted) && multiset(sorted) == multiset(pool)
  }

  /** A row rated at least as high as everything in a sorted list can go in front. */
  lemma PrependSorted(x: Player, s: seq<Player>)
    requires SortedByOverall(s)
    requires forall y :: y in multiset(s) ==> y.overall <= x.overall
    ensures SortedByOverall([x] + s)
  {
    var r := [x] + s;
    forall i, j | 0 <= i < j < |r|
      ensures r[i].overall >= r[j].overall
    {
      assert r[j] == s[j - 1] && r[j] in multiset(s);
      if i > 0 {
        assert r[i] == s[i - 1];
      }
    }
  }

  /** In a sorted list nothing after the first row outranks it, and the rest is sorted. */
  lemma HeadOutranksRest(s: seq<Player>)
    requires SortedByOverall(s) && s != []
    ensures SortedByOverall(s[1..])
    ensures forall y :: y in multiset(s[1..]) ==> y.overall <= s[0].overall
  {
    forall y | y in multiset(s[1..])
      ensures y.overall <= s[0].overall
    {
      var j :| 0 <= j < |s[1..]| && s[1..][j] == y;
      assert s[j + 1] == y;
    }
  }

  /** Putting the first row of `s` back in front of `p` inserted into the rest of `s`
      gives `p` inserted into `s`, when `p` is rated below that first row. */
  lemma ConsOntoInsertion(s: seq<Player>, p: Player, tail: seq<Player>)
    requires SortedByOverall(s) && s != [] && p.overall < s[0].overall
    requires SortedByOverall(tail) && multiset(tail) == multiset(s[1..]) + multiset{p}
    ensures SortedByOverall([s[0]] + tail)
    ensures multiset([s[0]] + tail) == multiset(s) + multiset{p}
  {
    assert multiset(s) == multiset{s[0]} + multiset(s[1..]) by {
      assert s == [s[0]] + s[1..];
    }
    HeadOutranksRest(s);
    PrependSorted(s[0], tail);
  }

  function InsertByOverall(p: Player, s: seq<Player>): (r: seq<Player>)
    requires SortedByOverall(s)
    ensures SortedByOverall(r)
    ensures multiset(r) == multiset(s) + multiset{p}
    decreases |s|
  {
    if s == [] || s[0].overall <= p.overall then
      PrependSorted(p, s);
      [p] + s
    else
      HeadOutranksRest(s);
      var tail := InsertByOverall(p, s[1..]);
      ConsOntoInsertion(s, p, tail);
      [s[0]] + tail
  }

  /** One admissible descending sort of the pool, so that a sort always exists. */
  function SortByOverall(pool: seq<Player>): (sorted: seq<Player>)
    ensures IsSortByOverall(sorted, pool)
    decreases |pool|
  {
    if pool == [] then []
    else
      assert pool == [pool[0]] + pool[1..];
      InsertByOverall(pool[0], SortByOverall(pool[1..]))
  }

  /** `head(number_of_top_gk)` of the sorted goalkeepers: the first thirty rows, or
      all of them when there are fewer. */
  function Candidates(sorted: seq<Player>): (top: seq<Player>)
    ensures top <= sorted
    ensures |top| == Min(NumberOfTopGk, |sorted|)
    ensures |sorted| <= NumberOfTopGk ==> top == sorted
  {
    sorted[..Min(NumberOfTopGk, |sorted|)]
  }

  /** `top` is a valid candidate list for `pool`: min(30, |pool|) of its rows, best
      first, and no row left out of it has a higher Overall than a row in it. */
  ghost predicate IsTopCandidates(pool: seq<Player>, top: seq<Player>) {
    && |top| == Min(NumberOfTopGk, |pool|)
    && multiset(top) <= multiset(pool)
    && SortedByOverall(top)
    && forall p, q :: p in multiset(pool) - multiset(top) && q in top ==> p.overall <= q.overall
  }

  /** Cutting a sorted list anywhere, nothing after the cut outranks anything before it. */
  lemma SortedCut(sorted: seq<Player>, k: nat)
    requires SortedByOverall(sorted) && k <= |sorted|
    ensures SortedByOverall(sorted[..k])
    ensures forall p, q :: p in multiset(sorted[k..]) && q in sorted[..k] ==> p.overall <= q.overall
  {
    var top, rest := sorted[..k], sorted[k..];
    forall p: Player, q: Player | p in multiset(rest) && q in top
      ensures p.overall <= q.overall
    {
      var j :| 0 <= j < |rest| && rest[j] == p;
      var i :| 0 <= i < |top| && top[i] == q;
      assert sorted[k + j] == p && sorted[i] == q;
    }
  }

  /** Sorting and then taking the head gives a valid candidate list, whatever order
      the sort gave to tied rows. */
  lemma HeadOfSortIsTopCandidates(pool: seq<Player>, sorted: seq<Player>)
    requires IsSortByOverall(sorted, pool)
    ensures IsTopCandidates(pool, Candidates(sorted))
  {
    assert |sorted| == |pool| by {
      assert |multiset(sorted)| == |multiset(pool)|;
    }
    var k := Min(NumberOfTopGk, |sorted|);
    var top, rest := sorted[..k], sorted[k..];
    assert multiset(top) <= multiset(pool) && multiset(pool) - multiset(top) == multiset(rest) by {
      assert sorted == top + rest;
      assert multiset(pool) == multiset(top) + multiset(rest);
    }
    SortedCut(sorted, k);
  }

  /** `picks` is one outcome of drawing `n` positions out of `size` without
      replacement: `n` distinct positions, in the order drawn. */
  predicate IsSample(picks: seq<nat>, n: nat, size: nat) {
    && |picks| == n
    && (forall i :: 0 <= i < |picks| ==> picks[i] < size)
    && (forall i, j :: 0 <= i < j < |picks| ==> picks[i] != picks[j])
  }

  /** The rows at the drawn positions, in the order drawn. */
  function Pick(top: seq<Player>, picks: seq<nat>): (chosen: seq<Player>)
    requires forall i :: 0 <= i < |picks| ==> picks[i] < |top|
    ensures |chosen| == |picks|
    ensures forall i :: 0 <= i < |picks| ==> chosen[i] == top[picks[i]]
  {
    seq(|picks|, i requires 0 <= i < |picks| => top[picks[i]])
  }

  /** `selected` is one outcome of `top.sample(n=n)`. */
  ghost predicate IsDraw(selected: seq<Player>, top: seq<Player>, n: nat) {
    exists picks :: IsSample(picks, n, |top|) && selected == Pick(top, picks)
  }

  /** `top` without the row at position `k`. */
  function RemoveAt(top: seq<Player>, k: nat): (rest: seq<Player>)
    requires k < |top|
    ensures |rest| == |top| - 1
    ensures multiset(top) == multiset(rest) + multiset{top[k]}
  {
    assert top == top[..k] + [top[k]] + top[k + 1..];
    top[..k] + top[k + 1..]
  }

  /** The positions of `picks` renumbered for `RemoveAt(top, k)`; none of them is `k`. */
  function Renumber(picks: seq<nat>, k: nat): seq<nat> {
    seq(|picks|, i requires 0 <= i < |picks| => if picks[i] > k then picks[i] - 1 else picks[i])
  }

  /** Renumbering a draw that avoids position `k` gives a draw of the same rows from
      `top` with row `k` removed. */
  lemma RenumberedSample(top: seq<Player>, picks: seq<nat>, k: nat)
    requires k < |top|
    requires IsSample(picks, |picks|, |top|)
    requires forall i :: 0 <= i < |picks| ==> picks[i] != k
    ensures IsSample(Renumber(picks, k), |picks|, |top| - 1)
    ensures Pick(RemoveAt(top, k), Renumber(picks, k)) == Pick(top, picks)
  {
    var rest, picks' := RemoveAt(top, k), Renumber(picks, k);
    forall i | 0 <= i < |picks|
      ensures picks'[i] < |rest| && rest[picks'[i]] == top[picks[i]]
    {
    }
  }

  /** After the first draw, the remaining draws are a draw that avoids the first position. */
  lemma TailOfSample(picks: seq<nat>, size: nat)
    requires IsSample(picks, |picks|, size) && picks != []
    ensures IsSample(picks[1..], |picks| - 1, size)
    ensures forall i :: 0 <= i < |picks| - 1 ==> picks[1..][i] != picks[0]
  {
    assert forall i :: 0 <= i < |picks| - 1 ==> picks[1..][i] == picks[i + 1];
  }

  /** Drawing distinct positions never repeats a row: the drawn rows are a
      sub-multiset of the rows drawn from. */
  lemma {:induction false} SampleIsSubMultiset(top: seq<Player>, picks: seq<nat>)
    requires IsSample(picks, |picks|, |top|)
    ensures multiset(Pick(top, picks)) <= multiset(top)
    decreases |picks|
  {
    if picks != [] {
      var k, tail := picks[0], picks[1..];
      TailOfSample(picks, |top|);
      RenumberedSample(top, tail, k);
      var rest, drawn := RemoveAt(top, k), Pick(top, tail);
      SampleIsSubMultiset(rest, Renumber(tail, k));
      assert multiset(drawn) <= multiset(rest);
      assert multiset(Pick(top, picks)) == multiset(drawn) + multiset{top[k]} by {
        assert Pick(top, picks) == [top[k]] + drawn;
      }
    }
  }

  /** A draw of `n` rows from `top` has exactly `n` rows and repeats none of them. */
  lemma DrawIsSubMultiset(selected: seq<Player>, top: seq<Player>, n: nat)
    requires IsDraw(selected, top, n)
    ensures |selected| == n
    ensures multiset(selected) <= multiset(top)
  {
    var picks :| IsSample(picks, n, |top|) && selected == Pick(top, picks);
    SampleIsSubMultiset(top, picks);
  }

  /** The draft row of one drafted player: an empty `Name` cell and the player's
      whole record, `", "`-joined, in the `GK` cell. Splitting that cell on `", "`
      gives back `str` of every field, in column order, unless a text field itself
      holds the separator. */
  function DraftRowOf(p: Player): (row: DraftRow)
    ensures row.name == None
    ensures |p.fields| >= 1 && TextFieldsFreeOfSep(p) ==> Split(row.gk) == CellTexts(p.fields)
  {
    var row := DraftRow(None, SerialiseRecord(p));
    if |p.fields| >= 1 && TextFieldsFreeOfSep(p) then RecordRoundTrip(p); row else row
  }

  /** What `draft_goalkeeper` produces from `gk_data` when `criteria["premier_league"]`
      is `premierLeague`. `top` and `selected` are the candidate list and the drawn
      players of that run. */
  ghost predicate IsDraft(
    gkData: seq<Player>, premierLeague: Option<int>,
    draft: Result<seq<DraftRow>, DraftError>, top: seq<Player>, selected: seq<Player>)
  {
    match premierLeague
    case None => draft == Failure(NoneComparison) && selected == []
    case Some(n) =>
      if n < 0 then draft == Failure(NegativeSample) && selected == []
      else
        && IsTopCandidates(gkData, top)
        && (if |top| >= n then IsDraw(selected, top, n) else selected == top)
        && draft.Success?
        && |draft.value| == |selected|
        && forall i :: 0 <= i < |selected| ==> draft.value[i] == DraftRowOf(selected[i])
  }

  /** With a usable `premier_league` of `n`, the draft holds min(n, 30, |gk_data|)
      rows, every drafted player is a distinct row of `gk_data`, and no goalkeeper left
      out of the candidate list is rated above a drafted one. */
  lemma DraftSelectionBounds(
    gkData: seq<Player>, n: int,
    draft: Result<seq<DraftRow>, DraftError>, top: seq<Player>, selected: seq<Player>)
    requires n >= 0
    requires IsDraft(gkData, Some(n), draft, top, selected)
    ensures draft.Success?
    ensures |draft.value| == |selected| == Min(n, Min(NumberOfTopGk, |gkData|))
    ensures multiset(selected) <= multiset(top) <= multiset(gkData)
    ensures forall p, q :: p in multiset(gkData) - multiset(top) && q in selected ==> p.overall <= q.overall
  {
    if |top| >= n {
      DrawIsSubMultiset(selected, top, n);
    }
    forall p, q | p in multiset(gkData) - multiset(top) && q in selected
      ensures p.overall <= q.overall
    {
      assert q in multiset(selected);
    }
  }

  /** `top.sample(n=n)` for `0 <= n <= len(top)`: some `n` rows drawn without
      replacement, in the order drawn. Which rows is up to the random generator. */
  method Sample(top: seq<Player>, n: nat) returns (chosen: seq<Player>)
    requires n <= |top|
    ensures IsDraw(chosen, top, n)
    ensures |chosen| == n
    ensures multiset(chosen) <= multiset(top)
  {
    assert IsSample(seq(n, i requires 0 <= i < n => i as nat), n, |top|);
    var picks: seq<nat> :| IsSample(picks, n, |top|);
    assert IsSample(picks, n, |top|);
    chosen := Pick(top, picks);
    SampleIsSubMultiset(top, picks);
  }

  /** `draft_goalkeeper(gk_data, criteria)` without the CSV write: the rows it writes. */
  method DraftGoalkeeper(gkData: seq<Player>, criteria: Criteria)
    returns (draft: Result<seq<DraftRow>, DraftError>, ghost top: seq<Player>, ghost selected: seq<Player>)
    ensures IsDraft(gkData, criteria.premierLeague, draft, top, selected)
    ensures criteria.premierLeague.None? ==> draft == Failure(NoneComparison)
    ensures criteria.premierLeague.Some? && criteria.premierLeague.value < 0 ==> draft == Failure(NegativeSample)
    ensures criteria.premierLeague.Some? && criteria.premierLeague.value >= 0 ==>
      && draft.Success?
      && |draft.value| == Min(criteria.premierLeague.value, Min(NumberOfTopGk, |gkData|))
    ensures draft.Success? ==> forall i :: 0 <= i < |draft.value| ==> draft.value[i].name == None
  {
    assert IsSortByOverall(SortByOverall(gkData), gkData);
    var sorted :| IsSortByOverall(sorted, gkData);
    var candidates := Candidates(sorted);
    HeadOfSortIsTopCandidates(gkData, sorted);
    top, selected := candidates, [];
    match criteria.premierLeague
    case None =>
      draft := Failure(NoneComparison);
    case Some(n) =>
      var chosen;
      if |candidates| >= n {
        if n < 0 {
          draft := Failure(NegativeSample);
          return;
        }
        chosen := Sample(candidates, n);
      } else {
        chosen := candidates;
      }
      selected := chosen;
      draft := Success(seq(|chosen|, i requires 0 <= i < |chosen| => DraftRowOf(chosen[i])));
      assert IsDraft(gkData, criteria.premierLeague, draft, top, selected);
      DraftSelectionBounds(gkData, n, draft, top, selected);
  }
}
