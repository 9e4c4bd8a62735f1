/** The position-aligned username differ (`checkDifferingUsernames`):
    position i of the held leaderboard is compared with position i of
    the re-queried rows, whatever their fids are.
 */
module Differ {
  import opened Wrappers
  import opened AppTypes

  predicate Differs(held: seq<Row>, updated: seq<Row>, i: nat)
    requires i < |held| && i < |updated|
  {
    held[i].username != updated[i].username
  }

  function ChangeAt(held: seq<Row>, updated: seq<Row>, i: nat): UsernameHistory
    requires i < |held| && i < |updated|
  {
    UsernameHistory(held[i].username, updated[i].username)
  }

  /** The walk over the held rows, pushing one record per differing
      position.  `updated` must be at least as long as `held`: the
      source reads `updated[i]` for every held position without a guard. */
  function Diff(held: seq<Row>, updated: seq<Row>): (r: seq<UsernameHistory>)
    requires |updated| >= |held|
    ensures |r| <= |held|
    ensures forall k :: 0 <= k < |r| ==> r[k].prevUsername != r[k].newUsername
    decreases |held|
  {
    if |held| == 0 then []
    else
      var last := |held| - 1;
      Diff(held[..last], updated)
        + (if Differs(held, updated, last) then [ChangeAt(held, updated, last)] else [])
  }

  /** Reference: the positions below `n` at which the usernames differ,
      each exactly once and in increasing order. */
  function ChangedPositions(held: seq<Row>, updated: seq<Row>, n: nat): (ps: seq<nat>)
    requires n <= |held| && n <= |updated|
    ensures forall k :: 0 <= k < |ps| ==> ps[k] < n
    ensures forall i :: 0 <= i < n ==> (i in ps <==> Differs(held, updated, i))
    ensures forall a, b :: 0 <= a < b < |ps| ==> ps[a] < ps[b]
    decreases n
  {
    if n == 0 then []
    else
      var prior := ChangedPositions(held, updated, n - 1);
      if Differs(held, updated, n - 1) then
        var ps := prior + [n - 1];
        assert forall k :: 0 <= k < |prior| ==> ps[k] == prior[k];
        ps
      else prior
  }

  /** The differ's output is exactly one record per differing position,
      in increasing position order, carrying the two usernames found there. */
  lemma {:induction false} DiffIsChangesAtPositions(held: seq<Row>, updated: seq<Row>)
    requires |updated| >= |held|
    ensures |Diff(held, updated)| == |ChangedPositions(held, updated, |held|)|
    ensures var ps := ChangedPositions(held, updated, |held|);
            forall k :: 0 <= k < |ps| ==> Diff(held, updated)[k] == ChangeAt(held, updated, ps[k])
    decreases |held|
  {
    if |held| > 0 {
      var last := |held| - 1;
      var prefix := held[..last];
      DiffIsChangesAtPositions(prefix, updated);
      PositionsOfPrefix(held, updated, last);
    }
  }

  /** Positions below `n` depend only on the first `n` held rows. */
  lemma {:induction false} PositionsOfPrefix(held: seq<Row>, updated: seq<Row>, n: nat)
    requires n <= |held| <= |updated|
    ensures ChangedPositions(held[..n], updated, n) == ChangedPositions(held, updated, n)
    decreases n
  {
    if n > 0 {
      PositionsOfPrefix(held, updated, n - 1);
      assert held[..n][..n - 1] == held[..n - 1];
      PositionsOfPrefix(held[..n], updated, n - 1);
    }
  }

  /** The differ reports nothing exactly when every position agrees. */
  lemma {:induction false} DiffEmptyIffNoChange(held: seq<Row>, updated: seq<Row>)
    requires |updated| >= |held|
    ensures Diff(held, updated) == [] <==> forall i :: 0 <= i < |held| ==> !Differs(held, updated, i)
  {
    DiffIsChangesAtPositions(held, updated);
    var ps := ChangedPositions(held, updated, |held|);
    if ps != [] {
      assert ps[0] in ps;
    }
  }

  /** Comparing a leaderboard with itself finds no rename. */
  lemma DiffOfSelfIsEmpty(rows: seq<Row>)
    ensures Diff(rows, rows) == []
  {
    DiffEmptyIffNoChange(rows, rows);
  }

  /** `checkDifferingUsernames` with the query result as it arrives: the
      lookup may have failed (`undefined`) or returned fewer rows.  It
      fails (the source throws a TypeError on `undefined.username`)
      exactly when some held position has no counterpart to read. */
  function CheckDifferingUsernames(held: seq<Row>, updated: Option<seq<Row>>): (r: Option<seq<UsernameHistory>>)
    ensures r.None? <==> |held| > 0 && (updated.None? || |updated.value| < |held|)
    ensures r.Some? && updated.Some? ==> r.value == Diff(held, updated.value)
    ensures r.Some? && updated.None? ==> r.value == []
  {
    if |held| == 0 then Some([])
    else if updated.None? || |updated.value| < |held| then None
    else Some(Diff(held, updated.value))
  }
}
