/**
 The `posts` table as the claim sees it, and the conditional update
 `update({status: "taken", taken_by: uid}).eq("id", id).eq("status", "available")`.

 `id` is assumed unique (the page reads a row with `.single()`), so the
 table is a map from `id` to the row and the filter on `id` selects at most
 one row. The store applies each
 conditional update atomically, so racing claims are a sequence of updates
 applied one after another.
 */
module Store {
  import opened Optional
  import opened Items

  type Table = map<string, Barang>

  /** Every row is stored under its own `id`. */
  ghost predicate Keyed(t: Table) {
    forall k :: k in t ==> t[k].id == k
  }

  /** Every row names a claimant exactly when it is taken. */
  ghost predicate Consistent(t: Table) {
    forall k :: k in t ==> WellFormed(t[k])
  }

  /** The table after the update, and how many rows the filter matched. */
  datatype Update = Update(table: Table, affected: nat)

  /** The compare-and-swap: only an available row with this `id` is changed. */
  function ClaimUpdate(t: Table, id: string, uid: string): (u: Update)
    ensures u.table.Keys == t.Keys
    ensures forall k :: k in t && k != id ==> u.table[k] == t[k]
    ensures u.affected <= 1
    ensures u.affected == 1 <==> id in t && t[id].status == Available
    ensures u.affected == 0 ==> u.table == t
    ensures u.affected == 1 ==> u.table[id] == TakenBy(t[id], uid)
  {
    if id in t && t[id].status == Available then
      Update(t[id := TakenBy(t[id], uid)], 1)
    else
      Update(t, 0)
  }

  /** One claim request: the row it addresses and the user making it. */
  datatype Request = Request(id: string, uid: string)

  /** The table after the store has applied `reqs` in order. */
  function Run(t: Table, reqs: seq<Request>): Table
    decreases |reqs|
  {
    if reqs == [] then t
    else Run(ClaimUpdate(t, reqs[0].id, reqs[0].uid).table, reqs[1..])
  }

  /** How many of `reqs` addressed `id` and matched a row when applied. */
  function Wins(t: Table, reqs: seq<Request>, id: string): nat
    decreases |reqs|
  {
    if reqs == [] then 0
    else
      var u := ClaimUpdate(t, reqs[0].id, reqs[0].uid);
      (if reqs[0].id == id then u.affected else 0) + Wins(u.table, reqs[1..], id)
  }

  /** Some request in `reqs` addresses `id`. */
  ghost predicate Addresses(reqs: seq<Request>, id: string) {
    exists k :: 0 <= k < |reqs| && reqs[k].id == id
  }

  /** The single update keeps rows keyed and consistent, because it writes `status` and `taken_by` together. */
  lemma ClaimUpdatePreserves(t: Table, id: string, uid: string)
    requires Keyed(t) && Consistent(t)
    ensures Keyed(ClaimUpdate(t, id, uid).table) && Consistent(ClaimUpdate(t, id, uid).table)
  {
  }

  /** Any sequence of claims keeps the table keyed and consistent and never adds or drops a row. */
  lemma {:induction false} RunPreserves(t: Table, reqs: seq<Request>)
    requires Keyed(t) && Consistent(t)
    ensures Run(t, reqs).Keys == t.Keys
    ensures Keyed(Run(t, reqs)) && Consistent(Run(t, reqs))
    decreases |reqs|
  {
    if reqs != [] {
      ClaimUpdatePreserves(t, reqs[0].id, reqs[0].uid);
      RunPreserves(ClaimUpdate(t, reqs[0].id, reqs[0].uid).table, reqs[1..]);
    }
  }

  /** A taken row is final: no later claim changes it, so it never becomes available again. */
  lemma {:induction false} TakenIsFinal(t: Table, reqs: seq<Request>, id: string)
    requires id in t && t[id].status == Taken
    ensures id in Run(t, reqs) && Run(t, reqs)[id] == t[id]
    ensures Wins(t, reqs, id) == 0
    decreases |reqs|
  {
    if reqs != [] {
      TakenIsFinal(ClaimUpdate(t, reqs[0].id, reqs[0].uid).table, reqs[1..], id);
    }
  }

  /** Requests for other rows leave row `id` alone. */
  lemma {:induction false} OthersLeaveRow(t: Table, reqs: seq<Request>, id: string)
    requires forall k :: 0 <= k < |reqs| ==> reqs[k].id != id
    ensures id in Run(t, reqs) <==> id in t
    ensures id in t ==> Run(t, reqs)[id] == t[id]
    ensures Wins(t, reqs, id) == 0
    decreases |reqs|
  {
    if reqs != [] {
      OthersLeaveRow(ClaimUpdate(t, reqs[0].id, reqs[0].uid).table, reqs[1..], id);
    }
  }

  /**
   The first request for an available row wins it: the row ends up taken by
   that request's user, and exactly one request for the row matched.
   */
  lemma {:induction false} FirstClaimWins(t: Table, reqs: seq<Request>, id: string, k: nat)
    requires id in t && t[id].status == Available
    requires k < |reqs| && reqs[k].id == id
    requires forall m :: 0 <= m < k ==> reqs[m].id != id
    ensures id in Run(t, reqs) && Run(t, reqs)[id] == TakenBy(t[id], reqs[k].uid)
    ensures Wins(t, reqs, id) == 1
    decreases |reqs|
  {
    var u := ClaimUpdate(t, reqs[0].id, reqs[0].uid);
    if k == 0 {
      TakenIsFinal(u.table, reqs[1..], id);
    } else {
      FirstClaimWins(u.table, reqs[1..], id, k - 1);
    }
  }

  /**
   However claims for one row interleave, at most one of them matches it, and
   one does exactly when the row exists, is available and is addressed at all.
   */
  lemma AtMostOneWinner(t: Table, reqs: seq<Request>, id: string)
    ensures Wins(t, reqs, id) <= 1
    ensures Wins(t, reqs, id) == 1 <==> id in t && t[id].status == Available && Addresses(reqs, id)
  {
    if id in t && t[id].status == Taken {
      TakenIsFinal(t, reqs, id);
    } else if Addresses(reqs, id) {
      var k := FirstIndex(reqs, id);
      if id in t {
        FirstClaimWins(t, reqs, id, k);
      } else {
        MissingRowNeverWins(t, reqs, id);
      }
    } else {
      OthersLeaveRow(t, reqs, id);
    }
  }

  /**
   Two users racing for one available row: the first update applied wins,
   the second matches nothing.
   */
  lemma RacingClaims(t: Table, id: string, first: string, second: string)
    requires id in t && t[id].status == Available
    ensures var reqs := [Request(id, first), Request(id, second)];
      && Wins(t, reqs, id) == 1
      && id in Run(t, reqs) && Run(t, reqs)[id] == TakenBy(t[id], first)
      && ClaimUpdate(ClaimUpdate(t, id, first).table, id, second).affected == 0
  {
    FirstClaimWins(t, [Request(id, first), Request(id, second)], id, 0);
  }

  /** A claim for a row that does not exist matches nothing and creates nothing. */
  lemma {:induction false} MissingRowNeverWins(t: Table, reqs: seq<Request>, id: string)
    requires id !in t
    ensures id !in Run(t, reqs)
    ensures Wins(t, reqs, id) == 0
    decreases |reqs|
  {
    if reqs != [] {
      MissingRowNeverWins(ClaimUpdate(t, reqs[0].id, reqs[0].uid).table, reqs[1..], id);
    }
  }

  /** The position of the first request for `id`. */
  function FirstIndex(reqs: seq<Request>, id: string): (k: nat)
    requires Addresses(reqs, id)
    ensures k < |reqs| && reqs[k].id == id
    ensures forall m :: 0 <= m < k ==> reqs[m].id != id
    decreases |reqs|
  {
    if reqs[0].id == id then 0
    else
      assert Addresses(reqs[1..], id) by {
        var k :| 0 <= k < |reqs| && reqs[k].id == id;
        assert reqs[1..][k - 1].id == id;
      }
      1 + FirstIndex(reqs[1..], id)
  }

}
