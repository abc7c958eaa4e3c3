/**
 The state of the `DetailBarang` page (`barang`, `loading`, `requesting`)
 and the two handlers that change it: `loadBarang`, run when the route
 supplies an id, and `handleAmbilBarang`, run when the claim button is
 pressed. The data store, the signed-in user and the outcome of each
 request are parameters; `alert` and `navigate` are reported as an outcome.
 */
module Page {
  import opened Optional
  import opened Items
  import opened Store

  datatype PageState = PageState(loading: bool, barang: Option<Barang>, requesting: bool)

  /** The state before any effect has run: `useState(null)`, `useState(true)`, `useState(false)`. */
  const Initial: PageState := PageState(true, None, false)

  /** What `.select("*").eq("id", id).single()` hands back. */
  datatype FetchResult = Row(row: Barang) | FetchError

  /** The query: exactly one matching row, or an error (no row, or a failed transport). */
  function Fetch(t: Table, id: string, transportFailed: bool): FetchResult
  {
    if !transportFailed && id in t then Row(t[id]) else FetchError
  }

  /** `loadBarang` once the query has answered: the row or nothing, and loading is over. */
  function Load(page: PageState, result: FetchResult): PageState
  {
    match result
    case Row(b) => page.(barang := Some(b), loading := false)
    case FetchError => page.(barang := None, loading := false)
  }

  /**
   The mount effect: without a route id (absent or empty, both falsy) nothing
   is fetched and the page keeps loading; otherwise the row is fetched.
   */
  function Mount(routeId: Option<string>, t: Table, transportFailed: bool): (p: PageState)
    ensures routeId.None? || routeId == Some("") ==> p == Initial
    ensures routeId.Some? && routeId.value != "" ==>
      && !p.loading && !p.requesting
      && (p.barang.Some? <==> !transportFailed && routeId.value in t)
      && (p.barang.Some? ==> p.barang.value == t[routeId.value])
  {
    if routeId.None? || routeId.value == "" then Initial
    else Load(Initial, Fetch(t, routeId.value, transportFailed))
  }

  /** What `handleAmbilBarang` did, beyond the new page state. */
  datatype Outcome =
    | Ignored                    // no `barang` yet: returned at once
    | SentToLogin                // no user: alerted and navigated to `/login`
    | Rejected                   // the update reported an error: alerted "already taken"
    | Sent(affected: nat)        // the update reported no error; the row count is not looked at

  /** The page state, the table and the outcome after one press of the claim button. */
  datatype ClaimRun = ClaimRun(page: PageState, table: Table, outcome: Outcome)

  /**
   The effects after the guards pass and before the update answers:
   `requesting` is set, and the request is for the displayed row's `id`.
   */
  function BeginClaim(page: PageState, b: Barang, uid: string): (PageState, Request)
  {
    (page.(requesting := true), Request(b.id, uid))
  }

  /**
   The reaction to the update's answer. Only `error` is inspected: without
   one, the row captured when the handler started is marked taken by `uid`.
   */
  function FinishClaim(page: PageState, captured: Barang, uid: string, error: bool): PageState
  {
    if error then page.(requesting := false)
    else page.(barang := Some(TakenBy(captured, uid)), requesting := false)
  }

  /**
   `handleAmbilBarang`. A failed update is taken to have written nothing;
   a successful one is the store's compare-and-swap.
   */
  function HandleClaim(page: PageState, user: Option<string>, t: Table, error: bool): (r: ClaimRun)
    ensures page.barang.None? ==> r == ClaimRun(page, t, Ignored)
    ensures page.barang.Some? && user.None? ==> r == ClaimRun(page, t, SentToLogin)
    ensures page.barang.Some? && user.Some? ==>
      && !r.page.requesting
      && r.page.loading == page.loading
      && (error ==> r == ClaimRun(r.page, t, Rejected) && r.page.barang == page.barang)
      && (!error ==> r.page.barang == Some(TakenBy(page.barang.value, user.value)))
      && (!error ==> r.outcome == Sent(ClaimUpdate(t, page.barang.value.id, user.value).affected))
      && (!error ==> r.table == ClaimUpdate(t, page.barang.value.id, user.value).table)
  {
    if page.barang.None? then ClaimRun(page, t, Ignored)
    else if user.None? then ClaimRun(page, t, SentToLogin)
    else
      var b := page.barang.value;
      var (pending, req) := BeginClaim(page, b, user.value);
      if error then
        ClaimRun(FinishClaim(pending, b, req.uid, true), t, Rejected)
      else
        var u := ClaimUpdate(t, req.id, req.uid);
        ClaimRun(FinishClaim(pending, b, req.uid, false), u.table, Sent(u.affected))
  }

  /**
   When the update matched the row and the page showed that row as stored,
   the page agrees with the store afterwards.
   */
  lemma AgreesWhenRowMatched(page: PageState, uid: string, t: Table)
    requires page.barang.Some? && page.barang.value.id in t
    requires t[page.barang.value.id] == page.barang.value
    ensures var r := HandleClaim(page, Some(uid), t, false);
      r.outcome == Sent(1) <==> page.barang.value.status == Available
    ensures var r := HandleClaim(page, Some(uid), t, false);
      r.outcome == Sent(1) ==> r.page.barang == Some(r.table[page.barang.value.id])
  {
  }

  /**
   The page does not look at the row count: when the row was already taken
   by someone else in the store, a claim from a stale page matches nothing,
   reports no error, and still shows the row as taken by the claimant,
   while the store keeps the other claimant.
   */
  lemma StaleClaimDiverges(page: PageState, uid: string, other: string, t: Table)
    requires page.barang.Some? && page.barang.value.id in t
    requires t[page.barang.value.id].status == Taken
    requires t[page.barang.value.id].takenBy == Some(other) && other != uid
    ensures var r := HandleClaim(page, Some(uid), t, false);
      && r.outcome == Sent(0)
      && r.table == t
      && r.page.barang.value.takenBy == Some(uid)
      && r.table[page.barang.value.id].takenBy == Some(other)
  {
  }

}
