/**
  * The remote pack cache (store/usePackStore.ts): a load moves the store to
  * `Loading`, then to `Ready` with the fetched packs, or to `Error` with a
  * message while keeping whatever packs it already held.
  */
module PackStore {
  import opened Wrappers
  import opened Content
  import opened RemotePacks
  import opened GameSetup

  datatype Status = Idle | Loading | Ready | Error

  /** `packs == None` stands for `null`: screens then fall back to the bundled catalog. */
  datatype PackState = PackState(packs: Option<seq<Pack>>, status: Status, error: Option<string>)

  const InitialPackState := PackState(None, Idle, None)

  /** The message used when the thrown value is not an `Error` instance. */
  const LoadFailedMessage := "Failed to load packs"

  /**
    * What the store keeps true: a cached catalog is never empty, and a store
    * that is loading or ready carries no error.
    */
  predicate Consistent(st: PackState) {
    && (st.packs.Some? ==> |st.packs.value| > 0)
    && (st.status in {Loading, Ready} ==> st.error.None?)
    && (st.status == Error ==> st.error.Some?)
  }

  /** The first `set` of `loadRemotePacks`. */
  function BeginLoad(st: PackState): (r: PackState)
    ensures r.status == Loading && r.error.None?
    ensures r.packs == st.packs
  {
    st.(status := Loading, error := None)
  }

  /** The message shown for a rejected fetch. */
  function ErrorMessage(e: QueryError): (r: string)
    ensures e.isErrorInstance ==> r == e.message
    ensures !e.isErrorInstance ==> r == LoadFailedMessage
  {
    if e.isErrorInstance then e.message else LoadFailedMessage
  }

  /** The outcome `set` of `loadRemotePacks` once the fetch settles. */
  function FinishLoad(st: PackState, outcome: Result<seq<Pack>, QueryError>): (r: PackState)
    ensures outcome.Success? ==> r.status == Ready && r.error == st.error
    ensures outcome.Success? ==> (r.packs.None? <==> |outcome.value| == 0)
    ensures outcome.Success? && |outcome.value| > 0 ==> r.packs == Some(outcome.value)
    ensures outcome.Failure? ==> r.status == Error && r.packs == st.packs
    ensures outcome.Failure? ==> r.error == Some(ErrorMessage(outcome.error))
  {
    match outcome
    case Success(packs) => st.(packs := if |packs| > 0 then Some(packs) else None, status := Ready)
    case Failure(e) => st.(status := Error, error := Some(ErrorMessage(e)))
  }

  /** `loadRemotePacks`, with the server's answer as a parameter. */
  function LoadRemotePacks(st: PackState, config: Config, response: Result<seq<PackRow>, QueryError>): (r: PackState)
    ensures r.status in {Ready, Error}
    ensures r.status == Ready <==> (!IsConfigured(config) || response.Success?)
    ensures r.status == Ready ==> r.error.None?
    ensures r.status == Error ==> r.packs == st.packs
  {
    FinishLoad(BeginLoad(st), FetchRemotePacks(config, response))
  }

  /** Every transition keeps the store consistent. */
  lemma LoadKeepsConsistent(st: PackState, config: Config, response: Result<seq<PackRow>, QueryError>)
    requires Consistent(st)
    ensures Consistent(InitialPackState)
    ensures Consistent(BeginLoad(st))
    ensures Consistent(LoadRemotePacks(st, config, response))
  {
  }

  /** Without a configured server the load succeeds with nothing, so screens use the bundled packs. */
  lemma UnconfiguredFallsBackToLocal(st: PackState, config: Config, response: Result<seq<PackRow>, QueryError>, local: seq<Pack>)
    requires !IsConfigured(config)
    ensures LoadRemotePacks(st, config, response).status == Ready
    ensures Catalog(LoadRemotePacks(st, config, response).packs, local) == local
  {
  }

  /** A failed reload keeps serving the packs of the last successful one. */
  lemma FailedReloadKeepsCatalog(st: PackState, config: Config, e: QueryError, local: seq<Pack>)
    requires IsConfigured(config)
    ensures Catalog(LoadRemotePacks(st, config, Failure(e)).packs, local) == Catalog(st.packs, local)
  {
  }

  /** In a consistent store the catalog is empty only when no remote packs are cached and nothing is bundled. */
  lemma CatalogEmptyOnlyWithoutPacks(st: PackState, local: seq<Pack>)
    requires Consistent(st)
    ensures Catalog(st.packs, local) == [] <==> st.packs.None? && local == []
  {
  }
}
