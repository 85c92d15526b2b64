/**
  * Persisted ownership (store/useAppStore.ts): the pack ids the player owns
  * and the developer switch that unlocks everything.
  */
module AppStore {
  import opened Seqs

  datatype AppState = AppState(ownedPackIds: seq<string>, unlockedAll: bool)

  /** The starter packs every player owns. */
  const StarterPacks: seq<string> := ["pack_general_1", "pack_geo_1"]

  const InitialAppState := AppState(StarterPacks, false)

  /** Dedup leaves a duplicate-free sequence as it is. */
  lemma {:induction false} DedupOfNoDup<T>(s: seq<T>)
    requires NoDup(s)
    ensures Dedup(s) == s
    decreases |s|
  {
    if |s| > 0 {
      var init := s[..|s| - 1];
      DedupOfNoDup(init);
      assert s[|s| - 1] !in init;
      assert s[|s| - 1] !in Elems(init);
    }
  }

  /** `addPack`: the id set of the owned list plus `id`, in first-occurrence order. */
  function AddPack(st: AppState, id: string): (r: AppState)
    ensures id in r.ownedPackIds
    ensures NoDup(r.ownedPackIds)
    ensures Elems(r.ownedPackIds) == Elems(st.ownedPackIds) + {id}
    ensures r.ownedPackIds == Dedup(st.ownedPackIds) + (if id in st.ownedPackIds then [] else [id])
    ensures r.unlockedAll == st.unlockedAll
  {
    var s := st.ownedPackIds + [id];
    assert s[..|s| - 1] == st.ownedPackIds;
    assert id in st.ownedPackIds <==> id in Elems(Dedup(st.ownedPackIds));
    st.(ownedPackIds := Dedup(s))
  }

  /** `resetPacks`: back to the starter packs; the unlock switch is untouched. */
  function ResetPacks(st: AppState): (r: AppState)
    ensures r.ownedPackIds == InitialAppState.ownedPackIds
    ensures r.unlockedAll == st.unlockedAll
  {
    st.(ownedPackIds := StarterPacks)
  }

  /** `setUnlockedAll`. */
  function SetUnlockedAll(st: AppState, val: bool): (r: AppState)
    ensures r.unlockedAll == val
    ensures r.ownedPackIds == st.ownedPackIds
  {
    st.(unlockedAll := val)
  }

  /** The owned list never holds an id twice. */
  predicate OwnedDistinct(st: AppState) {
    NoDup(st.ownedPackIds)
  }

  /** On a duplicate-free list, buying appends a new id at the end and ignores one already owned. */
  lemma AddPackAppendsNew(st: AppState, id: string)
    requires OwnedDistinct(st)
    ensures id in st.ownedPackIds ==> AddPack(st, id) == st
    ensures id !in st.ownedPackIds ==> AddPack(st, id).ownedPackIds == st.ownedPackIds + [id]
  {
    var s := st.ownedPackIds + [id];
    assert s[..|s| - 1] == st.ownedPackIds;
    DedupOfNoDup(st.ownedPackIds);
    assert id in st.ownedPackIds <==> id in Elems(st.ownedPackIds);
  }

  /** Buying the same pack twice is the same as buying it once. */
  lemma AddPackIdempotent(st: AppState, id: string)
    ensures AddPack(AddPack(st, id), id) == AddPack(st, id)
  {
    AddPackAppendsNew(AddPack(st, id), id);
  }

  /** Every operation keeps the owned list duplicate-free. */
  lemma OperationsKeepOwnedDistinct(st: AppState, id: string, val: bool)
    requires OwnedDistinct(st)
    ensures OwnedDistinct(InitialAppState)
    ensures OwnedDistinct(AddPack(st, id))
    ensures OwnedDistinct(ResetPacks(st))
    ensures OwnedDistinct(SetUnlockedAll(st, val))
  {
  }
}
