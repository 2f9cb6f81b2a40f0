/** The process-wide embedding model, loaded lazily on the first semantic search
    (`load_semantic_model` and the global `SEMANTIC_MODEL`). */
module SemanticModel {
  import opened Transcripts

  /** A loaded embedding model, known here only by the name it was loaded under. */
  datatype Model = Model(name: string)

  /** Holds the cached model: `None` until a load succeeds. A failed load leaves it `None`,
      so the next call tries again; there is no state in which loading is given up. */
  class ModelHolder {
    var semanticModel: Option<Model>
    /** How many times the loader has been invoked. */
    ghost var loaderCalls: nat

    constructor ()
      ensures semanticModel == None && loaderCalls == 0
    {
      semanticModel := None;
      loaderCalls := 0;
    }

    /** The model is cached. */
    predicate IsLoaded()
      reads this
    {
      semanticModel.Some?
    }

    /** Returns the cached model without invoking the loader when there is one; otherwise
        invokes the loader, whose outcome is `attempt` (`Some` model on success, `None` when
        the import or the construction raised), and caches that outcome. */
    method Load(attempt: Option<Model>) returns (m: Option<Model>)
      modifies this
      ensures old(semanticModel).Some? ==>
        m == old(semanticModel) && semanticModel == old(semanticModel) && loaderCalls == old(loaderCalls)
      ensures old(semanticModel).None? ==>
        m == attempt && semanticModel == attempt && loaderCalls == old(loaderCalls) + 1
    {
      if semanticModel.Some? {
        return semanticModel;
      }
      loaderCalls := loaderCalls + 1;
      if attempt.Some? {
        semanticModel := attempt;
        return semanticModel;
      }
      semanticModel := None;
      return None;
    }
  }

  /** After one successful load, any number of later calls return that same model and
      never invoke the loader again, whatever the loader would have produced. */
  method LoadsAfterSuccess(holder: ModelHolder, first: Option<Model>, later: seq<Option<Model>>)
    returns (results: seq<Option<Model>>)
    requires !holder.IsLoaded() && first.Some?
    modifies holder
    ensures |results| == |later|
    ensures forall k :: 0 <= k < |results| ==> results[k] == first
    ensures holder.semanticModel == first && holder.loaderCalls == old(holder.loaderCalls) + 1
  {
    var m := holder.Load(first);
    results := [];
    for k := 0 to |later|
      invariant |results| == k
      invariant forall j :: 0 <= j < k ==> results[j] == first
      invariant holder.semanticModel == first && holder.loaderCalls == old(holder.loaderCalls) + 1
    {
      var again := holder.Load(later[k]);
      results := results + [again];
    }
  }

  /** A failed load leaves nothing cached, so the next call invokes the loader again. */
  method RetryAfterFailure(holder: ModelHolder, second: Option<Model>) returns (m1: Option<Model>, m2: Option<Model>)
    requires !holder.IsLoaded()
    modifies holder
    ensures m1 == None && m2 == second
    ensures holder.semanticModel == second && holder.loaderCalls == old(holder.loaderCalls) + 2
  {
    m1 := holder.Load(None);
    m2 := holder.Load(second);
  }
}
