/** The key pool of translate-pdf-app_BACKEND/core/api_manager.py: the model
    table of ModelConfig and the selection and release policy of
    ApiKeyManager. Model handles and rate limiters are opaque values of the
    type parameters; the lock, the wait condition and the clock are left out,
    so get_next_available_model is one selection pass. */
module ApiManager {
  import opened Wrappers

  datatype GeminiModel =
    | GeminiPro | Gemini15Flash | Gemini15Pro | Gemini2Flash | Gemini2FlashLite | Gemini15Pro002

  /** The enum's string values. */
  function ModelName(m: GeminiModel): string {
    match m
    case GeminiPro => "gemini-pro"
    case Gemini15Flash => "gemini-1.5-flash-latest"
    case Gemini15Pro => "gemini-1.5-pro-latest"
    case Gemini2Flash => "gemini-2.0-flash"
    case Gemini2FlashLite => "gemini-2.0-flash-lite"
    case Gemini15Pro002 => "gemini-1.5-pro-002"
  }

  datatype ModelConfig = ModelConfig(model: GeminiModel, rpmLimit: int, rpdLimit: int, tpmLimit: int)

  /** ModelConfig.get_config: the fixed limits per model. In every row the
      per-minute request limit is below the per-day one, which is below the
      per-minute token limit. */
  function GetConfig(m: GeminiModel): (c: ModelConfig)
    ensures c.model == m
    ensures 0 < c.rpmLimit < c.rpdLimit < c.tpmLimit
  {
    match m
    case GeminiPro => ModelConfig(m, 15, 1_500, 1_000_000)
    case Gemini15Flash => ModelConfig(m, 15, 1_500, 1_000_000)
    case Gemini15Pro => ModelConfig(m, 2, 50, 32_000)
    case Gemini2Flash => ModelConfig(m, 2000, 200000, 4_000_000)
    case Gemini15Pro002 => ModelConfig(m, 6, 1_500, 1_000_000)
    case Gemini2FlashLite => ModelConfig(m, 4000, 400000, 4_000_000)
  }

  class ApiKeyManager<M, R> {
    var models: seq<M>
    var rateLimiters: seq<R>
    var availableKeys: seq<bool>
    var workerCounts: seq<int>

    /** The four lists run in parallel and no worker count is negative. */
    ghost predicate Valid()
      reads this
    {
      |rateLimiters| == |models| && |availableKeys| == |models| && |workerCounts| == |models| &&
      forall i :: 0 <= i < |workerCounts| ==> workerCounts[i] >= 0
    }

    constructor ()
      ensures Valid()
      ensures models == [] && rateLimiters == [] && availableKeys == [] && workerCounts == []
    {
      models := [];
      rateLimiters := [];
      availableKeys := [];
      workerCounts := [];
    }

    /** add_model: one new key, available and unused. */
    method AddModel(model: M, rateLimiter: R)
      requires Valid()
      modifies this
      ensures Valid()
      ensures models == old(models) + [model] && rateLimiters == old(rateLimiters) + [rateLimiter]
      ensures availableKeys == old(availableKeys) + [true] && workerCounts == old(workerCounts) + [0]
    {
      models := models + [model];
      rateLimiters := rateLimiters + [rateLimiter];
      availableKeys := availableKeys + [true];
      workerCounts := workerCounts + [0];
    }

    /** One selection pass of get_next_available_model. The first available
        key without workers wins; failing that, the earliest available key
        with the fewest workers. The chosen key's count goes up by one and
        nothing else changes. With no available key nothing changes and the
        pass ends with (None, None, -1), the timeout result. */
    method GetNextAvailableModel() returns (model: Option<M>, rateLimiter: Option<R>, index: int)
      requires Valid()
      modifies this
      ensures Valid()
      ensures models == old(models) && rateLimiters == old(rateLimiters) && availableKeys == old(availableKeys)
      ensures index == -1 <==> forall i :: 0 <= i < |availableKeys| ==> !availableKeys[i]
      ensures index == -1 ==> model == None && rateLimiter == None && workerCounts == old(workerCounts)
      ensures index != -1 ==>
        0 <= index < |models| && availableKeys[index] &&
        model == Some(models[index]) && rateLimiter == Some(rateLimiters[index]) &&
        workerCounts == old(workerCounts)[index := old(workerCounts)[index] + 1]
      ensures index != -1 && (exists i :: 0 <= i < |availableKeys| && availableKeys[i] && old(workerCounts)[i] == 0) ==>
        old(workerCounts)[index] == 0 &&
        forall i :: 0 <= i < index ==> !(availableKeys[i] && old(workerCounts)[i] == 0)
      ensures index != -1 ==>
        (forall i :: 0 <= i < |availableKeys| && availableKeys[i] ==> old(workerCounts)[index] <= old(workerCounts)[i]) &&
        (forall i :: 0 <= i < index && availableKeys[i] ==> old(workerCounts)[index] < old(workerCounts)[i])
    {
      for i := 0 to |availableKeys|
        invariant forall k :: 0 <= k < i ==> !(availableKeys[k] && workerCounts[k] == 0)
      {
        if availableKeys[i] && workerCounts[i] == 0 {
          workerCounts := workerCounts[i := workerCounts[i] + 1];
          return Some(models[i]), Some(rateLimiters[i]), i;
        }
      }
      var minWorkers := 0;
      var minIndex := -1;
      for i := 0 to |availableKeys|
        invariant -1 <= minIndex < i
        invariant minIndex == -1 <==> forall k :: 0 <= k < i ==> !availableKeys[k]
        invariant minIndex != -1 ==> availableKeys[minIndex] && minWorkers == workerCounts[minIndex]
        invariant minIndex != -1 ==> forall k :: 0 <= k < i && availableKeys[k] ==> minWorkers <= workerCounts[k]
        invariant minIndex != -1 ==> forall k :: 0 <= k < minIndex && availableKeys[k] ==> minWorkers < workerCounts[k]
      {
        if availableKeys[i] && (minIndex == -1 || workerCounts[i] < minWorkers) {
          minWorkers := workerCounts[i];
          minIndex := i;
        }
      }
      if minIndex >= 0 {
        workerCounts := workerCounts[minIndex := workerCounts[minIndex] + 1];
        return Some(models[minIndex]), Some(rateLimiters[minIndex]), minIndex;
      }
      return None, None, -1;
    }

    /** mark_busy: an index outside the key list changes nothing; otherwise
        the key's availability becomes `!busy`, and releasing it also
        lowers its worker count by one, never below 0. */
    method MarkBusy(index: int, busy: bool)
      requires Valid()
      modifies this
      ensures Valid()
      ensures models == old(models) && rateLimiters == old(rateLimiters)
      ensures !(0 <= index < |old(availableKeys)|) ==>
        availableKeys == old(availableKeys) && workerCounts == old(workerCounts)
      ensures 0 <= index < |old(availableKeys)| ==>
        availableKeys == old(availableKeys)[index := !busy] &&
        workerCounts == (if busy then old(workerCounts)
                         else old(workerCounts)[index := if old(workerCounts)[index] - 1 > 0 then old(workerCounts)[index] - 1 else 0])
    {
      if 0 <= index < |availableKeys| {
        availableKeys := availableKeys[index := !busy];
        if !busy {
          var lowered := workerCounts[index] - 1;
          workerCounts := workerCounts[index := if lowered > 0 then lowered else 0];
        }
      }
    }

    /** size: the number of keys. */
    method Size() returns (n: nat)
      requires Valid()
      ensures n == |models| == |availableKeys| == |workerCounts|
    {
      n := |models|;
    }
  }

  /** Taking a key and then releasing it restores the worker counts. */
  lemma TakeThenRelease(counts: seq<int>, index: nat)
    requires index < |counts| && counts[index] >= 0
    ensures var taken := counts[index := counts[index] + 1];
      taken[index := if taken[index] - 1 > 0 then taken[index] - 1 else 0] == counts
  {
  }
}
