/** Listing AI providers for display: each provider is given its models and
    its API key is replaced by a masked form that keeps at most the first and
    last four characters, so the raw key never leaves the service. The model
    lookup is a database query and is passed in as a function. */
module AiProviders {

  import opened Results

  /** A model registered under a provider. */
  datatype AiModel = AiModel(id: int, providerId: int, modelName: string)

  /** The provider record; `maskedApiKey` and `models` are not stored columns. */
  datatype Provider = Provider(
    id: int,
    providerName: string,
    baseUrl: string,
    apiKey: Option<string>,
    maskedApiKey: Option<string>,
    models: seq<AiModel>)

  /** The mask shown for a key of at most eight characters. */
  const SHORT_MASK: string := "***"

  /** The parts of a key a mask may show: nothing for a short key, the first
      and last four characters otherwise. */
  function VisibleEnds(key: string): Option<(string, string)> {
    if |key| <= 8 then None else Some((key[..4], key[|key| - 4..]))
  }

  /** Replaces the API key by its mask and clears it. A provider without a
      key is left as it is; every other field is kept. */
  function MaskApiKey(p: Provider): (r: Provider)
    ensures p.apiKey.None? ==> r == p
    ensures p.apiKey.Some? ==> r.apiKey.None? && r.maskedApiKey.Some?
    ensures r.(apiKey := p.apiKey, maskedApiKey := p.maskedApiKey) == p
    ensures p.apiKey.Some? && |p.apiKey.value| <= 8 ==> r.maskedApiKey == Some(SHORT_MASK)
    ensures p.apiKey.Some? && |p.apiKey.value| > 8 ==>
              var k := p.apiKey.value;
              var m := r.maskedApiKey.value;
              |m| == 11 && m[..4] == k[..4] && m[4..7] == "***" && m[7..] == k[|k| - 4..]
  {
    match p.apiKey
    case None => p
    case Some(key) =>
      var masked := if |key| <= 8 then SHORT_MASK else key[..4] + "***" + key[|key| - 4..];
      p.(maskedApiKey := Some(masked), apiKey := None)
  }

  /** The mask depends on nothing but the visible ends of the key: two keys
      that agree on them give the same masked provider, whatever lies between. */
  lemma MaskHidesMiddle(p: Provider, key1: string, key2: string)
    requires VisibleEnds(key1) == VisibleEnds(key2)
    ensures MaskApiKey(p.(apiKey := Some(key1))) == MaskApiKey(p.(apiKey := Some(key2)))
  {
    if |key1| > 8 {
      assert key1[..4] == key2[..4] && key1[|key1| - 4..] == key2[|key2| - 4..];
    }
  }

  /** Masking an already masked provider changes nothing: the raw key is gone. */
  lemma MaskIdempotent(p: Provider)
    ensures MaskApiKey(MaskApiKey(p)) == MaskApiKey(p)
  {
  }

  /** Every provider of the listing carries its own models and no raw key;
      a provider that had a key shows its mask. */
  function ListProvidersWithModels(providers: seq<Provider>, modelsOf: int -> seq<AiModel>): (r: seq<Provider>)
    ensures |r| == |providers|
    ensures forall i :: 0 <= i < |r| ==> r[i].apiKey.None? && r[i].models == modelsOf(providers[i].id)
    ensures forall i :: 0 <= i < |r| ==>
              r[i] == MaskApiKey(providers[i].(models := modelsOf(providers[i].id)))
  {
    if providers == [] then []
    else
      var p := providers[0];
      [MaskApiKey(p.(models := modelsOf(p.id)))] + ListProvidersWithModels(providers[1..], modelsOf)
  }
}
