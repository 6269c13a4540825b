/** The data a pool's statistics endpoint returns, and the error-to-value
    boundary around fetching it (`fetch_stats_from_url`, `fetch_all_stats`). */
module PoolData {

  datatype Option<+T> = None | Some(value: T) {
    /** `d.get(key, default)`: the value when the key is present, the default otherwise. */
    function GetOr(default: T): T {
      match this
      case Some(v) => v
      case None => default
    }
  }

  /** One entry of the `workers` list; a field is `None` when its key is absent. */
  datatype Worker = Worker(name: Option<string>, hashrate: Option<int>)

  /** The `stats` object; only its `hashrate` is read. */
  datatype Stats = Stats(hashrate: Option<int>)

  /** One pool's JSON object: the keys `error`, `stats` and `workers`, each possibly absent.
      `error` is `Some(text)` whenever the key is present, whatever its value: `text` is
      what `str()` makes of that value, so an `"error": null` entry is `Some("None")`. */
  datatype Dataset = Dataset(error: Option<string>, stats: Option<Stats>, workers: Option<seq<Worker>>)

  /** What the HTTP request, the status check and the JSON decoding together produce:
      the decoded body, or the text of the exception one of them raised. */
  datatype FetchOutcome = Decoded(body: Dataset) | Raised(message: string)

  /** The ordered dictionary `{"xla": ..., "salv": ...}`, as (label, dataset) pairs in insertion order. */
  type PoolMap = seq<(string, Dataset)>

  /** `fetch_stats_from_url`: it never raises; a failure becomes an object whose only key is `error`. */
  function FetchStatsFromUrl(outcome: FetchOutcome): (d: Dataset)
    ensures outcome.Decoded? ==> d == outcome.body
    ensures outcome.Raised? ==> d.error == Some(outcome.message) && d.stats.None? && d.workers.None?
  {
    match outcome
    case Decoded(body) => body
    case Raised(message) => Dataset(Some(message), None, None)
  }

  /** `fetch_all_stats`: the XLA pool first, then the SALV pool, each fetched independently. */
  function FetchAllStats(xla: FetchOutcome, salv: FetchOutcome): (m: PoolMap)
    ensures |m| == 2 && m[0].0 == "xla" && m[1].0 == "salv"
    ensures m[0].1 == FetchStatsFromUrl(xla) && m[1].1 == FetchStatsFromUrl(salv)
  {
    [("xla", FetchStatsFromUrl(xla)), ("salv", FetchStatsFromUrl(salv))]
  }

  /** `key in data` for the dictionary of pools. */
  predicate HasLabel(data: PoolMap, key: string) {
    exists i | 0 <= i < |data| :: data[i].0 == key
  }
}
