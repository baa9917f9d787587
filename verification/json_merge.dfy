/**
 * `tryJsonParse(query, defaultValue)`: the options object an endpoint uses is
 * the defaults overridden by whatever keys the caller's JSON supplies; when
 * the JSON does not parse, the defaults alone.
 *
 * `JSON.parse` is a parameter. It yields None when it throws, and otherwise
 * the own enumerable properties of the parsed value, which is what object
 * spread copies.
 */
module JsonMerge {
  import opened Options

  /** `{ ...defaults, ...parsed }`: every parsed key wins, every other default key stays. */
  function Spread<V>(defaults: map<string, V>, parsed: map<string, V>): (r: map<string, V>)
    ensures r.Keys == defaults.Keys + parsed.Keys
    ensures forall k :: k in parsed ==> r[k] == parsed[k]
    ensures forall k :: k in defaults && k !in parsed ==> r[k] == defaults[k]
  {
    defaults + parsed
  }

  /**
   * `tryJsonParse`: exactly the defaults when parsing throws; otherwise the
   * defaults overridden key by key by the parsed properties.
   */
  function TryJsonParse<V>(query: string, defaults: map<string, V>, parse: string -> Option<map<string, V>>): (r: map<string, V>)
    ensures parse(query).None? ==> r == defaults
    ensures parse(query).Some? ==> r.Keys == defaults.Keys + parse(query).value.Keys
    ensures parse(query).Some? ==> forall k :: k in parse(query).value ==> r[k] == parse(query).value[k]
    ensures parse(query).Some? ==> forall k :: k in defaults && k !in parse(query).value ==> r[k] == defaults[k]
  {
    match parse(query)
    case None => defaults
    case Some(parsed) => Spread(defaults, parsed)
  }

  /** Parsed JSON with no properties (an empty object, a number, null) leaves the defaults as they are. */
  lemma EmptyParseKeepsDefaults<V>(query: string, defaults: map<string, V>, parse: string -> Option<map<string, V>>)
    requires parse(query) == Some(map[])
    ensures TryJsonParse(query, defaults, parse) == defaults
  {
  }

  /** Parsed JSON that names every default key replaces the defaults entirely. */
  lemma FullParseReplacesDefaults<V>(query: string, defaults: map<string, V>, parse: string -> Option<map<string, V>>)
    requires parse(query).Some? && defaults.Keys <= parse(query).value.Keys
    ensures TryJsonParse(query, defaults, parse) == parse(query).value
  {
  }

  /** Feeding the merged options back in as defaults, with the same JSON, changes nothing. */
  lemma TryJsonParseIdempotent<V>(query: string, defaults: map<string, V>, parse: string -> Option<map<string, V>>)
    ensures TryJsonParse(query, TryJsonParse(query, defaults, parse), parse) == TryJsonParse(query, defaults, parse)
  {
  }
}
