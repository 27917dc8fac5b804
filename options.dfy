/**
 * The option store: a map from option name to a boolean switch. A name
 * that was never set is absent, and each reader supplies its own default.
 */
module Options {
  import opened Text

  type OptionMap = map<string, bool>

  /** Looking an option up: present exactly when it was stored. */
  function Lookup(m: OptionMap, option: string): (r: Option<bool>)
    ensures r.Some? <==> option in m
    ensures r.Some? ==> r.value == m[option]
  {
    if option in m then Some(m[option]) else None
  }

  /** The stored value of an option, or the caller's fallback when none is stored. */
  function ValueOr(m: OptionMap, option: string, fallback: bool): (r: bool)
    ensures option in m ==> r == m[option]
    ensures option !in m ==> r == fallback
  {
    match Lookup(m, option)
    case Some(v) => v
    case None => fallback
  }

  class SurtrOptions {
    var options: OptionMap

    /** `SurtrOptions::default()`: nothing stored. */
    constructor ()
      ensures options == map[]
      ensures forall option :: Get(option) == None
    {
      options := map[];
    }

    /** `clone()`: an independent store with the same contents. */
    constructor Clone(other: SurtrOptions)
      ensures options == other.options
    {
      options := other.options;
    }

    function Get(option: string): (r: Option<bool>)
      reads this
      ensures r.Some? <==> option in options
      ensures r.Some? ==> r.value == options[option]
    {
      Lookup(options, option)
    }

    function GetOr(option: string, fallback: bool): (r: bool)
      reads this
      ensures Get(option).Some? ==> r == Get(option).value
      ensures Get(option).None? ==> r == fallback
    {
      ValueOr(options, option, fallback)
    }

    method Set(option: string, value: bool)
      modifies this
      ensures options == old(options)[option := value]
      ensures Get(option) == Some(value)
      ensures forall other | other != option :: Get(other) == old(Get(other))
    {
      options := options[option := value];
    }

    /** The stored pairs, and only those: defaults of absent options are not listed. */
    function IntoIter(): (r: set<(string, bool)>)
      reads this
      ensures forall p :: p in r <==> p.0 in options && options[p.0] == p.1
    {
      set option | option in options :: (option, options[option])
    }
  }

  /** Storing three switches and reading them back, with and without a fallback. */
  method UsageExample() returns (suffix: Option<bool>, lowercase: Option<bool>, suffixOr: bool, sessionOr: bool)
    ensures suffix == Some(true) && lowercase == Some(false)
    ensures suffixOr && !sessionOr
  {
    var o := new SurtrOptions();
    o.Set("public_suffix", true);
    o.Set("with_scheme", true);
    o.Set("path_lowercase", false);
    suffix := o.Get("public_suffix");
    lowercase := o.Get("path_lowercase");
    suffixOr := o.GetOr("public_suffix", false);
    sessionOr := o.GetOr("query_strip_session_id", false);
  }
}
