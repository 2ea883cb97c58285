/** The stand-alone configuration record of src/config.rs: the cache `Mode`
    and a `Config` built with struct-update setters. */
module CacheConfig {
  import opened Fractions

  /** Whether the cache is shared by many users or private to one (src/config.rs:7-17). */
  datatype Mode = Shared | Private {
    /** `Mode::is_shared` (src/config.rs:26-28). */
    predicate IsShared(): (r: bool)
      ensures r <==> !this.Private?
    {
      this == Shared
    }

    /** `Mode::is_private` (src/config.rs:31-33): the negation of `is_shared`. */
    predicate IsPrivate(): (r: bool)
      ensures r <==> this == Private
      ensures r != IsShared()
    {
      !IsShared()
    }
  }

  /** `Mode::default` (src/config.rs:20-23); `Shared` also carries `#[default]`. */
  function DefaultMode(): (m: Mode)
    ensures m.IsShared() && !m.IsPrivate()
  {
    Shared
  }

  /** The configuration record (src/config.rs:38-46). */
  datatype Config = Config(mode: Mode, cacheHeuristic: Fraction, ignoreCargoCult: bool) {
    /** `Config::mode` (src/config.rs:66-70). */
    function WithMode(m: Mode): (r: Config)
      ensures r.mode == m
      ensures r.cacheHeuristic == cacheHeuristic && r.ignoreCargoCult == ignoreCargoCult
    {
      this.(mode := m)
    }

    /** `Config::cache_heuristic` (src/config.rs:75-81). */
    function WithCacheHeuristic(h: Fraction): (r: Config)
      ensures r.cacheHeuristic == h
      ensures r.mode == mode && r.ignoreCargoCult == ignoreCargoCult
    {
      this.(cacheHeuristic := h)
    }

    /** `Config::ignore_cargo_cult` (src/config.rs:86-92). */
    function WithIgnoreCargoCult(b: bool): (r: Config)
      ensures r.ignoreCargoCult == b
      ensures r.mode == mode && r.cacheHeuristic == cacheHeuristic
    {
      this.(ignoreCargoCult := b)
    }
  }

  /** `Config::default` (src/config.rs:58-64), which the `Default` impl
      (src/config.rs:95-99) returns unchanged. */
  function DefaultConfig(): (c: Config)
    ensures c.mode.IsShared() && !c.ignoreCargoCult
    ensures c.cacheHeuristic == F32_ONE_TENTH
    ensures c.cacheHeuristic.Of(864000) == 86400
  {
    Config(DefaultMode(), F32_ONE_TENTH, false)
  }

  /** Every configuration is the default one with its three fields set, in any order. */
  lemma {:induction false} BuiltFromDefault(c: Config)
    ensures c == DefaultConfig().WithMode(c.mode).WithCacheHeuristic(c.cacheHeuristic).WithIgnoreCargoCult(c.ignoreCargoCult)
    ensures c == DefaultConfig().WithIgnoreCargoCult(c.ignoreCargoCult).WithCacheHeuristic(c.cacheHeuristic).WithMode(c.mode)
  {
  }

  /** Setting a field twice keeps the last value. */
  lemma {:induction false} LastSetWins(c: Config, m1: Mode, m2: Mode, b1: bool, b2: bool)
    ensures c.WithMode(m1).WithMode(m2) == c.WithMode(m2)
    ensures c.WithIgnoreCargoCult(b1).WithIgnoreCargoCult(b2) == c.WithIgnoreCargoCult(b2)
  {
  }
}
