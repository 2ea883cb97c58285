/** The cache's settings as `CachePolicy` uses them (src/lib.rs:115-243). */
module Options {
  import opened Fractions

  /** Whether the cache is shared (a proxy) or private (a browser) (src/lib.rs:120-131). */
  datatype Privacy = Shared | Private {
    /** `Privacy::is_shared` (src/lib.rs:140-142). */
    predicate IsShared(): (r: bool)
      ensures r <==> !this.Private?
    {
      this == Shared
    }

    /** `Privacy::is_private` (src/lib.rs:145-147): the negation of `is_shared`. */
    predicate IsPrivate(): (r: bool)
      ensures r <==> this == Private
      ensures r != IsShared()
    {
      !IsShared()
    }
  }

  /** `Privacy::default` (src/lib.rs:134-137). */
  function DefaultPrivacy(): (p: Privacy)
    ensures p.IsShared() && !p.IsPrivate()
  {
    Shared
  }

  const DAY: nat := 24 * 3600

  /** The options record (src/lib.rs:151-179); durations are whole seconds. */
  datatype CacheOptions = CacheOptions(
    privacy: Privacy,
    cacheHeuristic: Fraction,
    immutableMinTimeToLive: nat,
    ignoreCargoCult: bool)
  {
    /** `CacheOptions::privacy` (src/lib.rs:201-204). */
    function WithPrivacy(p: Privacy): (r: CacheOptions)
      ensures r.privacy == p
      ensures r.cacheHeuristic == cacheHeuristic && r.immutableMinTimeToLive == immutableMinTimeToLive
      ensures r.ignoreCargoCult == ignoreCargoCult
    {
      this.(privacy := p)
    }

    /** `CacheOptions::cache_heuristic` (src/lib.rs:209-215). */
    function WithCacheHeuristic(h: Fraction): (r: CacheOptions)
      ensures r.cacheHeuristic == h
      ensures r.privacy == privacy && r.immutableMinTimeToLive == immutableMinTimeToLive
      ensures r.ignoreCargoCult == ignoreCargoCult
    {
      this.(cacheHeuristic := h)
    }

    /** `CacheOptions::immutable_min_time_to_live` (src/lib.rs:220-226). */
    function WithImmutableMinTimeToLive(ttl: nat): (r: CacheOptions)
      ensures r.immutableMinTimeToLive == ttl
      ensures r.privacy == privacy && r.cacheHeuristic == cacheHeuristic
      ensures r.ignoreCargoCult == ignoreCargoCult
    {
      this.(immutableMinTimeToLive := ttl)
    }

    /** `CacheOptions::ignore_cargo_cult` (src/lib.rs:231-236). */
    function WithIgnoreCargoCult(b: bool): (r: CacheOptions)
      ensures r.ignoreCargoCult == b
      ensures r.privacy == privacy && r.cacheHeuristic == cacheHeuristic
      ensures r.immutableMinTimeToLive == immutableMinTimeToLive
    {
      this.(ignoreCargoCult := b)
    }
  }

  /** `CacheOptions::default` (src/lib.rs:190-197), also what the `Default`
      impl returns (src/lib.rs:239-243): a shared cache, the `f32` value of `0.1` of the
      time since the last modification, a day for `immutable`, and the
      directives taken as written. */
  function DefaultOptions(): (o: CacheOptions)
    ensures o.privacy.IsShared() && !o.ignoreCargoCult
    ensures o.cacheHeuristic == F32_ONE_TENTH
    ensures o.cacheHeuristic.Of(864000) == 86400 && o.immutableMinTimeToLive == 86400
  {
    CacheOptions(DefaultPrivacy(), F32_ONE_TENTH, DAY, false)
  }

  /** Every set of options is the default one with its four fields set. */
  lemma {:induction false} BuiltFromDefault(o: CacheOptions)
    ensures o == DefaultOptions().WithPrivacy(o.privacy).WithCacheHeuristic(o.cacheHeuristic)
      .WithImmutableMinTimeToLive(o.immutableMinTimeToLive).WithIgnoreCargoCult(o.ignoreCargoCult)
  {
  }
}
