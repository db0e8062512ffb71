/** Package ttl with an explicit clock. A zero time.Time is Never: it lies before every clock reading. */
module Ttl {
  import opened Types

  datatype Expiry = Never | At(time: int)

  datatype Config = Config(minTTL: int, maxTTL: int, zeroMeansNoExpiry: bool)

  datatype TtlError = InvalidTTL | TTLTooShort | TTLTooLong

  function Validate(ttl: int, c: Config): Option<TtlError> {
    if ttl < 0 then Some(InvalidTTL)
    else if ttl == 0 && !c.zeroMeansNoExpiry then Some(InvalidTTL)
    else if ttl > 0 && ttl < c.minTTL then Some(TTLTooShort)
    else if ttl > 0 && ttl > c.maxTTL then Some(TTLTooLong)
    else None
  }

  function Normalize(ttl: int, c: Config): int {
    if ttl == 0 && c.zeroMeansNoExpiry then 0
    else if ttl < c.minTTL then c.minTTL
    else if ttl > c.maxTTL then c.maxTTL
    else ttl
  }

  function ExpirationTime(ttl: int, c: Config, now: int): Expiry {
    if ttl == 0 && c.zeroMeansNoExpiry then Never else At(now + Normalize(ttl, c))
  }

  /** now.After(e), false for the zero time. */
  predicate IsExpired(e: Expiry, now: int) {
    e.At? && now > e.time
  }

  /** e.Before(now): the zero time is before every now. */
  predicate Before(e: Expiry, now: int) {
    e.Never? || e.time < now
  }

  /** The TTLs that a caller may give. */
  predicate InRange(ttl: int, c: Config) {
    (ttl > 0 && c.minTTL <= ttl <= c.maxTTL) || (ttl == 0 && c.zeroMeansNoExpiry)
  }

  /** Validation accepts these TTLs and no others, and says what is wrong with each of the others. */
  lemma ValidateIff(ttl: int, c: Config)
    ensures Validate(ttl, c) == None <==> InRange(ttl, c)
    ensures Validate(ttl, c) == Some(InvalidTTL) <==> ttl < 0 || (ttl == 0 && !c.zeroMeansNoExpiry)
    ensures Validate(ttl, c) == Some(TTLTooShort) <==> 0 < ttl < c.minTTL
    ensures Validate(ttl, c) == Some(TTLTooLong) <==> 0 < ttl && c.minTTL <= ttl && c.maxTTL < ttl
  {}

  /** Normalisation takes every other TTL to the nearest one that is allowed. */
  lemma NormalizeIsNearest(ttl: int, c: Config)
    ensures ttl == 0 && c.zeroMeansNoExpiry ==> Normalize(ttl, c) == 0
    ensures c.minTTL <= c.maxTTL && !(ttl == 0 && c.zeroMeansNoExpiry) ==>
      && c.minTTL <= Normalize(ttl, c) <= c.maxTTL
      && forall t :: c.minTTL <= t <= c.maxTTL ==> Distance(ttl, Normalize(ttl, c)) <= Distance(ttl, t)
    ensures forall now :: ExpirationTime(ttl, c, now) == Never <==> ttl == 0 && c.zeroMeansNoExpiry
    ensures c.minTTL > c.maxTTL && !(ttl == 0 && c.zeroMeansNoExpiry) ==>
      Normalize(ttl, c) == if ttl < c.minTTL then c.minTTL else c.maxTTL
  {}

  function Distance(a: int, b: int): nat {
    if a < b then b - a else a - b
  }

  /** A TTL that passes validation is left alone by Normalize, however often it is applied, and counts from now. */
  lemma ValidatedIsNormal(ttl: int, c: Config)
    requires Validate(ttl, c) == None
    ensures Normalize(ttl, c) == ttl
    ensures forall now :: ExpirationTime(ttl, c, now) == (if ttl == 0 then Never else At(now + ttl))
  {}
}
