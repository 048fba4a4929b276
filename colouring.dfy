/** `_process`: the colour given to a number.  As written it returns `WHITE`
    before its switch, so the switch on `_factors(num)` is dead code; both the
    function as written and its unreachable tail are modelled. */
module Colouring {
  import opened Colours
  import opened Factors

  /** `_process(num)` as written: it returns opaque white before reaching
      its switch, so every number passes the frame loop's alpha test and the
      prime cache is neither read nor changed. */
  function Process(num: int): (c: Colour)
    ensures c.a == 255
  {
    WHITE
  }

  /** The colour the dead switch would give to a `_factors` result: opaque
      white for a new prime (0), red for the full-table sentinel (999), and
      transparent for everything else.  It is opaque exactly on 0 and 999. */
  function SwitchColour(factors: int): (c: Colour)
    ensures c.a > 0 <==> factors == 0 || factors == OVERFLOW
    ensures c.a > 0 ==> c.a == 255
  {
    if factors == 0 then WHITE
    else if factors == OVERFLOW then RED
    else BLANK
  }

  /** The unreachable tail of `_process(num)`: classify num with `_factors`
      (which may grow the cache) and map the result through the switch. */
  method ProcessSwitched(cache: PrimeCache, num: int) returns (colour: Colour)
    requires cache.Valid()
    modifies cache`num, cache.primes
    ensures cache.Valid()
    ensures var r := FactorsStep(old(cache.Cache()), num);
      colour == SwitchColour(r.factors) && cache.Cache() == r.cache
  {
    var factors := cache.Factors(num);
    colour := SwitchColour(factors);
  }
}
