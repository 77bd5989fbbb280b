/** The random draws of the three engines (`np.random.choice`, `np.random.randint`,
    `random.randint`) are supplied by the caller as naturals; each draw is reduced into the
    range the source draws from. Every value of that range is reachable, so the model
    covers every outcome of the source's random choices, without modelling their
    distribution. */
module Oracle {

  /** `np.random.choice(range(k))`: an index in [0, k). */
  function Choice(k: int, x: nat): (r: int)
    requires k > 0
    ensures 0 <= r < k
    ensures x < k ==> r == x
  {
    x % k
  }

  /** `random.randint(a, b)`, and `np.random.randint(a, b + 1)`: a value in [a, b]. */
  function RandInt(a: int, b: int, x: nat): (r: int)
    requires a <= b
    ensures a <= r <= b
    ensures x <= b - a ==> r == a + x
  {
    a + x % (b - a + 1)
  }
}
