/** Where the simulated event time of an integrity run starts, on both of its sides. */
module IntegrityClock {
  const BASE_TS_MS: int := 1_700_000_000_000
}
