/** Task priorities (src/rtapi/rtai_rtapi.c): the larger the number, the lower the priority. */
module Priority {

  const PRIO_HIGHEST: int := 0
  const PRIO_LOWEST: int := 0xFFF

  /** `rtapi_prio_next_lower`: a larger number is a lower priority. */
  function NextLower(prio: int): (p: int)
    ensures PRIO_HIGHEST <= p <= PRIO_LOWEST
  {
    if prio >= PRIO_LOWEST then PRIO_LOWEST
    else if prio < PRIO_HIGHEST then PRIO_HIGHEST
    else prio + 1
  }
}
