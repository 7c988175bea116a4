/**
 The dining-session clock: the one duration constant and the arithmetic the
 backend does on timestamps.

 Timestamps are integers counting microseconds, the resolution of Python's
 `datetime`, so a session can end part-way through a second exactly as it can
 in the backend.
 */
module SessionClock {

  const MicrosPerSecond: nat := 1_000_000

  /** The session window, written once: 105 minutes. */
  const SessionMinutes: nat := 105
  const SessionSeconds: nat := SessionMinutes * 60
  const SessionMicros: nat := SessionSeconds * MicrosPerSecond

  function Max(a: int, b: int): (m: int)
    ensures m >= a && m >= b
    ensures m == a || m == b
  {
    if a >= b then a else b
  }

  /** `timedelta(minutes = m)` measured in clock units. */
  function MinutesToMicros(m: int): int
  {
    m * 60 * MicrosPerSecond
  }

  /**
   Python's `int(micros / 10**6)`: the number of whole seconds in a signed
   span of microseconds, truncated toward zero (not floored).
   */
  function WholeSeconds(micros: int): (q: int)
    ensures micros >= 0 ==> 0 <= q && q * MicrosPerSecond <= micros < (q + 1) * MicrosPerSecond
    ensures micros < 0 ==> q <= 0 && (q - 1) * MicrosPerSecond < micros <= q * MicrosPerSecond
  {
    if micros >= 0 then micros / MicrosPerSecond else -((-micros) / MicrosPerSecond)
  }

  /**
   The three places the window is spelled out agree with the one constant:
   `105 * 60` seconds in the remaining-time helper, `timedelta(minutes=105)`
   for the end time, and the literal 6300 returned at session start.
   */
  lemma DurationSpellingsAgree()
    ensures 105 * 60 == SessionSeconds
    ensures MinutesToMicros(105) == SessionMicros
    ensures 6300 == SessionSeconds
  {
  }
}
