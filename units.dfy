/** Minute/second conversion of the command-line arguments.
    The arguments are `u64`; `args.work * 60` and `args.rest * 60` are computed
    in that width, and the announcements divide the result by 60 again. */
module Units {

  /** 2^64: one more than the largest `u64`. */
  const U64Limit: nat := 0x1_0000_0000_0000_0000

  type uint64 = x: nat | x < U64Limit

  const SecondsPerMinute: nat := 60

  /** `minutes * 60` in `u64` arithmetic as a release build computes it:
      the product wraps around modulo 2^64. */
  function MinutesToSeconds(minutes: uint64): (seconds: uint64)
    ensures minutes * SecondsPerMinute < U64Limit ==> seconds == minutes * SecondsPerMinute
  {
    (minutes * SecondsPerMinute) % U64Limit
  }

  /** The minute count an announcement prints: `duration / 60`. */
  function SecondsToMinutes(seconds: uint64): (minutes: uint64)
    ensures minutes * SecondsPerMinute <= seconds < (minutes + 1) * SecondsPerMinute
  {
    seconds / SecondsPerMinute
  }

  /** The announcement repeats the argument exactly when the multiplication
      did not overflow. */
  lemma AnnouncementRoundTrip(minutes: uint64)
    ensures SecondsToMinutes(MinutesToSeconds(minutes)) == minutes
            <==> minutes * SecondsPerMinute < U64Limit
  {
    var seconds := MinutesToSeconds(minutes);
    if minutes * SecondsPerMinute >= U64Limit {
      // the wrapped product is below the true one, so a whole minute is lost
      assert SecondsToMinutes(seconds) * SecondsPerMinute <= seconds < minutes * SecondsPerMinute;
    }
  }

  /** The smallest argument whose product no longer fits: its announcement is wrong. */
  lemma OverflowingArgument()
    ensures MinutesToSeconds(307445734561825861) == 44
    ensures SecondsToMinutes(MinutesToSeconds(307445734561825861)) == 0
    ensures 307445734561825860 * SecondsPerMinute < U64Limit
  {
  }
}
