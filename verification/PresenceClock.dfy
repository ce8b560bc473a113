/** When a presence record still counts as online; the server and the desktop use the same rule. */
module PresenceClock {
  import opened Bytes

  const PRESENCE_TTL_SECONDS: u64 := 60

  /** A record without an expiry lasts for the time to live after it was last seen. */
  predicate StillOnline(online: bool, lastSeenAt: u64, expiresAt: u64, now: u64) {
    online && now <= if expiresAt == 0 then SaturatingAdd(lastSeenAt, PRESENCE_TTL_SECONDS) else expiresAt
  }
}
