/** Versions of the vendor library that the daemon tells apart. */
module RilVersions {
  /** From this version on requests are acknowledged, and the wake lock is counted and timed. */
  const ACK_VERSION := 13
}
