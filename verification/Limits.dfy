/** The bounds that several components share. */
module Limits {
  /** Bytes of one archive member. */
  const MEMBER_BOUND := 256 * 1024 * 1024

  /** Packages of one lockfile. */
  const MAX_PACKAGES := 16384
}
