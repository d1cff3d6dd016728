/** The limits of a kernel bundle. */
module Limits {
  const ARCHIVE_MAX_MEMBERS: nat := 200_000
  const ARCHIVE_MAX_BYTES: nat := 8 * 1024 * 1024 * 1024

  /** The bytes of its boot member. */
  const MEMBER_MAX_BYTES: nat := 512 * 1024 * 1024
}
