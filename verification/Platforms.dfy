/** The platforms of a release. */
module Platforms {
  const DARWIN_ARM64 := "darwin-arm64"
  const DARWIN_X64 := "darwin-x64"
  const LINUX_ARM64 := "linux-arm64-gnu"
  const LINUX_X64 := "linux-x64-gnu"

  const PLATFORMS := {DARWIN_ARM64, DARWIN_X64, LINUX_ARM64, LINUX_X64}

  predicate IsDarwin(platform: string) {
    "darwin-" <= platform
  }
}
