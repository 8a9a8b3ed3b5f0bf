/** The data that `apps/init` keeps per service. A buffer with a length field is its live
    prefix, a byte sequence no longer than the buffer. */
module Services {
  import opened Bytes

  const MAX_SERVICES: nat := 16
  const MAX_DEPS: nat := 4
  const MAX_NAME: nat := 32
  const MAX_BINARY: nat := 128
  const USIZE_MAX: nat := 0xFFFF_FFFF_FFFF_FFFF
  const U8_MAX: nat := 255

  datatype RestartPolicy = Always | OnFailure | OneShot
  datatype HealthProbe = NoProbe | FsPing | BlkPing
  datatype LaunchMode = Spawn | FsExec

  datatype ServiceSpec = ServiceSpec(
    valid: bool,
    name: seq<byte>,
    binary: seq<byte>,
    depNames: seq<seq<byte>>,
    depMask: nat,
    policy: RestartPolicy,
    probe: HealthProbe,
    launch: LaunchMode)

  const EMPTY_SPEC := ServiceSpec(false, [], [], [], 0, OneShot, NoProbe, Spawn)

  datatype ServiceRuntime = ServiceRuntime(
    started: bool,
    attempted: bool,
    healthyOnce: bool,
    failStreak: nat,
    nextProbe: nat,
    nextRetry: nat)

  const EMPTY_RUNTIME := ServiceRuntime(false, false, false, 0, 0, 0)
}
