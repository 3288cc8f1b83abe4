/**
 Host state as the agents report it and the server keeps it. Times are nanoseconds from
 Go's zero time, so 0 is the zero time; percentages and loads are reals, rates and sizes
 integers.
 */
module HostTypes {

  datatype Code = Unknown | Up | Warning | Critical | Offline | Maintenance | Disabled

  datatype MetricKey =
    | CPUUsagePct | MemUsedPct | MemAvailableBytes | SwapUsedPct
    | DiskUsedPct | DiskFreeBytes | DiskInodesUsedPct
    | DiskReadBPS | DiskWriteBPS | DiskReadIOPS | DiskWriteIOPS
    | Load1 | NetRxBPS | NetTxBPS | NetRxPacketsPS | NetTxPacketsPS

  /** Position in the order in which the metrics are always listed. */
  function Ordinal(key: MetricKey): (n: nat)
    ensures n < 16
  {
    match key
    case CPUUsagePct => 0
    case MemUsedPct => 1
    case MemAvailableBytes => 2
    case SwapUsedPct => 3
    case DiskUsedPct => 4
    case DiskFreeBytes => 5
    case DiskInodesUsedPct => 6
    case DiskReadBPS => 7
    case DiskWriteBPS => 8
    case DiskReadIOPS => 9
    case DiskWriteIOPS => 10
    case Load1 => 11
    case NetRxBPS => 12
    case NetTxBPS => 13
    case NetRxPacketsPS => 14
    case NetTxPacketsPS => 15
  }

  lemma OrdinalInjective(a: MetricKey, b: MetricKey)
    requires Ordinal(a) == Ordinal(b)
    ensures a == b
  {
  }

  function KeyAt(n: int): (key: MetricKey)
    requires 0 <= n < 16
    ensures Ordinal(key) == n
  {
    match n
    case 0 => CPUUsagePct
    case 1 => MemUsedPct
    case 2 => MemAvailableBytes
    case 3 => SwapUsedPct
    case 4 => DiskUsedPct
    case 5 => DiskFreeBytes
    case 6 => DiskInodesUsedPct
    case 7 => DiskReadBPS
    case 8 => DiskWriteBPS
    case 9 => DiskReadIOPS
    case 10 => DiskWriteIOPS
    case 11 => Load1
    case 12 => NetRxBPS
    case 13 => NetTxBPS
    case 14 => NetRxPacketsPS
    case _ => NetTxPacketsPS
  }

  /** The sixteen metric fields that digests and snapshots have in common. */
  datatype Readings = Readings(
    cpuUsagePct: real, memUsedPct: real, memAvailableBytes: int, swapUsedPct: real,
    diskUsedPct: real, diskFreeBytes: int, diskInodesUsedPct: real,
    diskReadBPS: int, diskWriteBPS: int, diskReadIOPS: int, diskWriteIOPS: int,
    load1: real, netRxBPS: int, netTxBPS: int, netRxPacketsPS: int, netTxPacketsPS: int)

  const NO_READINGS := Readings(0.0, 0.0, 0, 0.0, 0.0, 0, 0.0, 0, 0, 0, 0, 0.0, 0, 0, 0, 0)

  datatype AgentDigest = AgentDigest(readings: Readings, queueDepth: int, lastMetricBatchSeq: int)

  /** The value the readings give a metric, every number as a float. */
  function MetricValue(d: Readings, key: MetricKey): (v: real) {
    match key
    case CPUUsagePct => d.cpuUsagePct
    case MemUsedPct => d.memUsedPct
    case MemAvailableBytes => d.memAvailableBytes as real
    case SwapUsedPct => d.swapUsedPct
    case DiskUsedPct => d.diskUsedPct
    case DiskFreeBytes => d.diskFreeBytes as real
    case DiskInodesUsedPct => d.diskInodesUsedPct
    case DiskReadBPS => d.diskReadBPS as real
    case DiskWriteBPS => d.diskWriteBPS as real
    case DiskReadIOPS => d.diskReadIOPS as real
    case DiskWriteIOPS => d.diskWriteIOPS as real
    case Load1 => d.load1
    case NetRxBPS => d.netRxBPS as real
    case NetTxBPS => d.netTxBPS as real
    case NetRxPacketsPS => d.netRxPacketsPS as real
    case NetTxPacketsPS => d.netTxPacketsPS as real
  }

  datatype HostSnapshot = HostSnapshot(
    hostUid: string, tenantCode: string, hostname: string, primaryIp: string, groupId: string,
    agentState: Code, reachabilityState: Code, serviceState: Code, overallState: Code,
    readings: Readings,
    lastAgentSeenAt: int, lastMetricAt: int, lastProbeAt: int, openAlertCount: int,
    labels: map<string, string>, version: int)

  /** The snapshot of a host never seen before. */
  const ZERO_SNAPSHOT := HostSnapshot(
    "", "", "", "", "", Unknown, Unknown, Unknown, Unknown, NO_READINGS, 0, 0, 0, 0, map[], 0)

  datatype MetricPoint = MetricPoint(ts: int, value: real)
}
