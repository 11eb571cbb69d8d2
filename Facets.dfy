/** The readings one sampling pass produces (the outputs of the psutil accessors in discord.py).
    Each facet of a snapshot may be absent; an absent facet omits only what depends on it. */
module Facets {

  datatype Option<+T> = None | Some(value: T)

  /** `freq_info`: current, minimum and maximum clock in MHz. */
  datatype Frequency = Frequency(current: real, min: real, max: real)

  /** `get_cpu_usage`: overall percent, per-core percents, optional frequency. */
  datatype CpuReading = CpuReading(overall: real, cores: seq<real>, frequency: Option<Frequency>)

  /** The swap keys of `get_memory_usage`, present only when the swap total is non-zero. */
  datatype SwapReading = SwapReading(total: nat, used: nat, percent: real)

  /** `get_memory_usage`: byte counts and percent of physical memory, optional swap. */
  datatype MemoryReading = MemoryReading(total: nat, used: nat, percent: real, available: nat, swap: Option<SwapReading>)

  /** `get_disk_io`: cumulative byte and operation counters, optional read/write times. */
  datatype DiskReading = DiskReading(readBytes: nat, writeBytes: nat, readCount: nat, writeCount: nat,
                                     times: Option<(nat, nat)>)

  /** `get_network_io`: cumulative byte, packet, error and drop counters. */
  datatype NetReading = NetReading(bytesSent: nat, bytesRecv: nat, packetsSent: nat, packetsRecv: nat,
                                   errorsIn: nat, errorsOut: nat, dropsIn: nat, dropsOut: nat)

  /** One pass of the main loop: every accessor either produced its reading or nothing. */
  datatype Snapshot = Snapshot(cpu: Option<CpuReading>, mem: Option<MemoryReading>,
                               disk: Option<DiskReading>, net: Option<NetReading>)

  /** `mem.get('swap_total', 0)`: the swap total, or 0 when the swap keys are missing. */
  function SwapTotal(mem: MemoryReading): nat {
    if mem.swap.Some? then mem.swap.value.total else 0
  }

  /** `mem.get('swap_percent', 0)`: the swap percent, or 0 when the swap keys are missing. */
  function SwapPercent(mem: MemoryReading): real {
    if mem.swap.Some? then mem.swap.value.percent else 0.0
  }
}
