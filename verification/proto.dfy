/** The messages that travel from a client through the server to the poller. */
module Proto {
  import opened Words
  import CpuStats
  import DiskStats
  import NetMonitoring

  datatype CpuLoad = CpuLoad(loadAvg1: real)

  datatype MemInfo = MemInfo(total: real, avail: real, buffers: real, cached: real, sReclaimable: real,
                             usedPercent: real)

  datatype SoftIrq = SoftIrq(cpu: string, hi: nat, timer: nat, netTx: nat, netRx: nat, block: nat, irqPoll: nat,
                             tasklet: nat, sched: nat, hrtimer: nat, rcu: nat)

  datatype MonitorInfo = MonitorInfo(name: string, cpuStat: seq<CpuStats.CpuStat>, softIrq: seq<SoftIrq>,
                                     cpuLoad: Option<CpuLoad>,
                                     memInfo: Option<MemInfo>, netInfo: seq<NetMonitoring.NetMsg>,
                                     diskInfo: seq<DiskStats.DiskMsg>)
}
