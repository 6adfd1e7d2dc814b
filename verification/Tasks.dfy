/** The per-task figures of a sample, as far as the database and the deviation pass use them. */
module Tasks {
  datatype TStat = TStat(
    // general
    tgid: int, pid: int, isproc: bool, ruid: int, rgid: int, name: string, container: string,
    state: char, excode: int, btime: int, cmdline: string,
    nthr: int, nthrrun: int, nthrslpi: int, nthrslpu: int,
    wasinactive: bool,
    // cpu, memory, disk, network
    stime: int, utime: int,
    minflt: int, majflt: int, vmem: int, rmem: int, pmem: int, vgrow: int, rgrow: int,
    rio: int, rsz: int, wio: int, wsz: int, cwsz: int,
    tcpsnd: int, tcprcv: int)

  /** The figures of a task of which nothing is known (memset to zero). */
  const ZERO: TStat := TStat(0, 0, false, 0, 0, "", "", '\0', 0, 0, "", 0, 0, 0, 0, false,
                             0, 0, 0, 0, 0, 0, 0, 0, 0, 0, 0, 0, 0, 0, 0, 0)

  type Key = (int, bool)

  function KeyOf(t: TStat): Key { (t.pid, t.isproc) }
}
