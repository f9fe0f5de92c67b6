// Wire types shared by the kernel programs and the loader.
module BlockIo {
  import opened Machine

  datatype OpClass = Read | Write | WriteFlush | Other

  datatype RqKey = RqKey(dev: U32, sector: U64)

  datatype LatencyEvent = LatencyEvent(dev: U32, opClass: OpClass, bytes: U32, latencyNs: U64)

  type Rwbs = s: seq<U8> | |s| == 8 witness [0, 0, 0, 0, 0, 0, 0, 0]

  const SECTOR_SIZE_BYTES: U32 := 512

  function ClassifyRwbs(rwbs: Rwbs): OpClass {
    var first := rwbs[0];
    var isWrite := first == 'W' as int || first == 'F' as int;
    var isFlushOrFua := 'F' as int in rwbs || 'A' as int in rwbs;
    if first == 'R' as int then Read
    else if isWrite && isFlushOrFua then WriteFlush
    else if isWrite then Write
    else Other
  }
}
