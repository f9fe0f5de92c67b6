// The vfs_open filter: which processes are reported, and what the process
// name given to the loader means to the kernel.
module VfsFilter {
  import opened Machine

  const COMM_LEN: nat := 16

  type Comm = s: seq<U8> | |s| == COMM_LEN witness seq(16, _ => 0)

  datatype FilterConfig = FilterConfig(pid: U32, cgroupId: U64, name: Comm)

  // Position of the first NUL of the name.
  function NameLength(name: seq<U8>): (n: nat)
    ensures n <= |name| && 0 !in name[..n] && (n < |name| ==> name[n] == 0)
  {
    if name == [] || name[0] == 0 then 0
    else
      var n := NameLength(name[1..]);
      assert name[..n + 1] == [name[0]] + name[1..][..n];
      n + 1
  }

  // The comm agrees with the name up to the name's first NUL.
  predicate NameMatches(name: Comm, comm: Comm) {
    name[..NameLength(name)] <= comm
  }

  // comm is None when it could not be read.
  method Reports(config: FilterConfig, pid: U32, cgroupId: U64, comm: Option<Comm>) returns (report: bool)
    ensures var name := if comm.Some? then comm.value else seq(16, _ => 0);
            report <==>
            || (config.cgroupId == 0 && config.pid == 0 && config.name[0] == 0)
            || (config.cgroupId != 0 && cgroupId == config.cgroupId)
            || (config.pid != 0 && pid == config.pid)
            || (config.name[0] != 0 && NameMatches(config.name, name))
  {
    var matches, criteriaMet := false, 0;
    if config.cgroupId != 0 {
      criteriaMet := criteriaMet + 1;
      if cgroupId == config.cgroupId {
        matches := true;
      }
    }
    if !matches && config.pid != 0 {
      criteriaMet := criteriaMet + 1;
      if pid == config.pid {
        matches := true;
      }
    }
    if !matches && config.name[0] != 0 {
      criteriaMet := criteriaMet + 1;
      var current: Comm := if comm.Some? then comm.value else seq(16, _ => 0);
      var nameMatches := CompareName(config.name, current);
      if nameMatches {
        matches := true;
      }
    }
    report := !(0 < criteriaMet && !matches);
  }

  method CompareName(name: Comm, comm: Comm) returns (nameMatches: bool)
    ensures nameMatches <==> NameMatches(name, comm)
  {
    nameMatches := true;
    for i := 0 to COMM_LEN
      invariant nameMatches && 0 !in name[..i]
      invariant comm[..i] == name[..i]
    {
      assert name[..i + 1] == name[..i] + [name[i]] && comm[..i + 1] == comm[..i] + [comm[i]];
      LengthFrom(name, i);
      if name[i] == 0 {
        return;
      }
      if comm[i] != name[i] {
        nameMatches := false;
        return;
      }
    }
    assert comm == comm[..COMM_LEN] == name[..COMM_LEN] == name;
  }

  lemma {:induction false} LengthFrom(name: seq<U8>, i: nat)
    requires i <= |name| && 0 !in name[..i]
    ensures i <= NameLength(name) && (i < |name| && name[i] == 0 ==> NameLength(name) == i)
  {
    var n := NameLength(name);
    forall k | 0 <= k < i
      ensures name[k] != 0
    {
      assert name[k] in name[..i];
    }
    forall k | 0 <= k < n
      ensures name[k] != 0
    {
      assert name[k] in name[..n];
    }
  }

  // The loader copies at most 15 bytes of the name into a zeroed buffer.
  function ConfigName(src: seq<U8>): Comm {
    var len := Min(|src|, 15);
    src[..len] + seq(16 - len, _ => 0)
  }

  // A name filter is a prefix match: a process passes exactly when its comm
  // starts with the first 15 bytes of the name, or with what comes before a NUL
  // among them.
  lemma {:induction false} NameFilterIsPrefix(src: seq<U8>, comm: Comm)
    ensures NameMatches(ConfigName(src), comm) <==> src[..Min(NameLength(src), 15)] <= comm
    ensures 0 !in src ==> NameLength(src) == |src|
  {
    var n, name := Min(NameLength(src), 15), ConfigName(src);
    ConfigNameIs(src, n);
    LengthFrom(name, n);
    assert name[..n] == src[..n];
    assert NameLength(src) < |src| ==> 0 in src;
  }

  lemma {:induction false} ConfigNameIs(src: seq<U8>, n: nat)
    requires n <= |src| && n <= 15
    ensures ConfigName(src)[..n] == src[..n]
    ensures ConfigName(src)[n] == if n < |src| && n < 15 then src[n] else 0
  {
  }
}
