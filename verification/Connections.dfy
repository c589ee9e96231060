/** The publisher's connections: the config array walked by a moving pointer, and the choice among the sockets. */
module Connections {
  import opened Arithmetic
  import opened Wrappers

  datatype Address = Address(host: string, port: string)

  /** What the system does for one connection: the descriptor socket() returns, and whether connect() succeeds. */
  datatype Dial = Dial(fd: int, connected: bool)

  function SocketOf(d: Dial): int {
    if d.connected then d.fd else 0
  }

  predicate Usable(socks: seq<int>) {
    forall i :: 0 <= i < |socks| ==> socks[i] > 0
  }

  /** Fill forwards; the pointer is not advanced past the last entry. */
  method FillConfigs(addrs: seq<Address>) returns (configs: array<Address>, p: int)
    requires addrs != []
    ensures fresh(configs) && configs[..] == addrs && p == |addrs| - 1
  {
    var count := |addrs|;
    configs := new Address[count](_ => Address("", ""));
    var j := 0;
    p := 0;
    for i := 0 to count
      invariant j == i && p == (if i < count then i else count - 1)
      invariant configs[..i] == addrs[..i]
    {
      configs[p] := addrs[i];
      j := j + 1;
      if j < count {
        p := p + 1;
      }
    }
    assert addrs[..count] == addrs && configs[..count] == configs[..];
  }

  /** Connect backwards from the entry the pointer was left at. */
  method ConnectAll(configs: array<Address>, p0: int, dials: seq<Dial>)
    returns (socks: seq<int>, ghost dialed: seq<Address>)
    requires configs.Length > 0 && p0 == configs.Length - 1 && |dials| == configs.Length
    ensures |socks| == |dialed| == configs.Length
    ensures forall i :: 0 <= i < configs.Length ==> socks[i] == SocketOf(dials[i])
    ensures forall i :: 0 <= i < configs.Length ==> dialed[i] == configs[configs.Length - 1 - i]
  {
    var p := p0;
    var count := configs.Length;
    socks, dialed := [], [];
    for i := 0 to count
      invariant p == (if i < count then count - 1 - i else 0)
      invariant |socks| == |dialed| == i
      invariant forall k :: 0 <= k < i ==> socks[k] == SocketOf(dials[k])
      invariant forall k :: 0 <= k < i ==> dialed[k] == configs[count - 1 - k]
    {
      dialed := dialed + [configs[p]];
      if i < count - 1 {
        p := p - 1;
      }
      socks := socks + [if dials[i].connected then dials[i].fd else 0];
    }
  }

  /** Release backwards; the pointer ends at the start of the block, which is then released itself. */
  method FreeConfigs(count: int, p0: int) returns (p: int, ghost freed: seq<int>)
    requires count > 0 && p0 == count - 1
    ensures p == 0 && |freed| == count
    ensures forall h :: 0 <= h < count ==> freed[h] == count - 1 - h
  {
    p, freed := p0, [];
    for h := 0 to count
      invariant p == (if h < count then count - 1 - h else 0)
      invariant |freed| == h && forall k :: 0 <= k < h ==> freed[k] == count - 1 - k
    {
      freed := freed + [p];
      if h < count - 1 {
        p := p - 1;
      }
    }
  }

  /** The descriptors are stored all or none. */
  method StoreSockets(socks: seq<int>) returns (stored: Option<seq<int>>)
    ensures stored == if Usable(socks) then Some(socks) else None
  {
    var fds := [];
    for i := 0 to |socks|
      invariant fds == socks[..i] && Usable(fds)
    {
      if !(socks[i] > 0) {
        return None;
      }
      fds := fds + [socks[i]];
    }
    assert socks[..|socks|] == socks;
    return Some(fds);
  }

  method ConnectNsqd(addrs: seq<Address>, dials: seq<Dial>)
    returns (ok: bool, stored: Option<seq<int>>, ghost dialed: seq<Address>)
    requires addrs != [] && |dials| == |addrs|
    ensures |dialed| == |addrs| && forall i :: 0 <= i < |addrs| ==> dialed[i] == addrs[|addrs| - 1 - i]
    ensures ok <==> forall i :: 0 <= i < |addrs| ==> dials[i].connected && dials[i].fd > 0
    ensures ok <==> stored.Some?
    ensures ok ==> |stored.value| == |addrs| && forall i :: 0 <= i < |addrs| ==> stored.value[i] == dials[i].fd > 0
  {
    var configs, p := FillConfigs(addrs);
    var socks;
    socks, dialed := ConnectAll(configs, p, dials);
    stored := StoreSockets(socks);
    var base, freed := FreeConfigs(|addrs|, p);
    assert base == 0;
    ok := true;
    for i := 0 to |socks|
      invariant ok <==> Usable(socks[..i])
    {
      assert socks[..i + 1] == socks[..i] + [socks[i]];
      if !(socks[i] > 0) {
        ok := false;
      }
    }
    assert socks[..|socks|] == socks;
  }

  /** publish sends on the descriptor stored at rand() % count. */
  function Choose(fds: seq<int>, random: nat): int
    requires fds != []
  {
    fds[random % |fds|]
  }

  /** Whatever rand() returns, an existing usable descriptor is chosen, and each of them can be. */
  lemma ChooseUsable(fds: seq<int>, random: nat, i: nat)
    requires fds != [] && Usable(fds) && i < |fds|
    ensures Choose(fds, random) > 0 && Choose(fds, random) in fds
    ensures Choose(fds, random * |fds| + i) == fds[i]
  {
    FlatIndex(random, |fds|, i);
  }
}
