/** The pure helpers of the server's entry point (src/main.rs): the port
    stripped from a `Host` header, the per-host transport endpoints with their
    seven-day lifetime, and the filter and id counter for newly listed
    devices. */
module ServerMain {
  import opened Wrappers

  /** The position of the last occurrence of `c`, like `str::rfind`. */
  function LastIndexOf(s: string, c: char): (r: Option<nat>)
    ensures r.Some? ==> r.value < |s| && s[r.value] == c && forall k :: r.value < k < |s| ==> s[k] != c
    ensures r.None? ==> forall k :: 0 <= k < |s| ==> s[k] != c
    decreases |s|
  {
    if |s| == 0 then None
    else if s[|s| - 1] == c then Some(|s| - 1)
    else LastIndexOf(s[..|s| - 1], c)
  }

  predicate AllDigits(s: string)
  {
    forall k :: 0 <= k < |s| ==> '0' <= s[k] <= '9'
  }

  /** The host the certificate is requested for: without what follows the
      last ':' when that is all ASCII digits (an empty port included).
      Digits are checked on characters; a multi-byte character never encodes
      an ASCII digit, so this agrees with the check on bytes. */
  function StripPort(host: string): (r: string)
    ensures |r| <= |host| && r == host[..|r|]
  {
    match LastIndexOf(host, ':')
    case None => host
    case Some(position) => if AllDigits(host[position + 1..]) then host[..position] else host
  }

  /** Stated without `rfind`: for a ':' with no other ':' after it, the
      result is the part before it exactly when the part after it is all
      digits; without any ':' the host is kept. */
  lemma StripPortSpec(host: string, p: nat)
    requires p < |host| && host[p] == ':' && forall k :: p < k < |host| ==> host[k] != ':'
    ensures StripPort(host) == host[..p] <==> AllDigits(host[p + 1..])
    ensures !AllDigits(host[p + 1..]) ==> StripPort(host) == host
  {
    var q := LastIndexOf(host, ':');
    assert q == Some(p);
    assert |host[..p]| != |host|;
  }

  lemma StripPortWithoutColon(host: string)
    requires forall k :: 0 <= k < |host| ==> host[k] != ':'
    ensures StripPort(host) == host
  {
  }

  /** A numeric port is stripped from a bracketed IPv6 address. */
  lemma StripPortOfAddressWithPort()
    ensures StripPort("[::1]:8080") == "[::1]"
  {
    var a := "[::1]:8080";
    assert a[6..] == "8080" && a[..5] == "[::1]";
    assert forall k :: 5 < k < |a| ==> a[k] != ':' by {
      assert a[6] == '8' && a[7] == '0' && a[8] == '8' && a[9] == '0';
    }
    StripPortSpec(a, 5);
  }

  /** A bracketed IPv6 address without a port keeps its colons. */
  lemma StripPortOfAddress()
    ensures StripPort("[::1]") == "[::1]"
  {
    var b := "[::1]";
    StripPortSpec(b, 2);
    assert b[3..][1] == ']';
  }

  /** A transport endpoint as the certificate handler sees it: its port, the
      hash of its certificate and its creation time in nanoseconds. */
  datatype Endpoint = Endpoint(port: nat, hash: string, created: int)

  /** The hosts' endpoints and the next port to hand out (a `u16`). */
  datatype Endpoints = Endpoints(hostToEndpoint: map<string, Endpoint>, nextPort: nat)

  const SEVEN_DAYS: nat := 7 * 24 * 60 * 60 * 1_000_000_000

  /** `created.elapsed().is_ok_and(|e| e > 7 days)`: a clock that went back
      gives an error, which counts as not expired. */
  predicate Expired(e: Endpoint, now: int)
  {
    now >= e.created && now - e.created > SEVEN_DAYS
  }

  datatype PortError = PortsExhausted

  /** The certificate request for a host (already stripped): a live endpoint
      is answered as is; an expired one is replaced by a new endpoint on the
      same port; an unknown host gets a new endpoint on `nextPort`, which is
      incremented. `hash` is the hash of the fresh certificate. The `u16`
      increment overflows at 65535 (a panic in a debug build): that is the
      error. */
  function Certificate(s: Endpoints, host: string, now: int, hash: string): (r: Result<(Endpoints, Endpoint), PortError>)
    requires s.nextPort < 0x1_0000
    ensures r.Err? <==> (host !in s.hostToEndpoint && s.nextPort == 0xffff)
    ensures r.Ok? ==> host in r.value.0.hostToEndpoint && r.value.0.hostToEndpoint[host] == r.value.1
    ensures r.Ok? ==> r.value.0.hostToEndpoint.Keys == s.hostToEndpoint.Keys + {host}
    ensures r.Ok? ==> forall h :: h in s.hostToEndpoint && h != host ==> r.value.0.hostToEndpoint[h] == s.hostToEndpoint[h]
    ensures r.Ok? && host in s.hostToEndpoint ==> r.value.1.port == s.hostToEndpoint[host].port && r.value.0.nextPort == s.nextPort
    ensures r.Ok? && host in s.hostToEndpoint && !Expired(s.hostToEndpoint[host], now) ==> r.value.0 == s
    ensures r.Ok? && host !in s.hostToEndpoint ==> r.value.1.port == s.nextPort && r.value.0.nextPort == s.nextPort + 1
    ensures r.Ok? && r.value.0 != s ==> r.value.1 == Endpoint(r.value.1.port, hash, now)
  {
    var (removed, reusePort) :=
      if host in s.hostToEndpoint && Expired(s.hostToEndpoint[host], now) then (true, Some(s.hostToEndpoint[host].port))
      else (false, None);
    var table := if removed then s.hostToEndpoint - {host} else s.hostToEndpoint;
    if host in table then Ok((s, table[host]))
    else
      match reusePort
      case Some(port) =>
        var e := Endpoint(port, hash, now);
        Ok((Endpoints(table[host := e], s.nextPort), e))
      case None =>
        if s.nextPort == 0xffff then Err(PortsExhausted)
        else
          var e := Endpoint(s.nextPort, hash, now);
          Ok((Endpoints(table[host := e], s.nextPort + 1), e))
  }

  /** Ports handed out so far lie in `[first, nextPort)` and no two hosts
      share one. */
  predicate PortsValid(s: Endpoints, first: nat)
  {
    && first <= s.nextPort
    && (forall h :: h in s.hostToEndpoint ==> first <= s.hostToEndpoint[h].port < s.nextPort)
    && (forall g, h :: g in s.hostToEndpoint && h in s.hostToEndpoint && g != h ==>
          s.hostToEndpoint[g].port != s.hostToEndpoint[h].port)
  }

  /** Every request keeps the ports distinct: a reused port is given back
      to the host it was taken from. */
  lemma CertificateKeepsPortsValid(s: Endpoints, host: string, now: int, hash: string, first: nat)
    requires s.nextPort < 0x1_0000 && PortsValid(s, first)
    ensures var r := Certificate(s, host, now, hash); r.Ok? ==> PortsValid(r.value.0, first)
  {
  }

  /** A second request at the same time is answered with the same endpoint
      and changes nothing. */
  lemma CertificateIdempotent(s: Endpoints, host: string, now: int, hash: string, hash': string)
    requires s.nextPort < 0x1_0000
    requires Certificate(s, host, now, hash).Ok?
    ensures var (t, e) := Certificate(s, host, now, hash).value;
      t.nextPort < 0x1_0000 && Certificate(t, host, now, hash') == Ok((t, e))
  {
    var (t, e) := Certificate(s, host, now, hash).value;
    if t != s {
      assert !Expired(t.hostToEndpoint[host], now);
    }
  }

  /** A listed device as the polling loop sees it: whether its serial could
      be read, and its bus number and address. */
  datatype ListedDevice = ListedDevice(serialOk: bool, bus: nat, address: nat)

  predicate IsNew(d: ListedDevice, known: seq<(nat, nat)>)
  {
    d.serialOk && forall k :: 0 <= k < |known| ==> (d.bus, d.address) != known[k]
  }

  /** The devices that are new: a readable serial and a (bus, address) pair
      that no known device has, in listing order. */
  function NewDevices(listed: seq<ListedDevice>, known: seq<(nat, nat)>): (r: seq<ListedDevice>)
    ensures |r| <= |listed|
    ensures forall k :: 0 <= k < |r| ==> IsNew(r[k], known) && r[k] in listed
    ensures forall k :: 0 <= k < |listed| && IsNew(listed[k], known) ==> listed[k] in r
    decreases |listed|
  {
    if |listed| == 0 then []
    else
      var rest := NewDevices(listed[1..], known);
      assert forall k :: 1 <= k < |listed| ==> listed[k] == listed[1..][k - 1];
      if IsNew(listed[0], known) then [listed[0]] + rest else rest
  }

  const DEVICE_ID_MODULUS: nat := 0x100_0000

  /** The ids given to the devices of one batch: the counter for every
      device that didOpen, advanced modulo 2^24 after each. */
  function AssignIds(next: nat, didOpen: seq<bool>): (r: (seq<nat>, nat))
    requires next < DEVICE_ID_MODULUS
    ensures r.1 < DEVICE_ID_MODULUS
    ensures forall k :: 0 <= k < |r.0| ==> r.0[k] == (next + k) % DEVICE_ID_MODULUS
    ensures r.1 == (next + |r.0|) % DEVICE_ID_MODULUS
    ensures |r.0| <= |didOpen|
    decreases |didOpen|
  {
    if |didOpen| == 0 then ([], next)
    else if !didOpen[0] then AssignIds(next, didOpen[1..])
    else
      var following := (next + 1) % DEVICE_ID_MODULUS;
      var rest := AssignIds(following, didOpen[1..]);
      ShiftMod(next, rest.0);
      AfterNext(next, |rest.0|);
      ([next] + rest.0, rest.1)
  }

  lemma ShiftMod(next: nat, rest: seq<nat>)
    requires next < DEVICE_ID_MODULUS
    requires forall k :: 0 <= k < |rest| ==> rest[k] == ((next + 1) % DEVICE_ID_MODULUS + k) % DEVICE_ID_MODULUS
    ensures forall k :: 0 <= k < |rest| ==> rest[k] == (next + 1 + k) % DEVICE_ID_MODULUS
  {
    forall k | 0 <= k < |rest|
      ensures rest[k] == (next + 1 + k) % DEVICE_ID_MODULUS
    {
      AfterNext(next, k);
    }
  }

  /** Counting `k` on from the id after `next` is counting `k + 1` on from
      `next`. */
  lemma AfterNext(next: nat, k: nat)
    requires next < DEVICE_ID_MODULUS
    ensures ((next + 1) % DEVICE_ID_MODULUS + k) % DEVICE_ID_MODULUS == (next + 1 + k) % DEVICE_ID_MODULUS
  {
    if next + 1 == DEVICE_ID_MODULUS {
      assert (next + 1) % DEVICE_ID_MODULUS == 0;
    } else {
      assert (next + 1) % DEVICE_ID_MODULUS == next + 1;
    }
  }

  /** Up to 2^24 devices didOpen in a row get distinct ids. */
  lemma AssignedIdsDistinct(next: nat, didOpen: seq<bool>)
    requires next < DEVICE_ID_MODULUS
    requires |AssignIds(next, didOpen).0| <= DEVICE_ID_MODULUS
    ensures var ids := AssignIds(next, didOpen).0;
      forall j, k :: 0 <= j < k < |ids| ==> ids[j] != ids[k]
  {
    var ids := AssignIds(next, didOpen).0;
    forall j, k | 0 <= j < k < |ids|
      ensures ids[j] != ids[k]
    {
      ModDistinct(next + j, next + k);
    }
  }

  lemma ModDistinct(a: nat, b: nat)
    requires a < b < a + DEVICE_ID_MODULUS
    ensures a % DEVICE_ID_MODULUS != b % DEVICE_ID_MODULUS
  {
  }
}
