/** The listen-address helpers of internal/server/addr.go: the port of a
    listen address, and the LAN URLs the server prints.  LocalIPs
    enumerates the host's network interfaces and is left out: ServerURLs
    takes the IP list as a parameter. */
module Addr {
  import opened GoStrings

  /** The port used when none is given. */
  const DefaultPort: string := "8080"

  /** PortFromAddr: "8080" for an empty address; the text after the last
      ':' when that colon is not the final character; otherwise the address
      itself. */
  function PortFromAddr(addr: string): (r: string)
    ensures addr == "" ==> r == DefaultPort
    ensures r == DefaultPort || (|r| <= |addr| && r == addr[|addr| - |r|..])
    ensures addr != "" && (':' !in addr || addr[|addr| - 1] == ':') ==> r == addr
  {
    if addr == "" then DefaultPort
    else
      var idx := LastIndexOfChar(addr, ':');
      if idx >= 0 && idx < |addr| - 1 then addr[idx + 1..] else addr
  }

  /** The address a port was joined onto comes back out: whatever the host,
      the port after the last ':' is found again, provided it is non-empty
      and has no colon of its own. */
  lemma PortOfHostPort(host: string, port: string)
    requires port != "" && ':' !in port
    ensures PortFromAddr(host + ":" + port) == port
  {
    var addr := host + ":" + port;
    var idx := LastIndexOfChar(addr, ':');
    assert addr[|host|] == ':';
    assert idx == |host| by {
      forall j | |host| < j < |addr| ensures addr[j] != ':' {
        assert addr[j] == port[j - |host| - 1];
      }
    }
    assert addr[idx + 1..] == port;
  }

  /** The two listen-address forms of the documentation give the same
      port: both are instances of PortOfHostPort, with an empty host and
      with 0.0.0.0. */
  lemma ListenFormsGivePort()
    ensures PortFromAddr(":8080") == "8080"
    ensures PortFromAddr("0.0.0.0:8080") == "8080"
  {
    PortOfHostPort("", "8080");
    PortOfHostPort("0.0.0.0", "8080");
    assert "" + ":" + "8080" == ":8080";
    assert "0.0.0.0" + ":" + "8080" == "0.0.0.0:8080";
  }

  /** net.JoinHostPort: a host with a colon (an IPv6 literal) is
      bracketed. */
  function JoinHostPort(host: string, port: string): (r: string)
    ensures ':' !in host ==> r == host + ":" + port
    ensures ':' in host ==> r == "[" + host + "]" + ":" + port
  {
    if ':' in host then "[" + host + "]:" + port else host + ":" + port
  }

  /** The port ServerURLs uses: "8080" for an empty one. */
  function EffectivePort(port: string): (r: string)
    ensures r != ""
    ensures port != "" ==> r == port
  {
    if port == "" then DefaultPort else port
  }

  /** ServerURLs over the given IPs: one http://ip:port per IP, in input
      order, and none when there are no IPs. */
  method ServerURLs(port: string, ips: seq<string>) returns (urls: seq<string>)
    ensures |urls| == |ips|
    ensures forall k :: 0 <= k < |ips| ==> urls[k] == "http://" + JoinHostPort(ips[k], EffectivePort(port))
  {
    var p := port;
    if p == "" {
      p := DefaultPort;
    }
    if |ips| == 0 {
      return [];
    }
    urls := [];
    for i := 0 to |ips|
      invariant |urls| == i
      invariant forall k :: 0 <= k < i ==> urls[k] == "http://" + JoinHostPort(ips[k], p)
    {
      urls := urls + ["http://" + JoinHostPort(ips[i], p)];
    }
  }

  /** Every URL ServerURLs prints carries the port back: PortFromAddr of
      the URL is the port it was built with. */
  lemma URLCarriesPort(ip: string, port: string)
    requires ':' !in port
    ensures PortFromAddr("http://" + JoinHostPort(ip, EffectivePort(port))) == EffectivePort(port)
  {
    var p := EffectivePort(port);
    assert p == DefaultPort ==> ':' !in p;
    var hostPart := if ':' in ip then "http://" + "[" + ip + "]" else "http://" + ip;
    assert "http://" + JoinHostPort(ip, p) == hostPart + ":" + p;
    PortOfHostPort(hostPart, p);
  }
}
