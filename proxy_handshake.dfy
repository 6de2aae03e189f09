/**
  How the TLS tunnel relay (src/forward.rs) reaches the remote server: the
  route chosen for a parsed mapping, the CONNECT request sent to an HTTP
  proxy, and the loop that reads the proxy's reply up to the end of its head.
  The socket is a script of read results; the random proxy choice is an index.
 */
module ProxyHandshake {
  import opened Wrappers
  import opened Text
  import opened ForwardMapping

  /** How the remote server is reached. */
  datatype Route<P> =
    | Direct(remote: string)
    | ViaHttpProxy(proxy: P, target: string)
    | ViaSocks5Proxy(proxy: P, target: string)
    | NoProxyAddresses   // "Proxy addresses not specified"

  /** The route `handle_connection` takes for a mapping; `pick` is the index
      the random choice lands on. */
  function ChooseRoute<A, P>(m: Mapping<A, P>, pick: nat): (r: Route<P>)
    requires m.proxyAddrs != [] ==> pick < |m.proxyAddrs|
    ensures r.NoProxyAddresses? <==> m.proxyType != NoProxy && m.proxyAddrs == []
    ensures r.Direct? <==> m.proxyType == NoProxy
    ensures r.Direct? ==> r.remote == m.remoteAddr
    ensures r.ViaHttpProxy? ==> m.proxyType == Http && r.proxy in m.proxyAddrs && r.target == m.remoteAddr
    ensures r.ViaSocks5Proxy? ==> m.proxyType == Socks5 && r.proxy in m.proxyAddrs && r.target == m.remoteAddr
  {
    if m.proxyType == NoProxy then Direct(m.remoteAddr)
    else if m.proxyAddrs == [] then NoProxyAddresses
    else if m.proxyType == Http then ViaHttpProxy(m.proxyAddrs[pick], m.remoteAddr)
    else
      assert m.proxyType == Socks5;
      ViaSocks5Proxy(m.proxyAddrs[pick], m.remoteAddr)
  }

  /** A mapping the parser accepted never takes the "Proxy addresses not
      specified" exit, whichever proxy the random choice picks. */
  lemma ParsedMappingHasRoute<A>(s: string, parseAddr: string -> Option<A>, pick: nat)
    requires ParseTunnelMapping(s, parseAddr).Some?
    requires var m := ParseTunnelMapping(s, parseAddr).value; m.proxyAddrs != [] ==> pick < |m.proxyAddrs|
    ensures !ChooseRoute(ParseTunnelMapping(s, parseAddr).value, pick).NoProxyAddresses?
  {
  }

  /** The request line and Host header sent to an HTTP proxy. */
  function ConnectRequest(target: string): (req: string)
    ensures StartsWith(req, "CONNECT ") && EndsWith(req, "\r\n\r\n")
    ensures |req| == 2 * |target| + 29
    ensures req[8..8 + |target|] == target
  {
    var req := "CONNECT " + target + " HTTP/1.1\r\nHost: " + target + "\r\n\r\n";
    assert req[..8] == "CONNECT ";
    assert req[8..8 + |target|] == target;
    assert req[|req| - 4..] == "\r\n\r\n";
    req
  }

  /** For a target without line breaks the request is one complete head:
      its first blank line is at the very end, and its first line names the
      target. */
  lemma ConnectRequestIsOneHead(target: string)
    requires '\r' !in target
    ensures var req := ConnectRequest(target);
      IndexOf(req, "\r\n\r\n") == Some(|req| - 4)
      && IndexOf(req, "\r\n") == Some(|target| + 17)
      && req[..|target| + 17] == "CONNECT " + target + " HTTP/1.1"
  {
    var line1 := "CONNECT " + target + " HTTP/1.1";
    var line2 := "Host: " + target;
    ConnectRequestLines(target);
    NoCr(line1, target, 8);
    NoCr(line2, target, 6);
    IndexAfterCrFree(line1, "\r\n", line2 + "\r\n\r\n");
    TwoLineHead(line1, line2);
  }

  /** The request is the request line and the Host line, each ended by CR LF, then the blank line. */
  lemma ConnectRequestLines(target: string)
    ensures ConnectRequest(target)
      == ("CONNECT " + target + " HTTP/1.1") + "\r\n" + (("Host: " + target) + "\r\n\r\n")
  {
    assert " HTTP/1.1\r\nHost: " == " HTTP/1.1" + "\r\n" + "Host: ";
  }

  /** A pattern starting with CR is first found right after a CR-free part. */
  lemma IndexAfterCrFree(a: string, pat: string, b: string)
    requires |pat| > 0 && pat[0] == '\r' && '\r' !in a
    ensures IndexOf(a + pat + b, pat) == Some(|a|)
    ensures (a + pat + b)[..|a|] == a
  {
    var s := a + pat + b;
    assert OccursAt(s, pat, |a|) by { assert s[|a|..|a| + |pat|] == pat; }
    forall j | 0 <= j < |a| ensures !OccursAt(s, pat, j) {
      assert s[j] == a[j];
    }
  }

  /** Two CR-free lines, each ended by CR LF, then the blank line: the head ends at the last four bytes. */
  lemma TwoLineHead(line1: string, line2: string)
    requires '\r' !in line1 && '\r' !in line2 && |line2| > 0 && line2[0] == 'H'
    ensures var s := line1 + "\r\n" + (line2 + "\r\n\r\n");
      IndexOf(s, "\r\n\r\n") == Some(|s| - 4)
  {
    var s := line1 + "\r\n" + (line2 + "\r\n\r\n");
    var n := |line1|;
    assert OccursAt(s, "\r\n\r\n", |s| - 4) by { assert s[|s| - 4..] == "\r\n\r\n"; }
    forall j | 0 <= j < |s| - 4 ensures !OccursAt(s, "\r\n\r\n", j) {
      if j < n {
        assert s[j] == line1[j];
      } else if j == n {
        assert s[j + 2] == 'H';
      } else if j == n + 1 {
        assert s[j] == '\n';
      } else {
        assert s[j] == line2[j - n - 2];
      }
    }
  }

  /** A text made of a fixed part and a target has no CR when neither does. */
  lemma NoCr(line: string, target: string, at: nat)
    requires at + |target| <= |line| && line[at..at + |target|] == target
    requires '\r' !in target
    requires forall j :: 0 <= j < |line| && (j < at || j >= at + |target|) ==> line[j] != '\r'
    ensures '\r' !in line
  {
    forall j | 0 <= j < |line| ensures line[j] != '\r' {
      if at <= j < at + |target| {
        assert line[j] == target[j - at];
      }
    }
  }

  /** The outcome of one `stream.read` into the 1024-byte buffer. */
  datatype ReadResult = Data(chunk: seq<byte>) | ReadError

  datatype HandshakeOutcome =
    | Connected(response: seq<byte>)
    | Refused(response: seq<byte>)     // head complete, no "200" in it
    | ProxyClosed                      // "Proxy server closed connection"
    | ReadFailed

  const HeadEnd: seq<byte> := [13, 10, 13, 10]
  /** The bytes of "200". */
  const Ok200: seq<byte> := [50, 48, 48]

  /** Every read fills part of the 1024-byte buffer. */
  predicate ReadsFitBuffer(script: seq<ReadResult>) {
    forall i :: 0 <= i < |script| && script[i].Data? ==> |script[i].chunk| <= 1024
  }

  /** The handshake after `response` has been read so far: a zero-length
      read (or the end of the script) means closed, a failed read is an
      error, and the first read that completes the head decides. */
  function Handshake(script: seq<ReadResult>, response: seq<byte>): (o: HandshakeOutcome)
    ensures o.Connected? ==> Contains(o.response, HeadEnd) && Contains(o.response, Ok200)
    ensures o.Refused? ==> Contains(o.response, HeadEnd) && !Contains(o.response, Ok200)
    ensures o.Connected? || o.Refused? ==> StartsWith(o.response, response)
    decreases |script|
  {
    if script == [] then ProxyClosed
    else match script[0]
      case ReadError => ReadFailed
      case Data(chunk) =>
        if chunk == [] then ProxyClosed
        else
          var acc := response + chunk;
          assert acc[..|response|] == response;
          if Contains(acc, HeadEnd) then
            (if Contains(acc, Ok200) then Connected(acc) else Refused(acc))
          else
            var o := Handshake(script[1..], acc);
            assert (o.Connected? || o.Refused?) ==> o.response[..|response|] == acc[..|response|];
            o
  }

  /** All bytes of a sequence of nonempty script, in order. */
  function Received(script: seq<ReadResult>): seq<byte> {
    if script == [] then [] else (if script[0].Data? then script[0].chunk else []) + Received(script[1..])
  }

  predicate AllNonemptyData(script: seq<ReadResult>) {
    forall i :: 0 <= i < |script| ==> script[i].Data? && script[i].chunk != []
  }

  /** The bytes of the first `k` reads: the first read's, then those of the
      next `k - 1`. */
  lemma ReceivedPrefix(script: seq<ReadResult>, k: nat)
    requires 1 <= k <= |script| && script[0].Data?
    ensures Received(script[..k]) == script[0].chunk + Received(script[1..][..k - 1])
  {
    assert script[..k][1..] == script[1..][..k - 1];
  }

  /** A nonempty first read in front of nonempty reads. */
  lemma AllNonemptyPrefix(script: seq<ReadResult>, k: nat)
    requires 1 <= k < |script| && script[0].Data? && script[0].chunk != []
    requires AllNonemptyData(script[1..][..k])
    ensures AllNonemptyData(script[..k + 1])
  {
    var pre := script[..k + 1];
    forall i | 0 <= i < k + 1 ensures pre[i].Data? && pre[i].chunk != [] {
      if i > 0 { assert pre[i] == script[1..][..k][i - 1]; }
    }
  }

  /** The handshake, starting from `response`, decides at the `k`-th read with
      `out`: all reads up to it brought data, `out` is everything received, and
      no blank line was complete before that read. */
  predicate StopsAt(script: seq<ReadResult>, response: seq<byte>, out: seq<byte>, k: nat) {
    && 1 <= k <= |script| && AllNonemptyData(script[..k])
    && out == response + Received(script[..k])
    && !Contains(response + Received(script[..k - 1]), HeadEnd)
  }

  /** Deciding at read `k` after a first nonempty read is deciding at read `k + 1`. */
  lemma StopsAtLater(script: seq<ReadResult>, response: seq<byte>, out: seq<byte>, k: nat)
    requires script != [] && script[0].Data? && script[0].chunk != []
    requires StopsAt(script[1..], response + script[0].chunk, out, k)
    ensures StopsAt(script, response, out, k + 1)
  {
    ReceivedPrefix(script, k + 1);
    ReceivedPrefix(script, k);
    AllNonemptyPrefix(script, k);
    var acc := response + script[0].chunk;
    assert out == response + Received(script[..k + 1]);
    assert response + Received(script[..k]) == acc + Received(script[1..][..k - 1]);
  }

  /** The loop stops exactly at the first read that completes the head: the
      decisive response is everything received up to that read, and the
      bytes received before it held no blank line. */
  lemma {:induction false} HandshakeStopsAtHeadEnd(script: seq<ReadResult>, response: seq<byte>)
    requires !Contains(response, HeadEnd)
    ensures var o := Handshake(script, response);
      o.Connected? || o.Refused? ==> exists k :: StopsAt(script, response, o.response, k)
    decreases |script|
  {
    var o := Handshake(script, response);
    if script != [] && script[0].Data? && script[0].chunk != [] {
      var acc := response + script[0].chunk;
      if Contains(acc, HeadEnd) {
        ReceivedPrefix(script, 1);
        assert script[1..][..0] == [] && script[..1][..0] == [];
        assert response + Received(script[..0]) == response;
        assert o.response == response + Received(script[..1]);
        assert AllNonemptyData(script[..1]);
        assert StopsAt(script, response, o.response, 1);
      } else if o.Connected? || o.Refused? {
        assert o == Handshake(script[1..], acc);
        HandshakeStopsAtHeadEnd(script[1..], acc);
        var k :| StopsAt(script[1..], acc, o.response, k);
        StopsAtLater(script, response, o.response, k);
      }
    }
  }

  /** The first `j` reads all brought data and, together with `response`,
      hold no complete head yet. */
  predicate Undecided(script: seq<ReadResult>, response: seq<byte>, j: nat) {
    j <= |script| && AllNonemptyData(script[..j]) && !Contains(response + Received(script[..j]), HeadEnd)
  }

  /** Peeling off the first read of an undecided stretch. */
  lemma UndecidedFirst(script: seq<ReadResult>, response: seq<byte>, j: nat)
    requires 1 <= j && Undecided(script, response, j)
    ensures script[0].Data? && script[0].chunk != []
    ensures !Contains(response + script[0].chunk, HeadEnd)
    ensures Undecided(script[1..], response + script[0].chunk, j - 1)
  {
    assert script[..j][0] == script[0];
    var acc := response + script[0].chunk;
    ReceivedPrefix(script, j);
    assert response + Received(script[..j]) == acc + Received(script[1..][..j - 1]);
    if Contains(acc, HeadEnd) {
      ContainsExtends(acc, Received(script[1..][..j - 1]), HeadEnd);
    }
    var pre := script[1..][..j - 1];
    forall i | 0 <= i < j - 1 ensures pre[i].Data? && pre[i].chunk != [] {
      assert pre[i] == script[..j][i + 1];
    }
  }

  /** The converse of `HandshakeStopsAtHeadEnd`: the first read that completes
      the head decides the handshake, with "200" telling success from refusal. */
  lemma {:induction false} HandshakeDecidesAt(script: seq<ReadResult>, response: seq<byte>, out: seq<byte>, k: nat)
    requires StopsAt(script, response, out, k) && Contains(out, HeadEnd)
    ensures Handshake(script, response) == (if Contains(out, Ok200) then Connected(out) else Refused(out))
    decreases k
  {
    assert script[..k][0] == script[0];
    var acc := response + script[0].chunk;
    ReceivedPrefix(script, k);
    if k == 1 {
      assert script[1..][..0] == [];
      assert out == acc;
    } else {
      var before := script[..k - 1];
      assert AllNonemptyData(before) by {
        forall i | 0 <= i < k - 1 ensures before[i].Data? && before[i].chunk != [] {
          assert before[i] == script[..k][i];
        }
      }
      UndecidedFirst(script, response, k - 1);
      var rest := script[1..];
      var upTo := rest[..k - 1];
      assert StopsAt(rest, acc, out, k - 1) by {
        forall i | 0 <= i < k - 1 ensures upTo[i].Data? && upTo[i].chunk != [] {
          assert upTo[i] == script[..k][i + 1];
        }
      }
      HandshakeDecidesAt(rest, acc, out, k - 1);
    }
  }

  /** A read that fails, or a zero-length read or the end of the script,
      before the head completes ends the handshake with that failure. */
  lemma {:induction false} HandshakeFailsAt(script: seq<ReadResult>, response: seq<byte>, j: nat)
    requires Undecided(script, response, j)
    ensures j == |script| || script[j] == Data([]) ==> Handshake(script, response) == ProxyClosed
    ensures j < |script| && script[j].ReadError? ==> Handshake(script, response) == ReadFailed
    decreases j
  {
    if j > 0 {
      UndecidedFirst(script, response, j);
      HandshakeFailsAt(script[1..], response + script[0].chunk, j - 1);
    }
  }

  /** The read loop of `connect_via_http_proxy`. */
  method ReadProxyResponse(script: seq<ReadResult>) returns (o: HandshakeOutcome)
    requires ReadsFitBuffer(script)
    ensures o == Handshake(script, [])
  {
    var response: seq<byte> := [];
    var i := 0;
    while true
      invariant 0 <= i <= |script|
      invariant Handshake(script[i..], response) == Handshake(script, [])
      decreases |script| - i
    {
      if i == |script| {
        return ProxyClosed;
      }
      assert script[i..][1..] == script[i + 1..];
      match script[i] {
        case ReadError =>
          return ReadFailed;
        case Data(chunk) =>
          if |chunk| == 0 {
            return ProxyClosed;
          }
          response := response + chunk;
          i := i + 1;
          if Contains(response, HeadEnd) {
            break;
          }
      }
    }
    if Contains(response, Ok200) {
      o := Connected(response);
    } else {
      o := Refused(response);
    }
  }
}
