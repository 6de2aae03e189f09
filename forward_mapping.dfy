/**
  The forward-mapping configuration string of both forward relays,
  `local,remote,sni[,proxy1|proxy2|...[,kind]]`.

  The two relays parse it the same way except for how a proxy entry is
  accepted: the libcurl relay (src/forward/forward.rs) keeps an entry, as
  text, when it contains ':'; the TLS relay (src/forward.rs) keeps an entry
  when it parses as a socket address. Socket-address parsing
  (`str::parse::<SocketAddr>`) is a parameter of the model.
 */
module ForwardMapping {
  import opened Wrappers
  import opened Text

  /** `ProxyType`; its `None` case is called NoProxy here. */
  datatype ProxyType = NoProxy | Http | Socks5

  /** `ForwardMapping`, generic in the socket-address type `A` and the type
      `P` of a proxy entry. */
  datatype Mapping<A, P> = Mapping(
    localAddr: A,
    remoteAddr: string,
    sniHost: string,
    proxyAddrs: seq<P>,
    proxyType: ProxyType)

  /** `filter_map(f).collect()`: the results of `f` that are present, in order. */
  function FilterMap<X, Y>(xs: seq<X>, f: X -> Option<Y>): (ys: seq<Y>)
    ensures |ys| <= |xs|
  {
    if xs == [] then []
    else (match f(xs[0]) case Some(y) => [y] case None => []) + FilterMap(xs[1..], f)
  }

  /** FilterMap keeps the order of its input: it distributes over concatenation. */
  lemma {:induction false} FilterMapAppend<X, Y>(a: seq<X>, b: seq<X>, f: X -> Option<Y>)
    ensures FilterMap(a + b, f) == FilterMap(a, f) + FilterMap(b, f)
    decreases |a|
  {
    if a == [] {
      assert a + b == b;
    } else {
      assert (a + b)[0] == a[0];
      assert (a + b)[1..] == a[1..] + b;
      FilterMapAppend(a[1..], b, f);
    }
  }

  /** `y` is kept exactly when some entry maps to it. */
  lemma {:induction false} FilterMapMembers<X, Y>(xs: seq<X>, f: X -> Option<Y>, y: Y)
    ensures y in FilterMap(xs, f) <==> exists i :: 0 <= i < |xs| && f(xs[i]) == Some(y)
    decreases |xs|
  {
    if xs != [] {
      FilterMapMembers(xs[1..], f, y);
      if exists i :: 0 <= i < |xs[1..]| && f(xs[1..][i]) == Some(y) {
        var i :| 0 <= i < |xs[1..]| && f(xs[1..][i]) == Some(y);
        assert f(xs[i + 1]) == Some(y);
      }
      if exists i :: 0 <= i < |xs| && f(xs[i]) == Some(y) {
        var i :| 0 <= i < |xs| && f(xs[i]) == Some(y);
        if i > 0 { assert f(xs[1..][i - 1]) == Some(y); }
      }
    }
  }

  /** Nothing is kept exactly when every entry is rejected. */
  lemma {:induction false} FilterMapEmpty<X, Y>(xs: seq<X>, f: X -> Option<Y>)
    ensures FilterMap(xs, f) == [] <==> forall i :: 0 <= i < |xs| ==> f(xs[i]).None?
    decreases |xs|
  {
    if xs != [] {
      FilterMapEmpty(xs[1..], f);
      assert forall i :: 1 <= i < |xs| ==> xs[i] == xs[1..][i - 1];
    }
  }

  /** The fifth field, matched after `to_lowercase()` against "http" and "socks5". */
  function KindOf(field: string): (k: Option<ProxyType>)
    ensures k.Some? ==> k.value != NoProxy
  {
    var lower := ToLower(field);
    if lower == "http" then Some(Http)
    else if lower == "socks5" then Some(Socks5)
    else None
  }

  /** The kind is case-insensitive. */
  lemma KindIgnoresCase(field: string)
    ensures KindOf(ToLower(field)) == KindOf(field)
  {
    LowerIdempotent(field);
  }

  lemma KindExamples()
    ensures KindOf("HTTP") == Some(Http) && KindOf("Socks5") == Some(Socks5)
    ensures KindOf("SOCKS5") == Some(Socks5) && KindOf("https") == None && KindOf("") == None
  {
    assert ToLower("HTTP") == "http";
    assert ToLower("Socks5") == "socks5";
    assert ToLower("SOCKS5") == "socks5";
    assert ToLower("https") == "https";
  }

  /** The proxy list of a split mapping: the accepted `|`-separated entries of
      the fourth field, or nothing when there are three fields. */
  function ProxyList<P>(parts: seq<string>, proxyEntry: string -> Option<P>): seq<P>
    requires |parts| >= 3
  {
    if |parts| >= 4 then FilterMap(Split(parts[3], '|'), proxyEntry) else []
  }

  /** `parse_forward_mapping` with the proxy-entry check as a parameter. */
  function ParseWith<A, P>(mappingStr: string, parseAddr: string -> Option<A>,
                           proxyEntry: string -> Option<P>): Option<Mapping<A, P>>
  {
    var parts := Split(mappingStr, ',');
    if |parts| < 3 || |parts| > 5 then None
    else match parseAddr(parts[0])
      case None => None
      case Some(local) =>
        var proxies := ProxyList(parts, proxyEntry);
        if |parts| >= 4 && proxies == [] then None
        else
          var kind := if |parts| == 5 then KindOf(parts[4])
                      else if proxies != [] then Some(Http)
                      else Some(NoProxy);
          match kind
          case None => None
          case Some(k) => Some(Mapping(local, parts[1], parts[2], proxies, k))
  }

  /** Some entry of `xs` is accepted by `f`. */
  predicate SomeAccepted<X, Y>(xs: seq<X>, f: X -> Option<Y>) {
    exists i :: 0 <= i < |xs| && f(xs[i]).Some?
  }

  /** When the parse succeeds and when it fails. */
  lemma ParseSucceedsIff<A, P>(s: string, parseAddr: string -> Option<A>, proxyEntry: string -> Option<P>)
    ensures var parts := Split(s, ',');
      ParseWith(s, parseAddr, proxyEntry).Some? <==>
        && 3 <= |parts| <= 5
        && parseAddr(parts[0]).Some?
        && (|parts| >= 4 ==> SomeAccepted(Split(parts[3], '|'), proxyEntry))
        && (|parts| == 5 ==> KindOf(parts[4]).Some?)
  {
    var parts := Split(s, ',');
    if 3 <= |parts| <= 5 && parseAddr(parts[0]).Some? {
      var proxies := ProxyList(parts, proxyEntry);
      if |parts| >= 4 {
        var entries := Split(parts[3], '|');
        assert proxies == FilterMap(entries, proxyEntry);
        FilterMapEmpty(entries, proxyEntry);
        assert proxies != [] <==> SomeAccepted(entries, proxyEntry);
        if proxies != [] {
          if |parts| == 5 {
            assert ParseWith(s, parseAddr, proxyEntry).Some? <==> KindOf(parts[4]).Some?;
          } else {
            assert ParseWith(s, parseAddr, proxyEntry).Some?;
          }
        } else {
          assert ParseWith(s, parseAddr, proxyEntry).None?;
        }
      } else {
        assert ParseWith(s, parseAddr, proxyEntry).Some?;
      }
    }
  }

  /** What a successful parse holds: the local address parsed from field 0,
      fields 1 and 2 verbatim (so neither holds a comma), the accepted proxy
      entries, and the kind: the
      fifth field's when there is one, Http for four fields, NoProxy for three. */
  lemma ParsedFields<A, P>(s: string, parseAddr: string -> Option<A>, proxyEntry: string -> Option<P>)
    requires ParseWith(s, parseAddr, proxyEntry).Some?
    ensures var parts := Split(s, ','); var m := ParseWith(s, parseAddr, proxyEntry).value;
      && 3 <= |parts| <= 5
      && Some(m.localAddr) == parseAddr(parts[0])
      && m.remoteAddr == parts[1] && m.sniHost == parts[2]
      && ',' !in m.remoteAddr && ',' !in m.sniHost
      && m.proxyAddrs == ProxyList(parts, proxyEntry)
      && (|parts| == 3 ==> m.proxyAddrs == [] && m.proxyType == NoProxy)
      && (|parts| == 4 ==> m.proxyAddrs != [] && m.proxyType == Http)
      && (|parts| == 5 ==> m.proxyAddrs != [] && Some(m.proxyType) == KindOf(parts[4]))
  {
    SplitPiecesFree(s, ',');
  }

  /** A parsed mapping names a proxy kind exactly when it lists proxies, so the
      relay's "Proxy addresses not specified" error cannot happen for it. */
  lemma {:induction false} ProxyKindMatchesList<A, P>(s: string, parseAddr: string -> Option<A>,
                                                      proxyEntry: string -> Option<P>)
    requires ParseWith(s, parseAddr, proxyEntry).Some?
    ensures var m := ParseWith(s, parseAddr, proxyEntry).value;
      m.proxyType == NoProxy <==> m.proxyAddrs == []
  {
    ParsedFields(s, parseAddr, proxyEntry);
  }

  /** src/forward/forward.rs: a proxy entry is kept, as text, when it contains ':'. */
  function ColonEntry(entry: string): (r: Option<string>)
    ensures r.Some? <==> ':' in entry
    ensures r.Some? ==> r.value == entry
  {
    if ':' in entry then Some(entry) else None
  }

  /** `parse_forward_mapping` of the libcurl relay. */
  function ParseCurlMapping<A>(s: string, parseAddr: string -> Option<A>): (r: Option<Mapping<A, string>>)
    ensures r.Some? ==> forall e :: e in r.value.proxyAddrs ==> ':' in e
    ensures r.Some? ==> (r.value.proxyType == NoProxy <==> r.value.proxyAddrs == [])
    ensures |Split(s, ',')| < 3 || |Split(s, ',')| > 5 ==> r.None?
  {
    ColonEntriesKept(s, parseAddr);
    ParseWith(s, parseAddr, ColonEntry)
  }

  lemma ColonEntriesKept<A>(s: string, parseAddr: string -> Option<A>)
    ensures var r := ParseWith(s, parseAddr, ColonEntry);
      r.Some? ==> forall e :: e in r.value.proxyAddrs ==> ':' in e
    ensures var r := ParseWith(s, parseAddr, ColonEntry);
      r.Some? ==> (r.value.proxyType == NoProxy <==> r.value.proxyAddrs == [])
  {
    var r := ParseWith(s, parseAddr, ColonEntry);
    if r.Some? {
      ProxyKindMatchesList(s, parseAddr, ColonEntry);
      ParsedFields(s, parseAddr, ColonEntry);
      var parts := Split(s, ',');
      if |parts| >= 4 {
        forall e | e in r.value.proxyAddrs ensures ':' in e {
          FilterMapMembers(Split(parts[3], '|'), ColonEntry, e);
        }
      }
    }
  }

  /** In the libcurl relay the proxy list is exactly the entries of field 3
      that contain ':', each as written, in their original order. */
  lemma CurlProxyEntries<A>(s: string, parseAddr: string -> Option<A>, e: string)
    requires ParseCurlMapping(s, parseAddr).Some? && |Split(s, ',')| >= 4
    ensures var entries := Split(Split(s, ',')[3], '|');
      && ParseCurlMapping(s, parseAddr).value.proxyAddrs == FilterMap(entries, ColonEntry)
      && (e in ParseCurlMapping(s, parseAddr).value.proxyAddrs <==> e in entries && ':' in e)
  {
    var entries := Split(Split(s, ',')[3], '|');
    ParsedFields(s, parseAddr, ColonEntry);
    FilterMapMembers(entries, ColonEntry, e);
    if e in entries && ':' in e {
      var i :| 0 <= i < |entries| && entries[i] == e;
      assert ColonEntry(entries[i]) == Some(e);
    }
  }

  /** `parse_forward_mapping` of the TLS relay: proxies are socket addresses. */
  function ParseTunnelMapping<A>(s: string, parseAddr: string -> Option<A>): (r: Option<Mapping<A, A>>)
    ensures r.Some? ==> parseAddr(Split(s, ',')[0]) == Some(r.value.localAddr)
    ensures r.Some? && |Split(s, ',')| == 3 ==> r.value.proxyAddrs == []
    ensures r.Some? && |Split(s, ',')| >= 4 ==> forall p :: p in r.value.proxyAddrs ==>
      exists e :: e in Split(Split(s, ',')[3], '|') && parseAddr(e) == Some(p)
    ensures r.Some? ==> (r.value.proxyType == NoProxy <==> r.value.proxyAddrs == [])
  {
    ParsedEntriesKept(s, parseAddr);
    ParseWith(s, parseAddr, parseAddr)
  }

  lemma ParsedEntriesKept<A>(s: string, parseAddr: string -> Option<A>)
    ensures var r := ParseWith(s, parseAddr, parseAddr);
      r.Some? ==> parseAddr(Split(s, ',')[0]) == Some(r.value.localAddr)
    ensures var r := ParseWith(s, parseAddr, parseAddr);
      r.Some? && |Split(s, ',')| == 3 ==> r.value.proxyAddrs == []
    ensures var r := ParseWith(s, parseAddr, parseAddr);
      r.Some? && |Split(s, ',')| >= 4 ==> forall p :: p in r.value.proxyAddrs ==>
        exists e :: e in Split(Split(s, ',')[3], '|') && parseAddr(e) == Some(p)
    ensures var r := ParseWith(s, parseAddr, parseAddr);
      r.Some? ==> (r.value.proxyType == NoProxy <==> r.value.proxyAddrs == [])
  {
    var r := ParseWith(s, parseAddr, parseAddr);
    if r.Some? {
      ProxyKindMatchesList(s, parseAddr, parseAddr);
      ParsedFields(s, parseAddr, parseAddr);
      var parts := Split(s, ',');
      if |parts| >= 4 {
        forall p | p in r.value.proxyAddrs
          ensures exists e :: e in Split(parts[3], '|') && parseAddr(e) == Some(p)
        {
          var entries := Split(parts[3], '|');
          FilterMapMembers(entries, parseAddr, p);
          var i :| 0 <= i < |entries| && parseAddr(entries[i]) == Some(p);
          assert entries[i] in entries;
        }
      }
    }
  }

  /** Three fields: no proxies and kind NoProxy, in both relays. */
  lemma {:induction false} ThreeFields<A>(local: string, remote: string, sni: string, parseAddr: string -> Option<A>)
    requires ',' !in local && ',' !in remote && ',' !in sni
    requires parseAddr(local).Some?
    ensures var s := local + [','] + remote + [','] + sni;
      && ParseTunnelMapping(s, parseAddr) == Some(Mapping(parseAddr(local).value, remote, sni, [], NoProxy))
      && ParseCurlMapping(s, parseAddr) == Some(Mapping(parseAddr(local).value, remote, sni, [], NoProxy))
  {
    JoinThree(local, remote, sni, ',');
    SplitJoin([local, remote, sni], ',');
  }

  /** Four fields in the libcurl relay: every entry containing ':' is kept and
      the kind defaults to Http. */
  lemma {:induction false} FourFields<A>(local: string, remote: string, sni: string, proxies: seq<string>,
                                         parseAddr: string -> Option<A>)
    requires ',' !in local && ',' !in remote && ',' !in sni
    requires |proxies| >= 1
    requires forall i :: 0 <= i < |proxies| ==> ',' !in proxies[i] && '|' !in proxies[i] && ':' in proxies[i]
    requires parseAddr(local).Some?
    ensures var s := local + [','] + remote + [','] + sni + [','] + Join(proxies, '|');
      ParseCurlMapping(s, parseAddr) == Some(Mapping(parseAddr(local).value, remote, sni, proxies, Http))
  {
    var field := Join(proxies, '|');
    JoinNoSep(proxies, '|', ',');
    JoinFour(local, remote, sni, field, ',');
    SplitJoin([local, remote, sni, field], ',');
    SplitJoin(proxies, '|');
    ColonEntriesAll(proxies);
  }

  /** A string without enough fields is rejected. */
  lemma TooFewFieldsExample<A>(parseAddr: string -> Option<A>)
    ensures ParseCurlMapping("bad", parseAddr) == None
    ensures ParseTunnelMapping("bad", parseAddr) == None
  {
    SplitJoin(["bad"], ',');
  }

  lemma {:induction false} ColonEntriesAll(xs: seq<string>)
    requires forall i :: 0 <= i < |xs| ==> ':' in xs[i]
    ensures FilterMap(xs, ColonEntry) == xs
    decreases |xs|
  {
    if xs != [] {
      ColonEntriesAll(xs[1..]);
      assert xs == [xs[0]] + xs[1..];
    }
  }

  lemma {:induction false} JoinNoSep<T>(parts: seq<seq<T>>, sep: T, other: T)
    requires |parts| >= 1 && sep != other
    requires forall i :: 0 <= i < |parts| ==> other !in parts[i]
    ensures other !in Join(parts, sep)
    decreases |parts|
  {
    if |parts| > 1 {
      JoinNoSep(parts[1..], sep, other);
    }
  }

  lemma JoinThree<T>(a: seq<T>, b: seq<T>, c: seq<T>, sep: T)
    ensures Join([a, b, c], sep) == a + [sep] + b + [sep] + c
  {
    calc {
      Join([a, b, c], sep);
      a + [sep] + Join([a, b, c][1..], sep);
      { assert [a, b, c][1..] == [b, c]; }
      a + [sep] + Join([b, c], sep);
      { assert [b, c][1..] == [c]; }
      a + [sep] + (b + [sep] + c);
    }
  }

  lemma JoinFour<T>(a: seq<T>, b: seq<T>, c: seq<T>, d: seq<T>, sep: T)
    ensures Join([a, b, c, d], sep) == a + [sep] + b + [sep] + c + [sep] + d
  {
    calc {
      Join([a, b, c, d], sep);
      a + [sep] + Join([a, b, c, d][1..], sep);
      { assert [a, b, c, d][1..] == [b, c, d]; JoinThree(b, c, d, sep); }
      a + [sep] + (b + [sep] + c + [sep] + d);
    }
  }
}
