/** Which address a request is attributed to: the peer's, unless the peer is a
    trusted proxy that forwards another one. */
module Forwarded {
  import opened Feed
  import opened Sanitiser

  /** The bits of an address. */
  type Address = nat

  /** The configuration, with the library's address parser and text trimming. */
  datatype Extractor = Extractor(
    trustProxy: bool,
    trustedCidrs: seq<Address -> bool>,
    parse: string -> Option<Address>,
    trim: string -> string)

  predicate Trusted(x: Extractor, a: Address) {
    exists k :: 0 <= k < |x.trustedCidrs| && x.trustedCidrs[k](a)
  }

  /** The address of one element of the forwarded list, if it is one. */
  function AddressOf(x: Extractor, part: string): Option<Address> {
    x.parse(x.trim(part))
  }

  predicate Untrusted(x: Extractor, part: string) {
    AddressOf(x, part).Some? && !Trusted(x, AddressOf(x, part).value)
  }

  predicate AnyUntrusted(x: Extractor, parts: seq<string>) {
    exists k :: 0 <= k < |parts| && Untrusted(x, parts[k])
  }

  /** What the list says: its rightmost untrusted address, or if there is none its
      leftmost address. */
  function Chosen(x: Extractor, parts: seq<string>): Option<Address> {
    if AnyUntrusted(x, parts) then Rightmost(x, parts) else Leftmost(x, parts)
  }

  function Rightmost(x: Extractor, parts: seq<string>): (a: Option<Address>)
    ensures a.Some? <==> AnyUntrusted(x, parts)
    ensures a.Some? ==> exists k :: 0 <= k < |parts| && Untrusted(x, parts[k]) && AddressOf(x, parts[k]) == a
                                 && forall j :: k < j < |parts| ==> !Untrusted(x, parts[j])
  {
    if parts == [] then None else
    var n := |parts| - 1;
    assert forall k :: 0 <= k < n ==> parts[..n][k] == parts[k];
    if Untrusted(x, parts[n]) then AddressOf(x, parts[n]) else Rightmost(x, parts[..n])
  }

  function Leftmost(x: Extractor, parts: seq<string>): (a: Option<Address>)
    ensures a.None? <==> forall k :: 0 <= k < |parts| ==> AddressOf(x, parts[k]).None?
    ensures a.Some? ==> exists k :: 0 <= k < |parts| && AddressOf(x, parts[k]) == a
                                 && forall j :: 0 <= j < k ==> AddressOf(x, parts[j]).None?
  {
    if parts == [] then None
    else if AddressOf(x, parts[0]).Some? then AddressOf(x, parts[0])
    else
      assert forall k :: 0 <= k < |parts| - 1 ==> parts[1..][k] == parts[k + 1];
      var rest := Leftmost(x, parts[1..]);
      assert rest.Some? ==> exists k :: 0 < k < |parts| && AddressOf(x, parts[k]) == rest
                                     && forall j :: 0 <= j < k ==> AddressOf(x, parts[j]).None? by {
        if rest.Some? {
          var k :| 0 <= k < |parts[1..]| && AddressOf(x, parts[1..][k]) == rest
                && forall j :: 0 <= j < k ==> AddressOf(x, parts[1..][j]).None?;
          assert AddressOf(x, parts[k + 1]) == rest;
          assert forall j :: 0 < j < k + 1 ==> parts[j] == parts[1..][j - 1];
        }
      }
      rest
  }

  lemma {:induction false} RightmostAfter(x: Extractor, parts: seq<string>, i: nat)
    requires i < |parts| && Untrusted(x, parts[i]) && forall j :: i < j < |parts| ==> !Untrusted(x, parts[j])
    ensures Chosen(x, parts) == AddressOf(x, parts[i])
  {
  }

  lemma {:induction false} LeftmostAt(x: Extractor, parts: seq<string>, i: nat)
    requires i < |parts| && AddressOf(x, parts[i]).Some? && forall j :: 0 <= j < i ==> AddressOf(x, parts[j]).None?
    requires !AnyUntrusted(x, parts)
    ensures Chosen(x, parts) == AddressOf(x, parts[i])
  {
  }

  /** The scan from the right, with its early exit. Without an untrusted address it
      ends up with the last one seen, which is the leftmost. */
  method Scan(x: Extractor, parts: seq<string>) returns (found: Option<Address>)
    ensures found == Chosen(x, parts)
  {
    found := None;
    var i := |parts|;
    ghost var at := |parts|;
    while i > 0
      invariant 0 <= i <= |parts|
      invariant forall j :: i <= j < |parts| ==> !Untrusted(x, parts[j])
      invariant found.None? ==> forall j :: i <= j < |parts| ==> AddressOf(x, parts[j]).None?
      invariant found.Some? ==> i <= at < |parts| && AddressOf(x, parts[at]) == found
      invariant forall j :: i <= j < at && j < |parts| ==> AddressOf(x, parts[j]).None?
    {
      i := i - 1;
      var ip := AddressOf(x, parts[i]);
      if ip.Some? {
        if !Trusted(x, ip.value) {
          RightmostAfter(x, parts, i);
          return ip;
        }
        found, at := ip, i;
      }
    }
    if found.Some? {
      LeftmostAt(x, parts, at);
    }
  }

  /** The whole decision. A header that is no text counts as absent. */
  function Attributed(x: Extractor, peer: Option<Address>, forwarded: Option<string>, realIp: Option<string>, localhost: Address): Address {
    var peerIp := if peer.Some? then peer.value else localhost;
    var chosen := if forwarded.Some? then Chosen(x, Split(forwarded.value)) else None;
    var fallback := if realIp.Some? then x.parse(realIp.value) else None;
    if !x.trustProxy || !Trusted(x, peerIp) then peerIp
    else if chosen.Some? then chosen.value
    else if fallback.Some? then fallback.value
    else peerIp
  }

  /** Whether forwarded headers are looked at. */
  predicate Heeds(x: Extractor, peer: Option<Address>, localhost: Address) {
    x.trustProxy && Trusted(x, if peer.Some? then peer.value else localhost)
  }

  function PartsOf(forwarded: Option<string>): seq<string> {
    if forwarded.Some? then Split(forwarded.value) else []
  }

  predicate AnyAddress(x: Extractor, parts: seq<string>) {
    exists k :: 0 <= k < |parts| && AddressOf(x, parts[k]).Some?
  }

  /** `ip` is the last untrusted address of the list. */
  predicate LastUntrusted(x: Extractor, parts: seq<string>, ip: Address) {
    exists k :: 0 <= k < |parts| && Untrusted(x, parts[k]) && AddressOf(x, parts[k]) == Some(ip)
             && forall j :: k < j < |parts| ==> !Untrusted(x, parts[j])
  }

  /** `ip` is the first address of the list. */
  predicate FirstAddress(x: Extractor, parts: seq<string>, ip: Address) {
    exists k :: 0 <= k < |parts| && AddressOf(x, parts[k]) == Some(ip)
             && forall j :: 0 <= j < k ==> AddressOf(x, parts[j]).None?
  }

  lemma {:induction false} ChosenReads(x: Extractor, parts: seq<string>)
    ensures AnyUntrusted(x, parts) ==> Chosen(x, parts).Some? && LastUntrusted(x, parts, Chosen(x, parts).value)
    ensures !AnyUntrusted(x, parts) && AnyAddress(x, parts) ==>
              Chosen(x, parts).Some? && FirstAddress(x, parts, Chosen(x, parts).value) && Trusted(x, Chosen(x, parts).value)
    ensures Chosen(x, parts).None? <==> !AnyAddress(x, parts)
  {
    if AnyUntrusted(x, parts) {
      var k :| 0 <= k < |parts| && Untrusted(x, parts[k]);
    }
  }

  /** An address that has no trusted proxy behind it stands for itself, whatever the
      headers say. Behind a trusted peer the last untrusted forwarded address is
      taken, then the first forwarded address, and only if none of the list is an
      address the real-ip header, and at last the peer. */
  method Extract(x: Extractor, peer: Option<Address>, forwarded: Option<string>, realIp: Option<string>, localhost: Address)
    returns (ip: Address)
    ensures ip == Attributed(x, peer, forwarded, realIp, localhost)
    ensures !Heeds(x, peer, localhost) ==> ip == if peer.Some? then peer.value else localhost
    ensures Heeds(x, peer, localhost) && AnyUntrusted(x, PartsOf(forwarded)) ==>
              !Trusted(x, ip) && LastUntrusted(x, PartsOf(forwarded), ip)
    ensures Heeds(x, peer, localhost) && !AnyUntrusted(x, PartsOf(forwarded)) && AnyAddress(x, PartsOf(forwarded)) ==>
              Trusted(x, ip) && FirstAddress(x, PartsOf(forwarded), ip)
    ensures Heeds(x, peer, localhost) && !AnyAddress(x, PartsOf(forwarded)) ==>
              ip == if realIp.Some? && x.parse(realIp.value).Some? then x.parse(realIp.value).value
                    else if peer.Some? then peer.value else localhost
  {
    var peerIp := if peer.Some? then peer.value else localhost;
    ChosenReads(x, PartsOf(forwarded));
    if !x.trustProxy {
      return peerIp;
    }
    if !Trusted(x, peerIp) {
      return peerIp;
    }
    if forwarded.Some? {
      var rightmostUntrusted := Scan(x, Split(forwarded.value));
      if rightmostUntrusted.Some? {
        return rightmostUntrusted.value;
      }
    }
    if realIp.Some? {
      var ip := x.parse(realIp.value);
      if ip.Some? {
        return ip.value;
      }
    }
    return peerIp;
  }

  /** No network is trusted that holds the address. */
  predicate Foreign(x: Extractor, a: Address) {
    forall m :: 0 <= m < |x.trustedCidrs| ==> !x.trustedCidrs[m](a)
  }

  /** Without trust in proxies, or with a peer in none of the trusted networks, the
      peer it is. */
  lemma {:induction false} PeerDecides(x: Extractor, peer: Address, forwarded: Option<string>, realIp: Option<string>, localhost: Address)
    requires !x.trustProxy || Foreign(x, peer)
    ensures Attributed(x, Some(peer), forwarded, realIp, localhost) == peer
    ensures Attributed(x.(trustProxy := false), None, forwarded, realIp, localhost) == localhost
  {
  }

  /** Behind a peer in any trusted network: the element, trimmed and parsed, that is in
      none of them, when all after it are no addresses or are in one of them; or else the
      first that is an address. */
  lemma {:induction false} HeaderDecides(x: Extractor, m: nat, peer: Address, header: string, i: nat, a: Address,
                                         realIp: Option<string>, localhost: Address)
    requires x.trustProxy && m < |x.trustedCidrs| && x.trustedCidrs[m](peer)
    requires i < |Split(header)| && x.parse(x.trim(Split(header)[i])) == Some(a)
    requires
      || (Foreign(x, a) && forall j :: i < j < |Split(header)| ==>
            x.parse(x.trim(Split(header)[j])).Some? ==> !Foreign(x, x.parse(x.trim(Split(header)[j])).value))
      || ((forall j :: 0 <= j < |Split(header)| ==>
             x.parse(x.trim(Split(header)[j])).Some? ==> !Foreign(x, x.parse(x.trim(Split(header)[j])).value))
          && forall j :: 0 <= j < i ==> x.parse(x.trim(Split(header)[j])).None?)
    ensures Attributed(x, Some(peer), Some(header), realIp, localhost) == a
  {
    var parts := Split(header);
    assert forall b :: Trusted(x, b) <==> !Foreign(x, b);
    if Untrusted(x, parts[i]) {
      RightmostAfter(x, parts, i);
    } else {
      LeftmostAt(x, parts, i);
    }
  }

  /** Behind such a peer, without any forwarded address, the real-ip header untrimmed,
      and at last the peer. */
  lemma {:induction false} RealIpDecides(x: Extractor, m: nat, peer: Address, forwarded: Option<string>, realIp: Option<string>, localhost: Address)
    requires x.trustProxy && m < |x.trustedCidrs| && x.trustedCidrs[m](peer)
    requires forwarded.Some? ==> forall j :: 0 <= j < |Split(forwarded.value)| ==> x.parse(x.trim(Split(forwarded.value)[j])).None?
    ensures Attributed(x, Some(peer), forwarded, realIp, localhost)
         == if realIp.Some? && x.parse(realIp.value).Some? then x.parse(realIp.value).value else peer
  {
    ChosenReads(x, PartsOf(forwarded));
  }

  /** The real-ip header has a say exactly when headers are heeded and no element of
      the forwarded list is an address, as long as some text is a foreign address. */
  lemma {:induction false} RealIpIsLast(x: Extractor, peer: Option<Address>, forwarded: Option<string>, localhost: Address, other: string)
    requires x.parse(other).Some? && x.parse(other).value != if peer.Some? then peer.value else localhost
    ensures (exists a, b :: Attributed(x, peer, forwarded, a, localhost) != Attributed(x, peer, forwarded, b, localhost))
       <==> Heeds(x, peer, localhost) && !AnyAddress(x, PartsOf(forwarded))
  {
    ChosenReads(x, PartsOf(forwarded));
    if Heeds(x, peer, localhost) && !AnyAddress(x, PartsOf(forwarded)) {
      assert Attributed(x, peer, forwarded, Some(other), localhost) != Attributed(x, peer, forwarded, None, localhost);
    }
  }

  // ------------------------------------------------------------ forged prefixes

  lemma {:induction false} ChosenAfter(x: Extractor, a: seq<string>, b: seq<string>)
    requires AnyUntrusted(x, b)
    ensures Chosen(x, a + b) == Chosen(x, b)
  {
    var k :| 0 <= k < |b| && Untrusted(x, b[k]) && AddressOf(x, b[k]) == Rightmost(x, b)
          && forall j :: k < j < |b| ==> !Untrusted(x, b[j]);
    var all := a + b;
    assert all[|a| + k] == b[k];
    forall j | |a| + k < j < |all|
      ensures !Untrusted(x, all[j])
    {
      assert all[j] == b[j - |a|];
    }
    RightmostAfter(x, all, |a| + k);
  }

  lemma {:induction false} ChosenBefore(x: Extractor, part: string, b: seq<string>)
    requires AddressOf(x, part).Some? && !AnyUntrusted(x, b)
    ensures Chosen(x, [part] + b) == AddressOf(x, part)
  {
    var all := [part] + b;
    assert all[0] == part;
    assert forall j :: 0 < j < |all| ==> all[j] == b[j - 1];
    if Untrusted(x, part) {
      RightmostAfter(x, all, 0);
    } else {
      LeftmostAt(x, all, 0);
    }
  }

  /** The elements that a client can put in front, as one text. */
  function Prefixed(prefix: string, header: string): string {
    prefix + "," + header
  }

  /** No prefix has any effect exactly when the list already holds an untrusted
      address, as long as some other address could be written in front. */
  lemma {:induction false} PrefixIsPowerless(x: Extractor, peer: Address, header: string, realIp: Option<string>, localhost: Address, other: string)
    requires x.trustProxy && Trusted(x, peer)
    requires ',' !in other && AddressOf(x, other).Some?
    requires AddressOf(x, other) != Some(Attributed(x, Some(peer), Some(header), realIp, localhost))
    ensures (forall prefix: string :: Attributed(x, Some(peer), Some(Prefixed(prefix, header)), realIp, localhost)
                           == Attributed(x, Some(peer), Some(header), realIp, localhost))
       <==> AnyUntrusted(x, Split(header))
  {
    if AnyUntrusted(x, Split(header)) {
      forall prefix: string
        ensures Attributed(x, Some(peer), Some(Prefixed(prefix, header)), realIp, localhost)
             == Attributed(x, Some(peer), Some(header), realIp, localhost)
      {
        SplitJoin(prefix, header);
        ChosenAfter(x, Split(prefix), Split(header));
      }
    } else {
      SplitJoin(other, header);
      SplitWhole(other);
      ChosenBefore(x, other, Split(header));
      assert Attributed(x, Some(peer), Some(Prefixed(other, header)), realIp, localhost) == AddressOf(x, other).value;
    }
  }
}
