/** Socket addresses, IPv4-mapped canonicalisation and the overlap test for listening sockets
    (src/config.rs). */
module Address {
  import opened Bytes

  type u16 = x: int | 0 <= x < 0x1_0000
  type u32 = x: int | 0 <= x < 0x1_0000_0000
  type u128 = x: int | 0 <= x < 0x1_0000_0000_0000_0000_0000_0000_0000_0000

  datatype Ip = V4(bits4: u32) | V6(bits6: u128)

  datatype Bind = Bind(ip: Ip, port: u16)

  /** ::ffff:a.b.c.d, the IPv4-mapped block of IPv6. */
  predicate Mapped(ip: Ip) {
    ip.V6? && ip.bits6 / 0x1_0000_0000 == 0xFFFF
  }

  function Canonical(ip: Ip): Ip {
    if Mapped(ip) then V4(ip.bits6 % 0x1_0000_0000) else ip
  }

  predicate Unspecified(ip: Ip) {
    ip == V4(0) || ip == V6(0)
  }

  /** Two spellings share a canonical form exactly when they are equal or one is the mapped
      spelling of the other; canonical forms are never mapped. */
  lemma CanonicalIdentifiesMapped(a: Ip, b: Ip)
    ensures !Mapped(Canonical(a)) && Canonical(Canonical(a)) == Canonical(a)
    ensures Canonical(a) == Canonical(b) <==>
            a == b
            || (a.V4? && b == V6(0xFFFF * 0x1_0000_0000 + a.bits4))
            || (b.V4? && a == V6(0xFFFF * 0x1_0000_0000 + b.bits4))
  {
    assert forall x: Ip | Mapped(x) :: x.bits6 == 0xFFFF * 0x1_0000_0000 + x.bits6 % 0x1_0000_0000;
  }

  predicate BindsConflict(a: Bind, b: Bind) {
    if a.port == 0 || b.port == 0 || a.port != b.port then false
    else
      var x, y := Canonical(a.ip), Canonical(b.ip);
      if x == y then true
      else if x.V4? == y.V4? then Unspecified(x) || Unspecified(y)
      else x == V6(0) || y == V6(0)
  }

  /** The destination addresses (in canonical form) a socket bound to ip receives under the
      cross-platform policy: 0.0.0.0 takes all of IPv4, :: takes both families, and any other
      address takes itself. */
  predicate Receives(ip: Ip, dst: Ip) {
    var c := Canonical(ip);
    !Mapped(dst) && (c == V6(0) || (c == V4(0) && dst.V4?) || dst == c)
  }

  ghost predicate Overlap(a: Bind, b: Bind) {
    a.port == b.port && a.port != 0 && exists dst :: Receives(a.ip, dst) && Receives(b.ip, dst)
  }

  /** The bind test is exact with respect to the sets of addresses received, and symmetric. */
  lemma BindsConflictIsExact(a: Bind, b: Bind)
    ensures BindsConflict(a, b) <==> Overlap(a, b)
    ensures BindsConflict(a, b) == BindsConflict(b, a)
  {
    var x, y := Canonical(a.ip), Canonical(b.ip);
    CanonicalIdentifiesMapped(a.ip, b.ip);
    CanonicalIdentifiesMapped(b.ip, a.ip);
    if BindsConflict(a, b) {
      var dst := if x == V6(0) || (x == V4(0) && y.V4?) then y else x;
      assert Receives(a.ip, dst) && Receives(b.ip, dst);
    }
  }

  ghost predicate PairwiseDisjoint(endpoints: seq<Bind>, metrics: Option<Bind>) {
    && (forall i, j | 0 <= i < j < |endpoints| :: !Overlap(endpoints[i], endpoints[j]))
    && (metrics.Some? ==> forall i | 0 <= i < |endpoints| :: !Overlap(endpoints[i], metrics.value))
  }

  /** The bind checks of Config::validate: every endpoint against every earlier one and against
      the management bind when it is enabled. */
  method ValidateBinds(endpoints: seq<Bind>, metrics: Option<Bind>) returns (ok: bool)
    ensures ok <==> PairwiseDisjoint(endpoints, metrics)
  {
    for index := 0 to |endpoints|
      invariant PairwiseDisjoint(endpoints[..index], metrics)
    {
      var ep := endpoints[index];
      for p := 0 to index
        invariant forall i | 0 <= i < p :: !Overlap(endpoints[i], ep)
      {
        BindsConflictIsExact(ep, endpoints[p]);
        BindsConflictIsExact(endpoints[p], ep);
        if BindsConflict(ep, endpoints[p]) {
          return false;
        }
      }
      if metrics.Some? {
        BindsConflictIsExact(ep, metrics.value);
        if BindsConflict(ep, metrics.value) {
          return false;
        }
      }
    }
    assert endpoints[..|endpoints|] == endpoints;
    return true;
  }
}
