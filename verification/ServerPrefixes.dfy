/**
 * The server statements of a configuration: prefixes, kept in a list by falling length. The first one that covers an
 * address is the one longest prefix that covers it.
 */
module ServerPrefixes {
  import opened Records

  datatype Family = Inet | Inet6

  function Bits(f: Family): nat {
    if f == Inet then 32 else 128
  }

  /** A statement: its prefix, in 16 octets of which IPv4 uses the first four, and its options. */
  datatype Server = Server(family: Family, plen: nat, addr: seq<bv8>, options: nat)

  // ---- bits ----

  predicate OctetBit(x: bv8, k: nat)
    requires k < 8
  {
    x & (0x80 >> k) != 0
  }

  predicate Bit(addr: seq<bv8>, b: nat)
    requires b < 8 * |addr|
  {
    OctetBit(addr[b / 8], b % 8)
  }

  ghost predicate SameOctetBits(x: bv8, y: bv8, n: nat)
    requires n <= 8
  {
    forall k :: 0 <= k < n ==> OctetBit(x, k) == OctetBit(y, k)
  }

  lemma {:induction false} EachBit(x: bv8)
    ensures OctetBit(x, 0) == (x & 0x80 != 0) && OctetBit(x, 1) == (x & 0x40 != 0)
    ensures OctetBit(x, 2) == (x & 0x20 != 0) && OctetBit(x, 3) == (x & 0x10 != 0)
    ensures OctetBit(x, 4) == (x & 0x08 != 0) && OctetBit(x, 5) == (x & 0x04 != 0)
    ensures OctetBit(x, 6) == (x & 0x02 != 0) && OctetBit(x, 7) == (x & 0x01 != 0)
  {
  }

  lemma {:induction false} FirstBits(x: bv8, y: bv8, n: nat)
    requires n <= 8
    ensures SameOctetBits(x, y, n) <==>
      && (n > 0 ==> (x & 0x80 != 0) == (y & 0x80 != 0)) && (n > 1 ==> (x & 0x40 != 0) == (y & 0x40 != 0))
      && (n > 2 ==> (x & 0x20 != 0) == (y & 0x20 != 0)) && (n > 3 ==> (x & 0x10 != 0) == (y & 0x10 != 0))
      && (n > 4 ==> (x & 0x08 != 0) == (y & 0x08 != 0)) && (n > 5 ==> (x & 0x04 != 0) == (y & 0x04 != 0))
      && (n > 6 ==> (x & 0x02 != 0) == (y & 0x02 != 0)) && (n > 7 ==> (x & 0x01 != 0) == (y & 0x01 != 0))
  {
    EachBit(x);
    EachBit(y);
  }

  /** An octet is its bits. */
  lemma {:induction false} OctetIsItsBits(x: bv8, y: bv8)
    ensures SameOctetBits(x, y, 8) <==> x == y
  {
    FirstBits(x, y, 8);
  }

  /** The masked comparison compares the first bits. */
  lemma {:induction false} MaskIsFirstBits(x: bv8, y: bv8, rest: nat)
    requires 0 < rest < 8
    ensures (x ^ y) & (0xFF << (8 - rest)) == 0 <==> SameOctetBits(x, y, rest)
  {
    FirstBits(x, y, rest);
    match rest
    case 1 => assert 0xFF as bv8 << 7 == 0x80;
    case 2 => assert 0xFF as bv8 << 6 == 0xC0;
    case 3 => assert 0xFF as bv8 << 5 == 0xE0;
    case 4 => assert 0xFF as bv8 << 4 == 0xF0;
    case 5 => assert 0xFF as bv8 << 3 == 0xF8;
    case 6 => assert 0xFF as bv8 << 2 == 0xFC;
    case _ => assert 0xFF as bv8 << 1 == 0xFE;
  }

  /** The first n bits of two addresses are the same. */
  ghost predicate SameBits(a: seq<bv8>, b: seq<bv8>, n: nat)
    requires n <= 8 * |a| && n <= 8 * |b|
  {
    forall k :: 0 <= k < n ==> Bit(a, k) == Bit(b, k)
  }

  lemma {:induction false} SameBitsByOctets(a: seq<bv8>, b: seq<bv8>, n: nat)
    requires n <= 8 * |a| && n <= 8 * |b|
    ensures SameBits(a, b, n) <==> a[..n / 8] == b[..n / 8] && (n % 8 > 0 ==> SameOctetBits(a[n / 8], b[n / 8], n % 8))
  {
    if SameBits(a, b, n) {
      forall i | 0 <= i < n / 8 ensures a[i] == b[i] {
        forall k | 0 <= k < 8 ensures OctetBit(a[i], k) == OctetBit(b[i], k) { OneBit(a, b, n, i, k); }
        OctetIsItsBits(a[i], b[i]);
      }
      assert a[..n / 8] == b[..n / 8];
      if n % 8 > 0 {
        forall k | 0 <= k < n % 8 ensures OctetBit(a[n / 8], k) == OctetBit(b[n / 8], k) { OneBit(a, b, n, n / 8, k); }
      }
    }
    if a[..n / 8] == b[..n / 8] && (n % 8 > 0 ==> SameOctetBits(a[n / 8], b[n / 8], n % 8)) {
      forall k | 0 <= k < n ensures Bit(a, k) == Bit(b, k) {
        if k / 8 < n / 8 { assert a[k / 8] == a[..n / 8][k / 8] == b[..n / 8][k / 8] == b[k / 8]; }
      }
    }
  }

  lemma {:induction false} OneBit(a: seq<bv8>, b: seq<bv8>, n: nat, i: nat, k: nat)
    requires n <= 8 * |a| && n <= 8 * |b| && SameBits(a, b, n) && k < 8 && 8 * i + k < n
    ensures OctetBit(a[i], k) == OctetBit(b[i], k)
  {
    assert (8 * i + k) / 8 == i && (8 * i + k) % 8 == k;
    assert Bit(a, 8 * i + k) == Bit(b, 8 * i + k);
  }

  // ---- prefixes ----

  /** No bit after the prefix is set. */
  ghost predicate ZeroPadded(s: Server) {
    && |s.addr| == 16 && s.plen <= Bits(s.family)
    && (forall b :: s.plen <= b < Bits(s.family) ==> !Bit(s.addr, b))
    && (s.family == Inet ==> forall i :: 4 <= i < 16 ==> s.addr[i] == 0)
  }

  /** The last checks of server_prefix_parse(); without a length, the prefix is the address. */
  method CheckPrefix(family: Family, addr: seq<bv8>, plen: Option<nat>, options: nat) returns (s: Option<Server>)
    requires |addr| == Bits(family) / 8
    ensures s.Some? ==> ZeroPadded(s.value) && s.value.family == family && s.value.addr[..|addr|] == addr
    ensures s.Some? ==> s.value.plen == (if plen.None? then Bits(family) else plen.value) && s.value.options == options
    ensures s.None? <==> plen.Some? && (plen.value > Bits(family) || exists b :: plen.value <= b < Bits(family) && Bit(addr, b))
  {
    var max := Bits(family);
    var len := if plen.None? then max else plen.value;
    if len > max { return None; }
    var padded := addr + seq(16 - |addr|, _ => 0 as bv8);
    assert padded[..|addr|] == addr;
    var b := len;
    while b < max
      invariant len <= b <= max && forall k :: len <= k < b ==> !Bit(padded, k)
    {
      assert padded[b / 8] == addr[b / 8];
      if Bit(padded, b) {
        assert Bit(addr, b);
        return None;
      }
      b := b + 1;
    }
    forall k | len <= k < max ensures Bit(addr, k) == Bit(padded, k) { assert padded[k / 8] == addr[k / 8]; }
    return Some(Server(family, len, padded, options));
  }

  /** What covering means: the same family, and the bits of the prefix. */
  ghost predicate Covers(s: Server, family: Family, addr: seq<bv8>) {
    && s.family == family && s.plen <= 8 * |addr| && s.plen <= 8 * |s.addr| && SameBits(s.addr, addr, s.plen)
  }

  /** server_prefix_covers() */
  method PrefixCovers(s: Server, family: Family, addr: seq<bv8>) returns (r: bool)
    requires ZeroPadded(s) && |addr| >= Bits(family) / 8
    ensures r <==> Covers(s, family, addr)
  {
    if s.family != family { return false; }
    var full, rest := s.plen / 8, s.plen % 8;
    SameBitsByOctets(s.addr, addr, s.plen);
    if s.addr[..full] != addr[..full] { return false; }
    if rest > 0 {
      MaskIsFirstBits(s.addr[full], addr[full], rest);
      if (s.addr[full] ^ addr[full]) & (0xFF << (8 - rest)) != 0 { return false; }
    }
    return true;
  }

  /** Two padded prefixes of one length that cover one address are the same prefix. */
  lemma {:induction false} SamePrefix(s: Server, t: Server, family: Family, addr: seq<bv8>)
    requires ZeroPadded(s) && ZeroPadded(t) && s.plen == t.plen && Covers(s, family, addr) && Covers(t, family, addr)
    ensures s.addr == t.addr
  {
    var n := Bits(family);
    forall b | 0 <= b < n ensures Bit(s.addr, b) == Bit(t.addr, b) {
      if b < s.plen { assert Bit(s.addr, b) == Bit(addr, b) == Bit(t.addr, b); }
    }
    SameBitsByOctets(s.addr, t.addr, n);
    forall i | 0 <= i < 16 ensures s.addr[i] == t.addr[i] {
      if i < n / 8 { assert s.addr[i] == s.addr[..n / 8][i] == t.addr[..n / 8][i]; }
    }
  }

  // ---- the list ----

  predicate SameStatement(s: Server, t: Server) {
    s.family == t.family && s.plen == t.plen && s.addr == t.addr
  }

  ghost predicate Ordered(list: seq<Server>) {
    forall i, j :: 0 <= i < j < |list| ==> list[i].plen >= list[j].plen && !SameStatement(list[i], list[j])
  }

  ghost predicate ValidList(list: seq<Server>) {
    Ordered(list) && forall i :: 0 <= i < |list| ==> ZeroPadded(list[i])
  }

  /** In such a list, the first that covers an address is longer than every other that does. */
  lemma {:induction false} FirstIsLongest(list: seq<Server>, i: nat, j: nat, family: Family, addr: seq<bv8>)
    requires ValidList(list) && i < |list| && j < |list| && i != j
    requires Covers(list[i], family, addr) && Covers(list[j], family, addr)
    requires forall k :: 0 <= k < i ==> !Covers(list[k], family, addr)
    ensures list[j].plen < list[i].plen
  {
    assert i < j && list[i].plen >= list[j].plen && !SameStatement(list[i], list[j]);
    if list[i].plen == list[j].plen { SamePrefix(list[i], list[j], family, addr); }
  }

  class ServerList {
    var list: seq<Server>

    constructor ()
      ensures list == [] && ValidList(list)
    {
      list := [];
    }

    /** The end of parse_server_block(): no second statement of a prefix, and the place in the list by its length. */
    method Add(s: Server) returns (ok: bool)
      requires ValidList(list) && ZeroPadded(s)
      modifies this
      ensures ValidList(list)
      ensures ok <==> forall i :: 0 <= i < |old(list)| ==> !SameStatement(old(list)[i], s)
      ensures !ok ==> list == old(list)
      ensures ok ==> exists k :: 0 <= k <= |old(list)| && list == old(list)[..k] + [s] + old(list)[k..]
    {
      var i := 0;
      while i < |list|
        invariant 0 <= i <= |list| && forall k :: 0 <= k < i ==> !SameStatement(list[k], s)
      {
        if SameStatement(list[i], s) { return false; }
        i := i + 1;
      }
      var k := 0;
      while k < |list| && list[k].plen >= s.plen
        invariant 0 <= k <= |list| && forall m :: 0 <= m < k ==> list[m].plen >= s.plen
      {
        k := k + 1;
      }
      InsertedInOrder(list, s, k);
      list := list[..k] + [s] + list[k..];
      return true;
    }

    /** server_list_find(): the one longest prefix that covers the address. */
    method Find(family: Family, addr: seq<bv8>) returns (r: Option<nat>)
      requires ValidList(list) && |addr| >= Bits(family) / 8
      ensures r.None? ==> forall i :: 0 <= i < |list| ==> !Covers(list[i], family, addr)
      ensures r.Some? ==> r.value < |list| && Covers(list[r.value], family, addr)
      ensures r.Some? ==> forall j :: 0 <= j < |list| && j != r.value && Covers(list[j], family, addr) ==> list[j].plen < list[r.value].plen
    {
      var i := 0;
      while i < |list|
        invariant 0 <= i <= |list| && forall k :: 0 <= k < i ==> !Covers(list[k], family, addr)
      {
        var covers := PrefixCovers(list[i], family, addr);
        if covers {
          forall j | 0 <= j < |list| && j != i && Covers(list[j], family, addr) ensures list[j].plen < list[i].plen {
            FirstIsLongest(list, i, j, family, addr);
          }
          return Some(i);
        }
        i := i + 1;
      }
      return None;
    }
  }

  lemma {:induction false} InsertedInOrder(list: seq<Server>, s: Server, k: nat)
    requires ValidList(list) && ZeroPadded(s) && k <= |list|
    requires forall i :: 0 <= i < |list| ==> !SameStatement(list[i], s)
    requires (forall m :: 0 <= m < k ==> list[m].plen >= s.plen) && (k < |list| ==> list[k].plen < s.plen)
    ensures ValidList(list[..k] + [s] + list[k..])
  {
    var all := list[..k] + [s] + list[k..];
    forall i | 0 <= i < |all|
      ensures i < k ==> all[i] == list[i]
      ensures i > k ==> all[i] == list[i - 1]
    {
    }
    forall i, j | 0 <= i < j < |all| ensures all[i].plen >= all[j].plen && !SameStatement(all[i], all[j]) {
      var a, b := if i > k then i - 1 else i, if j > k then j - 1 else j;
      if i != k && j != k { assert list[a].plen >= list[b].plen && !SameStatement(list[a], list[b]); }
      if i == k && b > k { assert list[k].plen >= list[b].plen; }
    }
  }
}
