/**
 * TSIG over a stream of messages, as the receiving loop keeps it: the MAC before in a fixed buffer, and the unsigned
 * messages since then one after the other in a buffer that grows by doubling.
 */
module TsigStreams {
  import opened Records
  import opened TransferReceiver

  class TsigStream {
    const prior: array<int>
    var priorLen: nat
    var unsigned: array<int>
    var unsignedLen: nat
    var run: nat
    var subsequent: bool

    ghost predicate Valid()
      reads this
    {
      prior.Length == MAC_MAX && priorLen <= MAC_MAX && unsignedLen <= unsigned.Length && prior != unsigned
    }

    function View(): Tsig
      requires Valid()
      reads this, prior, unsigned
    {
      Tsig(prior[..priorLen], unsigned[..unsignedLen], run, subsequent)
    }

    constructor (requestMac: Octets)
      ensures Valid() && View() == StartTsig(requestMac) && fresh(prior) && fresh(unsigned)
    {
      prior := new int[MAC_MAX];
      unsigned := new int[0];
      priorLen, unsignedLen, run, subsequent := 0, 0, 0, false;
      new;
      if UsableMac(requestMac) { KeepMac(requestMac); }
    }

    method KeepMac(mac: Octets)
      requires Valid() && UsableMac(mac)
      modifies `priorLen, prior
      ensures Valid() && View() == old(View()).(prior := mac)
    {
      Copy(mac, prior, 0);
      priorLen := |mac|;
      assert prior[..priorLen] == mac;
    }

    /** memcpy() into a buffer. */
    static method Copy(octets: Octets, to: array<int>, at: nat)
      requires at + |octets| <= to.Length
      modifies to
      ensures to[..at] == old(to[..at]) && to[at..at + |octets|] == octets
    {
      var i := 0;
      while i < |octets|
        invariant 0 <= i <= |octets| && to[..at] == old(to[..at])
        invariant to[at..at + i] == octets[..i]
      {
        to[at + i] := octets[i];
        i := i + 1;
      }
    }

    /** Room for that many octets more: 65536 at first, then twice as many until they fit. */
    method MakeRoom(n: nat)
      requires Valid()
      modifies `unsigned
      ensures Valid() && unsignedLen + n <= unsigned.Length && View() == old(View())
      ensures unsigned == old(unsigned) || fresh(unsigned)
    {
      if unsignedLen + n <= unsigned.Length { return; }
      var cap := if unsigned.Length == 0 then 65536 else 2 * unsigned.Length;
      while cap < unsignedLen + n
        invariant cap > 0
      {
        cap := 2 * cap;
      }
      var larger := new int[cap];
      Copy(unsigned[..unsignedLen], larger, 0);
      assert larger[..unsignedLen] == unsigned[..unsignedLen];
      unsigned := larger;
    }

    /** An unsigned message after the ones before it. */
    method Buffer(octets: Octets)
      requires Valid()
      modifies `unsigned, `unsignedLen, unsigned
      ensures Valid() && View() == old(View()).(buffered := old(View()).buffered + octets)
      ensures unsigned == old(unsigned) || fresh(unsigned)
    {
      MakeRoom(|octets|);
      Copy(octets, unsigned, unsignedLen);
      assert unsigned[..unsignedLen + |octets|] == unsigned[..unsignedLen] + octets;
      unsignedLen := unsignedLen + |octets|;
    }

    /** The TSIG part of one round. */
    method Check(verify: Verifier, p: Packet) returns (ok: bool)
      requires Valid()
      modifies this, prior, unsigned
      ensures Valid() && (unsigned == old(unsigned) || fresh(unsigned))
      ensures ok == CheckTsig(verify, old(View()), p).Some?
      ensures ok ==> View() == CheckTsig(verify, old(View()), p).value
    {
      if !p.signed {
        if !subsequent { return false; }
        run := run + 1;
        if run > UNSIGNED_MAX { return false; }
        Buffer(p.octets);
        return true;
      }
      var mac := verify(prior[..priorLen], unsigned[..unsignedLen], p, subsequent);
      if mac.None? { return false; }
      unsignedLen, run := 0, 0;
      if UsableMac(mac.value) {
        KeepMac(mac.value);
        subsequent := true;
      }
      return true;
    }
  }
}
