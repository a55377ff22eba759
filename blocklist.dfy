// The blocked-address table: a fixed array of MAX_BLOCKED_IPS IPv4 addresses in
// host byte order with a fill count, appended to at startup and searched by a
// linear scan for every IPv4 frame (fwd/main.c:48-58, fwd/main.c:194-202).
module BlockList {
  import opened Types

  const MAX_BLOCKED_IPS: nat := 8

  class BlockedIps {
    /** blocked_ips[MAX_BLOCKED_IPS] */
    var ips: array<u32>
    /** num_blocked_ips */
    var count: nat

    ghost predicate Valid()
      reads this
    {
      ips.Length == MAX_BLOCKED_IPS && count <= MAX_BLOCKED_IPS
    }

    /** The addresses in force: the slots below the fill count, in insertion order. */
    ghost function Entries(): (s: seq<u32>)
      reads this, ips
      requires Valid()
      ensures |s| <= MAX_BLOCKED_IPS
    {
      ips[..count]
    }

    /** The zero-initialised static table. */
    constructor ()
      ensures Valid() && fresh(ips)
      ensures Entries() == []
    {
      ips := new u32[MAX_BLOCKED_IPS](_ => 0);
      count := 0;
    }

    /** add_blocked_ip: `parsed` is the outcome of inet_aton on the dotted-decimal
        string, already converted to host byte order. A full table or a failed parse
        leaves the table unchanged; a duplicate address is stored again. */
    method Add(parsed: Option<u32>)
      requires Valid()
      modifies this, ips
      ensures Valid() && ips == old(ips)
      ensures old(count) < MAX_BLOCKED_IPS && parsed.Some? ==>
                count == old(count) + 1 && ips[old(count)] == parsed.value &&
                Entries() == old(Entries()) + [parsed.value]
      ensures old(count) >= MAX_BLOCKED_IPS || parsed.None? ==>
                count == old(count) && Entries() == old(Entries())
    {
      if count >= MAX_BLOCKED_IPS {
        return;
      }
      if parsed.Some? {
        ips[count] := parsed.value;
        count := count + 1;
        assert ips[..count] == old(ips[..count]) + [parsed.value];
      }
    }

    /** is_blocked_ip: a scan of the slots below the fill count; slots beyond it
        are never consulted. */
    method IsBlocked(src: u32) returns (blocked: bool)
      requires Valid()
      ensures blocked <==> src in Entries()
    {
      var i := 0;
      while i < count
        invariant 0 <= i <= count
        invariant src !in ips[..i]
      {
        if ips[i] == src {
          assert ips[..count][i] == src;
          return true;
        }
        assert ips[..i + 1] == ips[..i] + [ips[i]];
        i := i + 1;
      }
      return false;
    }
  }

  /** The two addresses main installs before parsing its arguments (lines 353-354):
      192.168.1.100 and 10.0.0.1, each parsed successfully by inet_aton. */
  method StartupTable() returns (t: BlockedIps)
    ensures fresh(t) && fresh(t.ips) && t.Valid()
    ensures t.Entries() == [0xC0A8_0164, 0x0A00_0001]
  {
    t := new BlockedIps();
    t.Add(Some(0xC0A8_0164));
    t.Add(Some(0x0A00_0001));
  }
}
