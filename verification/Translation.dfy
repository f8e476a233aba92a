/** The IP-to-MAC table, updated in place (translation_utility.c). */
module Translation {
  import opened Types
  import opened Leases

  class TranslationTable {
    const macTable: array<MacAddress>

    ghost predicate Valid() {
      macTable.Length == TABLE_SIZE
    }

    constructor ()
      ensures Valid() && fresh(macTable) && macTable[..] == InitialTable()
    {
      macTable := new MacAddress[TABLE_SIZE](_ => NULL_MAC);
      new;
      InitTransTable();
    }

    method InitTransTable()
      requires Valid()
      modifies macTable
      ensures macTable[..] == InitialTable()
    {
      for i := 0 to TABLE_SIZE
        invariant forall k :: 0 <= k < i ==> macTable[k] == NULL_MAC
      {
        macTable[i] := NULL_MAC;
      }
      AddIpMacEntry(255, BROADCAST_MAC);
    }

    method FindFreeIp() returns (r: int)
      requires Valid()
      ensures r == FirstFree(macTable[..])
    {
      var i := 2;
      while i < TABLE_SIZE - 1
        invariant 2 <= i <= 255 && FirstFree(macTable[..]) == FirstMatch(macTable[..], NULL_MAC, i)
      {
        if NULL_MAC == macTable[i] {
          return i;
        }
        i := i + 1;
      }
      return -1;
    }

    method AddIpMacEntry(ipLast8Bit: Byte, mac: MacAddress)
      requires Valid()
      modifies macTable
      ensures macTable[..] == old(macTable[..])[ipLast8Bit := mac]
    {
      for j := 0 to 6
        invariant forall b :: 0 <= b < j ==> macTable[ipLast8Bit][b] == mac[b]
        invariant forall k :: 0 <= k < TABLE_SIZE && k != ipLast8Bit ==> macTable[k] == old(macTable[k])
      {
        macTable[ipLast8Bit] := macTable[ipLast8Bit][j := mac[j]];
      }
      assert macTable[ipLast8Bit] == mac;
    }

    method RemoveIpMacEntry(ipLast8Bit: Byte)
      requires Valid()
      modifies macTable
      ensures macTable[..] == old(macTable[..])[ipLast8Bit := NULL_MAC]
    {
      for j := 0 to 6
        invariant forall b :: 0 <= b < j ==> macTable[ipLast8Bit][b] == 0
        invariant forall k :: 0 <= k < TABLE_SIZE && k != ipLast8Bit ==> macTable[k] == old(macTable[k])
      {
        macTable[ipLast8Bit] := macTable[ipLast8Bit][j := 0];
      }
      assert macTable[ipLast8Bit] == NULL_MAC;
    }

    method ResolveIpToMac(ip: IpAddress) returns (mac: Option<MacAddress>)
      requires Valid()
      ensures mac == ResolveIp(macTable[..], ip)
    {
      if NULL_MAC != macTable[ip[3]] {
        return Some(macTable[ip[3]]);
      } else {
        return None;
      }
    }

    method ResolveMacToIp(mac: MacAddress) returns (ip: Option<IpAddress>)
      requires Valid()
      ensures ip == ResolveMac(macTable[..], mac)
    {
      var i := 1;
      while i < TABLE_SIZE - 1
        invariant 1 <= i <= 255 && FirstMatch(macTable[..], mac, 1) == FirstMatch(macTable[..], mac, i)
      {
        if mac == macTable[i] {
          return Some(AddressOf(i));
        }
        i := i + 1;
      }
      return None;
    }
  }
}
