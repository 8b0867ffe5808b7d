/**
 * The device-selection step of the sniffer script (`selectDevice`): the devices found by one
 * scan are listed, numbered from 1 in list order, and the user's reply either names one of
 * them by its number or asks for another scan. The reply is given to the model already
 * parsed: `None` stands for a reply that Python's `int(...)` rejects.
 */
module DeviceSelection {
  import opened Wrappers
  import opened HexAddress

  /** A device found by a scan. */
  datatype Device = Device(name: string, address: Address, rssi: int)

  /** One line of the listing: the number to type, the name, the printed address, the RSSI. */
  datatype Entry = Entry(number: nat, name: string, address: string, rssi: int)

  /** The listing line the script prints for `d` under `number`. */
  function EntryFor(d: Device, number: nat): (e: Entry)
    ensures e.number == number && e.name == d.name && e.rssi == d.rssi
    ensures ParseAddress(e.address) == Some(d.address[..6])
  {
    FormatThenParse(d.address);
    Entry(number, d.name, FormatAddress(d.address), d.rssi)
  }

  /** The selection decision: the reply `i` picks the device listed as number `i`, if there is one. */
  function Choose(devs: seq<Device>, reply: Option<int>): (r: Option<Device>)
    ensures r.Some? <==> reply.Some? && 1 <= reply.value <= |devs|
    ensures r.Some? ==> r.value == devs[reply.value - 1]
  {
    match reply
    case None => None
    case Some(i) => if 0 < i <= |devs| then Some(devs[i - 1]) else None
  }

  /**
   * `selectDevice`: lists the devices, counting them, then decides on the reply. With no
   * devices nothing is listed, no reply is asked for, and the result is `None`.
   */
  method SelectDevice(devs: seq<Device>, reply: Option<int>)
    returns (listing: seq<Entry>, count: nat, prompted: bool, r: Option<Device>)
    ensures count == |listing| == |devs|
    ensures forall k :: 0 <= k < |devs| ==> listing[k] == EntryFor(devs[k], k + 1)
    ensures prompted <==> |devs| > 0
    ensures r.Some? <==> prompted && reply.Some? && 1 <= reply.value <= |devs|
    ensures r.Some? ==> r.value == devs[reply.value - 1] && listing[reply.value - 1] == EntryFor(r.value, reply.value)
    ensures r == Choose(devs, reply)
  {
    listing, count, prompted, r := [], 0, false, None;
    if |devs| > 0 {
      for j := 0 to |devs|
        invariant count == j == |listing|
        invariant forall k :: 0 <= k < j ==> listing[k] == EntryFor(devs[k], k + 1)
      {
        count := count + 1;
        listing := listing + [EntryFor(devs[j], count)];
      }
      prompted := true;
      match reply
      case None =>
        r := None;
      case Some(i) =>
        if i > 0 && i <= count {
          r := Some(devs[i - 1]);
        } else {
          r := None;
        }
    }
  }

  /** A two-device list: `2` picks the second device, `5` and an unparsable reply pick none. */
  lemma TwoDeviceCatalogue(a: Device, b: Device)
    ensures Choose([a, b], Some(2)) == Some(b)
    ensures Choose([a, b], Some(5)) == None
    ensures Choose([a, b], None) == None
  {
  }
}
