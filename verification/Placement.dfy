/** Where a new file goes: near the client, and on one of the emptier devices. */
module Placement {
  import opened Codec
  import opened Text

  datatype Device = Device(
    dev: int, zone: int, rack: int, hostname: string, hostIp: string, port: int, hostStatus: string, status: string,
    free: int,  // bytes
    age: int    // seconds since the last report
  )

  datatype Subnet = Subnet(rack: int, zone: int, cidr: string)
  datatype Near = Near(rack: int, zone: int)

  /** What the query asks of a device. */
  predicate Eligible(d: Device, size: int, devids: seq<int>) {
    && d.hostStatus == "alive" && d.free >= size && d.age < 60
    && (if devids != [] then d.status in {"alive", "drain"} && d.dev in devids else d.status == "alive")
  }

  predicate Descending(s: seq<Device>) {
    forall i, j :: 0 <= i < j < |s| ==> s[i].free >= s[j].free
  }

  /** The rows of the query, in the order it asks for. */
  ghost predicate Answers(rows: seq<Device>, table: set<Device>, size: int, devids: seq<int>) {
    Descending(rows) && forall d :: d in rows <==> d in table && Eligible(d, size, devids)
  }

  /** Ways to be near a client. */
  datatype Criterion = Host(ip: string) | Rack(id: int) | Zone(id: int) | Anywhere

  predicate Meets(d: Device, criterion: Criterion) {
    match criterion
    case Host(ip) => d.hostIp == ip
    case Rack(id) => d.rack == id
    case Zone(id) => d.zone == id
    case Anywhere => true
  }

  /** The devices that meet a criterion, in their order. */
  function Select(s: seq<Device>, criterion: Criterion): seq<Device> {
    if s == [] then []
    else Select(s[..|s| - 1], criterion) + (if Meets(s[|s| - 1], criterion) then [s[|s| - 1]] else [])
  }

  lemma {:induction false} SelectElements(s: seq<Device>, criterion: Criterion)
    ensures forall d :: d in Select(s, criterion) <==> d in s && Meets(d, criterion)
    decreases |s|
  {
    if s != [] {
      assert s == s[..|s| - 1] + [s[|s| - 1]];
      SelectElements(s[..|s| - 1], criterion);
    }
  }

  /** Filtering keeps the order. */
  lemma {:induction false} SelectDescending(s: seq<Device>, criterion: Criterion)
    requires Descending(s)
    ensures Descending(Select(s, criterion))
    decreases |s|
  {
    if s != [] {
      var init := s[..|s| - 1];
      SelectDescending(init, criterion);
      SelectElements(init, criterion);
      var kept := Select(init, criterion);
      forall i | 0 <= i < |kept|
        ensures kept[i].free >= s[|s| - 1].free
      {
        assert kept[i] in kept;
        assert kept[i] in init;
      }
    }
  }

  lemma {:induction false} SelectAll(s: seq<Device>)
    ensures Select(s, Anywhere) == s
    decreases |s|
  {
    if s != [] {
      assert s == s[..|s| - 1] + [s[|s| - 1]];
      SelectAll(s[..|s| - 1]);
    }
  }

  method FilterSameHost(devices: seq<Device>, client: string) returns (ret: seq<Device>)
    ensures ret == Select(devices, Host(client))
  {
    ret := [];
    for i := 0 to |devices|
      invariant ret == Select(devices[..i], Host(client))
    {
      assert devices[..i + 1][..i] == devices[..i];
      if devices[i].hostIp == client {
        ret := ret + [devices[i]];
      }
    }
    assert devices[..|devices|] == devices;
  }

  method FilterSameRack(devices: seq<Device>, rack: int) returns (ret: seq<Device>)
    ensures ret == Select(devices, Rack(rack))
  {
    ret := [];
    for i := 0 to |devices|
      invariant ret == Select(devices[..i], Rack(rack))
    {
      assert devices[..i + 1][..i] == devices[..i];
      if devices[i].rack == rack {
        ret := ret + [devices[i]];
      }
    }
    assert devices[..|devices|] == devices;
  }

  method FilterSameZone(devices: seq<Device>, zone: int) returns (ret: seq<Device>)
    ensures ret == Select(devices, Zone(zone))
  {
    ret := [];
    for i := 0 to |devices|
      invariant ret == Select(devices[..i], Zone(zone))
    {
      assert devices[..i + 1][..i] == devices[..i];
      if devices[i].zone == zone {
        ret := ret + [devices[i]];
      }
    }
    assert devices[..|devices|] == devices;
  }

  /** The first subnet with the client in it; contains says None of a subnet that cannot be
      parsed, and such subnets are passed over. */
  method GetRackID(subnets: seq<Subnet>, client: string, contains: (string, string) -> Option<bool>)
    returns (near: Option<Near>)
    ensures IsNear(near, subnets, client, contains)
  {
    for i := 0 to |subnets|
      invariant forall k :: 0 <= k < i ==> contains(subnets[k].cidr, client) != Some(true)
    {
      if contains(subnets[i].cidr, client) == Some(true) {
        assert IsFirst(subnets, client, contains, i);
        return Some(Near(subnets[i].rack, subnets[i].zone));
      }
    }
    near := None;
  }

  predicate IsFirst(subnets: seq<Subnet>, client: string, contains: (string, string) -> Option<bool>, i: nat) {
    && i < |subnets| && contains(subnets[i].cidr, client) == Some(true)
    && forall k :: 0 <= k < i ==> contains(subnets[k].cidr, client) != Some(true)
  }

  /** What a search of the subnets can have found. */
  ghost predicate IsNear(near: Option<Near>, subnets: seq<Subnet>, client: string,
                         contains: (string, string) -> Option<bool>)
  {
    if near.None? then forall s :: s in subnets ==> contains(s.cidr, client) != Some(true)
    else exists i :: 0 <= i < |subnets| && IsFirst(subnets, client, contains, i)
                     && near.value == Near(subnets[i].rack, subnets[i].zone)
  }

  // ---------------------------------------------------------------- the choice

  /** The criteria for a client, nearest first; its rack and zone may be unknown. */
  function Criteria(client: string, near: Option<Near>): (r: seq<Criterion>)
    ensures r != [] && r[|r| - 1] == Anywhere
  {
    if near.Some? then [Host(client), Rack(near.value.rack), Zone(near.value.zone), Anywhere]
    else [Host(client), Anywhere]
  }

  /** The devices that meet the first criterion that any device meets. */
  ghost predicate IsTier(tier: seq<Device>, rows: seq<Device>, criteria: seq<Criterion>, k: nat) {
    && k < |criteria| && tier == Select(rows, criteria[k])
    && (forall d, j :: d in rows && 0 <= j < k ==> !Meets(d, criteria[j]))
    && (tier == [] ==> rows == [])
  }

  function NotFuller(tier: seq<Device>, free: int): nat {
    if tier == [] then 0
    else NotFuller(tier[1..], free) + (if tier[0].free <= free then 1 else 0)
  }

  lemma {:induction false} NotFullerAll(tier: seq<Device>, free: int)
    requires forall d :: d in tier ==> d.free <= free
    ensures NotFuller(tier, free) == |tier|
    decreases |tier|
  {
    if tier != [] {
      assert tier[0] in tier;
      NotFullerAll(tier[1..], free);
    }
  }

  /** In a descending list, everything from an index on has no more free space. */
  lemma {:induction false} NotFullerFrom(tier: seq<Device>, i: nat)
    requires Descending(tier) && i < |tier|
    ensures NotFuller(tier, tier[i].free) >= |tier| - i
    decreases |tier|
  {
    if i == 0 {
      NotFullerAll(tier, tier[0].free);
    } else {
      assert tier[1..][i - 1] == tier[i];
      NotFullerFrom(tier[1..], i - 1);
    }
  }

  datatype Choice = Chosen(device: Device) | NoneAvailable | QueryFailed

  /** Narrows the devices down to the nearest ones. */
  method NearestDevices(rows: seq<Device>, client: string, subnets: Option<seq<Subnet>>,
                        contains: (string, string) -> Option<bool>)
    returns (devices: Option<seq<Device>>, near: Option<Near>, ghost k: nat)
    ensures devices.None? <==> subnets.None? && forall d :: d in rows ==> !Meets(d, Host(client))
    ensures devices.Some? ==> IsTier(devices.value, rows, Criteria(client, near), k)
    ensures devices.Some? && k > 0 ==> subnets.Some? && IsNear(near, subnets.value, client, contains)
  {
    near, k := None, 0;
    hide Select, IsNear;
    var sameHost := FilterSameHost(rows, client);
    SelectEmpty(rows, Host(client));
    if |sameHost| > 0 {
      return Some(sameHost), near, k;
    }
    if subnets.None? {
      return None, near, k;
    }
    near := GetRackID(subnets.value, client, contains);
    if near.Some? {
      var sameRack := FilterSameRack(rows, near.value.rack);
      SelectEmpty(rows, Rack(near.value.rack));
      if |sameRack| > 0 {
        return Some(sameRack), near, 1;
      }
      var sameZone := FilterSameZone(rows, near.value.zone);
      SelectEmpty(rows, Zone(near.value.zone));
      if |sameZone| > 0 {
        return Some(sameZone), near, 2;
      }
    }
    SelectAll(rows);
    devices, k := Some(rows), |Criteria(client, near)| - 1;
  }

  lemma SelectEmpty(rows: seq<Device>, criterion: Criterion)
    ensures Select(rows, criterion) == [] <==> forall d :: d in rows ==> !Meets(d, criterion)
  {
    SelectElements(rows, criterion);
    var kept := Select(rows, criterion);
    hide Select;
    if kept != [] {
      assert kept[0] in kept;
    }
  }

  /** A device that is as near as any: on the client's host if some device is, else in its
      rack, else in its zone, as far as they are known. */
  predicate Nearest(d: Device, rows: seq<Device>, client: string, near: Option<Near>) {
    if exists e :: e in rows && e.hostIp == client then d.hostIp == client
    else if near.None? then true
    else if exists e :: e in rows && e.rack == near.value.rack then d.rack == near.value.rack
    else (exists e :: e in rows && e.zone == near.value.zone) ==> d.zone == near.value.zone
  }

  /** A device that is as near as any, and in the emptier half of those that are as near. */
  ghost predicate WellChosen(d: Device, rows: seq<Device>, client: string, subnets: Option<seq<Subnet>>,
                             contains: (string, string) -> Option<bool>, near: Option<Near>)
  {
    && d in rows && Nearest(d, rows, client, near)
    && ((forall e :: e in rows ==> e.hostIp != client) ==>
          subnets.Some? && IsNear(near, subnets.value, client, contains))
    && exists tier, k :: IsTier(tier, rows, Criteria(client, near), k) && d in tier
                         && NotFuller(tier, d.free) >= (|tier| + 1) / 2
  }

  lemma TierIsNearest(tier: seq<Device>, rows: seq<Device>, client: string, near: Option<Near>, k: nat)
    requires IsTier(tier, rows, Criteria(client, near), k)
    ensures forall d :: d in tier ==> Nearest(d, rows, client, near)
  {
    var criteria := Criteria(client, near);
    SelectElements(rows, criteria[k]);
    hide Select;
    forall d | d in tier
      ensures Nearest(d, rows, client, near)
    {
      assert d in rows && Meets(d, criteria[k]);
      assert forall e :: e in rows && k > 0 ==> !Meets(e, criteria[0]);
      assert forall e :: e in rows && k > 1 ==> !Meets(e, criteria[1]);
      assert forall e :: e in rows && k > 2 ==> !Meets(e, criteria[2]);
    }
  }

  lemma TierHost(tier: seq<Device>, rows: seq<Device>, client: string, near: Option<Near>, k: nat)
    requires IsTier(tier, rows, Criteria(client, near), k)
    ensures tier != [] && (forall e :: e in rows ==> e.hostIp != client) ==> k > 0
  {
    if tier != [] && k == 0 {
      SelectElements(rows, Criteria(client, near)[0]);
      assert tier[0] in tier;
    }
  }

  /** One of the emptier half of the nearest devices, and an error only if none qualifies
      or the subnets cannot be read. */
  method FindAliveDevice(rows: seq<Device>, client: string, subnets: Option<seq<Subnet>>,
                         contains: (string, string) -> Option<bool>)
    returns (choice: Choice, near: Option<Near>)
    requires Descending(rows)
    ensures choice.QueryFailed? <==> subnets.None? && forall d :: d in rows ==> !Meets(d, Host(client))
    ensures choice.NoneAvailable? <==> rows == [] && subnets.Some?
    ensures choice.Chosen? ==> WellChosen(choice.device, rows, client, subnets, contains, near)
  {
    var nearest;
    ghost var k;
    nearest, near, k := NearestDevices(rows, client, subnets, contains);
    if nearest.None? {
      return QueryFailed, near;
    }
    var devices := nearest.value;
    ghost var tier := devices;
    SelectDescending(rows, Criteria(client, near)[k]);
    SelectElements(rows, Criteria(client, near)[k]);
    TierIsNearest(tier, rows, client, near, k);
    TierHost(tier, rows, client, near, k);
    hide IsTier, Criteria, Select, IsNear, Nearest;
    if |devices| == 0 {
      return NoneAvailable, near;
    }
    if |devices| == 1 {
      NotFullerFrom(tier, 0);
      return Chosen(devices[0]), near;
    }
    devices := devices[..|devices| / 2];
    var i :| 0 <= i < |devices|;
    NotFullerFrom(tier, i);
    choice := Chosen(devices[i]);
  }

  // ------------------------------------------------------------ consequences

  /** The source of a drain is never chosen as a destination of its own files, unless the
      operator lists it. */
  lemma DrainAvoidsSource(rows: seq<Device>, table: set<Device>, size: int, devids: seq<int>, src: Device)
    requires Answers(rows, table, size, devids)
    requires src.status == "drain"
    ensures src in rows ==> src.dev in devids
    ensures devids == [] ==> forall d :: d in rows ==> d.status == "alive"
  {}

  /** What is chosen from the rows of the query is a device that works: its host is up, it has
      reported within the last minute, it has room, and if the operator lists devices it is
      one of them. */
  lemma ChosenWorks(d: Device, rows: seq<Device>, table: set<Device>, size: int, devids: seq<int>, client: string,
                    subnets: Option<seq<Subnet>>, contains: (string, string) -> Option<bool>, near: Option<Near>)
    requires Answers(rows, table, size, devids) && WellChosen(d, rows, client, subnets, contains, near)
    ensures d in table && d.hostStatus == "alive" && d.age <= 59 && d.free >= size
    ensures d.status == "alive" || (d.status == "drain" && d.dev in devids)
    ensures devids != [] ==> d.dev in devids
  {
    hide Nearest, IsNear, IsTier, Criteria, NotFuller;
  }

  /** The tracker reads the size as an unsigned number and asks the database for a signed
      one. The devices it gets are known to have room exactly if the size fits into 63
      bits: a larger one turns negative, and the fullest device qualifies. */
  lemma RoomIff(size: int)
    requires 0 <= size < 0x1_0000_0000_0000_0000
    ensures (forall d: Device :: 0 <= d.free <= MAX && Eligible(d, Wrap(size), []) ==> d.free >= size) <==> size <= MAX
  {
    if size > MAX {
      assert Wrap(size) < 0;
      var full := Device(1, 1, 1, "", "", 0, "alive", "alive", 0, 0);
      assert Eligible(full, Wrap(size), []) && full.free < size;
    }
  }
}
