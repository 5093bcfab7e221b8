/** Advertising payloads: records of a length, a type and data, as BLEAdvertisementData builds
    them and BLEAdvertisedDevice reads them (BLEAdvertising.cpp:292-500,
    BLEAdvertisedDevice.cpp:262-400; Bluetooth Core Specification Vol 3 Part C section 11). */
module Advertisement {

  type Byte = b: int | 0 <= b < 256

  /** The bytes of a UUID of 16, 32 or 128 bits. */
  type Uuid = u: seq<Byte> | |u| == 2 || |u| == 4 || |u| == 16 witness [0, 0]

  type Appearance = a: seq<Byte> | |a| == 2 witness [0, 0]

  const DATA_LEN_MAX := 31

  const FLAG: Byte := 0x01
  const SRV16_PART: Byte := 0x02
  const SRV16_CMPL: Byte := 0x03
  const SRV32_PART: Byte := 0x04
  const SRV32_CMPL: Byte := 0x05
  const SRV128_PART: Byte := 0x06
  const SRV128_CMPL: Byte := 0x07
  const NAME_SHORT: Byte := 0x08
  const NAME_CMPL: Byte := 0x09
  const TX_PWR: Byte := 0x0A
  const SERVICE_DATA: Byte := 0x16
  const APPEARANCE: Byte := 0x19
  const SERVICE_DATA32: Byte := 0x20
  const SERVICE_DATA128: Byte := 0x21
  const MANUFACTURER: Byte := 0xFF

  // ---------------------------------------------------------------- building

  /** A call of a setter. */
  datatype Call =
    | SetFlags(flag: Byte)
    | SetAppearance(appearance: Appearance)
    | SetCompleteServices(uuid: Uuid)
    | SetPartialServices(uuid: Uuid)
    | SetManufacturerData(data: seq<Byte>)
    | SetName(name: seq<Byte>)
    | SetShortName(name: seq<Byte>)
    | SetServiceData(uuid: Uuid, data: seq<Byte>)

  datatype Record = Record(kind: Byte, data: seq<Byte>)

  function RecordOf(c: Call): Record {
    match c
    case SetFlags(flag) => Record(FLAG, [flag])
    case SetAppearance(appearance) => Record(APPEARANCE, appearance)
    case SetCompleteServices(uuid) =>
      Record(if |uuid| == 2 then SRV16_CMPL else if |uuid| == 4 then SRV32_CMPL else SRV128_CMPL, uuid)
    case SetPartialServices(uuid) =>
      Record(if |uuid| == 2 then SRV16_PART else if |uuid| == 4 then SRV32_PART else SRV128_PART, uuid)
    case SetManufacturerData(data) => Record(MANUFACTURER, data)
    case SetName(name) => Record(NAME_CMPL, name)
    case SetShortName(name) => Record(NAME_SHORT, name)
    case SetServiceData(uuid, data) =>
      Record(if |uuid| == 2 then SERVICE_DATA else if |uuid| == 4 then SERVICE_DATA32 else SERVICE_DATA128, uuid + data)
  }

  /** The length counts the type; only its low byte is written. */
  function PrintRecord(r: Record): (bytes: seq<Byte>)
    ensures |bytes| == |r.data| + 2
  {
    [(|r.data| + 1) % 256, r.kind] + r.data
  }

  function PrintRecords(records: seq<Record>): seq<Byte> {
    if records == [] then [] else PrintRecord(records[0]) + PrintRecords(records[1..])
  }

  predicate Fits(payload: seq<Byte>, c: Call) {
    |payload| + |RecordOf(c).data| + 2 <= DATA_LEN_MAX
  }

  /** addData: what does not fit is dropped. */
  function Add(payload: seq<Byte>, c: Call): seq<Byte> {
    if Fits(payload, c) then payload + PrintRecord(RecordOf(c)) else payload
  }

  function AddAll(payload: seq<Byte>, calls: seq<Call>): seq<Byte>
    decreases |calls|
  {
    if calls == [] then payload else AddAll(Add(payload, calls[0]), calls[1..])
  }

  /** The calls that were not dropped. */
  function Accepted(payload: seq<Byte>, calls: seq<Call>): seq<Call>
    decreases |calls|
  {
    if calls == [] then []
    else (if Fits(payload, calls[0]) then [calls[0]] else []) + Accepted(Add(payload, calls[0]), calls[1..])
  }

  class BLEAdvertisementData {
    var payload: seq<Byte>

    constructor ()
      ensures payload == []
    {
      payload := [];
    }

    method AddData(data: seq<Byte>)
      modifies this
      ensures payload == if |old(payload)| + |data| > DATA_LEN_MAX then old(payload) else old(payload) + data
    {
      if |payload| + |data| > DATA_LEN_MAX {
        return;
      }
      payload := payload + data;
    }

    /** The setters. */
    method Set(c: Call)
      modifies this
      ensures payload == Add(old(payload), c)
    {
      hide PrintRecord;
      match c
      case SetFlags(flag) => AddRecord(FLAG, [flag]);
      case SetAppearance(appearance) => AddRecord(APPEARANCE, appearance);
      case SetCompleteServices(uuid) =>
        if |uuid| == 2 {
          AddRecord(SRV16_CMPL, uuid);
        } else if |uuid| == 4 {
          AddRecord(SRV32_CMPL, uuid);
        } else {
          AddRecord(SRV128_CMPL, uuid);
        }
      case SetPartialServices(uuid) =>
        if |uuid| == 2 {
          AddRecord(SRV16_PART, uuid);
        } else if |uuid| == 4 {
          AddRecord(SRV32_PART, uuid);
        } else {
          AddRecord(SRV128_PART, uuid);
        }
      case SetManufacturerData(data) => AddRecord(MANUFACTURER, data);
      case SetName(name) => AddRecord(NAME_CMPL, name);
      case SetShortName(name) => AddRecord(NAME_SHORT, name);
      case SetServiceData(uuid, data) =>
        if |uuid| == 2 {
          AddRecord(SERVICE_DATA, uuid + data);
        } else if |uuid| == 4 {
          AddRecord(SERVICE_DATA32, uuid + data);
        } else {
          AddRecord(SERVICE_DATA128, uuid + data);
        }
    }

    /** The two bytes in front of the data: the length, cut to a byte, and the type. */
    method AddRecord(kind: Byte, data: seq<Byte>)
      modifies this
      ensures payload ==
        if |old(payload)| + |data| + 2 <= DATA_LEN_MAX then old(payload) + PrintRecord(Record(kind, data))
        else old(payload)
    {
      AddData([(|data| + 1) % 256, kind] + data);
    }
  }

  lemma {:induction false} PrintRecordsJoin(a: seq<Record>, b: seq<Record>)
    ensures PrintRecords(a + b) == PrintRecords(a) + PrintRecords(b)
    decreases |a|
  {
    if a == [] {
      assert a + b == b;
    } else {
      assert (a + b)[1..] == a[1..] + b;
      PrintRecordsJoin(a[1..], b);
    }
  }

  function RecordsOf(calls: seq<Call>): (records: seq<Record>)
    ensures |records| == |calls|
  {
    if calls == [] then [] else [RecordOf(calls[0])] + RecordsOf(calls[1..])
  }

  /** Whatever the setters are called with, the payload is the records of the accepted calls,
      and has at most 31 bytes. */
  lemma {:induction false} PayloadIsRecords(payload: seq<Byte>, calls: seq<Call>)
    requires |payload| <= DATA_LEN_MAX
    ensures AddAll(payload, calls) == payload + PrintRecords(RecordsOf(Accepted(payload, calls)))
    ensures |AddAll(payload, calls)| <= DATA_LEN_MAX
    decreases |calls|
  {
    hide PrintRecord, RecordOf;
    if calls != [] {
      var c := calls[0];
      PayloadIsRecords(Add(payload, c), calls[1..]);
      var rest := Accepted(Add(payload, c), calls[1..]);
      if Fits(payload, c) {
        assert ([c] + rest)[1..] == rest;
      } else {
        assert [] + rest == rest;
      }
    }
  }

  // ---------------------------------------------------------------- reading

  datatype Option<T> = None | Some(value: T)

  datatype Device = Device(
    name: Option<seq<Byte>>, appearance: Option<Appearance>, manufacturerData: Option<seq<Byte>>,
    txPower: Option<Byte>, flags: Byte,
    serviceUuids: seq<Uuid>, serviceDataUuids: seq<Uuid>, serviceData: seq<seq<Byte>>)

  const NEW_DEVICE := Device(None, None, None, None, 0, [], [], [])

  /** The UUIDs of so many bytes in a list of services; bytes that make no UUID are left. */
  function UuidList(data: seq<Byte>, size: nat): seq<Uuid>
    requires size == 2 || size == 4
  {
    if |data| < size then [] else [data[..size]] + UuidList(data[size..], size)
  }

  /** The bytes that the reader takes from a record without looking at its length. */
  function LeastLength(kind: Byte): nat {
    if kind == TX_PWR || kind == FLAG then 1
    else if kind == APPEARANCE then 2
    else if kind == SRV128_CMPL || kind == SRV128_PART then 16
    else 0
  }

  function TakeServiceData(d: Device, data: seq<Byte>, size: nat): Device
    requires size == 2 || size == 4 || size == 16
  {
    if |data| < size then d
    else
      d.(serviceDataUuids := d.serviceDataUuids + [data[..size]],
         serviceData := if |data| > size then d.serviceData + [data[size..]] else d.serviceData)
  }

  function TakeRecord(d: Device, r: Record): Device
    requires LeastLength(r.kind) <= |r.data|
  {
    if r.kind == NAME_CMPL then d.(name := Some(r.data))
    else if r.kind == TX_PWR then d.(txPower := Some(r.data[0]))
    else if r.kind == APPEARANCE then d.(appearance := Some(r.data[..2]))
    else if r.kind == FLAG then d.(flags := r.data[0])
    else if r.kind == SRV16_CMPL || r.kind == SRV16_PART then d.(serviceUuids := d.serviceUuids + UuidList(r.data, 2))
    else if r.kind == SRV32_CMPL || r.kind == SRV32_PART then d.(serviceUuids := d.serviceUuids + UuidList(r.data, 4))
    else if r.kind == SRV128_CMPL || r.kind == SRV128_PART then d.(serviceUuids := d.serviceUuids + [r.data[..16]])
    else if r.kind == MANUFACTURER then d.(manufacturerData := Some(r.data))
    else if r.kind == SERVICE_DATA then TakeServiceData(d, r.data, 2)
    else if r.kind == SERVICE_DATA32 then TakeServiceData(d, r.data, 4)
    else if r.kind == SERVICE_DATA128 then TakeServiceData(d, r.data, 16)
    else d
  }

  /** The records follow each other up to the end of the payload; a length of 0 is a record
      of its own, and does not end the payload. */
  predicate WellFormed(payload: seq<Byte>) {
    if payload == [] then true
    else if payload[0] == 0 then WellFormed(payload[1..])
    else
      && 1 + payload[0] <= |payload|
      && LeastLength(payload[1]) <= payload[0] - 1
      && WellFormed(payload[1 + payload[0]..])
  }

  function Parse(d: Device, payload: seq<Byte>): Device
    requires WellFormed(payload)
    decreases |payload|
  {
    if payload == [] then d
    else if payload[0] == 0 then Parse(d, payload[1..])
    else
      var n := payload[0];
      Parse(TakeRecord(d, Record(payload[1], payload[2..1 + n])), payload[1 + n..])
  }

  class BLEAdvertisedDevice {
    var name: Option<seq<Byte>>
    var appearance: Option<Appearance>
    var manufacturerData: Option<seq<Byte>>
    var txPower: Option<Byte>
    var adFlag: Byte
    var serviceUuids: seq<Uuid>
    var serviceDataUuids: seq<Uuid>
    var serviceData: seq<seq<Byte>>

    function Current(): Device
      reads this
    {
      Device(name, appearance, manufacturerData, txPower, adFlag, serviceUuids, serviceDataUuids, serviceData)
    }

    constructor ()
      ensures Current() == NEW_DEVICE
    {
      name, appearance, manufacturerData, txPower, adFlag := None, None, None, None, 0;
      serviceUuids, serviceDataUuids, serviceData := [], [], [];
    }

    /** The size consumed is a byte; a payload longer than that would never be finished. */
    method ParseAdvertisement(payload: seq<Byte>) returns (sizeConsumed: nat)
      requires payload != [] && |payload| < 256 && WellFormed(payload)
      modifies this
      ensures Current() == Parse(old(Current()), payload) && sizeConsumed == |payload|
    {
      hide TakeRecord, LeastLength, Parse, WellFormed;
      assert payload[0..] == payload;
      sizeConsumed := 0;
      var finished := false;
      while !finished
        invariant 0 <= sizeConsumed <= |payload| && (finished <==> sizeConsumed == |payload|)
        invariant WellFormed(payload[sizeConsumed..])
        invariant Parse(Current(), payload[sizeConsumed..]) == Parse(old(Current()), payload)
        decreases |payload| - sizeConsumed, !finished
      {
        var length := payload[sizeConsumed];
        NextRecord(Current(), payload, sizeConsumed);
        if length != 0 {
          ParseRecord(payload[sizeConsumed + 1], payload[sizeConsumed + 2..sizeConsumed + 1 + length]);
        }
        sizeConsumed := sizeConsumed + 1 + length;
        if sizeConsumed >= |payload| {
          finished := true;
        }
      }
      assert payload[sizeConsumed..] == [];
      NothingParsed(Current());
    }

    method ParseRecord(kind: Byte, data: seq<Byte>)
      requires LeastLength(kind) <= |data|
      modifies this
      ensures Current() == TakeRecord(old(Current()), Record(kind, data))
    {
      if kind == NAME_CMPL {
        name := Some(data);
      } else if kind == TX_PWR {
        txPower := Some(data[0]);
      } else if kind == APPEARANCE {
        appearance := Some(data[..2]);
      } else if kind == FLAG {
        adFlag := data[0];
      } else if kind == SRV16_CMPL || kind == SRV16_PART {
        ParseUuids(data, 2);
      } else if kind == SRV32_CMPL || kind == SRV32_PART {
        ParseUuids(data, 4);
      } else if kind == SRV128_CMPL || kind == SRV128_PART {
        serviceUuids := serviceUuids + [data[..16]];
      } else if kind == MANUFACTURER {
        manufacturerData := Some(data);
      } else if kind == SERVICE_DATA {
        ParseServiceData(data, 2);
      } else if kind == SERVICE_DATA32 {
        ParseServiceData(data, 4);
      } else if kind == SERVICE_DATA128 {
        ParseServiceData(data, 16);
      }
    }

    method ParseUuids(data: seq<Byte>, size: nat)
      requires size == 2 || size == 4
      modifies this`serviceUuids
      ensures serviceUuids == old(serviceUuids) + UuidList(data, size)
    {
      hide UuidList;
      var i, at := 0, 0;
      assert data[0..] == data;
      while i < |data| / size
        invariant 0 <= i <= |data| / size && at == i * size <= |data|
        invariant serviceUuids + UuidList(data[at..], size) == old(serviceUuids) + UuidList(data, size)
      {
        WholeUuids(|data|, size, i);
        FirstUuid(data[at..], size);
        assert data[at..][..size] == data[at..at + size] && data[at..][size..] == data[at + size..];
        serviceUuids := serviceUuids + [data[at..at + size]];
        i, at := i + 1, at + size;
      }
      WholeUuids(|data|, size, i);
      FirstUuid(data[at..], size);
    }

    method ParseServiceData(data: seq<Byte>, size: nat)
      requires size == 2 || size == 4 || size == 16
      modifies this`serviceDataUuids, this`serviceData
      ensures Current() == TakeServiceData(old(Current()), data, size)
    {
      if |data| < size {
        return;
      }
      serviceDataUuids := serviceDataUuids + [data[..size]];
      if |data| > size {
        serviceData := serviceData + [data[size..]];
      }
    }
  }

  lemma WholeUuids(n: nat, size: nat, i: nat)
    requires (size == 2 || size == 4) && i <= n / size
    ensures (i + 1) * size == i * size + size
    ensures if i < n / size then i * size + size <= n else i * size <= n < i * size + size
  {
  }

  lemma FirstUuid(data: seq<Byte>, size: nat)
    requires size == 2 || size == 4
    ensures UuidList(data, size) == if |data| < size then [] else [data[..size]] + UuidList(data[size..], size)
  {
  }

  lemma NothingParsed(d: Device)
    ensures Parse(d, []) == d
  {
  }

  lemma NextRecord(d: Device, payload: seq<Byte>, at: nat)
    requires at < |payload| && WellFormed(payload[at..])
    ensures var n := payload[at];
      && at + 1 + n <= |payload| && WellFormed(payload[at + 1 + n..])
      && (n == 0 ==> Parse(d, payload[at..]) == Parse(d, payload[at + 1..]))
      && (n > 0 ==> LeastLength(payload[at + 1]) <= n - 1)
      && (n > 0 ==>
            Parse(d, payload[at..])
            == Parse(TakeRecord(d, Record(payload[at + 1], payload[at + 2..at + 1 + n])), payload[at + 1 + n..]))
  {
    var rest, n := payload[at..], payload[at];
    assert rest[0] == n && (n > 0 ==> rest[1] == payload[at + 1] && rest[2..1 + n] == payload[at + 2..at + 1 + n]);
    assert rest[1 + n..] == payload[at + 1 + n..];
  }

  // ---------------------------------------------------------------- what a reader learns

  function LastName(calls: seq<Call>, before: Option<seq<Byte>>): Option<seq<Byte>> {
    if calls == [] then before
    else LastName(calls[1..], if calls[0].SetName? then Some(calls[0].name) else before)
  }

  function LastAppearance(calls: seq<Call>, before: Option<Appearance>): Option<Appearance> {
    if calls == [] then before
    else LastAppearance(calls[1..], if calls[0].SetAppearance? then Some(calls[0].appearance) else before)
  }

  function LastManufacturerData(calls: seq<Call>, before: Option<seq<Byte>>): Option<seq<Byte>> {
    if calls == [] then before
    else LastManufacturerData(calls[1..], if calls[0].SetManufacturerData? then Some(calls[0].data) else before)
  }

  function LastFlags(calls: seq<Call>, before: Byte): Byte {
    if calls == [] then before
    else LastFlags(calls[1..], if calls[0].SetFlags? then calls[0].flag else before)
  }

  function ServiceUuids(calls: seq<Call>): seq<Uuid> {
    if calls == [] then []
    else (if calls[0].SetCompleteServices? || calls[0].SetPartialServices? then [calls[0].uuid] else [])
         + ServiceUuids(calls[1..])
  }

  function ServiceDataUuids(calls: seq<Call>): seq<Uuid> {
    if calls == [] then []
    else (if calls[0].SetServiceData? then [calls[0].uuid] else []) + ServiceDataUuids(calls[1..])
  }

  /** Service data without any byte leaves no trace but its UUID. */
  function ServiceData(calls: seq<Call>): seq<seq<Byte>> {
    if calls == [] then []
    else (if calls[0].SetServiceData? && calls[0].data != [] then [calls[0].data] else []) + ServiceData(calls[1..])
  }

  function Learned(d: Device, calls: seq<Call>): Device {
    d.(name := LastName(calls, d.name), appearance := LastAppearance(calls, d.appearance),
       manufacturerData := LastManufacturerData(calls, d.manufacturerData), flags := LastFlags(calls, d.flags),
       serviceUuids := d.serviceUuids + ServiceUuids(calls),
       serviceDataUuids := d.serviceDataUuids + ServiceDataUuids(calls),
       serviceData := d.serviceData + ServiceData(calls))
  }

  lemma RecordIsLongEnough(c: Call)
    ensures LeastLength(RecordOf(c).kind) <= |RecordOf(c).data|
  {
  }

  /** One record tells what the call said. */
  lemma RecordLearned(d: Device, c: Call)
    requires LeastLength(RecordOf(c).kind) <= |RecordOf(c).data|
    ensures TakeRecord(d, RecordOf(c)) ==
      match c
      case SetFlags(flag) => d.(flags := flag)
      case SetAppearance(appearance) => d.(appearance := Some(appearance))
      case SetCompleteServices(uuid) => d.(serviceUuids := d.serviceUuids + [uuid])
      case SetPartialServices(uuid) => d.(serviceUuids := d.serviceUuids + [uuid])
      case SetManufacturerData(data) => d.(manufacturerData := Some(data))
      case SetName(name) => d.(name := Some(name))
      case SetShortName(name) => d
      case SetServiceData(uuid, data) =>
        d.(serviceDataUuids := d.serviceDataUuids + [uuid],
           serviceData := if data == [] then d.serviceData else d.serviceData + [data])
  {
    match c
    case SetAppearance(appearance) => assert appearance[..2] == appearance;
    case SetCompleteServices(uuid) => OneUuid(uuid);
    case SetPartialServices(uuid) => OneUuid(uuid);
    case SetServiceData(uuid, data) =>
      assert (uuid + data)[..|uuid|] == uuid && (uuid + data)[|uuid|..] == data;
    case _ =>
  }

  lemma OneUuid(uuid: Uuid)
    ensures |uuid| == 16 ==> uuid[..16] == uuid
    ensures |uuid| < 16 ==> UuidList(uuid, |uuid|) == [uuid]
  {
    assert uuid[..|uuid|] == uuid;
    if |uuid| < 16 {
      assert UuidList(uuid[|uuid|..], |uuid|) == [];
    }
  }

  lemma LearnedFirst(d: Device, c: Call, rest: seq<Call>)
    requires LeastLength(RecordOf(c).kind) <= |RecordOf(c).data|
    ensures Learned(TakeRecord(d, RecordOf(c)), rest) == Learned(d, [c] + rest)
  {
    hide TakeRecord, RecordOf, LeastLength;
    RecordLearned(d, c);
    ListsFirst(d, c, rest);
  }

  lemma ListsFirst(d: Device, c: Call, rest: seq<Call>)
    ensures var calls := [c] + rest;
      && calls[0] == c && calls[1..] == rest
      && d.serviceUuids + ServiceUuids(calls)
           == d.serviceUuids + (if c.SetCompleteServices? || c.SetPartialServices? then [c.uuid] else [])
              + ServiceUuids(rest)
      && d.serviceDataUuids + ServiceDataUuids(calls)
           == d.serviceDataUuids + (if c.SetServiceData? then [c.uuid] else []) + ServiceDataUuids(rest)
      && d.serviceData + ServiceData(calls)
           == d.serviceData + (if c.SetServiceData? && c.data != [] then [c.data] else []) + ServiceData(rest)
  {
    var calls := [c] + rest;
    assert calls[1..] == rest;
    JoinedInTurn(d.serviceUuids, if c.SetCompleteServices? || c.SetPartialServices? then [c.uuid] else [],
                 ServiceUuids(rest));
    JoinedInTurn(d.serviceDataUuids, if c.SetServiceData? then [c.uuid] else [], ServiceDataUuids(rest));
    JoinedInTurn(d.serviceData, if c.SetServiceData? && c.data != [] then [c.data] else [], ServiceData(rest));
  }

  lemma JoinedInTurn<T>(a: seq<T>, b: seq<T>, c: seq<T>)
    ensures a + (b + c) == a + b + c
  {
  }

  predicate Short(calls: seq<Call>) {
    forall c :: c in calls ==> |RecordOf(c).data| + 2 <= DATA_LEN_MAX
  }

  lemma ParseFirst(d: Device, r: Record, rest: seq<Byte>)
    requires |r.data| + 2 <= DATA_LEN_MAX && LeastLength(r.kind) <= |r.data| && WellFormed(rest)
    ensures WellFormed(PrintRecord(r) + rest)
    ensures Parse(d, PrintRecord(r) + rest) == Parse(TakeRecord(d, r), rest)
  {
  }

  lemma {:induction false} RecordsParsed(d: Device, calls: seq<Call>)
    requires Short(calls)
    ensures WellFormed(PrintRecords(RecordsOf(calls)))
    ensures Parse(d, PrintRecords(RecordsOf(calls))) == Learned(d, calls)
    decreases |calls|
  {
    hide PrintRecord, RecordOf, TakeRecord, LeastLength, Learned;
    if calls == [] {
      NothingLearned(d);
    } else {
      var c := calls[0];
      assert c in calls;
      RecordIsLongEnough(c);
      RecordsParsed(TakeRecord(d, RecordOf(c)), calls[1..]);
      ParseFirst(d, RecordOf(c), PrintRecords(RecordsOf(calls[1..])));
      assert [c] + calls[1..] == calls && RecordsOf(calls)[1..] == RecordsOf(calls[1..]);
      LearnedFirst(d, c, calls[1..]);
    }
  }

  lemma NothingLearned(d: Device)
    ensures Learned(d, []) == d
  {
  }

  lemma {:induction false} AcceptedAreShort(payload: seq<Byte>, calls: seq<Call>)
    ensures Short(Accepted(payload, calls))
    decreases |calls|
  {
    if calls != [] {
      AcceptedAreShort(Add(payload, calls[0]), calls[1..]);
    }
  }

  /** Any sequence of setter calls leaves a payload of at most 31 bytes that is well formed,
      and a reader learns from it the last name, appearance, manufacturer data and flags that
      were accepted, and all services and non-empty service data in their order. */
  lemma AdvertisementRoundTrip(calls: seq<Call>)
    ensures var payload := AddAll([], calls);
      && |payload| <= DATA_LEN_MAX && WellFormed(payload)
      && Parse(NEW_DEVICE, payload) == Learned(NEW_DEVICE, Accepted([], calls))
  {
    hide AddAll, Accepted, PrintRecords, RecordsOf, Parse, WellFormed, Learned, Short;
    PayloadIsRecords([], calls);
    AcceptedAreShort([], calls);
    RecordsParsed(NEW_DEVICE, Accepted([], calls));
    var none: seq<Byte>, records := [], PrintRecords(RecordsOf(Accepted([], calls)));
    assert none + records == records;
    assert AddAll([], calls) == records;
  }

  // ---------------------------------------------------------------- bytes on the air

  /** The types of the records, as Bluetooth Assigned Numbers section 2.3 lists them. */
  lemma TypesOnTheAir(c: Call)
    ensures RecordOf(c).kind == match c
      case SetFlags(flag) => 0x01
      case SetAppearance(appearance) => 0x19
      case SetCompleteServices(uuid) => if |uuid| == 2 then 0x03 else if |uuid| == 4 then 0x05 else 0x07
      case SetPartialServices(uuid) => if |uuid| == 2 then 0x02 else if |uuid| == 4 then 0x04 else 0x06
      case SetManufacturerData(data) => 0xFF
      case SetName(name) => 0x09
      case SetShortName(name) => 0x08
      case SetServiceData(uuid, data) => if |uuid| == 2 then 0x16 else if |uuid| == 4 then 0x20 else 0x21
  {
  }

  /** An advertisement of flags, a battery service and a name, byte by byte. */
  lemma ExampleOnTheAir()
    ensures AddAll([], [SetFlags(0x06), SetCompleteServices([0x0F, 0x18]), SetName([0x45, 0x53, 0x50])])
      == [0x02, 0x01, 0x06, 0x03, 0x03, 0x0F, 0x18, 0x04, 0x09, 0x45, 0x53, 0x50]
  {
    var calls := [SetFlags(0x06), SetCompleteServices([0x0F, 0x18]), SetName([0x45, 0x53, 0x50])];
    assert calls[1..] == [SetCompleteServices([0x0F, 0x18]), SetName([0x45, 0x53, 0x50])];
    assert calls[1..][1..] == [SetName([0x45, 0x53, 0x50])] && calls[1..][1..][1..] == [];
    var flags := Add([], calls[0]);
    assert flags == [0x02, 0x01, 0x06];
    var services := Add(flags, calls[1]);
    assert services == [0x02, 0x01, 0x06, 0x03, 0x03, 0x0F, 0x18];
    assert AddAll([], calls) == AddAll(flags, calls[1..]) == AddAll(services, calls[1..][1..]);
    assert AddAll(services, calls[1..][1..]) == AddAll(Add(services, calls[2]), []);
  }

  /** A call is accepted if and only if its record fits behind what has been accepted so far:
      31 bytes in all, of which every record takes 2 besides its data. */
  lemma {:induction false} AcceptedExactly(payload: seq<Byte>, calls: seq<Call>, c: Call)
    ensures Accepted(payload, calls + [c])
      == Accepted(payload, calls) + if |AddAll(payload, calls)| + 2 + |RecordOf(c).data| <= 31 then [c] else []
    decreases |calls|
  {
    hide PrintRecord, RecordOf;
    if calls == [] {
      assert [c][1..] == [] && calls + [c] == [c];
    } else {
      assert (calls + [c])[1..] == calls[1..] + [c];
      AcceptedExactly(Add(payload, calls[0]), calls[1..], c);
    }
  }

  /** A record of another device, at the front of what is read. */
  lemma AnyRecordRead(d: Device, kind: Byte, data: seq<Byte>, rest: seq<Byte>)
    requires |data| < 255 && LeastLength(kind) <= |data| && WellFormed(rest)
    ensures var payload := [|data| + 1, kind] + data + rest;
      WellFormed(payload) && Parse(d, payload) == Parse(TakeRecord(d, Record(kind, data)), rest)
  {
    var payload := [|data| + 1, kind] + data + rest;
    assert payload[2..2 + |data|] == data && payload[2 + |data|..] == rest;
    hide TakeRecord;
  }

  /** The power of the transmitter. */
  lemma TxPowerRead(d: Device, power: Byte, more: seq<Byte>, rest: seq<Byte>)
    requires |more| < 254 && WellFormed(rest)
    ensures var payload := [|more| + 2, 0x0A, power] + more + rest;
      WellFormed(payload) && Parse(d, payload) == Parse(d.(txPower := Some(power)), rest)
  {
    assert [|more| + 2, 0x0A, power] + more + rest == [|[power] + more| + 1, 0x0A] + ([power] + more) + rest;
    AnyRecordRead(d, 0x0A, [power] + more, rest);
  }

  function Joined(uuids: seq<Uuid>): seq<Byte> {
    if uuids == [] then [] else uuids[0] + Joined(uuids[1..])
  }

  lemma {:induction false} UuidsRead(uuids: seq<Uuid>, size: nat, leftover: seq<Byte>)
    requires (size == 2 || size == 4) && |leftover| < size && forall u :: u in uuids ==> |u| == size
    ensures UuidList(Joined(uuids) + leftover, size) == uuids
    decreases |uuids|
  {
    hide UuidList;
    var data := Joined(uuids) + leftover;
    FirstUuid(data, size);
    if uuids != [] {
      assert uuids[0] in uuids;
      UuidsRead(uuids[1..], size, leftover);
      assert data == uuids[0] + (Joined(uuids[1..]) + leftover);
      assert data[..size] == uuids[0] && data[size..] == Joined(uuids[1..]) + leftover;
    }
  }

  /** All UUIDs of a list of services of 16 or 32 bits, complete or not; bytes at its end that
      make no UUID are passed over. */
  lemma ServiceListRead(d: Device, uuids: seq<Uuid>, complete: bool, size: nat, leftover: seq<Byte>, rest: seq<Byte>)
    requires (size == 2 || size == 4) && |leftover| < size && forall u :: u in uuids ==> |u| == size
    requires |Joined(uuids) + leftover| < 255 && WellFormed(rest)
    ensures var kind: Byte := size + if complete then 1 else 0;
      var payload := [|Joined(uuids) + leftover| + 1, kind] + (Joined(uuids) + leftover) + rest;
      WellFormed(payload) && Parse(d, payload) == Parse(d.(serviceUuids := d.serviceUuids + uuids), rest)
  {
    UuidsRead(uuids, size, leftover);
    AnyRecordRead(d, size + if complete then 1 else 0, Joined(uuids) + leftover, rest);
    hide UuidList, Joined, Parse, WellFormed;
  }

  /** Records of other types, and empty ones, tell nothing. */
  lemma OthersPassedOver(d: Device, kind: Byte, data: seq<Byte>, rest: seq<Byte>)
    requires |data| < 255 && WellFormed(rest)
    requires kind !in {1, 2, 3, 4, 5, 6, 7, 9, 0x0A, 0x16, 0x19, 0x20, 0x21, 0xFF}
    ensures var payload := [|data| + 1, kind] + data + rest;
      WellFormed(payload) && Parse(d, payload) == Parse(d, rest)
    ensures WellFormed([0] + rest) && Parse(d, [0] + rest) == Parse(d, rest)
  {
    AnyRecordRead(d, kind, data, rest);
    assert ([0] + rest)[1..] == rest;
  }

  /** The data of all calls of setServiceData, each at the index of its UUID. */
  function AllData(calls: seq<Call>): (all: seq<seq<Byte>>)
    ensures |all| == |ServiceDataUuids(calls)|
  {
    if calls == [] then []
    else (if calls[0].SetServiceData? then [calls[0].data] else []) + AllData(calls[1..])
  }

  function NonEmpty(list: seq<seq<Byte>>): seq<seq<Byte>> {
    if list == [] then [] else (if list[0] != [] then [list[0]] else []) + NonEmpty(list[1..])
  }

  /** Nothing but empty data is behind empty data. */
  predicate EmptyAtEnd(list: seq<seq<Byte>>) {
    forall i, j :: 0 <= i < j < |list| && list[i] == [] ==> list[j] == []
  }

  lemma {:induction false} ServiceDataIsNonEmpty(calls: seq<Call>)
    ensures ServiceData(calls) == NonEmpty(AllData(calls))
    decreases |calls|
  {
    if calls != [] {
      ServiceDataIsNonEmpty(calls[1..]);
      var rest := AllData(calls[1..]);
      if calls[0].SetServiceData? {
        assert AllData(calls) == [calls[0].data] + rest;
        assert AllData(calls)[1..] == rest;
      } else {
        assert AllData(calls) == rest && ServiceData(calls) == ServiceData(calls[1..]);
      }
    }
  }

  lemma {:induction false} NonEmptyLength(list: seq<seq<Byte>>)
    ensures |NonEmpty(list)| <= |list| && [] !in NonEmpty(list)
    ensures |NonEmpty(list)| == |list| <==> [] !in list
    ensures NonEmpty(list) == [] <==> forall x :: x in list ==> x == []
    decreases |list|
  {
    if list != [] {
      var first, rest := list[0], list[1..];
      NonEmptyLength(rest);
      assert forall x :: x in list <==> x == first || x in rest;
      assert first in list && [] + NonEmpty(rest) == NonEmpty(rest);
    }
  }

  lemma AtEndFirst(first: seq<Byte>, rest: seq<seq<Byte>>)
    ensures first != [] ==> EmptyAtEnd([first] + rest) == EmptyAtEnd(rest)
    ensures first == [] ==> EmptyAtEnd([first] + rest) == forall x :: x in rest ==> x == []
  {
    var list := [first] + rest;
    assert list[0] == first && forall i :: 0 <= i < |rest| ==> list[i + 1] == rest[i];
    assert forall j :: 0 < j < |list| ==> list[j] == rest[j - 1] && list[j] in rest;
    if EmptyAtEnd(list) {
      forall i, j | 0 <= i < j < |rest| && rest[i] == [] ensures rest[j] == [] {
        assert list[i + 1] == [] && list[j + 1] == rest[j];
      }
      if first == [] {
        forall x | x in rest ensures x == [] {
          var i :| 0 <= i < |rest| && rest[i] == x;
          assert list[i + 1] == [];
        }
      }
    }
  }

  lemma {:induction false} NonEmptyInPlace(list: seq<seq<Byte>>)
    ensures NonEmpty(list) <= list <==> EmptyAtEnd(list)
    decreases |list|
  {
    hide EmptyAtEnd;
    if list == [] {
      NothingAtEnd();
    } else {
      var first, rest := list[0], list[1..];
      assert list == [first] + rest;
      AtEndFirst(first, rest);
      NonEmptyInPlace(rest);
      NonEmptyLength(rest);
      PrefixFirst(first, rest, NonEmpty(rest));
    }
  }

  lemma NothingAtEnd()
    ensures EmptyAtEnd([])
  {
  }

  lemma PrefixFirst(first: seq<Byte>, rest: seq<seq<Byte>>, kept: seq<seq<Byte>>)
    requires [] !in kept
    ensures [first] + kept <= [first] + rest <==> kept <= rest
    ensures first == [] ==> ([] + kept <= [first] + rest <==> kept == [])
  {
    assert ([first] + kept)[1..] == kept && ([first] + rest)[1..] == rest;
    assert [] + kept == kept && (kept != [] ==> kept[0] in kept);
  }

  /** What a reader learns of the accepted calls: every service data stands at the index of its
      UUID if and only if no empty one comes in front of one that is not, and the two lists have
      the same length if and only if none is empty. */
  lemma ServiceDataAligned(calls: seq<Call>)
    ensures WellFormed(AddAll([], calls))
    ensures var device, all := Parse(NEW_DEVICE, AddAll([], calls)), AllData(Accepted([], calls));
      && device.serviceDataUuids == ServiceDataUuids(Accepted([], calls)) && |all| == |device.serviceDataUuids|
      && (device.serviceData <= all <==> EmptyAtEnd(all))
      && (|device.serviceData| == |device.serviceDataUuids| <==> [] !in all)
  {
    hide AddAll, Accepted, Parse, WellFormed, NonEmpty, EmptyAtEnd;
    var accepted := Accepted([], calls);
    AdvertisementRoundTrip(calls);
    ServiceDataIsNonEmpty(accepted);
    NonEmptyLength(AllData(accepted));
    NonEmptyInPlace(AllData(accepted));
    assert NEW_DEVICE.serviceData + ServiceData(accepted) == ServiceData(accepted);
    assert NEW_DEVICE.serviceDataUuids + ServiceDataUuids(accepted) == ServiceDataUuids(accepted);
  }

  /** The two objects, one after the other. */
  method AdvertiseAndRead(calls: seq<Call>) returns (device: BLEAdvertisedDevice)
    ensures fresh(device) && device.Current() == Learned(NEW_DEVICE, Accepted([], calls))
  {
    AdvertisementRoundTrip(calls);
    var data := new BLEAdvertisementData();
    for i := 0 to |calls|
      invariant AddAll(data.payload, calls[i..]) == AddAll([], calls)
    {
      assert calls[i..][1..] == calls[i + 1..];
      data.Set(calls[i]);
    }
    device := new BLEAdvertisedDevice();
    if data.payload != [] {
      var _ := device.ParseAdvertisement(data.payload);
    }
  }
}
