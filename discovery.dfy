/**
 * Opening a device: the candidate id list is tried in order and the first id
 * that opens is bound; the device descriptor, the manufacturer and product
 * strings and the active configuration are then read, and the endpoints of the
 * first alternate setting of the first interface are classified by the
 * direction bit of their address. libusb is replaced by `UsbBus`, the devices
 * that would open, each with what libusb would report for it.
 */
module Discovery {
  import opened Wrappers
  import opened Wire
  import opened DeviceIds

  /**
   * What libusb reports for a device that opens: whether its device descriptor
   * is readable, its manufacturer and product strings (None when the read
   * fails), and the `bEndpointAddress` of every endpoint of interface 0,
   * alternate setting 0 of the active configuration (None when that
   * configuration cannot be read).
   */
  datatype AttachedDevice = AttachedDevice(
    deviceDescriptor: bool,
    manufacturer: Option<string>,
    product: Option<string>,
    endpoints: Option<seq<Byte>>)

  /** The ids `libusb_open_device_with_vid_pid` succeeds for, and their devices. */
  type UsbBus = map<MayaUsbDeviceId, AttachedDevice>

  // ---------------------------------------------------------------------------
  // Candidate selection

  /** The first candidate, in list order, that opens. */
  function FirstOpenable(ids: seq<MayaUsbDeviceId>, bus: UsbBus): (r: Option<MayaUsbDeviceId>)
    ensures r.Some? ==> r.value in ids && r.value in bus
  {
    if ids == [] then None
    else if ids[0] in bus then Some(ids[0])
    else FirstOpenable(ids[1..], bus)
  }

  /** `FirstOpenable` finds nothing exactly when no candidate opens, and otherwise the earliest one that does. */
  lemma {:induction false} FirstOpenableIsFirst(ids: seq<MayaUsbDeviceId>, bus: UsbBus)
    ensures FirstOpenable(ids, bus).None? <==> forall j :: 0 <= j < |ids| ==> ids[j] !in bus
    ensures FirstOpenable(ids, bus).Some? ==>
              exists j :: 0 <= j < |ids| && ids[j] == FirstOpenable(ids, bus).value && ids[j] in bus &&
                          forall i :: 0 <= i < j ==> ids[i] !in bus
  {
    if ids != [] && ids[0] !in bus {
      FirstOpenableIsFirst(ids[1..], bus);
      if FirstOpenable(ids, bus).Some? {
        var j :| 0 <= j < |ids[1..]| && ids[1..][j] == FirstOpenable(ids, bus).value && ids[1..][j] in bus &&
                 forall i :: 0 <= i < j ==> ids[1..][i] !in bus;
        assert ids[j + 1] == ids[1..][j];
        forall i | 0 <= i < j + 1 ensures ids[i] !in bus {
          if i > 0 { assert ids[i] == ids[1..][i - 1]; }
        }
      } else {
        forall j | 0 <= j < |ids| ensures ids[j] !in bus {
          if j > 0 { assert ids[j] == ids[1..][j - 1]; }
        }
      }
    }
  }

  /** With both accessory ids present, the default candidate list binds the plain accessory id, not the ADB one. */
  lemma AccessoryPreferredOverAdb(bus: UsbBus)
    requires AoapIds()[0] in bus
    ensures FirstOpenable(AoapIds(), bus) == Some(MayaUsbDeviceId(GOOGLE_VID, AOA_ACCESSORY_PID))
  {
  }

  /** The id loop of the constructor: the first id whose open succeeds is kept. */
  method SelectCandidate(ids: seq<MayaUsbDeviceId>, bus: UsbBus) returns (r: Option<MayaUsbDeviceId>)
    ensures r == FirstOpenable(ids, bus)
  {
    r := None;
    var i := 0;
    while i < |ids|
      invariant 0 <= i <= |ids|
      invariant FirstOpenable(ids, bus) == FirstOpenable(ids[i..], bus)
    {
      assert ids[i..][1..] == ids[i + 1..];
      if ids[i] in bus {
        r := Some(ids[i]);
        return;
      }
      i := i + 1;
    }
  }

  // ---------------------------------------------------------------------------
  // Endpoint classification (USB 2.0 specification, section 9.6.6: bit 7 of
  // bEndpointAddress is the direction, 1 = IN)

  const ENDPOINT_DIR_MASK: bv8 := 0x80
  const LIBUSB_ENDPOINT_IN: bv8 := 0x80
  const LIBUSB_ENDPOINT_OUT: bv8 := 0x00

  /**
   * The masked direction test. The direction bit is the top bit: IN
   * addresses are exactly those of 0x80 and above, and none is 0.
   */
  predicate IsInEndpoint(address: Byte): (r: bool)
    ensures r <==> address >= 0x80
    ensures r ==> address != 0
  {
    TopBitMask(address);
    (address as bv8) & ENDPOINT_DIR_MASK == LIBUSB_ENDPOINT_IN
  }

  /** Masking a byte with 0x80 leaves 0x80 exactly when the byte is 0x80 or more. */
  lemma TopBitMask(address: Byte)
    ensures (address as bv8) & ENDPOINT_DIR_MASK == LIBUSB_ENDPOINT_IN <==> address >= 0x80
  {
  }

  /** The field value left by the endpoint loop: the last address of the wanted direction, or `initial` if there is none. */
  function LastInDirection(addrs: seq<Byte>, wantIn: bool, initial: Byte): (r: Byte)
    ensures r == initial || (r in addrs && IsInEndpoint(r) == wantIn)
  {
    if |addrs| == 0 then initial
    else if IsInEndpoint(addrs[|addrs| - 1]) == wantIn then addrs[|addrs| - 1]
    else LastInDirection(addrs[..|addrs| - 1], wantIn, initial)
  }

  /** With no endpoint of the wanted direction, the field keeps its initial value. */
  lemma {:induction false} NoneInDirection(addrs: seq<Byte>, wantIn: bool, initial: Byte)
    requires forall j :: 0 <= j < |addrs| ==> IsInEndpoint(addrs[j]) != wantIn
    ensures LastInDirection(addrs, wantIn, initial) == initial
  {
    if |addrs| > 0 {
      var front := addrs[..|addrs| - 1];
      forall j | 0 <= j < |front| ensures IsInEndpoint(front[j]) != wantIn {
        assert front[j] == addrs[j];
      }
      NoneInDirection(front, wantIn, initial);
    }
  }

  /**
   * When some address, at `j0`, has the wanted direction, the field ends
   * holding an address of that direction at or after `j0` and after which no
   * address has it: the last one.
   */
  lemma {:induction false} LastInDirectionIsLast(addrs: seq<Byte>, wantIn: bool, initial: Byte, j0: nat)
    requires j0 < |addrs| && IsInEndpoint(addrs[j0]) == wantIn
    ensures exists j :: j0 <= j < |addrs| && addrs[j] == LastInDirection(addrs, wantIn, initial) &&
                        IsInEndpoint(addrs[j]) == wantIn &&
                        forall k :: j < k < |addrs| ==> IsInEndpoint(addrs[k]) != wantIn
  {
    var last := |addrs| - 1;
    if IsInEndpoint(addrs[last]) == wantIn {
      assert addrs[last] == LastInDirection(addrs, wantIn, initial);
    } else {
      var front := addrs[..last];
      assert front[j0] == addrs[j0];
      LastInDirectionIsLast(front, wantIn, initial, j0);
      var j :| j0 <= j < |front| && front[j] == LastInDirection(front, wantIn, initial) &&
               IsInEndpoint(front[j]) == wantIn &&
               forall k :: j < k < |front| ==> IsInEndpoint(front[k]) != wantIn;
      assert addrs[j] == front[j];
      forall k | j < k < |addrs| ensures IsInEndpoint(addrs[k]) != wantIn {
        if k < last {
          assert addrs[k] == front[k];
        }
      }
    }
  }


  /**
   * The endpoint loop as written: each IN address is stored into the IN field,
   * each OUT address into the OUT field, starting from whatever the fields
   * held. The constructor never initialises them.
   */
  method ClassifyEndpoints(addrs: seq<Byte>, inInitial: Byte, outInitial: Byte) returns (inEndpoint: Byte, outEndpoint: Byte)
    ensures inEndpoint == LastInDirection(addrs, true, inInitial)
    ensures outEndpoint == LastInDirection(addrs, false, outInitial)
  {
    inEndpoint, outEndpoint := inInitial, outInitial;
    var i := 0;
    while i < |addrs|
      invariant 0 <= i <= |addrs|
      invariant inEndpoint == LastInDirection(addrs[..i], true, inInitial)
      invariant outEndpoint == LastInDirection(addrs[..i], false, outInitial)
    {
      var address := addrs[i];
      var isIn := (address as bv8) & ENDPOINT_DIR_MASK == LIBUSB_ENDPOINT_IN;
      var isOut := (address as bv8) & ENDPOINT_DIR_MASK == LIBUSB_ENDPOINT_OUT;
      assert addrs[..i + 1][..i] == addrs[..i];
      if isIn {
        inEndpoint := address;
      } else if isOut {
        outEndpoint := address;
      }
      i := i + 1;
    }
    assert addrs[..i] == addrs;
  }

  /** An interface with one OUT endpoint and no IN endpoint keeps a stale IN value. */
  lemma UninitialisedInEndpointSurvives()
    ensures LastInDirection([0x01], true, 0x81) == 0x81
    ensures !IsInEndpoint(0x01)
  {
  }

  /**
   * The endpoint loop started from 0, the "absent" address: the IN field is 0
   * exactly when the interface has no IN endpoint, and otherwise the last IN
   * address; likewise for OUT when no OUT address is 0.
   */
  method ResolveEndpoints(addrs: seq<Byte>) returns (inEndpoint: Byte, outEndpoint: Byte)
    ensures inEndpoint == LastInDirection(addrs, true, 0)
    ensures outEndpoint == LastInDirection(addrs, false, 0)
    ensures inEndpoint == 0 <==> forall j :: 0 <= j < |addrs| ==> !IsInEndpoint(addrs[j])
    ensures (forall j :: 0 <= j < |addrs| ==> addrs[j] != 0) ==>
              (outEndpoint == 0 <==> forall j :: 0 <= j < |addrs| ==> IsInEndpoint(addrs[j]))
  {
    inEndpoint, outEndpoint := ClassifyEndpoints(addrs, 0, 0);
    if j0 :| 0 <= j0 < |addrs| && IsInEndpoint(addrs[j0]) {
      LastInDirectionIsLast(addrs, true, 0, j0);
    } else {
      NoneInDirection(addrs, true, 0);
    }
    if j0 :| 0 <= j0 < |addrs| && !IsInEndpoint(addrs[j0]) {
      LastInDirectionIsLast(addrs, false, 0, j0);
    } else {
      NoneInDirection(addrs, false, 0);
    }
  }

  // ---------------------------------------------------------------------------
  // getDescription

  const HEX_DIGITS: string := "0123456789abcdef"

  /** The value of a lowercase hexadecimal digit. */
  function HexValue(c: char): nat
  {
    if '0' <= c <= '9' then (c - '0') as nat
    else if 'a' <= c <= 'f' then (c - 'a') as nat + 10
    else 0
  }

  /** `std::hex` with `std::setw(4)` and fill '0': four lowercase digits, most significant first. */
  function Hex4(v: Uint16): (s: string)
    ensures |s| == 4
    ensures forall c <- s :: c in HEX_DIGITS
  {
    var q1 := v / 0x10;
    var q2 := q1 / 0x10;
    var q3 := q2 / 0x10;
    [HEX_DIGITS[q3], HEX_DIGITS[q2 % 0x10], HEX_DIGITS[q1 % 0x10], HEX_DIGITS[v % 0x10]]
  }

  function ParseHex4(s: string): nat
    requires |s| == 4
  {
    HexValue(s[0]) * 0x1000 + HexValue(s[1]) * 0x100 + HexValue(s[2]) * 0x10 + HexValue(s[3])
  }

  lemma HexDigitValue(d: nat)
    requires d < 16
    ensures HexValue(HEX_DIGITS[d]) == d
  {
  }

  /** The four digits give back the id they print. */
  lemma Hex4RoundTrip(v: Uint16)
    ensures ParseHex4(Hex4(v)) == v
  {
    var q1 := v / 0x10;
    var q2 := q1 / 0x10;
    var q3 := q2 / 0x10;
    assert v == 0x10 * q1 + v % 0x10;
    assert q1 == 0x10 * q2 + q1 % 0x10;
    assert q2 == 0x10 * q3 + q2 % 0x10;
    HexDigitValue(q3);
    HexDigitValue(q2 % 0x10);
    HexDigitValue(q1 % 0x10);
    HexDigitValue(v % 0x10);
  }

  /** `getDescription`: "vvvv:pppp Manufacturer Product". */
  function Description(id: MayaUsbDeviceId, manufacturer: string, product: string): (s: string)
    ensures |s| == 11 + |manufacturer| + |product|
  {
    Hex4(id.vid) + ":" + Hex4(id.pid) + " " + manufacturer + " " + product
  }

  /**
   * The description starts with the vendor id and the product id as four hex
   * digits each, separated by ':', and the two ids can be read back from it;
   * the manufacturer and the product follow, each after one space.
   */
  lemma DescriptionLayout(id: MayaUsbDeviceId, manufacturer: string, product: string)
    ensures var s := Description(id, manufacturer, product);
            s[4] == ':' && s[9] == ' ' && s[10 + |manufacturer|] == ' ' &&
            ParseHex4(s[..4]) == id.vid && ParseHex4(s[5..9]) == id.pid &&
            s[10..10 + |manufacturer|] == manufacturer && s[11 + |manufacturer|..] == product
  {
    JoinedLayout(Hex4(id.vid), Hex4(id.pid), manufacturer, product);
    Hex4RoundTrip(id.vid);
    Hex4RoundTrip(id.pid);
  }

  /** Where the four parts of a description sit in the joined string. */
  lemma JoinedLayout(vid: string, pid: string, manufacturer: string, product: string)
    requires |vid| == 4 && |pid| == 4
    ensures var s := vid + ":" + pid + " " + manufacturer + " " + product;
            s[4] == ':' && s[9] == ' ' && s[10 + |manufacturer|] == ' ' &&
            s[..4] == vid && s[5..9] == pid &&
            s[10..10 + |manufacturer|] == manufacturer && s[11 + |manufacturer|..] == product
  {
  }

  // ---------------------------------------------------------------------------
  // The constructor's open sequence

  /** The constructor's exceptions, in the order it can throw them. */
  datatype ConnectError =
    | NoMatchingDevice       // "Could not create device with given VIDs/PIDs"
    | NoDeviceDescriptor     // "Could not get device descriptor"
    | NoManufacturerString   // "Could not get manufacturer string"
    | NoProductString        // "Could not get product string"
    | NoConfigDescriptor     // "Could not get configuration descriptor"

  /** What an opened device holds: its id, its strings and its endpoint addresses (0 = absent). */
  datatype Connection = Connection(
    id: MayaUsbDeviceId, manufacturer: string, product: string, inEndpoint: Byte, outEndpoint: Byte)

  /**
   * The device constructor up to the end of the endpoint loop: it binds the
   * first candidate that opens and throws if none does; it then throws, having
   * closed the handle, at the first descriptor read that fails.
   */
  method Connect(ids: seq<MayaUsbDeviceId>, bus: UsbBus) returns (r: Result<Connection, ConnectError>)
    ensures FirstOpenable(ids, bus).None? <==> r == Failure(NoMatchingDevice)
    ensures FirstOpenable(ids, bus).Some? ==>
              var id := FirstOpenable(ids, bus).value;
              id in bus &&
              var dev := bus[id];
              if !dev.deviceDescriptor then r == Failure(NoDeviceDescriptor)
              else if dev.manufacturer.None? then r == Failure(NoManufacturerString)
              else if dev.product.None? then r == Failure(NoProductString)
              else if dev.endpoints.None? then r == Failure(NoConfigDescriptor)
              else r.Success? &&
                   r.value.id == id &&
                   r.value.manufacturer == dev.manufacturer.value &&
                   r.value.product == dev.product.value &&
                   r.value.inEndpoint == LastInDirection(dev.endpoints.value, true, 0) &&
                   r.value.outEndpoint == LastInDirection(dev.endpoints.value, false, 0)
  {
    FirstOpenableIsFirst(ids, bus);
    var found := SelectCandidate(ids, bus);
    if found.None? {
      return Failure(NoMatchingDevice);
    }
    var id := found.value;
    var dev := bus[id];
    if !dev.deviceDescriptor {
      return Failure(NoDeviceDescriptor);
    }
    if dev.manufacturer.None? {
      return Failure(NoManufacturerString);
    }
    if dev.product.None? {
      return Failure(NoProductString);
    }
    if dev.endpoints.None? {
      return Failure(NoConfigDescriptor);
    }
    var inEndpoint, outEndpoint := ResolveEndpoints(dev.endpoints.value);
    return Success(Connection(id, dev.manufacturer.value, dev.product.value, inEndpoint, outEndpoint));
  }
}
