/**
 * The small value types and constants of the device header: a USB
 * vendor/product id pair, the ids an Android device enumerates under once it
 * is in accessory mode, and the buffer sizes the device uses.
 */
module DeviceIds {

  type Uint16 = x: int | 0 <= x < 0x1_0000

  /** A vendor id and a product id; the default-constructed id is (0, 0). */
  datatype MayaUsbDeviceId = MayaUsbDeviceId(vid: Uint16, pid: Uint16)

  /** The default constructor of the id. */
  function DefaultId(): (id: MayaUsbDeviceId)
    ensures id.vid == 0 && id.pid == 0
  {
    MayaUsbDeviceId(0, 0)
  }

  /** Google's vendor id and the two product ids of the Android Open Accessory protocol. */
  const GOOGLE_VID: Uint16 := 0x18D1
  const AOA_ACCESSORY_PID: Uint16 := 0x2D00
  const AOA_ACCESSORY_ADB_PID: Uint16 := 0x2D01

  /** The candidates tried by the default device constructor: plain accessory first, then accessory + ADB. */
  function AoapIds(): (ids: seq<MayaUsbDeviceId>)
    ensures |ids| == 2
    ensures forall id <- ids :: id.vid == GOOGLE_VID
    ensures ids[0].pid == AOA_ACCESSORY_PID && ids[1].pid == AOA_ACCESSORY_ADB_PID
  {
    [MayaUsbDeviceId(GOOGLE_VID, AOA_ACCESSORY_PID), MayaUsbDeviceId(GOOGLE_VID, AOA_ACCESSORY_ADB_PID)]
  }

  /** The single candidate used by the two-argument device constructor. */
  function SingleCandidate(vid: Uint16, pid: Uint16): (ids: seq<MayaUsbDeviceId>)
    ensures |ids| == 1 && ids[0].vid == vid && ids[0].pid == pid
  {
    [MayaUsbDeviceId(vid, pid)]
  }

  /** Size of one bulk transfer buffer, and so of one payload chunk. */
  const BUFFER_LEN: nat := 16384

  /** Capacity of the RGB staging buffer: 16 MiB. */
  const RGB_IMAGE_SIZE: nat := 1024 * 1024 * 16
}
