/**
 * Switching a phone into accessory mode (Android Open Accessory protocol 1.0):
 * read the protocol version with vendor request 51, send the six identifying
 * strings with request 52, then start accessory mode with request 53. Each
 * control transfer is answered by a `ControlPort`, which says what the phone
 * replies; the first failure ends the negotiation.
 */
module Accessory {
  import opened Wrappers
  import opened Wire

  const ACCESSORY_GET_PROTOCOL: Byte := 51
  const ACCESSORY_SEND_STRING: Byte := 52
  const ACCESSORY_START: Byte := 53

  /** bmRequestType: vendor request, device-to-host (0xC0) or host-to-device (0x40). */
  const VENDOR_IN: Byte := 0xC0
  const VENDOR_OUT: Byte := 0x40

  /** One control transfer: request type, request, wValue, wIndex and the bytes sent with it. */
  datatype ControlRequest = ControlRequest(requestType: Byte, request: Byte, value: nat, index: nat, data: string)

  /** The strings sent with request 52, at wIndex 0 to 5: manufacturer, model, description, version, URI, serial. */
  const IDENTITY: seq<string> := ["SiriusCybernetics", "MayaUsb", "Maya USB streaming", "0.42", "https://sdao.me", "42"]

  /** Request 51: a device-to-host read of the protocol version, carrying nothing. */
  function GetProtocolRequest(): (r: ControlRequest)
    ensures r.requestType >= 0x80 && r.request == ACCESSORY_GET_PROTOCOL && r.data == ""
  {
    ControlRequest(VENDOR_IN, ACCESSORY_GET_PROTOCOL, 0, 0, "")
  }

  /** Request 52: a host-to-device write of identity string `index`, carried at wIndex `index`. */
  function SendStringRequest(index: nat): (r: ControlRequest)
    requires index < |IDENTITY|
    ensures r.requestType < 0x80 && r.request == ACCESSORY_SEND_STRING && r.index == index && r.data == IDENTITY[index]
  {
    ControlRequest(VENDOR_OUT, ACCESSORY_SEND_STRING, 0, index, IDENTITY[index])
  }

  /** Request 53: a host-to-device request that starts accessory mode, carrying nothing. */
  function StartRequest(): (r: ControlRequest)
    ensures r.requestType < 0x80 && r.request == ACCESSORY_START && r.data == ""
  {
    ControlRequest(VENDOR_OUT, ACCESSORY_START, 0, 0, "")
  }

  /**
   * The phone's side of the control pipe: the two bytes it returns for
   * request 51, low byte first (None when the transfer fails), and whether
   * each host-to-device request succeeds.
   */
  datatype ControlPort = ControlPort(versionReply: Option<(Byte, Byte)>, accepts: ControlRequest -> bool)

  /** Why the negotiation stopped. */
  datatype AccessoryError =
    | GetRequestFailed                             // "Could not get request"
    | UnsupportedProtocol(version: int)            // "AOA protocol version < 1"
    | SendRequestFailed(request: ControlRequest)   // "Could not send request"

  /** The control transfers issued, in order, and the error that stopped the negotiation, if any. */
  datatype Negotiation = Negotiation(sent: seq<ControlRequest>, error: Option<AccessoryError>)

  /** Every request of a successful negotiation, in order. */
  function ProtocolSequence(): (r: seq<ControlRequest>)
    ensures |r| == 8
  {
    [GetProtocolRequest()] + seq(6, i requires 0 <= i < 6 => SendStringRequest(i)) + [StartRequest()]
  }

  /** The requests 52 from wIndex `index` on, stopping at the first one the phone refuses. */
  function SendStrings(port: ControlPort, index: nat): (r: Negotiation)
    requires index <= |IDENTITY|
    ensures |r.sent| <= |IDENTITY| - index
    ensures r.error.Some? ==> |r.sent| > 0
    decreases |IDENTITY| - index
  {
    if index == |IDENTITY| then Negotiation([], None)
    else
      var request := SendStringRequest(index);
      if !port.accepts(request) then Negotiation([request], Some(SendRequestFailed(request)))
      else
        var rest := SendStrings(port, index + 1);
        Negotiation([request] + rest.sent, rest.error)
  }

  /** `convertToAccessory`. */
  function ConvertToAccessory(port: ControlPort): (r: Negotiation)
    ensures 0 < |r.sent| <= |ProtocolSequence()| && r.sent[0] == GetProtocolRequest()
    ensures r.error.None? ==> |r.sent| == |ProtocolSequence()|
  {
    match port.versionReply
    case None => Negotiation([GetProtocolRequest()], Some(GetRequestFailed))
    case Some((lo, hi)) =>
      var version := Int16LittleEndian(lo, hi);
      if version < 1 then Negotiation([GetProtocolRequest()], Some(UnsupportedProtocol(version)))
      else
        var strings := SendStrings(port, 0);
        if strings.error.Some? then Negotiation([GetProtocolRequest()] + strings.sent, strings.error)
        else if port.accepts(StartRequest()) then Negotiation([GetProtocolRequest()] + strings.sent + [StartRequest()], None)
        else Negotiation([GetProtocolRequest()] + strings.sent + [StartRequest()], Some(SendRequestFailed(StartRequest())))
  }

  /** Every phone answer accepted from `index` on. */
  predicate AcceptsStringsFrom(port: ControlPort, index: nat)
    requires index <= |IDENTITY|
  {
    forall i :: index <= i < |IDENTITY| ==> port.accepts(SendStringRequest(i))
  }

  /** The requests 52 go out in wIndex order, as a prefix of the remaining ones. */
  lemma {:induction false} SendStringsInOrder(port: ControlPort, index: nat)
    requires index <= |IDENTITY|
    ensures var r := SendStrings(port, index);
            |r.sent| <= |IDENTITY| - index &&
            forall k :: 0 <= k < |r.sent| ==> r.sent[k] == SendStringRequest(index + k)
    decreases |IDENTITY| - index
  {
    if index < |IDENTITY| && port.accepts(SendStringRequest(index)) {
      SendStringsInOrder(port, index + 1);
      OneMoreString(index, SendStrings(port, index + 1).sent, SendStrings(port, index).sent);
    }
  }

  /** Putting request 52 for `index` before the ones for `index + 1` on keeps them in wIndex order. */
  lemma OneMoreString(index: nat, rest: seq<ControlRequest>, sent: seq<ControlRequest>)
    requires index < |IDENTITY| && |rest| <= |IDENTITY| - index - 1
    requires forall k :: 0 <= k < |rest| ==> rest[k] == SendStringRequest(index + 1 + k)
    requires sent == [SendStringRequest(index)] + rest
    ensures forall k :: 0 <= k < |sent| ==> sent[k] == SendStringRequest(index + k)
  {
    forall k | 0 <= k < |sent| ensures sent[k] == SendStringRequest(index + k) {
      if k > 0 { assert sent[k] == rest[k - 1]; }
    }
  }

  /** All remaining requests 52 go out, with no error, exactly when the phone accepts all of them. */
  lemma {:induction false} SendStringsSucceedIff(port: ControlPort, index: nat)
    requires index <= |IDENTITY|
    ensures SendStrings(port, index).error.None? <==> AcceptsStringsFrom(port, index)
    ensures SendStrings(port, index).error.None? ==> |SendStrings(port, index).sent| == |IDENTITY| - index
    decreases |IDENTITY| - index
  {
    if index < |IDENTITY| && port.accepts(SendStringRequest(index)) {
      SendStringsSucceedIff(port, index + 1);
    }
  }

  /** When a request 52 fails, it is the last one sent, and every earlier one was accepted. */
  lemma {:induction false} SendStringsStopAtRefusal(port: ControlPort, index: nat)
    requires index <= |IDENTITY|
    ensures var r := SendStrings(port, index);
            r.error.Some? ==> |r.sent| > 0 && r.error == Some(SendRequestFailed(r.sent[|r.sent| - 1])) &&
                              !port.accepts(r.sent[|r.sent| - 1]) &&
                              forall k :: 0 <= k < |r.sent| - 1 ==> port.accepts(r.sent[k])
    decreases |IDENTITY| - index
  {
    if index < |IDENTITY| && port.accepts(SendStringRequest(index)) {
      SendStringsStopAtRefusal(port, index + 1);
      var rest := SendStrings(port, index + 1);
      var r := SendStrings(port, index);
      if r.error.Some? {
        assert r.sent[|r.sent| - 1] == rest.sent[|rest.sent| - 1];
        forall k | 0 <= k < |r.sent| - 1 ensures port.accepts(r.sent[k]) {
          if k > 0 { assert r.sent[k] == rest.sent[k - 1]; }
        }
      }
    }
  }

  /**
   * The negotiation succeeds exactly when the phone reports a version of at
   * least 1 and accepts every request 52 and the request 53; it then issued
   * the whole protocol sequence.
   */
  lemma ConvertSucceedsIff(port: ControlPort)
    ensures var r := ConvertToAccessory(port);
            r.error.None? <==>
              (port.versionReply.Some? &&
               Int16LittleEndian(port.versionReply.value.0, port.versionReply.value.1) >= 1 &&
               AcceptsStringsFrom(port, 0) && port.accepts(StartRequest()))
    ensures ConvertToAccessory(port).error.None? ==> ConvertToAccessory(port).sent == ProtocolSequence()
  {
    SendStringsInOrder(port, 0);
    SendStringsSucceedIff(port, 0);
    var r := ConvertToAccessory(port);
    if r.error.None? {
      var strings := SendStrings(port, 0);
      assert r.sent == [GetProtocolRequest()] + strings.sent + [StartRequest()];
      assert r.sent == ProtocolSequence();
    }
  }

  /** A phone that is not AOA-capable (version below 1, or no answer) receives only the version request. */
  lemma NoStringsWithoutProtocol(port: ControlPort)
    requires port.versionReply.None? ||
             Int16LittleEndian(port.versionReply.value.0, port.versionReply.value.1) < 1
    ensures ConvertToAccessory(port).sent == [GetProtocolRequest()]
    ensures ConvertToAccessory(port).error.Some?
  {
  }

  /**
   * Whatever the phone answers, what was sent is a non-empty prefix of the
   * protocol sequence: the version request first, then the strings in order,
   * then the start request; only the last request sent can have failed.
   */
  lemma SentIsProtocolPrefix(port: ControlPort)
    ensures var r := ConvertToAccessory(port);
            0 < |r.sent| <= |ProtocolSequence()| && r.sent == ProtocolSequence()[..|r.sent|]
    ensures var r := ConvertToAccessory(port);
            forall k :: 1 <= k < |r.sent| - 1 ==> port.accepts(r.sent[k])
  {
    if port.versionReply.Some? && Int16LittleEndian(port.versionReply.value.0, port.versionReply.value.1) >= 1 {
      StringsFollowVersionRequest(port);
      StringsBeforeLastAccepted(port);
    }
  }

  /** Once the version is accepted, the strings go out in order after the version request. */
  lemma StringsFollowVersionRequest(port: ControlPort)
    requires port.versionReply.Some? && Int16LittleEndian(port.versionReply.value.0, port.versionReply.value.1) >= 1
    ensures var r := ConvertToAccessory(port);
            r.sent == ProtocolSequence()[..|r.sent|]
  {
    SendStringsInOrder(port, 0);
    SendStringsSucceedIff(port, 0);
    var r := ConvertToAccessory(port);
    var full := ProtocolSequence();
    var strings := SendStrings(port, 0);
    forall k | 0 <= k < |strings.sent| ensures strings.sent[k] == full[k + 1] {
      assert strings.sent[k] == SendStringRequest(k);
    }
    if strings.error.Some? {
      assert r.sent == [GetProtocolRequest()] + strings.sent;
    } else {
      assert r.sent == [GetProtocolRequest()] + strings.sent + [StartRequest()];
      assert r.sent == full;
    }
  }

  /** Once the version is accepted, every string request before the last one sent was accepted. */
  lemma StringsBeforeLastAccepted(port: ControlPort)
    requires port.versionReply.Some? && Int16LittleEndian(port.versionReply.value.0, port.versionReply.value.1) >= 1
    ensures var r := ConvertToAccessory(port);
            forall k :: 1 <= k < |r.sent| - 1 ==> port.accepts(r.sent[k])
  {
    SendStringsSucceedIff(port, 0);
    SendStringsStopAtRefusal(port, 0);
    SendStringsInOrder(port, 0);
    var r := ConvertToAccessory(port);
    var strings := SendStrings(port, 0);
    forall k | 1 <= k < |r.sent| - 1 ensures port.accepts(r.sent[k]) {
      assert r.sent[k] == strings.sent[k - 1];
      if strings.error.None? {
        assert AcceptsStringsFrom(port, 0);
      }
    }
  }
}
