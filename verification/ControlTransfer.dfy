/** Control transfers of the standard device requests on endpoint zero (sections 8.5.3 and
    9.4.3 of the USB 2.0 specification): a descriptor is sent in packets of eight bytes, one
    in the setup interrupt and one for every data interrupt that follows. */
module ControlTransfer {
  import opened Types

  const PACKET := 8
  const DEVICE_TO_HOST: u8 := 0x80
  const HOST_TO_DEVICE: u8 := 0x00
  const REQ_GET_DESCRIPTOR: u8 := 6
  const REQ_GET_CONFIGURATION: u8 := 8
  const REQ_SET_CONFIGURATION: u8 := 9

  datatype Handshake = Ack | Stall

  datatype Request = Request(requestType: u8, request: u8, value: u16, index: u16, length: u16)

  /** The descriptors of a device; a size fits the 16-bit response length. */
  datatype Descriptors = Descriptors(
    device: seq<u8>, configuration: seq<u8>,
    language: seq<u8>, vendor: seq<u8>, product: seq<u8>, serial: seq<u8>)
  {
    predicate Valid() {
      && |device| < 0x1_0000 && |configuration| < 0x1_0000 && |language| < 0x1_0000
      && |vendor| < 0x1_0000 && |product| < 0x1_0000 && |serial| < 0x1_0000
    }

    /** The descriptor a value selects: its high byte the type, its low byte the index. */
    function Select(value: u16): Option<seq<u8>> {
      var low := value % 256;
      match value / 256
      case 1 => Some(device)
      case 2 => Some(configuration)
      case 3 =>
        if low == 0 then Some(language)
        else if low == 1 then Some(vendor)
        else if low == 2 then Some(product)
        else if low == 3 then Some(serial)
        else None
      case _ => None
    }
  }

  function Min(a: nat, b: nat): nat { if a < b then a else b }

  /** What a device answers to a descriptor request in all. */
  function Answer(d: Descriptors, r: Request): Option<seq<u8>> {
    match d.Select(r.value)
    case Some(desc) => Some(desc[..Min(r.length, |desc|)])
    case None => None
  }

  /** The bytes of the answer; none for a descriptor the device does not have. */
  function AnswerBytes(d: Descriptors, r: Request): seq<u8> {
    match Answer(d, r) case Some(answer) => answer case None => []
  }

  predicate IsGetDescriptor(r: Request) {
    r.requestType == DEVICE_TO_HOST && r.request == REQ_GET_DESCRIPTOR
  }

  /** Requests to interfaces and endpoints and class requests have handlers of their own,
      which are not part of this model. */
  predicate Modelled(r: Request) {
    r.requestType !in {0x81, 0x21, 0x22, 0xa1, 0xa2, 0x01, 0xc0, 0xc1}
  }

  /** Packets of a transfer of `answer`: the `j`-th one is its `j`-th slice of eight bytes. */
  predicate Slices(answer: seq<u8>, packets: seq<seq<u8>>) {
    forall j :: 0 <= j < |packets| ==>
      packets[j] == answer[Min(PACKET * j, |answer|)..Min(PACKET * j + PACKET, |answer|)]
  }

  function Joined(packets: seq<seq<u8>>): seq<u8> {
    if |packets| == 0 then [] else Joined(packets[..|packets| - 1]) + packets[|packets| - 1]
  }

  /** The packets together are a prefix of the answer; nothing is missing once there are
      enough of them, no packet is longer than eight bytes, and the later ones are empty. */
  lemma {:induction false} SlicesAreTransfer(answer: seq<u8>, packets: seq<seq<u8>>)
    requires Slices(answer, packets)
    ensures Joined(packets) == answer[..Min(PACKET * |packets|, |answer|)]
    ensures PACKET * |packets| >= |answer| ==> Joined(packets) == answer
    ensures forall j :: 0 <= j < |packets| ==> |packets[j]| <= PACKET
    ensures forall j :: 0 <= j < |packets| && PACKET * j >= |answer| ==> packets[j] == []
  {
    if |packets| > 0 {
      var n := |packets| - 1;
      SlicesAreTransfer(answer, packets[..n]);
      var lo, hi := Min(PACKET * n, |answer|), Min(PACKET * n + PACKET, |answer|);
      assert answer[..hi] == answer[..lo] + answer[lo..hi];
    }
  }

  class ControlEndpoint {
    const descriptors: Descriptors
    var request: Request
    var response: seq<u8>
    var at: nat
    var responseLen: nat
    var stall: bool
    var configValue: u8
    /** The packets sent since the last setup. */
    ghost var packets: seq<seq<u8>>

    ghost predicate Valid()
      reads this
    {
      && Ready() && (IsGetDescriptor(request) ==> Transfer() && packets != [])
      && (stall <==> Stalled(descriptors, request, |packets|))
    }

    ghost predicate Ready()
      reads this
    {
      descriptors.Valid() && at + responseLen <= |response| && responseLen < 0x1_0000
    }

    /** A descriptor request: the packets so far are slices of the answer, and the rest of it
        is still to be sent. */
    ghost predicate Transfer()
      requires at + responseLen <= |response|
      reads this
    {
      var answer := AnswerBytes(descriptors, request);
      && Slices(answer, packets)
      && response[at..at + responseLen] == answer[Min(PACKET * |packets|, |answer|)..]
    }

    constructor (d: Descriptors)
      requires d.Valid()
      ensures Valid() && descriptors == d && packets == [] && !stall
    {
      descriptors := d;
      request := Request(HOST_TO_DEVICE, 0, 0, 0, 0);
      response, at, responseLen, stall, configValue := [], 0, 0, false, 0;
      packets := [];
      new;
      hide Answer, AnswerBytes, Slices, Refused;
    }

    /** `usb_send_response`: the next eight bytes, or what is left. */
    method SendResponse() returns (packet: seq<u8>)
      requires at + responseLen <= |response|
      modifies `at, `responseLen
      ensures at + responseLen <= |response| && responseLen <= old(responseLen)
      ensures var rest := old(response[at..at + responseLen]);
        && packet == rest[..Min(PACKET, |rest|)]
        && response[at..at + responseLen] == rest[Min(PACKET, |rest|)..]
    {
      var n := if responseLen < PACKET then responseLen else PACKET;
      responseLen := responseLen - n;
      packet := [];
      ghost var start, left := at, responseLen;
      while n > 0
        invariant responseLen == left && 0 <= n && start + |packet| == at && at + n + responseLen == old(at + responseLen)
        invariant packet == response[start..at]
      {
        assert response[start..at + 1] == response[start..at] + [response[at]];
        packet := packet + [response[at]];
        at := at + 1;
        n := n - 1;
      }
      Taken(response, start, at, at + responseLen);
      assert at - start == |packet| == Min(PACKET, old(responseLen));
    }

    /** `usb_prepare_desc_data`. */
    method PrepareDescriptor()
      requires descriptors.Valid()
      modifies `response, `at, `responseLen, `stall
      ensures Ready() && (stall <==> old(stall) || Answer(descriptors, request) == None)
      ensures response[at..at + responseLen] == AnswerBytes(descriptors, request)
    {
      response, at, responseLen := [], 0, 0;
      match descriptors.Select(request.value) {
        case Some(desc) => response, responseLen := desc, |desc|;
        case None => stall := true;
      }
      if request.length < responseLen {
        responseLen := request.length;
      }
    }

    /** The descriptor branch of `usb_handle_request`. */
    method DescriptorPacket(isSetup: bool) returns (packet: seq<u8>)
      requires Ready() && IsGetDescriptor(request)
      requires if isSetup then packets == [] else Transfer()
      modifies `response, `at, `responseLen, `stall
      ensures Ready() && (stall <==> old(stall) || (isSetup && Refused(descriptors, request)))
      ensures var answer := AnswerBytes(descriptors, request);
        && Slices(answer, packets + [packet])
        && response[at..at + responseLen] == answer[Min(PACKET * (|packets| + 1), |answer|)..]
    {
      hide Answer, AnswerBytes, Slices, Min;
      if isSetup {
        PrepareDescriptor();
        NoSlices(AnswerBytes(descriptors, request));
      }
      packet := SendNext(AnswerBytes(descriptors, request));
    }

    /** The next packet of an answer whose rest is about to be sent. */
    method SendNext(ghost answer: seq<u8>) returns (packet: seq<u8>)
      requires at + responseLen <= |response| && Slices(answer, packets)
      requires response[at..at + responseLen] == answer[Min(PACKET * |packets|, |answer|)..]
      modifies `at, `responseLen
      ensures at + responseLen <= |response| && responseLen <= old(responseLen)
      ensures Slices(answer, packets + [packet])
      ensures response[at..at + responseLen] == answer[Min(PACKET * (|packets| + 1), |answer|)..]
    {
      hide Slices;
      packet := SendResponse();
      NextSlice(answer, packets, packet);
    }

    /** `usb_handle_request` for the requests of this model. */
    method HandleRequest(isSetup: bool) returns (packet: seq<u8>)
      requires Ready() && Modelled(request)
      requires !stall && (if isSetup then packets == [] else IsGetDescriptor(request) ==> Transfer() && packets != [])
      modifies `response, `at, `responseLen, `stall, `configValue, `packets
      ensures Valid() && packets == old(packets) + [packet]
      ensures stall <==> (isSetup && Refused(descriptors, request)) || Unknown(request)
      ensures configValue == if IsSetConfiguration(request) then request.value % 256 else old(configValue)
      ensures IsGetConfiguration(request) ==> packet == [configValue]
    {
      hide Answer, AnswerBytes, Slices, Min;
      packet := [];
      if request.requestType == DEVICE_TO_HOST {
        if request.request == REQ_GET_DESCRIPTOR {
          packet := DescriptorPacket(isSetup);
        } else if request.request == REQ_GET_CONFIGURATION {
          packet := [configValue];
        }
      } else if request.requestType == HOST_TO_DEVICE {
        if request.request == REQ_SET_CONFIGURATION {
          configValue := request.value % 256;
        }
      } else {
        stall := true;
      }
      packets := packets + [packet];
    }

    /** The setup interrupt. */
    method HandleSetup(r: Request) returns (packet: seq<u8>, handshake: Handshake)
      requires Valid() && Modelled(r)
      modifies this
      ensures Valid() && request == r && packets == [packet]
      ensures stall <==> handshake == Stall
      ensures handshake == Stall <==>
        (r.requestType == 0x80 && r.request == 6 && !Exists(r.value)) || r.requestType !in {0x80, 0x00}
      ensures configValue == if r.requestType == 0x00 && r.request == 9 then r.value % 256 else old(configValue)
      ensures r.requestType == 0x80 && r.request == 8 ==> packet == [configValue]
      ensures r.requestType == 0x80 && r.request == 6 && r.value / 256 == 1 ==> Delivers(descriptors.device)
      ensures r.requestType == 0x80 && r.request == 6 && r.value / 256 == 2 ==> Delivers(descriptors.configuration)
      ensures r.requestType == 0x80 && r.request == 6 && r.value == 0x0300 ==> Delivers(descriptors.language)
      ensures r.requestType == 0x80 && r.request == 6 && r.value == 0x0301 ==> Delivers(descriptors.vendor)
      ensures r.requestType == 0x80 && r.request == 6 && r.value == 0x0302 ==> Delivers(descriptors.product)
      ensures r.requestType == 0x80 && r.request == 6 && r.value == 0x0303 ==> Delivers(descriptors.serial)
    {
      hide Answer, AnswerBytes, Slices, Min, Refused, Delivers, Exists;
      RefusedIfMissing(descriptors, r);
      request, stall, packets := r, false, [];
      packet := HandleRequest(true);
      handshake := if stall then Stall else Ack;
      if r.requestType == 0x80 && r.request == 6 {
        DescriptorDelivered();
      }
    }

    /** The data interrupt: one more packet of the same request. After a refused descriptor
        it acknowledges with an empty packet. */
    method HandleData() returns (packet: seq<u8>, handshake: Handshake)
      requires Valid() && Modelled(request)
      modifies `response, `at, `responseLen, `stall, `configValue, `packets
      ensures Valid() && packets == old(packets) + [packet]
      ensures handshake == Stall <==> request.requestType !in {0x80, 0x00}
      ensures stall <==> handshake == Stall
      ensures request.requestType == 0x80 && request.request == 6 && !Exists(request.value) ==> packet == []
      ensures configValue == if request.requestType == 0x00 && request.request == 9 then request.value % 256 else old(configValue)
      ensures request.requestType == 0x80 && request.request == 8 ==> packet == [configValue]
    {
      RefusedIfMissing(descriptors, request);
      hide Answer, AnswerBytes, Refused;
      RefusedAnswer(descriptors, request);
      stall := false;
      packet := HandleRequest(false);
      handshake := if stall then Stall else Ack;
    }

    /** The status interrupt. A request that is not known stalls; a descriptor that the device
        does not have stalls only if the host has not asked for data since the setup. */
    method HandleStatus() returns (handshake: Handshake)
      requires Valid()
      ensures handshake == Stall <==>
        || (packets != [] && request.requestType !in {0x80, 0x00})
        || (|packets| == 1 && request.requestType == 0x80 && request.request == 6 && !Exists(request.value))
    {
      hide Exists;
      RefusedIfMissing(descriptors, request);
      handshake := if stall then Stall else Ack;
    }

    /** The packets since the setup are the successive eight-byte pieces of a descriptor, cut to
        the length asked for: together a prefix of it, all of it once there are enough, and
        then empty ones. */
    ghost predicate Delivers(desc: seq<u8>)
      reads this
    {
      var answer := desc[..Min(request.length, |desc|)];
      && Joined(packets) == answer[..Min(8 * |packets|, |answer|)]
      && (8 * |packets| >= |answer| ==> Joined(packets) == answer)
      && (forall j :: 0 <= j < |packets| ==> |packets[j]| <= 8)
      && (forall j :: 0 <= j < |packets| && 8 * j >= |answer| ==> packets[j] == [])
    }

    /** In every run: what a standard GetDescriptor request to the device has sent so far, by
        the type (high byte) and the index (low byte) in its value. */
    lemma DescriptorDelivered()
      requires Valid() && request.requestType == 0x80 && request.request == 6
      ensures request.value / 256 == 1 ==> Delivers(descriptors.device)
      ensures request.value / 256 == 2 ==> Delivers(descriptors.configuration)
      ensures request.value == 0x0300 ==> Delivers(descriptors.language)
      ensures request.value == 0x0301 ==> Delivers(descriptors.vendor)
      ensures request.value == 0x0302 ==> Delivers(descriptors.product)
      ensures request.value == 0x0303 ==> Delivers(descriptors.serial)
      ensures !Exists(request.value) ==> Joined(packets) == []
    {
      hide Slices, Joined;
      SlicesAreTransfer(AnswerBytes(descriptors, request), packets);
    }
  }

  /** The device has a descriptor for this value. */
  predicate Exists(value: u16) {
    value / 256 == 1 || value / 256 == 2 || 0x0300 <= value <= 0x0303
  }

  lemma Taken(s: seq<u8>, start: nat, mid: nat, end: nat)
    requires start <= mid <= end <= |s|
    ensures s[start..end][..mid - start] == s[start..mid] && s[start..end][mid - start..] == s[mid..end]
  {
  }

  /** Whether the last of `stages` setup and data stages of a request has stalled. */
  predicate Stalled(d: Descriptors, r: Request, stages: nat) {
    (stages > 0 && Unknown(r)) || (stages == 1 && Refused(d, r))
  }

  /** A request for a descriptor the device does not have. */
  predicate Refused(d: Descriptors, r: Request) {
    IsGetDescriptor(r) && Answer(d, r) == None
  }

  lemma RefusedIfMissing(d: Descriptors, r: Request)
    ensures Refused(d, r) <==> r.requestType == 0x80 && r.request == 6 && !Exists(r.value)
    ensures Unknown(r) <==> r.requestType !in {0x80, 0x00}
  {
  }

  lemma RefusedAnswer(d: Descriptors, r: Request)
    ensures Refused(d, r) ==> IsGetDescriptor(r) && AnswerBytes(d, r) == []
  {
  }

  lemma NoSlices(answer: seq<u8>)
    ensures Slices(answer, []) && answer[Min(PACKET * 0, |answer|)..] == answer
  {
  }

  predicate IsGetConfiguration(r: Request) {
    r.requestType == DEVICE_TO_HOST && r.request == REQ_GET_CONFIGURATION
  }

  predicate IsSetConfiguration(r: Request) {
    r.requestType == HOST_TO_DEVICE && r.request == REQ_SET_CONFIGURATION
  }

  predicate Unknown(r: Request) {
    r.requestType != DEVICE_TO_HOST && r.requestType != HOST_TO_DEVICE
  }

  /** Sending the next eight bytes of the rest adds the next slice. */
  lemma NextSlice(answer: seq<u8>, packets: seq<seq<u8>>, packet: seq<u8>)
    requires Slices(answer, packets)
    requires var rest := answer[Min(PACKET * |packets|, |answer|)..]; packet == rest[..Min(PACKET, |rest|)]
    ensures Slices(answer, packets + [packet])
    ensures var lo := Min(PACKET * |packets|, |answer|);
      answer[lo..][Min(PACKET, |answer| - lo)..] == answer[Min(PACKET * (|packets| + 1), |answer|)..]
  {
  }
}
