/**
 * Discovery: the byte helpers and the filter/parse that turns one UDP reply
 * into a device record appended to `found_devices`.
 *
 * AES decryption is a vendor primitive; the model carries it as a function
 * value it knows nothing about.
 */
module Discover {
  import opened Wrappers
  import opened Bytes
  import opened Text

  // ------------------------------------------------------------ byte helpers

  /** `device_id2int`: the bytes reversed, read big-endian; that is, the little-endian value. */
  function DeviceId2Int(deviceId: seq<byte>): (n: nat)
    ensures n == LittleEndian(deviceId)
    ensures n < Pow256(|deviceId|)
  {
    BigEndianOfReverse(deviceId);
    BigEndian(Reverse(deviceId))
  }

  lemma SixByteIdBound(deviceId: seq<byte>)
    requires |deviceId| == 6
    ensures DeviceId2Int(deviceId) < 0x1_0000_0000_0000
  {
    assert Pow256(6) == 0x1_0000_0000_0000;
  }

  /** The value `bytes2port` computes: the first four bytes, little-endian, missing ones read as 0. */
  function PortValue(data: seq<byte>): (p: nat)
    ensures p < 0x1_0000_0000
  {
    assert Pow256(Min(4, |data|)) <= Pow256(4) == 0x1_0000_0000;
    LittleEndian(data[..Min(4, |data|)])
  }

  /** Missing bytes count as zero and bytes past index 3 are ignored. */
  lemma PortValueOfPadded(data: seq<byte>)
    ensures var head := data[..Min(4, |data|)];
      PortValue(data) == LittleEndian(head + seq(4 - |head|, _ => 0))
    ensures |data| >= 4 ==> PortValue(data) == PortValue(data[..4])
  {
    var head := data[..Min(4, |data|)];
    LittleEndianZeroPadding(head, 4 - |head|);
    if |data| >= 4 {
      assert data[..4][..4] == head;
    }
  }

  /** On up to four bytes the port and the device id decodings agree. */
  lemma PortValueAgreesWithDeviceId(data: seq<byte>)
    requires |data| <= 4
    ensures PortValue(data) == DeviceId2Int(data)
  {
    assert data[..Min(4, |data|)] == data;
  }

  /** One round of `bytes2port`: OR-ing byte `b` into place extends the value by that byte. */
  lemma Bytes2PortRound(data: seq<byte>, b: nat, b1: nat)
    requires b < 4
    requires b1 == if b < |data| then data[b] else 0
    ensures BitOr(LittleEndian(data[..Min(b, |data|)]), ShiftLeft(b1, b * 8)) == LittleEndian(data[..Min(b + 1, |data|)])
  {
    var done := data[..Min(b, |data|)];
    Pow256IsPow2(b);
    Pow256Monotone(|done|, b);
    BitOrDisjoint(LittleEndian(done), b1, b * 8);
    if b < |data| {
      assert data[..Min(b + 1, |data|)] == done + [data[b]];
      LittleEndianAppend(done, data[b]);
    } else {
      assert data[..Min(b + 1, |data|)] == done;
    }
  }

  /** `bytes2port`: OR each of the first four bytes (0 where the data is short) into place. */
  method Bytes2Port(data: seq<byte>) returns (i: nat)
    ensures i == PortValue(data)
  {
    i := 0;
    for b := 0 to 4
      invariant i == LittleEndian(data[..Min(b, |data|)])
    {
      var b1: nat;
      if b < |data| {
        b1 := data[b] % 256;   // `& 0xFF`
      } else {
        b1 := 0;
      }
      Bytes2PortRound(data, b, b1);
      i := BitOr(i, ShiftLeft(b1, b * 8));
    }
  }

  // ------------------------------------------------------ the dotted address

  /** `reply[3::-1]`: the first four bytes (fewer if the reply is shorter), last first. */
  function ReversedHead(reply: seq<byte>): (r: seq<byte>)
    ensures |r| == Min(4, |reply|)
    ensures forall k | 0 <= k < |r| :: r[k] == reply[|r| - 1 - k]
  {
    Reverse(reply[..Min(4, |reply|)])
  }

  /** `[str(i) for i in xs]`. */
  function Decimals(xs: seq<byte>): (ds: seq<string>)
    ensures |ds| == |xs|
    ensures forall k | 0 <= k < |xs| :: ds[k] == NatToString(xs[k])
  {
    seq(|xs|, k requires 0 <= k < |xs| => NatToString(xs[k]))
  }

  /** `'.'.join([str(i) for i in reply[3::-1]])`. */
  function DottedIp(reply: seq<byte>): (ip: string)
    ensures reply == [] <==> ip == []
    ensures |reply| >= 4 ==> ip == NatToString(reply[3]) + "." + NatToString(reply[2]) + "."
                                 + NatToString(reply[1]) + "." + NatToString(reply[0])
  {
    var ds := Decimals(ReversedHead(reply));
    if |reply| >= 4 then
      assert ds == [ds[0], ds[1], ds[2], ds[3]];
      JoinFour(ds[0], ds[1], ds[2], ds[3], '.');
      Join(ds, '.')
    else
      Join(ds, '.')
  }

  lemma DecimalsHaveNoDots(xs: seq<byte>)
    ensures SeparatorFree(Decimals(xs), '.')
  {
    var ds := Decimals(xs);
    forall k | 0 <= k < |ds| ensures '.' !in ds[k] {
      assert forall i | 0 <= i < |ds[k]| :: IsDigit(ds[k][i]);
    }
  }

  /** Equal dotted strings come from equal address bytes: the check against the source address pins them down. */
  lemma DottedIpDeterminesBytes(a: seq<byte>, b: seq<byte>)
    requires DottedIp(a) == DottedIp(b)
    ensures a[..Min(4, |a|)] == b[..Min(4, |b|)]
  {
    var ra, rb := ReversedHead(a), ReversedHead(b);
    var da, db := Decimals(ra), Decimals(rb);
    if |da| > 0 && |db| > 0 {
      DecimalsHaveNoDots(ra);
      DecimalsHaveNoDots(rb);
      SplitJoin(da, '.');
      SplitJoin(db, '.');
      DecimalsInjective(ra, rb);
    }
    ReversedHeadInjective(a, b);
  }

  lemma DecimalsInjective(xs: seq<byte>, ys: seq<byte>)
    requires Decimals(xs) == Decimals(ys)
    ensures xs == ys
  {
    var ds := Decimals(xs);
    forall k | 0 <= k < |xs| ensures xs[k] == ys[k] {
      assert ParseNat(ds[k]) == xs[k] && ParseNat(ds[k]) == ys[k];
    }
  }

  lemma ReversedHeadInjective(a: seq<byte>, b: seq<byte>)
    requires ReversedHead(a) == ReversedHead(b)
    ensures a[..Min(4, |a|)] == b[..Min(4, |b|)]
  {
    var r := ReversedHead(a);
    var m := |r|;
    forall k | 0 <= k < m ensures a[..m][k] == b[..m][k] {
      assert a[..m][k] == r[m - 1 - k] == b[..m][k];
    }
  }

  // ---------------------------------------------------------- the datagram

  /** The two-byte magic of a device reply. */
  const Magic: seq<byte> := [0x5A, 0x5A]
  /** The first two bytes of a version-3 frame. */
  const V3Header: seq<byte> := [0x83, 0x70]
  const MinDatagramLength := 104
  /** `'_'`, the separator of the network name. */
  const Underscore: byte := 0x5F

  datatype Version = V2 | V3

  /** The `dict` that `datagram_received` appends; `sn` and `ssid` are the raw bytes behind the decoded strings. */
  datatype DeviceRecord = DeviceRecord(
    version: Option<Version>,
    deviceId: nat,
    ip: string,
    port: nat,
    sn: seq<byte>,
    ssid: seq<byte>,
    kind: seq<byte>)

  /** The `IndexError`s that the parse can raise. */
  datatype Fault = NoSsidLength | NoKindToken

  datatype Verdict =
    | Accepted(record: DeviceRecord)
    | AlreadyFound
    | Malformed
    | AddressMismatch(decryptedIp: string)
    | Raised(fault: Fault)

  type Decrypt = seq<byte> -> seq<byte>

  /** Long enough and carrying the magic at offset 0 or at offset 8. */
  predicate Framed(data: seq<byte>)
    ensures Framed(data) <==>
      (|data| >= MinDatagramLength && ((data[0] == 0x5A && data[1] == 0x5A) || (data[8] == 0x5A && data[9] == 0x5A)))
  {
    |data| >= MinDatagramLength && (data[..2] == Magic || data[8..10] == Magic)
  }

  /** The version tag: set from the first two bytes, and absent when they are neither header. */
  function VersionOf(data: seq<byte>): (v: Option<Version>)
    requires |data| >= 2
    ensures v == Some(V2) <==> data[..2] == Magic
    ensures v == Some(V3) <==> data[..2] == V3Header
  {
    if data[..2] == Magic then Some(V2)
    else if data[..2] == V3Header then Some(V3)
    else None
  }

  /** The frame with a version-3 envelope (magic at offset 8) stripped: `data[8:-16]`. */
  function Body(data: seq<byte>): (body: seq<byte>)
    requires Framed(data)
    ensures data[8..10] == Magic ==> body == data[8..|data| - 16]
    ensures data[8..10] != Magic ==> body == data
    ensures |body| >= MinDatagramLength - 24
  {
    if data[8..10] == Magic then PySlice(data, 8, -16) else data
  }

  /** The decrypted part of the body: `aes_decrypt(data[40:-16])`. */
  function DecryptedReply(data: seq<byte>, decrypt: Decrypt): (reply: seq<byte>)
    requires Framed(data)
    ensures var body := Body(data); |body| - 56 >= 24 && reply == decrypt(body[40..|body| - 16])
  {
    decrypt(PySlice(Body(data), 40, -16))
  }

  /** `device_id2int(data[20:26])`, read after the envelope is stripped. */
  function DeviceIdOf(data: seq<byte>): (id: nat)
    requires Framed(data)
    ensures id < 0x1_0000_0000_0000
  {
    SixByteIdBound(Body(data)[20..26]);
    DeviceId2Int(Body(data)[20..26])
  }

  /**
   * The rest of `datagram_received` once the reply is decrypted: the address
   * check, then the port, serial, network name and kind.
   */
  function ParseReply(version: Option<Version>, deviceId: nat, reply: seq<byte>, source: string): (v: Verdict)
    ensures v.Accepted? || v.AddressMismatch? || v.Raised?
    ensures v.AddressMismatch? <==> DottedIp(reply) != source
    ensures v.AddressMismatch? ==> v.decryptedIp == DottedIp(reply)
    ensures v.Accepted? ==> v.record.ip == source && v.record.version == version && v.record.deviceId == deviceId
    ensures v.Accepted? ==> v.record.port < 0x1_0000_0000 && |v.record.sn| <= 32 && |v.record.ssid| <= 255
    ensures v.Accepted? ==> Underscore in v.record.ssid && Underscore !in v.record.kind
    ensures v.Accepted? ==> |Split(v.record.ssid, Underscore)| >= 2 && v.record.kind == Split(v.record.ssid, Underscore)[1]
    ensures v == Raised(NoSsidLength) <==> DottedIp(reply) == source && |reply| <= 40
    ensures DottedIp(reply) == source && |reply| > 40 ==>
      (v.Accepted? <==> Underscore in PySlice(reply, 41, 41 + reply[40] as int))
  {
    var decIp := DottedIp(reply);
    if decIp != source then AddressMismatch(decIp)
    else if |reply| <= 40 then Raised(NoSsidLength)
    else
      var ssid := PySlice(reply, 41, 41 + reply[40] as int);
      var pieces := Split(ssid, Underscore);
      if |pieces| < 2 then Raised(NoKindToken)
      else Accepted(DeviceRecord(version, deviceId, decIp,
                                 PortValue(PySlice(reply, 4, 8)), PySlice(reply, 8, 40), ssid, pieces[1]))
  }

  /** `datagram_received` after its guard: what becomes of one reply from the host `source`. */
  function Classify(data: seq<byte>, source: string, decrypt: Decrypt): (v: Verdict)
    ensures v.Malformed? <==> !Framed(data)
    ensures !v.AlreadyFound?
    ensures v.Accepted? ==> Framed(data) && v.record.ip == source && v.record.version == VersionOf(data)
    ensures v.Accepted? ==> v.record.deviceId < 0x1_0000_0000_0000 && v.record.port < 0x1_0000_0000
    ensures v.Accepted? ==> |v.record.sn| <= 32 && |v.record.ssid| <= 255
    ensures v.Accepted? ==> Underscore in v.record.ssid && Underscore !in v.record.kind
    ensures v.AddressMismatch? ==> v.decryptedIp != source
    ensures v.AddressMismatch? ==> Framed(data) && v.decryptedIp == DottedIp(DecryptedReply(data, decrypt))
    ensures Framed(data) ==> (v.AddressMismatch? <==> DottedIp(DecryptedReply(data, decrypt)) != source)
    ensures Framed(data) ==> var reply := DecryptedReply(data, decrypt);
      DottedIp(reply) == source ==>
        && (|reply| <= 40 ==> v == Raised(NoSsidLength))
        && (|reply| > 40 ==> (v.Accepted? <==> Underscore in PySlice(reply, 41, 41 + reply[40] as int)))
  {
    if !Framed(data) then Malformed
    else ParseReply(VersionOf(data), DeviceIdOf(data), DecryptedReply(data, decrypt), source)
  }

  /**
   * Where the fields of an accepted record come from, in terms of the
   * decrypted reply: the port is the little-endian value of reply bytes 4..7,
   * `sn` is bytes 8..39, and `ssid` the `reply[40]` bytes after it (as many as
   * there are).
   */
  lemma AcceptedRecordFields(version: Option<Version>, deviceId: nat, reply: seq<byte>, source: string)
    requires ParseReply(version, deviceId, reply, source).Accepted?
    ensures var r := ParseReply(version, deviceId, reply, source).record;
      && |reply| > 40
      && r.port == LittleEndian(reply[4..8])
      && r.sn == reply[8..40]
      && |r.ssid| == Min(reply[40], |reply| - 41)
      && (forall k | 0 <= k < |r.ssid| :: r.ssid[k] == reply[41 + k])
  {
    assert PySlice(reply, 4, 8) == reply[4..8];
    assert reply[4..8][..Min(4, 4)] == reply[4..8];
    assert PySlice(reply, 8, 40) == reply[8..40];
  }

  /** `kind` lies between the first `_` of `ssid` and the next one (or the end). */
  lemma AcceptedKind(version: Option<Version>, deviceId: nat, reply: seq<byte>, source: string)
    requires ParseReply(version, deviceId, reply, source).Accepted?
    ensures var r := ParseReply(version, deviceId, reply, source).record;
      IsSecondPiece(r.ssid, Underscore, r.kind)
  {
    var r := ParseReply(version, deviceId, reply, source).record;
    SecondPiece(r.ssid, Underscore);
  }

  /** The id of an accepted record is the little-endian value of body bytes 20..25. */
  lemma AcceptedDeviceId(data: seq<byte>, source: string, decrypt: Decrypt)
    requires Classify(data, source, decrypt).Accepted?
    ensures Classify(data, source, decrypt).record.deviceId == LittleEndian(Body(data)[20..26])
  {
  }

  /** Two accepted replies from the same host carry the same first four decrypted bytes. */
  lemma SameSourceSameAddressBytes(d1: seq<byte>, d2: seq<byte>, source: string, decrypt: Decrypt)
    requires Classify(d1, source, decrypt).Accepted? && Classify(d2, source, decrypt).Accepted?
    ensures DecryptedReply(d1, decrypt)[..4] == DecryptedReply(d2, decrypt)[..4]
  {
    DottedIpDeterminesBytes(DecryptedReply(d1, decrypt), DecryptedReply(d2, decrypt));
  }

  // ---------------------------------------------------- the list of records

  /** A Python value as the guard's `in` compares it: a string, or one of the record dicts. */
  datatype PyValue = PyStr(s: string) | PyDict(record: DeviceRecord)

  /** `addr[0] in self.found_devices`: a string is never equal to a record dict, so it never holds. */
  predicate Listed(found: seq<DeviceRecord>, host: string)
    ensures !Listed(found, host)
  {
    exists k | 0 <= k < |found| :: PyDict(found[k]) == PyStr(host)
  }

  /** The address a datagram came from: `addr`. */
  datatype Address = Address(host: string, port: int)

  /** `DiscoverProtocol`: the records collected during one discovery round. */
  class DiscoverProtocol {
    const decrypt: Decrypt
    /** The listening time a discovery round is given; only the left-out timer reads it. */
    const timeout: nat
    var foundDevices: seq<DeviceRecord>

    constructor (decrypt: Decrypt, timeout: nat)
      ensures this.decrypt == decrypt && this.timeout == timeout && foundDevices == []
    {
      this.decrypt := decrypt;
      this.timeout := timeout;
      foundDevices := [];
    }

    /** `datagram_received`: check, parse and append one reply. */
    method DatagramReceived(data: seq<byte>, addr: Address) returns (verdict: Verdict)
      modifies this
      ensures Listed(old(foundDevices), addr.host) ==> verdict == AlreadyFound
      ensures !Listed(old(foundDevices), addr.host) ==> verdict == Classify(data, addr.host, decrypt)
      ensures foundDevices == if verdict.Accepted? then old(foundDevices) + [verdict.record] else old(foundDevices)
    {
      if Listed(foundDevices, addr.host) {
        return AlreadyFound;
      }
      if !(|data| >= MinDatagramLength && (data[..2] == Magic || data[8..10] == Magic)) {
        return Malformed;
      }
      var version: Option<Version> := None;
      if data[..2] == Magic {
        version := Some(V2);
      } else if data[..2] == V3Header {
        version := Some(V3);
      }
      var body := data;
      if data[8..10] == Magic {
        body := data[8..|data| - 16];
      }
      assert version == VersionOf(data) && body == Body(data);
      var deviceId := DeviceId2Int(body[20..26]);
      assert body[40..|body| - 16] == PySlice(Body(data), 40, -16);
      var reply := decrypt(body[40..|body| - 16]);
      assert Framed(data) && reply == DecryptedReply(data, decrypt) && deviceId == DeviceIdOf(data);
      verdict := ParseDecrypted(version, deviceId, reply, addr.host);
      assert verdict == Classify(data, addr.host, decrypt);
      if verdict.Accepted? {
        foundDevices := foundDevices + [verdict.record];
      }
    }
  }

  /** The part of `datagram_received` after decryption, filling the record field by field. */
  method ParseDecrypted(version: Option<Version>, deviceId: nat, reply: seq<byte>, host: string) returns (verdict: Verdict)
    ensures verdict == ParseReply(version, deviceId, reply, host)
  {
    var decIp := DottedIp(reply);
    if decIp != host {
      return AddressMismatch(decIp);
    }
    var port := Bytes2Port(PySlice(reply, 4, 8));
    var sn := PySlice(reply, 8, 40);
    if |reply| <= 40 {
      return Raised(NoSsidLength);
    }
    var ssid := PySlice(reply, 41, 41 + reply[40] as int);
    var pieces := Split(ssid, Underscore);
    if |pieces| < 2 {
      return Raised(NoKindToken);
    }
    verdict := Accepted(DeviceRecord(version, deviceId, decIp, port, sn, ssid, pieces[1]));
  }

  /**
   * The same reply received twice gets the same verdict both times, and an
   * accepted one is recorded twice: there is no deduplication by source.
   */
  method ReceiveTwice(p: DiscoverProtocol, data: seq<byte>, addr: Address) returns (first: Verdict, second: Verdict)
    modifies p
    ensures first == second && !first.AlreadyFound?
    ensures p.foundDevices == old(p.foundDevices) + (if first.Accepted? then [first.record, first.record] else [])
  {
    ghost var v := Classify(data, addr.host, p.decrypt);
    ghost var before := p.foundDevices;
    assert !Listed(before, addr.host);
    first := p.DatagramReceived(data, addr);
    assert first == v;
    ghost var between := p.foundDevices;
    assert !Listed(between, addr.host);
    second := p.DatagramReceived(data, addr);
    assert second == v;
    if v.Accepted? {
      assert p.foundDevices == between + [v.record] && between == before + [v.record];
      assert before + [v.record] + [v.record] == before + [v.record, v.record];
    }
  }
}
