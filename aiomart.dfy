/**
 * The air conditioner's request/response exchange: which bytes of a raw TCP
 * reply are decrypted, the enums with fallback lookups, and the `refresh` /
 * `apply` state machine over the flags `online`, `support`, `deferUpdate`
 * and `updating`.
 *
 * The vendor primitives the source imports (AES decryption, the frame
 * decoder, the response parser with the device's `update`) are carried as
 * function values that the model knows nothing about.
 */
module Aiomart {
  import opened Wrappers
  import opened Bytes
  import opened Text

  // ---------------------------------------------------------------- transport

  /** A raw reply of exactly this length carries a shorter ciphertext. */
  const ShortReplyLength := 88
  /** Offset of the ciphertext in a raw reply. */
  const CipherStart := 40

  /**
   * The bytes of a non-empty raw reply that are handed to AES: bytes 40 to 72
   * of an 88-byte reply, bytes 40 to 88 (clamped to the reply) of any other.
   */
  function CipherRegion(response: seq<byte>): (c: seq<byte>)
    ensures |response| == ShortReplyLength ==> |c| == 32 && c == response[40..72]
    ensures |response| != ShortReplyLength ==>
      |c| == (if |response| <= CipherStart then 0 else Min(|response|, 88) - CipherStart)
    ensures forall k | 0 <= k < |c| :: CipherStart + k < |response| && c[k] == response[CipherStart + k]
  {
    if |response| == ShortReplyLength then PySlice(response, 40, 72) else PySlice(response, 40, 88)
  }

  /** What is decrypted for a raw reply: nothing for an empty reply, else its cipher region. */
  function DecryptInput(response: seq<byte>): (c: Option<seq<byte>>)
    ensures c.None? <==> response == []
    ensures c.Some? ==> c.value == CipherRegion(response)
  {
    if |response| > 0 then Some(CipherRegion(response)) else None
  }

  /** The two `lan` primitives that `appliance_transparent_send` composes. */
  datatype Lan = Lan(aesDecrypt: seq<byte> -> seq<byte>, decode: seq<byte> -> seq<byte>)
  {
    /** `appliance_transparent_send` once the raw reply has been read from the socket. */
    function TransparentSend(response: seq<byte>): (data: seq<byte>)
      ensures response == [] ==> data == []
      ensures response != [] ==> data == decode(aesDecrypt(CipherRegion(response)))
    {
      match DecryptInput(response)
      case None => []
      case Some(cipher) => decode(aesDecrypt(cipher))
    }
  }

  /** What the socket exchange produced: a raw reply, or an exception. */
  datatype Reply = Answered(raw: seq<byte>) | TransportRaised

  /** The decoded payload of an exchange; `None` when the exchange raised. */
  function Receive(lan: Lan, reply: Reply): (r: Option<seq<byte>>)
    ensures r.None? <==> reply.TransportRaised?
    ensures reply == Answered([]) ==> r == Some([])
    ensures reply.Answered? && reply.raw != [] ==>
      r == Some(lan.decode(lan.aesDecrypt(CipherRegion(reply.raw))))
  {
    match reply
    case Answered(raw) => Some(lan.TransparentSend(raw))
    case TransportRaised => None
  }

  // -------------------------------------------------------------------- enums

  datatype OperationalMode = Auto | Cool | Dry | Heat | FanOnly
  {
    function Code(): int
    {
      match this
      case Auto => 1
      case Cool => 2
      case Dry => 3
      case Heat => 4
      case FanOnly => 5
    }
  }

  /**
   * The value-to-member table of the base library's `operational_mode_enum`,
   * taken to hold exactly the codes `AC` declares.
   */
  const OperationalModeMembers: map<int, OperationalMode> :=
    map[1 := Auto, 2 := Cool, 3 := Dry, 4 := Heat, 5 := FanOnly]

  /** `operational_mode_enum.get`: the member with that code, or `fan_only`. */
  function OperationalModeGet(value: int): (m: OperationalMode)
    ensures 1 <= value <= 5 <==> m.Code() == value
    ensures m.Code() != value ==> m == FanOnly
    ensures 1 <= m.Code() <= 5
  {
    if value in OperationalModeMembers then OperationalModeMembers[value] else FanOnly
  }

  lemma OperationalModeGetOfCode(m: OperationalMode)
    ensures OperationalModeGet(m.Code()) == m
  {
  }

  lemma OperationalModeGetIdempotent(value: int)
    ensures OperationalModeGet(OperationalModeGet(value).Code()) == OperationalModeGet(value)
  {
    OperationalModeGetOfCode(OperationalModeGet(value));
  }

  datatype SwingMode = Off | Vertical | Horizontal | Both
  {
    function Code(): int
    {
      match this
      case Off => 0x0
      case Vertical => 0xC
      case Horizontal => 0x3
      case Both => 0xF
    }
  }

  /** The base library's `swing_mode_enum` table, taken to hold exactly the codes `AC` declares. */
  const SwingModeMembers: map<int, SwingMode> :=
    map[0x0 := Off, 0xC := Vertical, 0x3 := Horizontal, 0xF := Both]

  /** `swing_mode_enum.get`: the member with that code, or `Off`. */
  function SwingModeGet(value: int): (m: SwingMode)
    ensures value in {0x0, 0x3, 0xC, 0xF} <==> m.Code() == value
    ensures m.Code() != value ==> m == Off
    ensures m.Code() in {0x0, 0x3, 0xC, 0xF}
  {
    if value in SwingModeMembers then SwingModeMembers[value] else Off
  }

  lemma SwingModeGetOfCode(m: SwingMode)
    ensures SwingModeGet(m.Code()) == m
  {
  }

  lemma SwingModeGetIdempotent(value: int)
    ensures SwingModeGet(SwingModeGet(value).Code()) == SwingModeGet(value)
  {
    SwingModeGetOfCode(SwingModeGet(value));
  }

  /** Unknown codes fall back instead of failing: 99 is `fan_only`, 0x5 is `Off`. */
  lemma UnknownCodesFallBack()
    ensures OperationalModeGet(99) == FanOnly && OperationalModeGet(0) == FanOnly
    ensures SwingModeGet(0x5) == Off && SwingModeGet(-1) == Off
  {
  }

  /** `fan_speed_enum`: any integer, with no range check, behind the enum-like accessors. */
  datatype FanSpeed = FanSpeed(value: int)
  {
    function Int(): int { value }
    function Str(): string { IntToString(value) }
    function Key(): string { "Any" }
  }

  lemma FanSpeedReflectsValue(v: int)
    ensures FanSpeed(v).value == v && FanSpeed(v).Int() == v
    ensures ParseInt(FanSpeed(v).Str()) == v
    ensures FanSpeed(v).Key() == "Any"
  {
  }

  // --------------------------------------------------------- device state

  /** The fields of the device that `apply` sends and the response `update` overwrites. */
  datatype Settings = Settings(
    promptTone: bool,
    powerState: bool,
    targetTemperature: real,
    operationalMode: OperationalMode,
    fanSpeed: FanSpeed,
    swingMode: SwingMode,
    ecoMode: bool,
    turboMode: bool,
    fahrenheit: bool,
    indoorTemperature: real,
    outdoorTemperature: real)

  /** `self.update(appliance_response(data))`: the device's merge of a decoded reply. */
  type Merge = (Settings, seq<byte>) -> Settings

  /** What `apply` hands to the packet builder. */
  datatype SetCommand = SetCommand(
    promptTone: bool,
    powerState: bool,
    targetTemperature: real,
    operationalMode: OperationalMode,
    fanSpeed: FanSpeed,
    swingMode: SwingMode,
    ecoMode: bool,
    turboMode: bool,
    fahrenheit: bool)

  datatype Command = Query | Set(cmd: SetCommand)

  /** The command `apply` builds: every writable field copied from the current settings. */
  function SetCommandFor(s: Settings): (c: SetCommand)
    ensures c.promptTone == s.promptTone && c.powerState == s.powerState
    ensures c.targetTemperature == s.targetTemperature && c.operationalMode == s.operationalMode
    ensures c.fanSpeed == s.fanSpeed && c.swingMode == s.swingMode
    ensures c.ecoMode == s.ecoMode && c.turboMode == s.turboMode && c.fahrenheit == s.fahrenheit
  {
    SetCommand(s.promptTone, s.powerState, s.targetTemperature, s.operationalMode,
               s.fanSpeed, s.swingMode, s.ecoMode, s.turboMode, s.fahrenheit)
  }

  /** Offset of the frame-type byte in a decoded reply. */
  const FrameTypeOffset := 0xA
  /** Frame type of a reply that carries the full state. */
  const FullStateFrame := 0xC0
  /** Frame types of replies that carry sensor readings only. */
  const SensorFrames: set<int> := {0xA0, 0xA1}

  /** The whole observable state of an `AC`. */
  datatype Device = Device(online: bool, support: bool, deferUpdate: bool, updating: bool, settings: Settings)

  /** How a coroutine ended: it returned, or an exception left it. */
  datatype Outcome = Returned | Raised

  datatype Step = Step(after: Device, outcome: Outcome)

  /** The merge rule both operations share: only a full-state frame is merged. */
  function Merged(settings: Settings, merge: Merge, data: seq<byte>): (r: Settings)
    requires |data| > FrameTypeOffset
    ensures data[FrameTypeOffset] == FullStateFrame ==> r == merge(settings, data)
    ensures data[FrameTypeOffset] != FullStateFrame ==> r == settings
  {
    if data[FrameTypeOffset] == FullStateFrame then merge(settings, data) else settings
  }

  /**
   * `refresh` as a transition of the device state, for the decoded payload
   * `received` (`None`: the exchange raised before anything was changed).
   */
  function RefreshStep(d: Device, merge: Merge, received: Option<seq<byte>>): (s: Step)
    ensures received.None? ==> s == Step(d, Raised)
    ensures received == Some([]) ==> s == Step(d.(online := false), Returned)
    ensures received.Some? && received.value != [] ==>
      s.after.online && s.after.support && !s.after.deferUpdate && s.after.updating == d.updating
    ensures received.Some? && |received.value| > FrameTypeOffset ==>
      s.outcome == Returned &&
      (received.value[FrameTypeOffset] != FullStateFrame ==> s.after.settings == d.settings) &&
      (received.value[FrameTypeOffset] == FullStateFrame ==> s.after.settings == merge(d.settings, received.value))
    ensures received.Some? && 0 < |received.value| <= FrameTypeOffset ==>
      s.outcome == Raised && s.after.settings == d.settings
  {
    match received
    case None => Step(d, Raised)
    case Some(data) =>
      if |data| > 0 then
        var flagged := d.(online := true, deferUpdate := false, support := true);
        if |data| <= FrameTypeOffset then Step(flagged, Raised)
        else Step(flagged.(settings := Merged(d.settings, merge, data)), Returned)
      else Step(d.(online := false), Returned)
  }

  /**
   * `apply` as a transition of the device state. `updating` is raised for the
   * exchange; whatever happens, the `finally` clause leaves `updating` and
   * `deferUpdate` cleared. A `deferUpdate` already set on entry skips the merge.
   */
  function ApplyStep(d: Device, merge: Merge, received: Option<seq<byte>>): (s: Step)
    ensures !s.after.updating && !s.after.deferUpdate
    ensures received.None? ==> s == Step(d.(updating := false, deferUpdate := false), Raised)
    ensures received == Some([]) ==>
      s == Step(d.(online := false, updating := false, deferUpdate := false), Returned)
    ensures received.Some? && received.value != [] ==> s.after.online && s.after.support
    ensures received.Some? && received.value != [] && d.deferUpdate ==>
      s.outcome == Returned && s.after.settings == d.settings
    ensures received.Some? && 0 < |received.value| <= FrameTypeOffset && !d.deferUpdate ==>
      s.outcome == Raised && s.after.settings == d.settings
    ensures received.Some? && |received.value| > FrameTypeOffset && !d.deferUpdate ==>
      s.outcome == Returned &&
      (received.value[FrameTypeOffset] == FullStateFrame ==> s.after.settings == merge(d.settings, received.value)) &&
      (received.value[FrameTypeOffset] != FullStateFrame ==> s.after.settings == d.settings)
  {
    var inFlight := d.(updating := true);
    var body :=
      match received
      case None => Step(inFlight, Raised)
      case Some(data) =>
        if |data| > 0 then
          var flagged := inFlight.(online := true, support := true);
          if flagged.deferUpdate then Step(flagged, Returned)
          else if |data| <= FrameTypeOffset then Step(flagged, Raised)
          else Step(flagged.(settings := Merged(d.settings, merge, data)), Returned)
        else Step(inFlight.(online := false), Returned);
    Step(body.after.(updating := false, deferUpdate := false), body.outcome)
  }

  /**
   * Two replies that differ only in the frame-type byte: the full-state one is
   * merged, the sensor-only one leaves the settings as they were.
   */
  lemma FrameTypeDecidesMerge(d: Device, merge: Merge, full: seq<byte>, sensor: seq<byte>)
    requires |full| == |sensor| > FrameTypeOffset
    requires forall i | 0 <= i < |full| && i != FrameTypeOffset :: full[i] == sensor[i]
    requires full[FrameTypeOffset] == FullStateFrame && sensor[FrameTypeOffset] in SensorFrames
    ensures RefreshStep(d, merge, Some(full)).after.settings == merge(d.settings, full)
    ensures RefreshStep(d, merge, Some(sensor)).after.settings == d.settings
    ensures !d.deferUpdate ==> ApplyStep(d, merge, Some(full)).after.settings == merge(d.settings, full)
    ensures ApplyStep(d, merge, Some(sensor)).after.settings == d.settings
  {
  }

  /** `support` records that the device has answered once: no exchange ever clears it. */
  lemma ExchangesKeepSupport(d: Device, merge: Merge, received: Option<seq<byte>>)
    requires d.support
    ensures RefreshStep(d, merge, received).after.support
    ensures ApplyStep(d, merge, received).after.support
  {
  }

  /** A device that is online has been supported; both operations keep it so. */
  ghost predicate OnlineImpliesSupport(d: Device) { d.online ==> d.support }

  lemma ExchangesPreserveOnlineImpliesSupport(d: Device, merge: Merge, received: Option<seq<byte>>)
    requires OnlineImpliesSupport(d)
    ensures OnlineImpliesSupport(RefreshStep(d, merge, received).after)
    ensures OnlineImpliesSupport(ApplyStep(d, merge, received).after)
  {
  }

  /** `refresh` never touches `updating`, so a device at rest stays at rest. */
  lemma ExchangesLeaveDeviceAtRest(d: Device, merge: Merge, received: Option<seq<byte>>)
    requires !d.updating
    ensures !RefreshStep(d, merge, received).after.updating
    ensures !ApplyStep(d, merge, received).after.updating
  {
  }

  // ------------------------------------------------------------- the device

  /** `AC`: the flags and settings that `refresh` and `apply` update in place. */
  class AC {
    const lan: Lan
    const merge: Merge
    var online: bool
    var support: bool
    var deferUpdate: bool
    var updating: bool
    var settings: Settings

    function State(): Device
      reads this
    {
      Device(online, support, deferUpdate, updating, settings)
    }

    /** The base class's initial values are not part of this model: they are given. */
    constructor (lan: Lan, merge: Merge, initial: Device)
      ensures this.lan == lan && this.merge == merge && State() == initial
    {
      this.lan := lan;
      this.merge := merge;
      online := initial.online;
      support := initial.support;
      deferUpdate := initial.deferUpdate;
      updating := initial.updating;
      settings := initial.settings;
    }

    /** `refresh`: send a query, then record the reply. */
    method Refresh(reply: Reply) returns (sent: Command, outcome: Outcome)
      modifies this
      ensures sent == Query
      ensures Step(State(), outcome) == RefreshStep(old(State()), merge, Receive(lan, reply))
    {
      sent := Query;
      outcome := Returned;
      match reply {
        case TransportRaised =>
          outcome := Raised;
          return;
        case Answered(raw) =>
          var data := lan.TransparentSend(raw);
          if |data| > 0 {
            online := true;
            deferUpdate := false;
            support := true;
            if !deferUpdate {
              if |data| <= FrameTypeOffset {
                outcome := Raised;   // IndexError on `data[0xa]`
                return;
              }
              if data[FrameTypeOffset] == FullStateFrame {
                settings := merge(settings, data);
              }
              deferUpdate := false;
            }
          } else {
            online := false;
          }
      }
    }

    /**
     * `apply`: send the current settings as a set command, then record the
     * reply; `updating` is set while the command is in flight, and the
     * `finally` clause clears `updating` and `deferUpdate` on every path.
     */
    method Apply(reply: Reply) returns (sent: Command, outcome: Outcome, ghost updatingWhileSent: bool)
      modifies this
      ensures sent.Set? && sent.cmd == SetCommand(
        old(settings.promptTone), old(settings.powerState), old(settings.targetTemperature),
        old(settings.operationalMode), old(settings.fanSpeed), old(settings.swingMode),
        old(settings.ecoMode), old(settings.turboMode), old(settings.fahrenheit))
      ensures updatingWhileSent
      ensures Step(State(), outcome) == ApplyStep(old(State()), merge, Receive(lan, reply))
      ensures !updating && !deferUpdate
    {
      updating := true;
      sent := Set(SetCommandFor(settings));
      updatingWhileSent := updating;
      outcome := Returned;
      match reply {
        case TransportRaised =>
          outcome := Raised;
        case Answered(raw) =>
          var data := lan.TransparentSend(raw);
          if |data| > 0 {
            online := true;
            support := true;
            if !deferUpdate {
              if |data| <= FrameTypeOffset {
                outcome := Raised;   // IndexError on `data[0xa]`
              } else if data[FrameTypeOffset] == FullStateFrame {
                settings := merge(settings, data);
              }
            }
          } else {
            online := false;
          }
      }
      // finally:
      updating := false;
      deferUpdate := false;
    }
  }
}
