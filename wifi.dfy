/**
 * The Wi-Fi bring-up of the firmware's hardware layer.
 *
 * The constructor of the Wi-Fi object picks the network interface and radio
 * mode from the compiled-in mode and fills the driver's configuration record
 * field by field; two stateless event handlers react to Wi-Fi and IP events
 * with a log line, a connect request, or nothing.
 *
 * Both are pure here: `BuildSetup` computes what the constructor hands to the
 * driver, and `OnWifiEvent` / `OnIpEvent` compute the effects of one event.
 * The driver calls themselves are not modelled (see README).
 */
module Wifi {

  /** Whether the device hosts a network or joins one. */
  datatype WifiMode = AccessPoint | Station

  // The compiled-in choices: there is no setter and no persisted copy.
  const WifiSsid: string := "RCLink"
  const WifiPass: string := "0123456789"
  const Mode: WifiMode := AccessPoint
  const WifiChan: nat := 1
  const MaxConn: nat := 2

  /** Sizes of the driver's fixed character fields (`ssid[32]`, `password[64]`). */
  const SsidFieldSize: nat := 32
  const PasswordFieldSize: nat := 64

  // ---------------------------------------------------------------------
  // C strings and fixed-size fields

  /**
   * A C string: its characters, none of which is the terminator. They are
   * ASCII, so each character is one byte of the driver's `uint8_t` fields.
   */
  predicate IsCString(s: string) {
    forall i :: 0 <= i < |s| ==> 0 < s[i] as int < 0x80
  }

  /** `strcpy(field, s)` stays inside a field of `size` bytes, terminator included. */
  predicate FitsField(s: string, size: nat) {
    IsCString(s) && |s| < size
  }

  /** A zero-initialised field of `n` bytes. */
  function Zeros(n: nat): (z: seq<char>)
    ensures |z| == n
  {
    seq(n, _ => '\0')
  }

  /** A zero-initialised field of `size` bytes after `strcpy(field, s)`. */
  function CopyToField(s: string, size: nat): (f: seq<char>)
    requires FitsField(s, size)
    ensures |f| == size
  {
    s + Zeros(size - |s|)
  }

  /** `strlen`: the position of the first terminator, or the whole field when there is none. */
  function StrLen(f: seq<char>): (n: nat)
    ensures n <= |f|
    ensures forall i :: 0 <= i < n ==> f[i] != '\0'
    ensures n < |f| ==> f[n] == '\0'
  {
    if f == [] || f[0] == '\0' then 0 else 1 + StrLen(f[1..])
  }

  /** The C string a field holds: its characters up to the first terminator. */
  function FieldString(f: seq<char>): string {
    f[..StrLen(f)]
  }

  /** Reading back a field that `strcpy` filled gives the copied string. */
  lemma {:induction false} CopyRoundTrip(s: string, size: nat)
    requires FitsField(s, size)
    ensures StrLen(CopyToField(s, size)) == |s|
    ensures FieldString(CopyToField(s, size)) == s
  {
    var f := CopyToField(s, size);
    if s == [] {
      assert f[0] == '\0';
    } else {
      assert f[1..] == CopyToField(s[1..], size - 1);
      CopyRoundTrip(s[1..], size - 1);
    }
  }

  // ---------------------------------------------------------------------
  // The configuration handed to the driver

  /** The default network interface the constructor creates. */
  datatype Netif = DefaultWifiAp | DefaultWifiSta

  /** The radio mode passed to `esp_wifi_set_mode`. */
  datatype RadioMode = WifiModeAp | WifiModeSta

  /** The interface whose configuration `esp_wifi_set_config` sets. */
  datatype WifiInterface = IfAp | IfSta

  /** Access-point authentication; the zero value of the field is `AuthOpen`. */
  datatype AuthMode = AuthOpen | AuthWpa2Psk | AuthWpa3Psk

  /** SAE password element derivation; the zero value of the field is `SaePweUnspecified`. */
  datatype SaePwe = SaePweUnspecified | SaePweBoth

  /** Protected management frames. */
  datatype Pmf = Pmf(capable: bool, required: bool)

  datatype ApConfig = ApConfig(
    ssid: seq<char>,
    ssidLen: nat,
    channel: nat,
    maxConnection: nat,
    password: seq<char>,
    authmode: AuthMode,
    saePwe: SaePwe,
    pmf: Pmf)

  datatype StaConfig = StaConfig(ssid: seq<char>, password: seq<char>)

  /** The driver's configuration record: a union of its access-point and station halves. */
  datatype WifiConfig = ApSide(ap: ApConfig) | StaSide(sta: StaConfig)

  /** Everything the constructor decides: which interface, which mode, which configuration. */
  datatype Setup = Setup(netif: Netif, radioMode: RadioMode, configIf: WifiInterface, config: WifiConfig)

  /**
   * The constructor's decisions for `mode`, `ssid` and `password`;
   * `saeSupport` is the build option that enables WPA3 on the access point.
   */
  function BuildSetup(mode: WifiMode, ssid: string, password: string, saeSupport: bool): (s: Setup)
    requires FitsField(ssid, SsidFieldSize) && FitsField(password, PasswordFieldSize)
    // the interface, the radio mode and the configured half all follow the mode
    ensures s.netif == DefaultWifiAp <==> mode == AccessPoint
    ensures s.radioMode == WifiModeAp <==> mode == AccessPoint
    ensures s.configIf == IfAp <==> mode == AccessPoint
    ensures s.config.ApSide? <==> mode == AccessPoint
  {
    match mode
    case AccessPoint =>
      var secured := |password| != 0;
      var ap := ApConfig(
        ssid := CopyToField(ssid, SsidFieldSize),
        ssidLen := |ssid|,
        channel := WifiChan,
        maxConnection := MaxConn,
        password := if secured then CopyToField(password, PasswordFieldSize) else Zeros(PasswordFieldSize),
        authmode := if !secured then AuthOpen else if saeSupport then AuthWpa3Psk else AuthWpa2Psk,
        saePwe := if secured && saeSupport then SaePweBoth else SaePweUnspecified,
        pmf := Pmf(capable := true, required := true));
      Setup(DefaultWifiAp, WifiModeAp, IfAp, ApSide(ap))
    case Station =>
      var sta := StaConfig(CopyToField(ssid, SsidFieldSize), CopyToField(password, PasswordFieldSize));
      Setup(DefaultWifiSta, WifiModeSta, IfSta, StaSide(sta))
  }

  lemma AccessPointFixedFields(ssid: string, password: string, saeSupport: bool)
    requires FitsField(ssid, SsidFieldSize) && FitsField(password, PasswordFieldSize)
    ensures var ap := BuildSetup(AccessPoint, ssid, password, saeSupport).config.ap;
      FieldString(ap.ssid) == ssid && ap.ssidLen == StrLen(ap.ssid) == |ssid| &&
      ap.channel == 1 && ap.maxConnection == 2
  {
    CopyRoundTrip(ssid, SsidFieldSize);
  }

  lemma AccessPointAuthByPassword(ssid: string, password: string, saeSupport: bool)
    requires FitsField(ssid, SsidFieldSize) && FitsField(password, PasswordFieldSize)
    ensures var ap := BuildSetup(AccessPoint, ssid, password, saeSupport).config.ap;
      (ap.authmode == AuthOpen <==> password == []) &&
      (password != [] && saeSupport ==> ap.authmode == AuthWpa3Psk && ap.saePwe == SaePweBoth) &&
      (password != [] && !saeSupport ==> ap.authmode == AuthWpa2Psk && ap.saePwe == SaePweUnspecified) &&
      (password == [] ==> ap.password == Zeros(PasswordFieldSize) && ap.saePwe == SaePweUnspecified) &&
      FieldString(ap.password) == password
  {
    if password == [] {
      assert Zeros(PasswordFieldSize)[0] == '\0';
    } else {
      CopyRoundTrip(password, PasswordFieldSize);
    }
  }

  lemma AccessPointPmfRequired(ssid: string, password: string, saeSupport: bool)
    requires FitsField(ssid, SsidFieldSize) && FitsField(password, PasswordFieldSize)
    ensures BuildSetup(AccessPoint, ssid, password, saeSupport).config.ap.pmf == Pmf(true, true)
  {
  }

  lemma StationCopiesCredentials(ssid: string, password: string, saeSupport: bool)
    requires FitsField(ssid, SsidFieldSize) && FitsField(password, PasswordFieldSize)
    ensures var s := BuildSetup(Station, ssid, password, saeSupport);
      s.config.StaSide? &&
      FieldString(s.config.sta.ssid) == ssid && FieldString(s.config.sta.password) == password
  {
    CopyRoundTrip(ssid, SsidFieldSize);
    CopyRoundTrip(password, PasswordFieldSize);
  }

  /** The firmware as built: an access point on "RCLink", password-protected whatever the SAE option. */
  lemma ShippedSetup(saeSupport: bool)
    ensures FitsField(WifiSsid, SsidFieldSize) && FitsField(WifiPass, PasswordFieldSize)
    ensures var s := BuildSetup(Mode, WifiSsid, WifiPass, saeSupport);
      s.netif == DefaultWifiAp && s.radioMode == WifiModeAp && s.config.ApSide? &&
      s.config.ap.ssidLen == 6 && s.config.ap.authmode != AuthOpen &&
      FieldString(s.config.ap.password) == WifiPass
  {
    assert FitsField(WifiSsid, SsidFieldSize);
    assert FitsField(WifiPass, PasswordFieldSize);
    AccessPointAuthByPassword(WifiSsid, WifiPass, saeSupport);
  }

  // ---------------------------------------------------------------------
  // Event dispatch

  type Mac = seq<bv8>
  type Ip = bv32

  /** Wi-Fi events with the payload the handler reads; any other id falls to `OtherWifiEvent`. */
  datatype WifiEvent =
    | ApStaConnected(mac: Mac)
    | ApStaDisconnected(mac: Mac)
    | StaConnected(ssid: string)
    | StaDisconnected(ssid: string)
    | StaStart
    | OtherWifiEvent(id: int)

  /** IP events with the payload the handler reads; any other id falls to `OtherIpEvent`. */
  datatype IpEvent =
    | ApStaIpAssigned(ip: Ip)
    | StaGotIp(ip: Ip)
    | OtherIpEvent(id: int)

  /** What a handler does: one of its log lines, or a request to the driver to connect. */
  datatype Effect =
    | LogNewConnection(mac: Mac)
    | LogLostConnection(mac: Mac)
    | LogConnectedTo(ssid: string)
    | LogDisconnectedRetrying(ssid: string)
    | LogClientIp(ip: Ip)
    | LogAssignedIp(ip: Ip)
    | Connect

  /** How many connect requests `effects` holds. */
  function ConnectRequests(effects: seq<Effect>): nat {
    multiset(effects)[Connect]
  }

  /** Whether an event is one the station answers by (re)connecting. */
  predicate TriggersConnect(ev: WifiEvent) {
    ev.StaStart? || ev.StaDisconnected?
  }

  /** The effects of the Wi-Fi event handler, in order. */
  function OnWifiEvent(ev: WifiEvent): (effects: seq<Effect>)
    ensures ConnectRequests(effects) == if TriggersConnect(ev) then 1 else 0
    ensures ev.StaDisconnected? ==> effects == [LogDisconnectedRetrying(ev.ssid), Connect]
  {
    match ev
    case ApStaConnected(mac) => [LogNewConnection(mac)]
    case ApStaDisconnected(mac) => [LogLostConnection(mac)]
    case StaConnected(ssid) => [LogConnectedTo(ssid)]
    case StaDisconnected(ssid) => [LogDisconnectedRetrying(ssid), Connect]
    case StaStart => [Connect]
    case OtherWifiEvent(_) => []
  }

  /** The effects of the IP event handler: at most a log line, never a connect request. */
  function OnIpEvent(ev: IpEvent): (effects: seq<Effect>)
    ensures ConnectRequests(effects) == 0
    ensures |effects| <= 1
    ensures ev.OtherIpEvent? <==> effects == []
  {
    match ev
    case ApStaIpAssigned(ip) => [LogClientIp(ip)]
    case StaGotIp(ip) => [LogAssignedIp(ip)]
    case OtherIpEvent(_) => []
  }

  /** The effects of delivering `evs` to the Wi-Fi handler one after another. */
  function OnWifiEvents(evs: seq<WifiEvent>): seq<Effect> {
    if evs == [] then [] else OnWifiEvent(evs[0]) + OnWifiEvents(evs[1..])
  }

  /** How many events of `evs` trigger a connect request. */
  function CountTriggers(evs: seq<WifiEvent>): nat {
    if evs == [] then 0 else (if TriggersConnect(evs[0]) then 1 else 0) + CountTriggers(evs[1..])
  }

  /** The handler keeps no history: every start and every disconnect yields one connect request. */
  lemma {:induction false} ConnectsMatchTriggers(evs: seq<WifiEvent>)
    ensures ConnectRequests(OnWifiEvents(evs)) == CountTriggers(evs)
  {
    if evs != [] {
      ConnectsMatchTriggers(evs[1..]);
    }
  }

  /** Disconnects are retried without limit: `n` disconnects in a row yield `n` connect requests. */
  lemma {:induction false} DisconnectsRetriedUnboundedly(ssid: string, n: nat)
    ensures ConnectRequests(OnWifiEvents(seq(n, _ => StaDisconnected(ssid)))) == n
  {
    var evs := seq(n, _ => StaDisconnected(ssid));
    ConnectsMatchTriggers(evs);
    CountDisconnects(ssid, n);
  }

  lemma {:induction false} CountDisconnects(ssid: string, n: nat)
    ensures CountTriggers(seq(n, _ => StaDisconnected(ssid))) == n
  {
    if n > 0 {
      assert seq(n, _ => StaDisconnected(ssid))[1..] == seq(n - 1, _ => StaDisconnected(ssid));
      CountDisconnects(ssid, n - 1);
    }
  }
}
