/** The connection settings latest_conf derives from the stored values of
    remoteMode, remoteIp and remotePort. */
module Config {
  import opened Text

  /** What QSettings.value returns for each key: None when it was never stored. */
  datatype Settings = Settings(remoteMode: Option<string>, remoteIp: Option<string>, remotePort: Option<string>)

  /** The value of the `port` attribute: None, an int, or the stored text as is. */
  datatype Port = NoPort | Number(n: int) | Raw(text: string)

  /** The attributes remoteMode, host and port. */
  datatype Conf = Conf(remoteMode: bool, host: Option<string>, port: Port)

  const LocalHost := "127.0.0.1"
  const LocalPort := 1030

  /** The local-mode configuration both front-ends fall back to. */
  const LocalConf := Conf(false, Some(LocalHost), Number(LocalPort))

  /** The newer front-end's latest_conf: remoteMode 'False' means local mode;
      anything else means remote mode with the stored host and the stored port
      through `int(...)`, a ValueError giving None. A missing port makes
      `int(None)` raise a TypeError, which is not caught: the second component
      says so, and the port keeps its previous value. */
  function PinoloConf(s: Settings, previous: Port): (r: (Conf, bool))
    ensures s.remoteMode == Some("False") <==> !r.0.remoteMode
    ensures s.remoteMode == Some("False") ==> r == (LocalConf, false)
    ensures s.remoteMode != Some("False") ==> r.0.host == s.remoteIp
    ensures s.remoteMode != Some("False") ==> (r.1 <==> s.remotePort.None?)
    ensures s.remoteMode != Some("False") && s.remotePort.Some? ==>
      (r.0.port == NoPort <==> ParseInt(s.remotePort.value).None?)
    ensures s.remoteMode != Some("False") && s.remotePort.Some? && ParseInt(s.remotePort.value).Some? ==>
      r.0.port == Number(ParseInt(s.remotePort.value).value)
    ensures r.1 ==> r.0.port == previous
  {
    if s.remoteMode == Some("False") then (LocalConf, false)
    else
      match s.remotePort
      case None => (Conf(true, s.remoteIp, previous), true)
      case Some(text) =>
        (Conf(true, s.remoteIp, match ParseInt(text) case Some(n) => Number(n) case None => NoPort), false)
  }

  /** The older front-end's latest_conf: the same local fallback, but the port
      is the stored text as is (None when missing), so nothing can raise. */
  function PestoConf(s: Settings): (c: Conf)
    ensures s.remoteMode == Some("False") <==> !c.remoteMode
    ensures s.remoteMode == Some("False") ==> c == LocalConf
    ensures s.remoteMode != Some("False") ==> c.host == s.remoteIp
    ensures s.remoteMode != Some("False") ==> (c.port == NoPort <==> s.remotePort.None?)
    ensures s.remoteMode != Some("False") && s.remotePort.Some? ==> c.port == Raw(s.remotePort.value)
  {
    if s.remoteMode == Some("False") then LocalConf
    else Conf(true, s.remoteIp, match s.remotePort case None => NoPort case Some(text) => Raw(text))
  }

  /** The two agree on the mode and the host; for a port stored as
      `str(n)` the newer one reads back the number and the older one keeps
      the text. */
  lemma ConfsAgree(s: Settings, previous: Port, n: nat)
    requires s.remoteMode != Some("False") && s.remotePort == Some(NatToString(n))
    ensures PinoloConf(s, previous).0 == PestoConf(s).(port := Number(n))
    ensures !PinoloConf(s, previous).1
  {
    ParseNatToString(n);
  }
}
