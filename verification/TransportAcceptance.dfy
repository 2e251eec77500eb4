/** Which Transport headers are accepted, and the client ports they give:
    src/Server/RTPTransport.cpp:18-66 and 92-148. */
module TransportAcceptance {
  import opened Text
  import opened TransportHeader

  // ---- what makes a header acceptable -------------------------------------------------------

  /** A number, or a number and its successor behind a dash; ports are below 2^16. */
  predicate PortsAcceptable(value: string) {
    var dash := FindChar(value, '-', 0);
    if dash.None? then FromChars(value, 0x1_0000).Some?
    else
      var first, second := FromChars(value[..dash.value], 0x1_0000), FromChars(value[dash.value + 1..], 0x1_0000);
      first.Some? && second == Some(first.value + 1)
  }

  predicate Begins(s: string, start: string) { start <= s }

  predicate ParameterAcceptable(parameter: string) {
    && (Begins(parameter, "client_port=") ==> PortsAcceptable(parameter[12..]))
    && (Begins(parameter, "mode=") ==> parameter == "mode=play")
  }

  /** RTP over AVP, and UDP or nothing. */
  predicate SpecifierAcceptable(parts: seq<string>) {
    parts == ["rtp", "avp"] || parts == ["rtp", "avp", ""] || parts == ["rtp", "avp", "udp"]
  }

  /** Up to case, a specifier and behind a semicolon parameters, `unicast` one of them. */
  predicate Acceptable(header: string) {
    var i := FindChar(header, ';', 0);
    && i.Some?
    && SpecifierAcceptable(Split(Lower(header[..i.value]), '/'))
    && var parameters := Split(Lower(header[i.value + 1..]), ';');
       "unicast" in parameters && forall p <- parameters :: ParameterAcceptable(p)
  }

  // ---- one parameter ------------------------------------------------------------------------------

  /** The key in front of the first '=' is `key`. */
  predicate HasKey(parameter: string, key: string) {
    var i := FindChar(parameter, '=', 0);
    i.Some? && parameter[..i.value] == key
  }

  lemma BeginsExactly(parameter: string, key: string)
    requires Without(key, '=')
    ensures Begins(parameter, key + "=") <==> HasKey(parameter, key)
    ensures HasKey(parameter, key) ==> FindChar(parameter, '=', 0) == Some(|key|) && |key| < |parameter|
  {
    var start := key + "=";
    if Begins(parameter, start) {
      assert parameter[0..|key|] == start[..|key|] == key && parameter[|key|] == start[|key|] == '=';
      FindCharIs(parameter, '=', 0, |key|);
    }
    if HasKey(parameter, key) {
      var i := FindChar(parameter, '=', 0).value;
      assert parameter[..i + 1] == parameter[..i] + "=";
    }
  }

  lemma PortsExactly(t: Spec, value: string)
    ensures SetClientPorts(t, value).Some? <==> PortsAcceptable(value)
  {
    assert value[..|value|] == value;
  }

  lemma ModeExactly(parameter: string)
    requires HasKey(parameter, "mode")
    ensures parameter == "mode=play" <==> parameter[5..] == "play"
  {
    BeginsExactly(parameter, "mode");
    assert parameter == parameter[..5] + parameter[5..] && parameter[..5] == parameter[..4] + "=";
    assert "mode=play"[5..] == "play";
  }

  lemma Keys()
    ensures "client_port" + "=" == "client_port=" && |"client_port="| == 12 && "mode" + "=" == "mode="
    ensures CLIENT_PORT == "client_port" && "client_port" != "mode" && Without("client_port", '=')
    ensures Without("mode", '=') && Without("unicast", '=')
  {
    assert |"client_port"| != |"mode"|;
  }

  lemma ParameterExactly(t: Spec, parameter: string)
    ensures SetParameter(t, parameter).Some? <==> ParameterAcceptable(parameter)
    ensures SetParameter(t, parameter).Some? ==>
              SetParameter(t, parameter).value.unicast == (t.unicast || parameter == "unicast")
  {
    Keys();
    BeginsExactly(parameter, "client_port");
    BeginsExactly(parameter, "mode");
    if HasKey(parameter, "client_port") { PortsExactly(t, parameter[12..]); }
    if HasKey(parameter, "mode") { ModeExactly(parameter); }
    FindCharNone("unicast", '=', 0);
  }

  lemma {:induction false} ParametersExactly(t: Spec, parameters: seq<string>)
    ensures SetParameters(t, parameters).Some? <==> forall p <- parameters :: ParameterAcceptable(p)
    ensures SetParameters(t, parameters).Some? ==>
              SetParameters(t, parameters).value.unicast == (t.unicast || "unicast" in parameters)
    decreases |parameters|
  {
    if parameters != [] {
      ParameterExactly(t, parameters[0]);
      assert parameters == [parameters[0]] + parameters[1..];
      var next := SetParameter(t, parameters[0]);
      if next.Some? { ParametersExactly(next.value, parameters[1..]); }
    }
  }

  // ---- the header -------------------------------------------------------------------------------------

  lemma SpecifierExactly(specifier: string)
    ensures ReadSpecifier(specifier) ==
            if SpecifierAcceptable(Split(specifier, '/')) then Some(Spec("rtp", "avp", "udp", false, 0, 0)) else None
  {
    var parts := Split(specifier, '/');
    if |parts| == 2 { assert parts == [parts[0], parts[1]]; }
    if |parts| == 3 { assert parts == [parts[0], parts[1], parts[2]]; }
  }

  lemma LowerCut(header: string, i: nat)
    requires i < |header|
    ensures Lower(header)[..i] == Lower(header[..i]) && Lower(header)[i + 1..] == Lower(header[i + 1..])
  {
  }

  /** A header is accepted exactly when it is acceptable. */
  lemma AcceptedExactly(header: string)
    ensures Read(header).Some? <==> Acceptable(header)
  {
    var i := FindChar(header, ';', 0);
    if i.Some? {
      LowerCut(header, i.value);
      SpecifierExactly(Lower(header[..i.value]));
      ParametersExactly(Spec("rtp", "avp", "udp", false, 0, 0), Split(Lower(header[i.value + 1..]), ';'));
    }
  }

  // ---- the ports that result ------------------------------------------------------------------------------

  /** The parameters behind the first semicolon, lowercased. */
  function Parameters(header: string): seq<string>
    requires Acceptable(header)
  {
    Split(Lower(header[FindChar(header, ';', 0).value + 1..]), ';')
  }

  lemma ReadsParameters(header: string)
    requires Acceptable(header)
    ensures Read(header) == SetParameters(Spec("rtp", "avp", "udp", false, 0, 0), Parameters(header))
    ensures Read(header).Some? && Read(header).value.unicast
  {
    AcceptedExactly(header);
    LowerCut(header, FindChar(header, ';', 0).value);
    SpecifierExactly(Lower(header[..FindChar(header, ';', 0).value]));
  }

  /** An accepted transport, by its client ports. */
  function Udp(rtp: nat, rtcp: nat): Spec { Spec("rtp", "avp", "udp", true, rtp, rtcp) }

  lemma ReadsUdp(header: string)
    requires Acceptable(header)
    ensures Read(header).Some? && Read(header).value == Udp(Read(header).value.rtpPort, Read(header).value.rtcpPort)
  {
    ReadsParameters(header);
    SpecifierKept(Spec("rtp", "avp", "udp", false, 0, 0), Parameters(header));
  }

  lemma ClientPortExactly(parameter: string)
    ensures IsClientPort(parameter) <==> Begins(parameter, "client_port=")
  {
    Keys();
    BeginsExactly(parameter, "client_port");
  }

  /** Without a client_port both ports are 0. */
  lemma NoClientPort(header: string)
    requires Acceptable(header) && forall p <- Parameters(header) :: !Begins(p, "client_port=")
    ensures Read(header) == Some(Udp(0, 0))
  {
    var t := Spec("rtp", "avp", "udp", false, 0, 0);
    ReadsParameters(header);
    ReadsUdp(header);
    forall p | p in Parameters(header) ensures !IsClientPort(p) { ClientPortExactly(p); }
    OthersKeepPorts(t, Parameters(header));
  }

  /** The number of an accepted client_port, or the first of its pair. */
  function GivenPort(value: string): nat
    requires PortsAcceptable(value)
  {
    var dash := FindChar(value, '-', 0);
    FromChars(if dash.None? then value else value[..dash.value], 0x1_0000).value
  }

  /** Parameter `k` is a client_port and no other one is. */
  predicate OnlyClientPort(parameters: seq<string>, k: nat) {
    && k < |parameters| && Begins(parameters[k], "client_port=")
    && forall j :: 0 <= j < |parameters| && j != k ==> !Begins(parameters[j], "client_port=")
  }

  /** One client_port: an even port stays and an odd one moves down by one; the
      port above it is the second of a pair, and there is none without a dash. */
  lemma OneClientPort(header: string, k: nat)
    requires Acceptable(header) && OnlyClientPort(Parameters(header), k)
    ensures ParameterAcceptable(Parameters(header)[k])
    ensures var value := Parameters(header)[k][12..];
            var port := GivenPort(value);
            var rtp := if port % 2 == 0 then port else port - 1;
            Read(header) == Some(Udp(rtp, if Without(value, '-') then 0 else rtp + 1))
  {
    ReadsParameters(header);
    OneOfMany(Spec("rtp", "avp", "udp", false, 0, 0), Parameters(header), k);
    ReadsUdp(header);
  }

  lemma OneOfMany(t: Spec, ps: seq<string>, k: nat)
    requires OnlyClientPort(ps, k) && SetParameters(t, ps).Some? && t.rtcpPort == 0
    ensures ParameterAcceptable(ps[k])
    ensures var r, value := SetParameters(t, ps).value, ps[k][12..];
            var port := GivenPort(value);
            && r.rtpPort == (if port % 2 == 0 then port else port - 1)
            && r.rtcpPort == (if Without(value, '-') then 0 else r.rtpPort + 1)
  {
    forall j | 0 <= j < |ps| ensures IsClientPort(ps[j]) <==> j == k { ClientPortExactly(ps[j]); }
    assert ps == ps[..k] + ([ps[k]] + ps[k + 1..]);
    ThreeParts(t, ps[..k], ps[k], ps[k + 1..]);
  }

  lemma ThreeParts(t: Spec, before: seq<string>, p: string, after: seq<string>)
    requires SetParameters(t, before + ([p] + after)).Some? && IsClientPort(p) && t.rtcpPort == 0
    requires (forall q <- before :: !IsClientPort(q)) && forall q <- after :: !IsClientPort(q)
    ensures ParameterAcceptable(p) && Begins(p, "client_port=")
    ensures var r, value := SetParameters(t, before + ([p] + after)).value, p[12..];
            var port := GivenPort(value);
            && r.rtpPort == (if port % 2 == 0 then port else port - 1)
            && r.rtcpPort == (if Without(value, '-') then 0 else r.rtpPort + 1)
  {
    ParametersConcat(t, before, [p] + after);
    OthersKeepPorts(t, before);
    var u := SetParameters(t, before).value;
    assert ([p] + after)[1..] == after;
    ClientPortExactly(p);
    ParameterExactly(u, p);
    PortsSet(u, p);
    OthersKeepPorts(SetParameter(u, p).value, after);
  }

  lemma PortsSet(t: Spec, p: string)
    requires Begins(p, "client_port=") && PortsAcceptable(p[12..]) && t.rtcpPort == 0
    ensures SetParameter(t, p).Some?
    ensures var r, value := SetParameter(t, p).value, p[12..];
            var port := GivenPort(value);
            && r.rtpPort == (if port % 2 == 0 then port else port - 1)
            && r.rtcpPort == (if Without(value, '-') then 0 else r.rtpPort + 1)
  {
    Keys();
    BeginsExactly(p, "client_port");
    var value := p[12..];
    assert value[0..] == value && value[..|value|] == value;
  }

  // ---- the printed text --------------------------------------------------------------------------------------

  /** What is printed of an accepted transport. */
  lemma PrintedUdp(rtp: nat, rtcp: nat, serverRtp: nat, serverRtcp: nat)
    ensures Print(Udp(rtp, rtcp), serverRtp, serverRtcp)
         == "RTP/AVP/UDP" + (";unicast;client_port=" + Decimal(rtp)) + (if rtcp == 0 then "" else "-" + Decimal(rtcp))
            + (";server_port=" + Decimal(serverRtp)) + (if serverRtcp == 0 then "" else "-" + Decimal(serverRtcp))
  {
    var lower := "rtp" + "/" + "avp" + ("/" + "udp");
    assert lower == "rtp/avp/udp";
    assert Upper(lower) == "RTP/AVP/UDP";
  }
}
