/** src/Server/RTPTransport.cpp:18-66 and 92-179: reading and printing the
    Transport header (section 12.39 of RFC 2326). */
module TransportHeader {
  import opened Text

  /** Number of values of a port. */
  const PORT_LIMIT: nat := 0x1_0000

  datatype Spec = Spec(protocol: string, profile: string, lowerTransport: string, unicast: bool,
                       rtpPort: nat, rtcpPort: nat)

  /** `client_port`: the second port must be the first plus one, and an odd first
      port moves both down.  Without a dash an earlier second port stays. */
  function SetClientPorts(t: Spec, value: string): Option<Spec> {
    var dash := FindChar(value, '-', 0);
    var i := if dash.Some? then dash.value else |value|;
    var first := FromChars(value[..i], PORT_LIMIT);
    if first.None? then None
    else
      var second := if dash.Some? then FromChars(value[i + 1..], PORT_LIMIT) else Some(t.rtcpPort);
      if second.None? || (dash.Some? && second.value != first.value + 1) then None
      else if first.value % 2 == 0 then Some(t.(rtpPort := first.value, rtcpPort := second.value))
      else Some(t.(rtpPort := first.value - 1, rtcpPort := if second.value == 0 then 0 else second.value - 1))
  }

  const CLIENT_PORT := "client_port"

  function SetParameter(t: Spec, parameter: string): Option<Spec> {
    var i := FindChar(parameter, '=', 0);
    if i.None? then Some(if parameter == "unicast" then t.(unicast := true) else t)
    else
      var key, value := parameter[..i.value], parameter[i.value + 1..];
      if key == CLIENT_PORT then SetClientPorts(t, value)
      else if key == "mode" && value != "play" then None
      else Some(t)
  }

  function SetParameters(t: Spec, parameters: seq<string>): Option<Spec>
    decreases |parameters|
  {
    if parameters == [] then Some(t)
    else
      var next := SetParameter(t, parameters[0]);
      if next.None? then None else SetParameters(next.value, parameters[1..])
  }

  function PartOr(parts: seq<string>, i: nat): string { if i < |parts| then parts[i] else "" }

  /** protocol/profile/lower-transport.  More than three parts would be written
      past the three strings; they are refused here. */
  function ReadSpecifier(specifier: string): Option<Spec> {
    var parts := Split(specifier, '/');
    var lower := if PartOr(parts, 2) == "" then "udp" else PartOr(parts, 2);
    if |parts| > 3 || PartOr(parts, 0) != "rtp" || PartOr(parts, 1) != "avp" || lower != "udp" then None
    else Some(Spec("rtp", "avp", lower, false, 0, 0))
  }

  /** The constructor up to the binding of sockets; `None` is an exception. */
  function Read(header: string): Option<Spec> {
    var i := FindChar(header, ';', 0);
    if i.None? then None
    else
      var text := Lower(header);
      var t := ReadSpecifier(text[..i.value]);
      if t.None? then None
      else
        var all := SetParameters(t.value, Split(text[i.value + 1..], ';'));
        if all.None? || !all.value.unicast then None else all
  }

  function DashPort(port: nat): string { if port == 0 then "" else "-" + Decimal(port) }

  /** `get_string`; the server ports are those of the bound sockets. */
  function Print(t: Spec, serverRtp: nat, serverRtcp: nat): string {
    Upper(t.protocol + "/" + t.profile + if t.lowerTransport == "" then "" else "/" + t.lowerTransport)
    + (";unicast;client_port=" + Decimal(t.rtpPort)) + DashPort(t.rtcpPort)
    + (";server_port=" + Decimal(serverRtp)) + DashPort(serverRtcp)
  }

  /** The object: the parse sets its fields as it goes. */
  class RTPTransport {
    var protocol: string
    var profile: string
    var lowerTransport: string
    var unicast: bool
    var clientPorts: (nat, nat)

    function State(): Spec
      reads this
    {
      Spec(protocol, profile, lowerTransport, unicast, clientPorts.0, clientPorts.1)
    }

    constructor ()
      ensures State() == Spec("", "", "", false, 0, 0)
    {
      protocol, profile, lowerTransport, unicast, clientPorts := "", "", "", false, (0, 0);
    }

    method SetClientPortsFrom(value: string) returns (ok: bool)
      modifies this`clientPorts
      ensures ok == SetClientPorts(old(State()), value).Some?
      ensures ok ==> State() == SetClientPorts(old(State()), value).value
    {
      var found := FindChar(value, '-', 0);
      var i := if found.Some? then found.value else |value|;
      var first := FromChars(value[..i], PORT_LIMIT);
      if first.None? { return false; }
      clientPorts := (first.value, clientPorts.1);
      if i != |value| {
        var second := FromChars(value[i + 1..], PORT_LIMIT);
        if second.Some? { clientPorts := (clientPorts.0, second.value); }
        if second.None? || clientPorts.1 != clientPorts.0 + 1 { return false; }
      }
      if clientPorts.0 % 2 != 0 {
        clientPorts := (clientPorts.0 - 1, clientPorts.1);
        if clientPorts.1 != 0 { clientPorts := (clientPorts.0, clientPorts.1 - 1); }
      }
      ok := true;
    }

    method SetParameterFrom(parameter: string) returns (ok: bool)
      modifies this`unicast, this`clientPorts
      ensures ok == SetParameter(old(State()), parameter).Some?
      ensures ok ==> State() == SetParameter(old(State()), parameter).value
    {
      var i := FindChar(parameter, '=', 0);
      ok := true;
      if i.Some? {
        var key, value := parameter[..i.value], parameter[i.value + 1..];
        if key == CLIENT_PORT {
          ok := SetClientPortsFrom(value);
        } else if key == "mode" && value != "play" {
          ok := false;
        }
      } else if parameter == "unicast" {
        unicast := true;
      }
    }

    method ReadHeader(header: string) returns (ok: bool)
      requires State() == Spec("", "", "", false, 0, 0)
      modifies this
      ensures ok == Read(header).Some?
      ensures ok ==> State() == Read(header).value
    {
      var found := FindChar(header, ';', 0);
      if found.None? { return false; }
      var text := Lower(header);
      var parts := SplitLoop(text[..found.value], '/');
      if |parts| > 3 { return false; }
      protocol, profile, lowerTransport := PartOr(parts, 0), PartOr(parts, 1), PartOr(parts, 2);
      if protocol != "rtp" || profile != "avp" { return false; }
      if lowerTransport == "" {
        lowerTransport := "udp";
      } else if lowerTransport != "udp" {
        return false;
      }
      var parameters := SplitLoop(text[found.value + 1..], ';');
      ghost var t := State();
      for k := 0 to |parameters|
        invariant SetParameters(t, parameters) == SetParameters(State(), parameters[k..])
      {
        assert parameters[k..][1..] == parameters[k + 1..];
        var accepted := SetParameterFrom(parameters[k]);
        if !accepted { return false; }
      }
      ok := unicast;
    }

    method GetString(serverRtp: nat, serverRtcp: nat) returns (s: string)
      ensures s == Print(State(), serverRtp, serverRtcp)
    {
      s := protocol + "/" + profile;
      s := s + if lowerTransport == "" then "" else "/" + lowerTransport;
      s := Upper(s);
      s := s + (";unicast;client_port=" + Decimal(clientPorts.0));
      s := s + DashPort(clientPorts.1);
      s := s + (";server_port=" + Decimal(serverRtp));
      s := s + DashPort(serverRtcp);
    }
  }

  // ---- what is accepted ------------------------------------------------------------------

  /** An even RTP port with the next one for RTCP, or alone (section 11 of RFC 3550). */
  predicate Normal(t: Spec) {
    t.rtpPort % 2 == 0 && (t.rtcpPort == 0 || t.rtcpPort == t.rtpPort + 1)
  }

  predicate IsClientPort(parameter: string) {
    var i := FindChar(parameter, '=', 0);
    i.Some? && parameter[..i.value] == CLIENT_PORT
  }

  predicate HasDash(parameter: string) {
    var i := FindChar(parameter, '=', 0);
    i.Some? && FindChar(parameter[i.value + 1..], '-', 0).Some?
  }

  /** No client_port without a dash comes after one with a dash. */
  predicate NoStalePort(parameters: seq<string>) {
    forall i, j :: 0 <= i < j < |parameters| ==>
      (IsClientPort(parameters[i]) && IsClientPort(parameters[j]) && HasDash(parameters[i]) ==> HasDash(parameters[j]))
  }

  lemma ParameterKeeps(t: Spec, parameter: string)
    requires Normal(t) && SetParameter(t, parameter).Some?
    requires IsClientPort(parameter) && !HasDash(parameter) ==> t.rtcpPort == 0
    ensures Normal(SetParameter(t, parameter).value)
    ensures t.rtcpPort == 0 && !(IsClientPort(parameter) && HasDash(parameter)) ==>
              SetParameter(t, parameter).value.rtcpPort == 0
  {
    var i := FindChar(parameter, '=', 0);
    if IsClientPort(parameter) { PortsKept(t, parameter[i.value + 1..]); }
  }

  lemma PortsKept(t: Spec, value: string)
    requires SetClientPorts(t, value).Some?
    ensures FindChar(value, '-', 0).Some? || t.rtcpPort == 0 ==> Normal(SetClientPorts(t, value).value)
    ensures FindChar(value, '-', 0).None? && t.rtcpPort == 0 ==> SetClientPorts(t, value).value.rtcpPort == 0
  {
  }

  lemma {:induction false} ParametersKeep(t: Spec, parameters: seq<string>)
    requires Normal(t) && NoStalePort(parameters) && SetParameters(t, parameters).Some?
    requires t.rtcpPort != 0 ==> forall p <- parameters :: IsClientPort(p) ==> HasDash(p)
    ensures Normal(SetParameters(t, parameters).value)
    decreases |parameters|
  {
    if parameters != [] {
      var p := parameters[0];
      ParameterKeeps(t, p);
      assert p in parameters;
      forall i, j | 0 <= i < j < |parameters[1..]| ensures
        IsClientPort(parameters[1..][i]) && IsClientPort(parameters[1..][j]) && HasDash(parameters[1..][i]) ==>
          HasDash(parameters[1..][j])
      {
        assert parameters[1..][i] == parameters[i + 1] && parameters[1..][j] == parameters[j + 1];
      }
      if IsClientPort(p) && HasDash(p) {
        forall q | q in parameters[1..] && IsClientPort(q) ensures HasDash(q) {
          var j :| 1 <= j < |parameters| && parameters[j] == q;
        }
      }
      ParametersKeep(SetParameter(t, p).value, parameters[1..]);
    }
  }

  /** Accepted headers give RTP over AVP over UDP, unicast, and an even port with
      its odd neighbour or none, whatever the case and the other parameters. */
  lemma AcceptedIsNormal(header: string)
    requires Read(header).Some?
    requires var i := FindChar(header, ';', 0).value; NoStalePort(Split(Lower(header)[i + 1..], ';'))
    ensures var t := Read(header).value;
            && t.protocol == "rtp" && t.profile == "avp" && t.lowerTransport == "udp" && t.unicast && Normal(t)
  {
    var i := FindChar(header, ';', 0).value;
    var parameters := Split(Lower(header)[i + 1..], ';');
    var t := ReadSpecifier(Lower(header)[..i]).value;
    ParametersKeep(t, parameters);
    SpecifierKept(t, parameters);
  }

  lemma {:induction false} SpecifierKept(t: Spec, parameters: seq<string>)
    requires SetParameters(t, parameters).Some?
    ensures var r := SetParameters(t, parameters).value;
            r.protocol == t.protocol && r.profile == t.profile && r.lowerTransport == t.lowerTransport
    decreases |parameters|
  {
    if parameters != [] { SpecifierKept(SetParameter(t, parameters[0]).value, parameters[1..]); }
  }

  /** The number in front of the dash, or the whole value. */
  function FirstPort(parameter: string): Option<nat>
    requires IsClientPort(parameter)
  {
    var value := parameter[FindChar(parameter, '=', 0).value + 1..];
    var dash := FindChar(value, '-', 0);
    FromChars(value[..if dash.Some? then dash.value else |value|], PORT_LIMIT)
  }

  /** An RTCP port left by earlier parameters suits the RTP port `port`. */
  predicate Fits(rtcpPort: nat, port: nat) {
    rtcpPort == 0 || rtcpPort == port + 1 || (port % 2 == 1 && rtcpPort == 1)
  }

  lemma OnePortExactly(t: Spec, parameter: string)
    requires IsClientPort(parameter) && SetParameter(t, parameter).Some?
    ensures FirstPort(parameter).Some?
    ensures Normal(SetParameter(t, parameter).value)
       <==> HasDash(parameter) || Fits(t.rtcpPort, FirstPort(parameter).value)
  {
  }

  lemma {:induction false} ParametersConcat(t: Spec, a: seq<string>, b: seq<string>)
    ensures SetParameters(t, a + b) ==
            if SetParameters(t, a).None? then None else SetParameters(SetParameters(t, a).value, b)
    decreases |a|
  {
    if a == [] {
      assert a + b == b;
    } else {
      assert (a + b)[1..] == a[1..] + b;
      var next := SetParameter(t, a[0]);
      if next.Some? { ParametersConcat(next.value, a[1..], b); }
    }
  }

  lemma {:induction false} OthersKeepPorts(t: Spec, parameters: seq<string>)
    requires forall p <- parameters :: !IsClientPort(p)
    requires SetParameters(t, parameters).Some?
    ensures var r := SetParameters(t, parameters).value; r.rtpPort == t.rtpPort && r.rtcpPort == t.rtcpPort
    decreases |parameters|
  {
    if parameters != [] {
      assert parameters[0] in parameters && forall p <- parameters[1..] :: p in parameters;
      OthersKeepPorts(SetParameter(t, parameters[0]).value, parameters[1..]);
    }
  }

  /** Accepted parameters leave normal client ports exactly when the last
      client_port has a dash, or the RTCP port the ones before it left suits it. */
  lemma NormalExactly(t: Spec, before: seq<string>, last: string, after: seq<string>)
    requires SetParameters(t, before + ([last] + after)).Some?
    requires IsClientPort(last) && forall p <- after :: !IsClientPort(p)
    ensures SetParameters(t, before).Some? && FirstPort(last).Some?
    ensures Normal(SetParameters(t, before + ([last] + after)).value)
       <==> HasDash(last) || Fits(SetParameters(t, before).value.rtcpPort, FirstPort(last).value)
  {
    ParametersConcat(t, before, [last] + after);
    var u := SetParameters(t, before).value;
    assert ([last] + after)[1..] == after;
    OnePortExactly(u, last);
    OthersKeepPorts(SetParameter(u, last).value, after);
  }

  /** The condition matters: a second client_port without a dash keeps the old
      RTCP port. */
  lemma StalePort()
    ensures var t := Spec("rtp", "avp", "udp", true, 0, 0);
            var r := SetParameters(t, ["client_port=2-3", "client_port=8"]);
            r == Some(t.(rtpPort := 8, rtcpPort := 3)) && !Normal(r.value)
  {
    var t := Spec("rtp", "avp", "udp", true, 0, 0);
    var u := t.(rtpPort := 2, rtcpPort := 3);
    PairGiven(t);
    LoneGiven(u);
    TwoParameters(t, "client_port=2-3", "client_port=8", u, u.(rtpPort := 8));
  }

  lemma TwoParameters(t: Spec, a: string, b: string, u: Spec, v: Spec)
    requires SetParameter(t, a) == Some(u) && SetParameter(u, b) == Some(v)
    ensures SetParameters(t, [a, b]) == Some(v)
  {
    assert [a, b][1..] == [b] && [b][1..] == [];
    assert SetParameters(u, [b]) == SetParameters(v, []);
  }

  lemma PairGiven(t: Spec)
    ensures SetParameter(t, "client_port=2-3") == Some(t.(rtpPort := 2, rtcpPort := 3))
  {
    PortParameter(t, 2, 3);
    assert Decimal(2) == "2" && Decimal(3) == "3";
    assert "client_port=2-3" == "client_port=" + Decimal(2) + DashPort(3);
  }

  lemma LoneGiven(t: Spec)
    ensures SetParameter(t, "client_port=8") == Some(t.(rtpPort := 8))
  {
    PortParameter(t, 8, 0);
    assert Decimal(8) == "8";
    assert "client_port=8" == "client_port=" + Decimal(8) + DashPort(0);
  }

  // ---- printing and reading back ---------------------------------------------------------

  /** What a printed client_port parameter does. */
  function ReadPorts(t: Spec, first: nat, second: nat): Option<Spec> {
    var kept := if second == 0 then t.rtcpPort else second;
    if first >= PORT_LIMIT || (second != 0 && (second >= PORT_LIMIT || second != first + 1)) then None
    else if first % 2 == 0 then Some(t.(rtpPort := first, rtcpPort := kept))
    else Some(t.(rtpPort := first - 1, rtcpPort := if kept == 0 then 0 else kept - 1))
  }

  lemma DigitsWithout(n: nat, c: char)
    requires !IsDigit(c)
    ensures Without(Decimal(n), c)
  {
    DecimalValue(n);
  }

  lemma LonePort(t: Spec, first: nat)
    ensures SetClientPorts(t, Decimal(first)) == ReadPorts(t, first, 0)
  {
    var value := Decimal(first);
    DigitsWithout(first, '-');
    assert value[0..] == value && value[..|value|] == value && value + "" == value;
    FindCharNone(value, '-', 0);
    FromCharsDecimal(first, "", PORT_LIMIT);
  }

  /** A printed port, read back. */
  function PortRead(n: nat): Option<nat> { if n < PORT_LIMIT then Some(n) else None }

  lemma DashSplits(a: string, b: string)
    requires Without(a, '-')
    ensures var value := a + "-" + b;
            FindChar(value, '-', 0) == Some(|a|) && value[..|a|] == a && value[|a| + 1..] == b
  {
    var value := a + "-" + b;
    assert value[0..|a|] == a;
    FindCharIs(value, '-', 0, |a|);
  }

  lemma PortBack(n: nat)
    ensures FromChars(Decimal(n), PORT_LIMIT) == PortRead(n)
  {
    FromCharsDecimal(n, "", PORT_LIMIT);
    assert Decimal(n) + "" == Decimal(n);
  }

  lemma PortPair(t: Spec, first: nat, second: nat)
    requires second != 0
    ensures SetClientPorts(t, Decimal(first) + "-" + Decimal(second)) == ReadPorts(t, first, second)
  {
    DigitsWithout(first, '-');
    DashSplits(Decimal(first), Decimal(second));
    PortBack(first);
    PortBack(second);
  }

  lemma PortParameter(t: Spec, first: nat, second: nat)
    ensures SetParameter(t, "client_port=" + Decimal(first) + DashPort(second)) == ReadPorts(t, first, second)
  {
    ClientPortValue(t, Decimal(first), DashPort(second));
    if second == 0 {
      assert Decimal(first) + DashPort(second) == Decimal(first);
      LonePort(t, first);
    } else {
      assert Decimal(first) + DashPort(second) == Decimal(first) + "-" + Decimal(second);
      PortPair(t, first, second);
    }
  }

  lemma ClientPortValue(t: Spec, a: string, b: string)
    ensures SetParameter(t, "client_port=" + a + b) == SetClientPorts(t, a + b)
  {
    assert "client_port=" + a + b == CLIENT_PORT + "=" + (a + b);
    KeyAndValue(CLIENT_PORT, a + b);
  }

  lemma KeyAndValue(key: string, value: string)
    requires Without(key, '=')
    ensures var p := key + "=" + value;
            FindChar(p, '=', 0) == Some(|key|) && p[..|key|] == key && p[|key| + 1..] == value
  {
    var p := key + "=" + value;
    assert p[0..|key|] == key;
    FindCharIs(p, '=', 0, |key|);
  }

  const SPECIFIER := "rtp" + "/" + ("avp" + "/" + "udp")

  function PrintedParameters(t: Spec, serverRtp: nat, serverRtcp: nat): seq<string> {
    ["unicast", "client_port=" + Decimal(t.rtpPort) + DashPort(t.rtcpPort),
     "server_port=" + Decimal(serverRtp) + DashPort(serverRtcp)]
  }

  /** Neither a capital letter nor a semicolon. */
  predicate Plain(s: string) { forall i :: 0 <= i < |s| ==> !('A' <= s[i] <= 'Z') && s[i] != ';' }

  lemma PlainLower(s: string)
    requires forall i :: 0 <= i < |s| ==> !('A' <= s[i] <= 'Z')
    ensures Lower(s) == s
  {
  }

  lemma PlainPorts(prefix: string, first: nat, second: nat)
    requires Plain(prefix)
    ensures Plain(prefix + Decimal(first) + DashPort(second))
  {
    DecimalValue(first);
    DecimalValue(second);
    assert forall i :: 0 <= i < |Decimal(first)| ==> IsDigit(Decimal(first)[i]);
    assert forall i :: 0 <= i < |Decimal(second)| ==> IsDigit(Decimal(second)[i]);
  }

  lemma LowerUpper(s: string)
    ensures Lower(Upper(s)) == Lower(s)
  {
  }

  lemma JoinThree(a: string, b: string, c: string, sep: string)
    ensures Join([a, b, c], sep) == a + sep + (b + sep + c)
  {
    JoinCons(c, [], sep);
    JoinCons(b, [c], sep);
    JoinCons(a, [b, c], sep);
    assert [a, b, c] == [a] + ([b] + ([c] + []));
  }

  lemma HeaderText(specifier: string, rest: string)
    requires Plain(specifier) && forall i :: 0 <= i < |rest| ==> !('A' <= rest[i] <= 'Z')
    ensures var header := Upper(specifier) + (";" + rest);
            FindChar(header, ';', 0) == Some(|specifier|) && Lower(header) == specifier + (";" + rest)
  {
    FirstSemicolon(Upper(specifier), rest) by {
      forall i | 0 <= i < |specifier| ensures Upper(specifier)[i] != ';' { assert specifier[i] != ';'; }
    }
    LowerConcat(Upper(specifier), ";" + rest);
    LowerUpper(specifier);
    PlainLower(specifier);
    PlainLower(";" + rest);
  }

  lemma FirstSemicolon(a: string, rest: string)
    requires Without(a, ';')
    ensures FindChar(a + (";" + rest), ';', 0) == Some(|a|)
  {
    var s := a + (";" + rest);
    assert s[0..|a|] == a && s[|a|] == ';';
    FindCharIs(s, ';', 0, |a|);
  }

  lemma Regroup(u: string, d1: string, e1: string, d2: string, e2: string)
    ensures u + (";unicast;client_port=" + d1) + e1 + (";server_port=" + d2) + e2
         == u + (";" + Join(["unicast", "client_port=" + d1 + e1, "server_port=" + d2 + e2], ";"))
  {
    var p1, p2 := "client_port=" + d1 + e1, "server_port=" + d2 + e2;
    JoinThree("unicast", p1, p2, ";");
    assert ";unicast;client_port=" + d1 == ";unicast;" + ("client_port=" + d1);
    assert ";server_port=" + d2 == ";" + ("server_port=" + d2);
    assert ";" + ("unicast" + ";" + (p1 + ";" + p2)) == ";unicast;" + p1 + ";" + p2;
  }

  lemma PlainJoin(a: string, b: string, c: string)
    requires Plain(a) && Plain(b) && Plain(c) && c != ""
    ensures Split(Join([a, b, c], ";"), ';') == [a, b, c]
  {
    assert AllWithout([a, b, c], ';');
    SplitJoin([a, b, c], ';');
  }

  lemma NoCapitals(a: string, b: string, c: string)
    requires Plain(a) && Plain(b) && Plain(c)
    ensures forall i :: 0 <= i < |Join([a, b, c], ";")| ==> !('A' <= Join([a, b, c], ";")[i] <= 'Z')
  {
    JoinThree(a, b, c, ";");
  }

  /** The shape of every printed header, and how the reader takes it apart. */
  lemma PrintedShape(d1: string, e1: string, d2: string, e2: string)
    requires Plain("client_port=" + d1 + e1) && Plain("server_port=" + d2 + e2)
    ensures var header := Upper(SPECIFIER) + (";unicast;client_port=" + d1) + e1 + (";server_port=" + d2) + e2;
            var ps := ["unicast", "client_port=" + d1 + e1, "server_port=" + d2 + e2];
            && FindChar(header, ';', 0) == Some(|SPECIFIER|)
            && Lower(header) == SPECIFIER + (";" + Join(ps, ";"))
            && Split(Join(ps, ";"), ';') == ps
  {
    var p1, p2 := "client_port=" + d1 + e1, "server_port=" + d2 + e2;
    PlainJoin("unicast", p1, p2);
    NoCapitals("unicast", p1, p2);
    Regroup(Upper(SPECIFIER), d1, e1, d2, e2);
    HeaderText(SPECIFIER, Join(["unicast", p1, p2], ";"));
  }

  /** The printed header, lowercased, as the reader splits it. */
  lemma PrintedText(t: Spec, serverRtp: nat, serverRtcp: nat)
    requires t.protocol == "rtp" && t.profile == "avp" && t.lowerTransport == "udp"
    ensures var header, ps := Print(t, serverRtp, serverRtcp), PrintedParameters(t, serverRtp, serverRtcp);
            && FindChar(header, ';', 0) == Some(|SPECIFIER|)
            && Lower(header) == SPECIFIER + (";" + Join(ps, ";"))
            && Split(Join(ps, ";"), ';') == ps
  {
    PlainPorts("client_port=", t.rtpPort, t.rtcpPort);
    PlainPorts("server_port=", serverRtp, serverRtcp);
    PrintedShape(Decimal(t.rtpPort), DashPort(t.rtcpPort), Decimal(serverRtp), DashPort(serverRtcp));
    SpecifierText(t);
  }

  lemma SpecifierText(t: Spec)
    requires t.protocol == "rtp" && t.profile == "avp" && t.lowerTransport == "udp"
    ensures t.protocol + "/" + t.profile + "/" + t.lowerTransport == SPECIFIER
    ensures t.protocol + "/" + t.profile + ("/" + t.lowerTransport) == SPECIFIER
  {
  }

  lemma SpecifierBack()
    ensures ReadSpecifier(SPECIFIER) == Some(Spec("rtp", "avp", "udp", false, 0, 0))
  {
    JoinThree("rtp", "avp", "udp", "/");
    SplitJoin(["rtp", "avp", "udp"], '/');
  }

  lemma SetThree(t: Spec, a: string, b: string, c: string, u: Spec)
    requires SetParameter(t, a) == Some(u)
    requires SetParameter(u, b).Some? ==> SetParameter(SetParameter(u, b).value, c) == SetParameter(u, b)
    ensures SetParameters(t, [a, b, c]) == SetParameter(u, b)
  {
    var ps := [a, b, c];
    assert ps[1..] == [b, c] && [b, c][1..] == [c] && [c][1..] == [];
    if SetParameter(u, b).Some? {
      var v := SetParameter(u, b).value;
      assert SetParameters(v, [c]) == SetParameters(v, []);
      assert SetParameters(u, [b, c]) == SetParameters(v, [c]);
    }
  }

  lemma ParametersBack(t: Spec, serverRtp: nat, serverRtcp: nat)
    ensures SetParameters(Spec("rtp", "avp", "udp", false, 0, 0), PrintedParameters(t, serverRtp, serverRtcp))
         == ReadPorts(Spec("rtp", "avp", "udp", true, 0, 0), t.rtpPort, t.rtcpPort)
  {
    var ps := PrintedParameters(t, serverRtp, serverRtcp);
    var s0, s1 := Spec("rtp", "avp", "udp", false, 0, 0), Spec("rtp", "avp", "udp", true, 0, 0);
    FindCharNone("unicast", '=', 0);
    PortParameter(s1, t.rtpPort, t.rtcpPort);
    var ports := ReadPorts(s1, t.rtpPort, t.rtcpPort);
    if ports.Some? { ServerPortIgnored(ports.value, serverRtp, serverRtcp); }
    SetThree(s0, ps[0], ps[1], ps[2], s1);
  }

  lemma OtherKey()
    ensures "server_port" != CLIENT_PORT && "server_port" != "mode"
  {
    var key := "server_port";
    assert |key| == 11 && |"mode"| == 4;
    assert key[5] == 'r';
    assert CLIENT_PORT[5] == 't';
  }

  lemma ServerPortIgnored(t: Spec, first: nat, second: nat)
    ensures SetParameter(t, "server_port=" + Decimal(first) + DashPort(second)) == Some(t)
  {
    assert "server_port=" + Decimal(first) + DashPort(second)
        == "server_port" + "=" + (Decimal(first) + DashPort(second));
    KeyAndValue("server_port", Decimal(first) + DashPort(second));
    OtherKey();
  }

  lemma ReadText(header: string, ps: seq<string>)
    requires FindChar(header, ';', 0) == Some(|SPECIFIER|)
    requires Lower(header) == SPECIFIER + (";" + Join(ps, ";")) && Split(Join(ps, ";"), ';') == ps
    ensures var all := SetParameters(Spec("rtp", "avp", "udp", false, 0, 0), ps);
            Read(header) == if all.None? || !all.value.unicast then None else all
  {
    SpecifierBack();
    CutAt(SPECIFIER, ";", Join(ps, ";"));
  }

  lemma CutAt(a: string, sep: string, b: string)
    requires |sep| == 1
    ensures (a + (sep + b))[..|a|] == a && (a + (sep + b))[|a| + 1..] == b
  {
  }

  lemma PortsBack(t: Spec)
    requires t.protocol == "rtp" && t.profile == "avp" && t.lowerTransport == "udp" && t.unicast
    requires t.rtpPort < PORT_LIMIT && t.rtcpPort < PORT_LIMIT
    ensures ReadPorts(Spec("rtp", "avp", "udp", true, 0, 0), t.rtpPort, t.rtcpPort) == Some(t) <==> Normal(t)
    ensures var r := ReadPorts(Spec("rtp", "avp", "udp", true, 0, 0), t.rtpPort, t.rtcpPort);
            r.Some? ==> r.value.unicast
  {
  }

  /** Reading a printed transport gives it back exactly when its client ports are
      normal; so normalising once more changes nothing. */
  lemma TransportRoundTrip(t: Spec, serverRtp: nat, serverRtcp: nat)
    requires t.protocol == "rtp" && t.profile == "avp" && t.lowerTransport == "udp" && t.unicast
    requires t.rtpPort < PORT_LIMIT && t.rtcpPort < PORT_LIMIT
    ensures Read(Print(t, serverRtp, serverRtcp)) == Some(t) <==> Normal(t)
  {
    PrintedText(t, serverRtp, serverRtcp);
    ParametersBack(t, serverRtp, serverRtcp);
    ReadText(Print(t, serverRtp, serverRtcp), PrintedParameters(t, serverRtp, serverRtcp));
    PortsBack(t);
  }
}
