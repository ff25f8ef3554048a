// The routed IPv6 address of a guest: checked once from metadata, kept in container
// labels, and read back from one line of the runtime's output.

module RoutedIPv6 {
  import opened Text
  import opened Bits
  import opened IPv6Networks

  const MAX_UINT32 := 0xffff_ffff
  const BRIDGE_NAME := "oneclickvirt6"

  // ---------- Address text ----------

  const ADDRESSES := 0x1_0000_0000_0000_0000_0000_0000_0000_0000

  // The number of an address.
  type Address = v: int | 0 <= v < ADDRESSES

  // net.ParseIP tells the two families apart; it never yields more than 128 bits.
  datatype Parsed = V4(v4: nat) | V6(v6: Address)

  // How addresses are read and printed.
  datatype AddressText = AddressText(parse: string -> Option<Parsed>, spell: Address -> string)

  // ::ffff:0:0/96, which the library treats as IPv4.
  predicate Mapped(v: nat) {
    v / 0x1_0000_0000 == 0xffff
  }

  predicate IsAddressChar(c: char) {
    IsDigit(c) || 'a' <= c <= 'f' || c == ':'
  }

  ghost predicate IsAddressText(s: string) {
    s != "" && forall i :: 0 <= i < |s| ==> IsAddressChar(s[i])
  }

  // Printed addresses are made of hexadecimal digits and colons and read back as themselves.
  ghost predicate ReadsBack(t: AddressText) {
    forall v: Address :: !Mapped(v) ==> IsAddressText(t.spell(v)) && t.parse(t.spell(v)) == Some(V6(v))
  }

  // Decimal numerals would do.
  lemma ReadingBackIsPossible()
    ensures exists t :: ReadsBack(t)
  {
    var t := AddressText(s => if Digits(s) && Decimal(s) < ADDRESSES then Some(V6(Decimal(s))) else None,
                         (v: Address) => Itoa(v));
    forall v: Address ensures IsAddressText(t.spell(v)) && t.parse(t.spell(v)) == Some(V6(v)) {
      ItoaDecimal(v);
    }
    assert ReadsBack(t);
  }

  function ParseAddress(t: AddressText, s: string): Option<Address> {
    match t.parse(s)
    case Some(V6(v)) => if Mapped(v) then None else Some(v)
    case _ => None
  }

  function IndexOf(s: string, c: char): (i: nat)
    ensures i <= |s| && c !in s[..i] && (i < |s| ==> s[i] == c)
  {
    if s == "" || s[0] == c then 0 else IndexOf(s[1..], c) + 1
  }

  // The last position of a character, or -1.
  function LastIndexOf(s: string, c: char): (i: int)
    ensures -1 <= i < |s| && (i < 0 ==> c !in s) && (i >= 0 ==> s[i] == c)
  {
    if s == "" then -1
    else if s[|s| - 1] == c then |s| - 1
    else LastIndexOf(s[..|s| - 1], c)
  }

  predicate IsBracket(c: char) {
    c in "[](){}<>,;\"'`"
  }

  predicate IsPunctuation(c: char) {
    c in ".,;)"
  }

  function TrimLeftIf(s: string, cut: char -> bool): string {
    if s != "" && cut(s[0]) then TrimLeftIf(s[1..], cut) else s
  }

  function TrimRightIf(s: string, cut: char -> bool): string {
    if s != "" && cut(s[|s| - 1]) then TrimRightIf(s[..|s| - 1], cut) else s
  }

  function WithoutZone(token: string): string {
    var zone := LastIndexOf(token, '%');
    if zone < 0 then token
    else
      var slash := IndexOf(token[zone..], '/');
      token[..zone] + token[zone..][slash..]
  }

  function CleanToken(value: string): string {
    var token := TrimSpace(value);
    WithoutZone(TrimRightIf(TrimRightIf(TrimLeftIf(token, IsBracket), IsBracket), IsPunctuation))
  }

  // The number of a host address, whose prefix length is dropped if there is one.
  function Normalize(t: AddressText, value: string): Option<Address> {
    var token := CleanToken(value);
    var slash := IndexOf(token, '/');
    if slash == |token| then ParseAddress(t, token)
    else
      var prefixLen :- Atoi(token[slash + 1..]);
      if 0 <= prefixLen <= 128 then ParseAddress(t, token[..slash]) else None
  }

  datatype CIDR = CIDR(network: Address, prefix: nat)

  // The first address of the network that an address is in.
  function NetworkOf(v: Address, prefix: nat): Address
    requires prefix <= 128
  {
    AlignedDown(v, Pow2(128 - prefix));
    RoundDown(v, Pow2(128 - prefix))
  }

  // net.ParseCIDR, IPv4 networks refused.
  function ParseCIDR(t: AddressText, s: string): Option<CIDR> {
    var slash := IndexOf(s, '/');
    if slash == |s| then None
    else
      var mask := s[slash + 1..];
      var v :- t.parse(s[..slash]);
      if !v.V6? || !Digits(mask) || Decimal(mask) > 128 then None
      else
        var network := NetworkOf(v.v6, Decimal(mask));
        if Mapped(network) then None else Some(CIDR(network, Decimal(mask)))
  }

  // ---------- Resolving ----------

  datatype RoutedIPv6Config = RoutedIPv6Config(address: string, cidr: string, gateway: string, bridge: string,
                                               prefix: nat, tunnelID: nat, tunnelInterface: string)

  datatype Resolved = Absent | Invalid | Routed(config: RoutedIPv6Config)

  predicate IsLetter(c: char) {
    'a' <= c <= 'z' || 'A' <= c <= 'Z'
  }

  // Up to 15 letters, digits, underscores, dots and hyphens, a letter first.
  predicate IsInterfaceName(s: string) {
    && 1 <= |s| <= 15 && IsLetter(s[0])
    && forall i :: 0 <= i < |s| ==> IsLetter(s[i]) || IsDigit(s[i]) || s[i] == '_' || s[i] == '.' || s[i] == '-'
  }

  // The value strconv.ParseUint gives with the error ignored: 0 at a character that is no
  // digit, and the largest value where that is exceeded first.
  function Uint32From(s: string, n: nat): nat {
    if s == "" then n
    else if !IsDigit(s[0]) then 0
    else if n * 10 + DigitValue(s[0]) > MAX_UINT32 then MAX_UINT32
    else Uint32From(s[1..], n * 10 + DigitValue(s[0]))
  }

  type Metadata = map<string, string>

  function Meta(m: Metadata, key: string): string {
    if key in m then m[key] else ""
  }

  function TrimmedMeta(m: Metadata, key: string): string {
    TrimSpace(Meta(m, key))
  }

  function Resolve(t: AddressText, m: Metadata): Resolved {
    if TrimmedMeta(m, "static_ipv6_cidr") == "" then Absent
    else
      var address := Normalize(t, Meta(m, "static_ipv6"));
      var gateway := Normalize(t, Meta(m, "static_ipv6_gateway"));
      var cidr := ParseCIDR(t, TrimmedMeta(m, "static_ipv6_cidr"));
      if address.None? || gateway.None? || cidr.None? then Invalid
      else if cidr.value.prefix < 1 || cidr.value.prefix > 127 then Invalid
      else if !Fits(address.value, gateway.value, cidr.value.network, cidr.value.prefix) then Invalid
      else
        var named := TrimmedMeta(m, "static_ipv6_bridge");
        var bridge := if named == "" then BRIDGE_NAME else named;
        var tunnelInterface := TrimmedMeta(m, "static_ipv6_tunnel_interface");
        if !IsInterfaceName(bridge) || !IsTunnelInterface(tunnelInterface) then Invalid
        else
          var network := t.spell(cidr.value.network) + "/" + Itoa(cidr.value.prefix);
          Routed(RoutedIPv6Config(t.spell(address.value), network, t.spell(gateway.value), bridge, cidr.value.prefix,
                                  Uint32From(TrimmedMeta(m, "static_ipv6_tunnel_id"), 0), tunnelInterface))
  }

  predicate Fits(address: Address, gateway: Address, network: Address, prefix: nat)
    requires prefix <= 128
  {
    && NetworkOf(address, prefix) == network && NetworkOf(gateway, prefix) == network
    && address != gateway && (prefix != 127 ==> address != network)
  }

  predicate IsTunnelInterface(s: string) {
    s == "" || (IsInterfaceName(s) && s != "lo")
  }

  // ---------- What a resolved configuration is ----------

  ghost predicate InNetwork(v: nat, network: Address, prefix: nat)
    requires prefix <= 128
  {
    network <= v < network + Pow2(128 - prefix)
  }

  // Two distinct addresses of one network, the first one for the guest on a /127 only.
  ghost predicate Placed(address: Address, gateway: Address, network: Address, prefix: nat)
    requires prefix <= 128
  {
    && network % Pow2(128 - prefix) == 0
    && InNetwork(address, network, prefix) && InNetwork(gateway, network, prefix)
    && address != gateway && (address == network ==> prefix == 127)
  }

  ghost predicate Spelled(t: AddressText, c: RoutedIPv6Config, address: Address, gateway: Address, network: Address) {
    && address / 0x1_0000_0000 != 0xffff && gateway / 0x1_0000_0000 != 0xffff && network / 0x1_0000_0000 != 0xffff
    && c.address == t.spell(address) && c.gateway == t.spell(gateway)
    && c.cidr == t.spell(network) + "/" + Itoa(c.prefix)
    && IsInterfaceName(c.bridge) && IsTunnelInterface(c.tunnelInterface) && c.tunnelID <= MAX_UINT32
  }

  // The numbers behind a configuration, and what is promised about them.
  ghost predicate Describes(t: AddressText, c: RoutedIPv6Config, address: Address, gateway: Address, network: Address) {
    1 <= c.prefix <= 127 && Placed(address, gateway, network, c.prefix) && Spelled(t, c, address, gateway, network)
  }

  // Masking an address gives the multiple of the network's size that it lies above.
  lemma NetworkOfIff(v: Address, network: Address, prefix: nat)
    requires prefix <= 128
    ensures NetworkOf(v, prefix) == network <==> network % Pow2(128 - prefix) == 0 && InNetwork(v, network, prefix)
  {
    var size := Pow2(128 - prefix);
    AlignedDown(v, size);
    if network % size == 0 && InNetwork(v, network, prefix) {
      DivModUnique(v, size, network / size, v - network);
    }
  }

  lemma FitsIff(address: Address, gateway: Address, network: Address, prefix: nat)
    requires prefix <= 128
    ensures Fits(address, gateway, network, prefix) <==> Placed(address, gateway, network, prefix)
  {
    NetworkOfIff(address, network, prefix);
    NetworkOfIff(gateway, network, prefix);
  }

  lemma {:induction false} Uint32Bound(s: string, n: nat)
    requires n <= MAX_UINT32
    ensures Uint32From(s, n) <= MAX_UINT32
  {
    if s != "" && IsDigit(s[0]) && n * 10 + DigitValue(s[0]) <= MAX_UINT32 {
      Uint32Bound(s[1..], n * 10 + DigitValue(s[0]));
    }
  }

  // Without a prefix there is nothing to resolve; what else is taken from the metadata.
  lemma ResolvedFields(t: AddressText, m: Metadata)
    ensures Resolve(t, m) == Absent <==> "static_ipv6_cidr" !in m || TrimSpace(m["static_ipv6_cidr"]) == ""
    ensures Resolve(t, m).Routed? ==>
      var c := Resolve(t, m).config;
      && c.bridge == (if "static_ipv6_bridge" in m && TrimSpace(m["static_ipv6_bridge"]) != ""
                      then TrimSpace(m["static_ipv6_bridge"]) else "oneclickvirt6")
      && NamesInterface(c.bridge)
      && (c.tunnelInterface == "" || (NamesInterface(c.tunnelInterface) && c.tunnelInterface != "lo"))
      && c.tunnelInterface == (if "static_ipv6_tunnel_interface" in m then TrimSpace(m["static_ipv6_tunnel_interface"]) else "")
      && (("static_ipv6_tunnel_id" !in m || TrimSpace(m["static_ipv6_tunnel_id"]) == "") ==> c.tunnelID == 0)
      && (forall n: nat :: n <= 0xffff_ffff && "static_ipv6_tunnel_id" in m && TrimSpace(m["static_ipv6_tunnel_id"]) == Itoa(n) ==>
          c.tunnelID == n)
  {
    TrimSpaceIs("");
    if Resolve(t, m).Routed? {
      InterfaceNamesAre(Resolve(t, m).config.bridge);
      InterfaceNamesAre(Resolve(t, m).config.tunnelInterface);
    }
    forall n: nat | n <= 0xffff_ffff && "static_ipv6_tunnel_id" in m && TrimSpace(m["static_ipv6_tunnel_id"]) == Itoa(n)
      ensures Uint32From(TrimmedMeta(m, "static_ipv6_tunnel_id"), 0) == n
    {
      Uint32ReadsBack(n);
    }
  }

  // Some metadata resolves to the configuration.
  ghost predicate Accepted(t: AddressText, c: RoutedIPv6Config) {
    exists m: Metadata :: Resolve(t, m) == Routed(c)
  }

  // Whatever the metadata, a configuration that is accepted keeps these promises.
  lemma AcceptedIsSound(t: AddressText, c: RoutedIPv6Config) returns (address: Address, gateway: Address, network: Address)
    requires Accepted(t, c)
    ensures Describes(t, c, address, gateway, network)
  {
    var m: Metadata :| Resolve(t, m) == Routed(c);
    address, gateway, network := ResolvedDescribes(t, m);
  }

  lemma ResolvedDescribes(t: AddressText, m: Metadata) returns (address: Address, gateway: Address, network: Address)
    requires Resolve(t, m).Routed?
    ensures Describes(t, Resolve(t, m).config, address, gateway, network)
  {
    address := Normalize(t, Meta(m, "static_ipv6")).value;
    gateway := Normalize(t, Meta(m, "static_ipv6_gateway")).value;
    var text := TrimmedMeta(m, "static_ipv6_cidr");
    network := ParseCIDR(t, text).value.network;
    Uint32Bound(TrimmedMeta(m, "static_ipv6_tunnel_id"), 0);
    FitsIff(address, gateway, network, ParseCIDR(t, text).value.prefix);
  }

  // On a point-to-point link the address and the gateway are the two addresses there are
  // (RFC 6164, section 6); elsewhere the first address of the network is never assigned.
  lemma PointToPointUsesBoth(t: AddressText, c: RoutedIPv6Config, address: Address, gateway: Address, network: Address)
    requires Describes(t, c, address, gateway, network)
    ensures c.prefix == 127 ==> {address, gateway} == {network, network + 1}
    ensures c.prefix != 127 ==> address > network
  {
    assert Pow2(1) == 2 * Pow2(0);
  }

  // ---------- Reading back what was printed ----------

  lemma AddressCharIsPlain(c: char)
    requires IsAddressChar(c)
    ensures !IsSpace(c) && !IsBracket(c) && !IsPunctuation(c) && c != '/' && c != '%'
  {}

  lemma AddressTextIsPlain(s: string)
    requires IsAddressText(s)
    ensures Solid(s) && Free(s, '\t') && '/' !in s && CleanToken(s) == s
  {
    forall c | c in s ensures !IsSpace(c) && c != '/' && c != '%' {
      AddressCharIsPlain(c);
    }
    AddressCharIsPlain(s[0]);
    AddressCharIsPlain(s[|s| - 1]);
    TrimSpaceIs(s);
  }

  lemma NameIsPlain(s: string)
    requires IsInterfaceName(s)
    ensures Solid(s) && Free(s, '\t')
  {}

  lemma NumberIsPlain(n: nat)
    ensures Solid(Itoa(n)) && Free(Itoa(n), '\t')
  {
    ItoaDecimal(n);
  }

  lemma CIDRIsPlain(address: string, n: nat)
    requires IsAddressText(address)
    ensures Solid(address + "/" + Itoa(n)) && Free(address + "/" + Itoa(n), '\t')
  {
    AddressTextIsPlain(address);
    NumberIsPlain(n);
  }

  lemma NormalizeReadsBack(t: AddressText, v: Address)
    requires ReadsBack(t) && !Mapped(v)
    ensures Normalize(t, t.spell(v)) == Some(v)
  {
    AddressTextIsPlain(t.spell(v));
  }

  // A pair of brackets or quotes around an address and its prefix length.
  lemma TokenIsCleaned(left: char, token: string, right: char)
    requires IsBracket(left) && IsBracket(right) && Solid(token) && '%' !in token
    requires !IsBracket(token[0]) && !IsBracket(token[|token| - 1]) && !IsPunctuation(token[|token| - 1])
    ensures CleanToken([left] + token + [right]) == token
  {
    var s := [left] + token + [right];
    TrimSpaceIs(s);
    assert s[1..] == token + [right];
    assert TrimLeftIf(s, IsBracket) == token + [right];
    assert (token + [right])[..|token|] == token;
    assert TrimRightIf(token + [right], IsBracket) == TrimRightIf(token, IsBracket) == token;
    assert TrimRightIf(token, IsPunctuation) == token;
  }

  // However it is quoted or bracketed, and whatever valid prefix length stands with it, an
  // address is read; with a longer one it is not.
  lemma NormalizeForgives(t: AddressText, v: Address, left: char, right: char, n: nat)
    requires ReadsBack(t) && !Mapped(v)
    requires left in ['[', ']', '(', ')', '{', '}', '<', '>', ',', ';', '"', '\'', '`']
    requires right in ['[', ']', '(', ')', '{', '}', '<', '>', ',', ';', '"', '\'', '`']
    ensures Normalize(t, [left] + (t.spell(v) + "/" + Itoa(n)) + [right]) == if n <= 128 then Some(v) else None
  {
    var address := t.spell(v);
    var token := address + "/" + Itoa(n);
    AddressTextIsPlain(address);
    CIDRIsPlain(address, n);
    ItoaDecimal(n);
    AddressCharIsPlain(address[0]);
    assert token[0] == address[0] && token[|token| - 1] == Itoa(n)[|Itoa(n)| - 1] && '%' !in token;
    TokenIsCleaned(left, token, right);
    IndexOfFirst(address, '/', Itoa(n));
    assert token[..|address|] == address && token[|address| + 1..] == Itoa(n);
    AtoiOfItoa(n);
  }

  lemma {:induction false} IndexOfFirst(a: string, c: char, b: string)
    requires c !in a
    ensures IndexOf(a + [c] + b, c) == |a|
  {
    if a != "" {
      assert (a + [c] + b)[1..] == a[1..] + [c] + b;
      IndexOfFirst(a[1..], c, b);
    }
  }

  lemma CIDRReadsBack(t: AddressText, network: Address, prefix: nat)
    requires ReadsBack(t) && !Mapped(network) && prefix <= 128 && network % Pow2(128 - prefix) == 0
    ensures ParseCIDR(t, t.spell(network) + "/" + Itoa(prefix)) == Some(CIDR(network, prefix))
  {
    var address := t.spell(network);
    var s := address + "/" + Itoa(prefix);
    NetworkOfIff(network, network, prefix);
    AddressTextIsPlain(address);
    IndexOfFirst(address, '/', Itoa(prefix));
    ItoaDecimal(prefix);
    assert s[..|address|] == address && s[|address| + 1..] == Itoa(prefix);
  }

  function Saturated(n: nat): nat {
    if n > MAX_UINT32 then MAX_UINT32 else n
  }

  lemma {:induction false} Uint32Snoc(s: string, c: char, n: nat)
    requires (forall i :: 0 <= i < |s| ==> IsDigit(s[i])) && IsDigit(c) && n <= MAX_UINT32
    ensures Uint32From(s + [c], n) == Saturated(Uint32From(s, n) * 10 + DigitValue(c))
  {
    if s == "" {
      assert s + [c] == [c];
    } else {
      assert (s + [c])[1..] == s[1..] + [c];
      var next := n * 10 + DigitValue(s[0]);
      if next <= MAX_UINT32 { Uint32Snoc(s[1..], c, next); }
    }
  }

  // Digits read as their number, or as the largest value if that is exceeded.
  lemma {:induction false} Uint32Saturates(s: string)
    requires forall i :: 0 <= i < |s| ==> IsDigit(s[i])
    ensures Uint32From(s, 0) == Saturated(Decimal(s))
  {
    if s != "" {
      var front, last := s[..|s| - 1], s[|s| - 1];
      Uint32Saturates(front);
      Uint32Snoc(front, last, 0);
      assert s == front + [last];
    }
  }

  lemma Uint32ReadsBack(n: nat)
    requires n <= MAX_UINT32
    ensures Uint32From(Itoa(n), 0) == n
  {
    ItoaDecimal(n);
    Uint32Saturates(Itoa(n));
  }

  // ---------- Labels ----------

  // The names oneclickvirt.routed-ipv6.address, .cidr and so on, in the order of the line.
  datatype Label = AddressLabel | CIDRLabel | GatewayLabel | BridgeLabel | TunnelIDLabel | TunnelInterfaceLabel

  const LABELS := [AddressLabel, CIDRLabel, GatewayLabel, BridgeLabel, TunnelIDLabel, TunnelInterfaceLabel]

  function PlaceOf(l: Label): (i: nat)
    ensures i < 6 && LABELS[i] == l
  {
    match l
    case AddressLabel => 0
    case CIDRLabel => 1
    case GatewayLabel => 2
    case BridgeLabel => 3
    case TunnelIDLabel => 4
    case TunnelInterfaceLabel => 5
  }

  type Labels = map<Label, string>

  function RuntimeLabels(c: RoutedIPv6Config): Labels {
    var required := map[AddressLabel := c.address, CIDRLabel := c.cidr, GatewayLabel := c.gateway, BridgeLabel := c.bridge,
                        TunnelIDLabel := Itoa(c.tunnelID)];
    if c.tunnelInterface != "" then required[TunnelInterfaceLabel := c.tunnelInterface] else required
  }

  // The line the inspect command's template makes of a container's labels: a missing one
  // leaves its place empty.
  function LabelValues(labels: Labels): (values: seq<string>)
    ensures |values| == 6
  {
    seq(6, i requires 0 <= i < 6 => if LABELS[i] in labels then labels[LABELS[i]] else "")
  }

  function InspectLine(labels: Labels): string {
    Join(LabelValues(labels), '\t')
  }

  function LineMetadata(parts: seq<string>): Metadata
    requires |parts| == 5 || |parts| == 6
  {
    var m := map["static_ipv6" := TrimSpace(parts[0]), "static_ipv6_cidr" := TrimSpace(parts[1]),
                 "static_ipv6_gateway" := TrimSpace(parts[2]), "static_ipv6_bridge" := TrimSpace(parts[3]),
                 "static_ipv6_tunnel_id" := TrimSpace(parts[4])];
    if |parts| == 6 then m["static_ipv6_tunnel_interface" := TrimSpace(parts[5])] else m
  }

  predicate IsMissing(part: string) {
    TrimSpace(part) == ""
  }

  predicate SomeMissing(parts: seq<string>) {
    exists i :: 0 <= i < |parts| && IsMissing(parts[i])
  }

  predicate AllMissing(parts: seq<string>) {
    forall i :: 0 <= i < |parts| ==> IsMissing(parts[i])
  }

  // The last of six parts is optional.
  function Given(parts: seq<string>): seq<string> {
    if |parts| == 6 && IsMissing(parts[5]) then parts[..5] else parts
  }

  function FromParts(t: AddressText, parts: seq<string>): Resolved
    requires |parts| == 5 || |parts| == 6
  {
    if AllMissing(parts) then Absent
    else if SomeMissing(parts) then Invalid
    else Resolve(t, LineMetadata(parts))
  }

  // What is read from a line: nothing, an error, or a configuration.
  function FromLine(t: AddressText, output: string): Resolved {
    var line := TrimSpace(output);
    if line == "" then Absent
    else
      var parts := Split(line, '\t');
      if |parts| != 5 && |parts| != 6 then Invalid else FromParts(t, Given(parts))
  }

  method CheckParts(parts: seq<string>) returns (hasValue: bool, hasMissingValue: bool)
    ensures hasValue == !AllMissing(parts) && hasMissingValue == SomeMissing(parts)
  {
    hasValue, hasMissingValue := false, false;
    for n := 0 to |parts|
      invariant hasValue <==> !AllMissing(parts[..n])
      invariant hasMissingValue <==> SomeMissing(parts[..n])
    {
      assert parts[..n + 1] == parts[..n] + [parts[n]];
      if TrimSpace(parts[n]) == "" {
        hasMissingValue := true;
        assert IsMissing(parts[..n + 1][n]);
        continue;
      }
      hasValue := true;
      assert !IsMissing(parts[..n + 1][n]);
    }
    assert parts[..|parts|] == parts;
  }

  method ConfigFromRuntimeLabelOutput(t: AddressText, output: string) returns (r: Resolved)
    ensures r == FromLine(t, output)
  {
    var line := TrimSpace(output);
    if line == "" {
      return Absent;
    }
    var parts := Split(line, '\t');
    if |parts| != 5 && |parts| != 6 {
      return Invalid;
    }
    if |parts| == 6 && TrimSpace(parts[5]) == "" {
      parts := parts[..5];
    }
    var hasValue, hasMissingValue := CheckParts(parts);
    if !hasValue {
      return Absent;
    }
    if hasMissingValue {
      return Invalid;
    }
    return Resolve(t, LineMetadata(parts));
  }

  // ---------- Labels are read all or not at all ----------

  function Fields(c: RoutedIPv6Config): seq<string> {
    [c.address, c.cidr, c.gateway, c.bridge, Itoa(c.tunnelID), c.tunnelInterface]
  }

  ghost predicate Plain(s: string) {
    Solid(s) && Free(s, '\t')
  }

  lemma FieldsArePlain(t: AddressText, c: RoutedIPv6Config, address: Address, gateway: Address, network: Address)
    requires ReadsBack(t) && Describes(t, c, address, gateway, network)
    ensures forall i :: 0 <= i < 5 ==> Plain(Fields(c)[i])
    ensures c.tunnelInterface != "" ==> Plain(c.tunnelInterface)
  {
    assert Plain(c.address) by { AddressTextIsPlain(t.spell(address)); }
    assert Plain(c.cidr) by { CIDRIsPlain(t.spell(network), c.prefix); }
    assert Plain(c.gateway) by { AddressTextIsPlain(t.spell(gateway)); }
    assert Plain(c.bridge) by { NameIsPlain(c.bridge); }
    assert Plain(Itoa(c.tunnelID)) by { NumberIsPlain(c.tunnelID); }
    if c.tunnelInterface != "" {
      assert Plain(c.tunnelInterface) by { NameIsPlain(c.tunnelInterface); }
    }
  }

  // Some of the labels a configuration is kept in.
  ghost predicate SomeLabelsOf(labels: Labels, c: RoutedIPv6Config) {
    forall l :: l in labels ==> l in RuntimeLabels(c) && labels[l] == RuntimeLabels(c)[l]
  }

  lemma ValuesAreFields(labels: Labels, c: RoutedIPv6Config)
    requires SomeLabelsOf(labels, c)
    ensures forall i :: 0 <= i < 6 ==> LabelValues(labels)[i] == if LABELS[i] in labels then Fields(c)[i] else ""
    ensures TunnelInterfaceLabel in labels ==> c.tunnelInterface != ""
  {
    forall i | 0 <= i < 6 ensures LabelValues(labels)[i] == if LABELS[i] in labels then Fields(c)[i] else "" {
      assert LABELS[i] in labels ==> RuntimeLabels(c)[LABELS[i]] == Fields(c)[i];
    }
  }

  lemma LineMetadataIs(parts: seq<string>)
    requires |parts| == 5 || |parts| == 6
    ensures var m := LineMetadata(parts);
      && Meta(m, "static_ipv6") == TrimSpace(parts[0]) && Meta(m, "static_ipv6_cidr") == TrimSpace(parts[1])
      && Meta(m, "static_ipv6_gateway") == TrimSpace(parts[2]) && Meta(m, "static_ipv6_bridge") == TrimSpace(parts[3])
      && Meta(m, "static_ipv6_tunnel_id") == TrimSpace(parts[4])
      && Meta(m, "static_ipv6_tunnel_interface") == if |parts| == 6 then TrimSpace(parts[5]) else ""
  {}

  lemma ResolvesFrom(t: AddressText, m: Metadata, c: RoutedIPv6Config, address: Address, gateway: Address, network: Address)
    requires Spelled(t, c, address, gateway, network) && 1 <= c.prefix <= 127 && Fits(address, gateway, network, c.prefix)
    requires Normalize(t, Meta(m, "static_ipv6")) == Some(address)
    requires Normalize(t, Meta(m, "static_ipv6_gateway")) == Some(gateway)
    requires TrimmedMeta(m, "static_ipv6_cidr") == c.cidr && ParseCIDR(t, c.cidr) == Some(CIDR(network, c.prefix))
    requires TrimmedMeta(m, "static_ipv6_bridge") == c.bridge
    requires Uint32From(TrimmedMeta(m, "static_ipv6_tunnel_id"), 0) == c.tunnelID
    requires TrimmedMeta(m, "static_ipv6_tunnel_interface") == c.tunnelInterface
    ensures Resolve(t, m) == Routed(c)
  {
    assert c.cidr != "" && c.bridge != "";
  }

  // Metadata that spells a configuration out resolves to it.
  lemma ResolvesTo(t: AddressText, m: Metadata, c: RoutedIPv6Config, address: Address, gateway: Address, network: Address)
    requires ReadsBack(t) && Describes(t, c, address, gateway, network)
    requires Meta(m, "static_ipv6") == c.address && Meta(m, "static_ipv6_gateway") == c.gateway
    requires TrimmedMeta(m, "static_ipv6_cidr") == c.cidr && TrimmedMeta(m, "static_ipv6_bridge") == c.bridge
    requires TrimmedMeta(m, "static_ipv6_tunnel_id") == Itoa(c.tunnelID)
    requires TrimmedMeta(m, "static_ipv6_tunnel_interface") == c.tunnelInterface
    ensures Resolve(t, m) == Routed(c)
  {
    NormalizeReadsBack(t, address);
    NormalizeReadsBack(t, gateway);
    CIDRReadsBack(t, network, c.prefix);
    FitsIff(address, gateway, network, c.prefix);
    Uint32ReadsBack(c.tunnelID);
    ResolvesFrom(t, m, c, address, gateway, network);
  }

  // What the labels present stand for.
  function WithoutInterface(c: RoutedIPv6Config): RoutedIPv6Config {
    c.(tunnelInterface := "")
  }

  lemma FullPartsResolve(t: AddressText, parts: seq<string>, c: RoutedIPv6Config, address: Address, gateway: Address, network: Address)
    requires ReadsBack(t) && Describes(t, c, address, gateway, network)
    requires parts == Fields(c)[..5] || (parts == Fields(c) && c.tunnelInterface != "")
    ensures FromParts(t, Given(parts)) == Routed(if |parts| == 6 then c else WithoutInterface(c))
  {
    FieldsArePlain(t, c, address, gateway, network);
    forall i | 0 <= i < |parts| ensures TrimSpace(parts[i]) == parts[i] && !IsMissing(parts[i]) {
      assert Plain(parts[i]);
      TrimSpaceIs(parts[i]);
    }
    assert !AllMissing(parts) by { assert !IsMissing(parts[0]); }
    LineMetadataIs(parts);
    TrimSpaceIs("");
    ResolvesTo(t, LineMetadata(parts), if |parts| == 6 then c else WithoutInterface(c), address, gateway, network);
  }

  // With the address missing the other five move up by one: the gateway stands where the
  // prefix is expected, and is refused for having no prefix length.
  lemma ShiftedPartsAreInvalid(t: AddressText, parts: seq<string>, c: RoutedIPv6Config, address: Address, gateway: Address, network: Address)
    requires ReadsBack(t) && Describes(t, c, address, gateway, network) && c.tunnelInterface != ""
    requires parts == Fields(c)[1..]
    ensures FromParts(t, parts) == Invalid
  {
    FieldsArePlain(t, c, address, gateway, network);
    assert parts[1] == c.gateway && parts[0] == Fields(c)[1];
    assert Plain(Fields(c)[1]) && Plain(Fields(c)[2]);
    TrimSpaceIs(c.gateway);
    TrimSpaceIs(c.cidr);
    assert !IsMissing(parts[0]) && !IsMissing(parts[1]);
    LineMetadataIs(parts);
    AddressTextIsPlain(c.gateway);
    assert IndexOf(c.gateway, '/') == |c.gateway|;
  }

  lemma MissingParts(parts: seq<string>, i: nat, j: nat)
    requires i < |parts| && parts[i] == "" && j < |parts| && Solid(parts[j])
    ensures SomeMissing(parts) && !AllMissing(parts)
  {
    TrimSpaceIs("");
    TrimSpaceIs(parts[j]);
    assert IsMissing(parts[i]) && !IsMissing(parts[j]);
  }

  // The line splits into the values from the first label present to the last.
  lemma LineParts(t: AddressText, c: RoutedIPv6Config, address: Address, gateway: Address, network: Address,
                  labels: Labels, ending: string, k: nat, l: nat)
    requires ReadsBack(t) && Describes(t, c, address, gateway, network) && SomeLabelsOf(labels, c) && Blank(ending)
    requires k <= l < 6 && LABELS[k] in labels && LABELS[l] in labels
    requires forall i :: 0 <= i < 6 && LABELS[i] in labels ==> k <= i <= l
    ensures var line := TrimSpace(InspectLine(labels) + ending);
      line != "" && Split(line, '\t') == LabelValues(labels)[k..l + 1]
  {
    var values := LabelValues(labels);
    var parts := values[k..l + 1];
    FieldsArePlain(t, c, address, gateway, network);
    ValuesAreFields(labels, c);
    forall i | 0 <= i < 6 ensures Free(values[i], '\t') && (LABELS[i] in labels ==> Solid(values[i])) {
      assert LABELS[i] in labels && i < 5 ==> Plain(Fields(c)[i]);
    }
    TrimJoin(values, '\t', k, l, ending);
    JoinEnds(parts, '\t');
    SplitJoin(parts, '\t');
  }

  ghost predicate AllRequired(labels: Labels) {
    forall i :: 0 <= i < 5 ==> LABELS[i] in labels
  }

  lemma NoLabelsNoLine(labels: Labels, ending: string)
    requires Blank(ending) && forall i :: 0 <= i < 6 ==> LABELS[i] !in labels
    ensures TrimSpace(InspectLine(labels) + ending) == ""
  {
    JoinBlank(LabelValues(labels), '\t');
    TrimBlank(InspectLine(labels) + ending);
  }

  // Six places filled, some of them empty in between.
  lemma PartialPartsAreInvalid(t: AddressText, parts: seq<string>, i: nat)
    requires |parts| == 5 || |parts| == 6
    requires Solid(parts[0]) && Solid(parts[|parts| - 1]) && i < |parts| && parts[i] == ""
    ensures FromParts(t, Given(parts)) == Invalid
  {
    MissingParts(parts, i, 0);
    TrimSpaceIs(parts[|parts| - 1]);
    assert Given(parts) == parts;
  }

  // In every container, whatever labels of an accepted configuration it has, what is read
  // back is the configuration if the five required ones are there, with its tunnel
  // interface if that label is there as well; nothing if none is; and otherwise an error.
  lemma LabelsAreAllOrNothing(t: AddressText, c: RoutedIPv6Config, labels: Labels, ending: string)
    requires ReadsBack(t) && Accepted(t, c) && SomeLabelsOf(labels, c) && Blank(ending)
    ensures FromLine(t, InspectLine(labels) + ending) ==
        if labels == map[] then Absent
        else if !AllRequired(labels) then Invalid
        else if TunnelInterfaceLabel in labels then Routed(c)
        else Routed(WithoutInterface(c))
  {
    var address, gateway, network := AcceptedIsSound(t, c);
    if labels == map[] {
      NoLabelsNoLine(labels, ending);
    } else {
      var some :| some in labels;
      assert LABELS[PlaceOf(some)] in labels;
      var k, l := Span(labels);
      SpanIsRead(t, c, address, gateway, network, labels, ending, k, l);
    }
  }

  // The first and the last label present.
  lemma Span(labels: Labels) returns (k: nat, l: nat)
    requires exists i :: 0 <= i < 6 && LABELS[i] in labels
    ensures k <= l < 6 && LABELS[k] in labels && LABELS[l] in labels
    ensures forall i :: 0 <= i < 6 && LABELS[i] in labels ==> k <= i <= l
  {
    k := 0;
    while k < 5 && LABELS[k] !in labels
      invariant k < 6 && forall i :: 0 <= i < k ==> LABELS[i] !in labels
    {
      k := k + 1;
    }
    l := 5;
    while LABELS[l] !in labels
      invariant k <= l < 6 && forall i :: l < i < 6 ==> LABELS[i] !in labels
      decreases l
    {
      l := l - 1;
    }
  }

  // Between the first and the last label present, one is missing.
  lemma GapIsRead(t: AddressText, c: RoutedIPv6Config, address: Address, gateway: Address, network: Address,
                  labels: Labels, k: nat, i: nat, l: nat)
    requires ReadsBack(t) && Describes(t, c, address, gateway, network) && SomeLabelsOf(labels, c)
    requires k <= i <= l < 6 && l - k >= 4 && LABELS[k] in labels && LABELS[l] in labels && LABELS[i] !in labels
    ensures FromParts(t, Given(LabelValues(labels)[k..l + 1])) == Invalid
  {
    var parts := LabelValues(labels)[k..l + 1];
    ValuesAreFields(labels, c);
    FieldsArePlain(t, c, address, gateway, network);
    assert Plain(Fields(c)[k]) && Plain(Fields(c)[l]);
    assert parts[0] == Fields(c)[k] && parts[l - k] == Fields(c)[l] && parts[i - k] == "";
    PartialPartsAreInvalid(t, parts, i - k);
  }

  // From the first to the last label present, none is missing.
  lemma RangeIsRead(t: AddressText, c: RoutedIPv6Config, address: Address, gateway: Address, network: Address,
                    labels: Labels, k: nat, l: nat)
    requires ReadsBack(t) && Describes(t, c, address, gateway, network) && SomeLabelsOf(labels, c)
    requires k <= l < 6 && l - k >= 4 && forall i :: 0 <= i < 6 ==> (LABELS[i] in labels <==> k <= i <= l)
    ensures FromParts(t, Given(LabelValues(labels)[k..l + 1])) ==
        if k > 0 then Invalid else if l == 5 then Routed(c) else Routed(WithoutInterface(c))
  {
    var parts := LabelValues(labels)[k..l + 1];
    ValuesAreFields(labels, c);
    assert LABELS[5] == TunnelInterfaceLabel;
    assert parts == Fields(c)[k..l + 1];
    if k == 0 {
      assert l == 5 ==> Fields(c)[0..6] == Fields(c);
      FullPartsResolve(t, parts, c, address, gateway, network);
    } else {
      assert parts == Fields(c)[1..];
      ShiftedPartsAreInvalid(t, parts, c, address, gateway, network);
    }
  }

  lemma SpanIsRead(t: AddressText, c: RoutedIPv6Config, address: Address, gateway: Address, network: Address,
                   labels: Labels, ending: string, k: nat, l: nat)
    requires ReadsBack(t) && Describes(t, c, address, gateway, network) && SomeLabelsOf(labels, c) && Blank(ending)
    requires k <= l < 6 && LABELS[k] in labels && LABELS[l] in labels
    requires forall i :: 0 <= i < 6 && LABELS[i] in labels ==> k <= i <= l
    ensures FromLine(t, InspectLine(labels) + ending) ==
        if !AllRequired(labels) then Invalid
        else if TunnelInterfaceLabel in labels then Routed(c)
        else Routed(WithoutInterface(c))
  {
    LineParts(t, c, address, gateway, network, labels, ending, k, l);
    assert LABELS[5] == TunnelInterfaceLabel;
    if l - k < 4 {
      assert LABELS[0] !in labels || LABELS[4] !in labels;
    } else if i :| k <= i <= l && LABELS[i] !in labels {
      GapIsRead(t, c, address, gateway, network, labels, k, i, l);
    } else {
      RangeIsRead(t, c, address, gateway, network, labels, k, l);
      assert k > 0 ==> LABELS[0] !in labels;
    }
  }

  // Printing the labels of an accepted configuration and reading the line gives it back,
  // with or without a tunnel interface.
  lemma LabelsRoundTrip(t: AddressText, c: RoutedIPv6Config, ending: string)
    requires ReadsBack(t) && Accepted(t, c) && Blank(ending)
    ensures FromLine(t, InspectLine(RuntimeLabels(c)) + ending) == Routed(c)
  {
    LabelsAreAllOrNothing(t, c, RuntimeLabels(c), ending);
    assert AllRequired(RuntimeLabels(c)) && AddressLabel in RuntimeLabels(c);
  }

  // The promises are all there is to it: whatever keeps them is accepted.
  lemma AcceptedIff(t: AddressText, c: RoutedIPv6Config)
    requires ReadsBack(t)
    ensures Accepted(t, c) <==> exists address, gateway, network :: Describes(t, c, address, gateway, network)
  {
    if Accepted(t, c) {
      var address, gateway, network := AcceptedIsSound(t, c);
    } else if address, gateway, network :| Describes(t, c, address, gateway, network) {
      DescribedIsAccepted(t, c, address, gateway, network);
    }
  }

  lemma DescribedIsAccepted(t: AddressText, c: RoutedIPv6Config, address: Address, gateway: Address, network: Address)
    requires ReadsBack(t) && Describes(t, c, address, gateway, network)
    ensures Accepted(t, c)
  {
    var parts := if c.tunnelInterface == "" then Fields(c)[..5] else Fields(c);
    FieldsArePlain(t, c, address, gateway, network);
    forall i | 0 <= i < |parts| ensures TrimSpace(parts[i]) == parts[i] {
      assert Plain(parts[i]);
      TrimSpaceIs(parts[i]);
    }
    TrimSpaceIs("");
    LineMetadataIs(parts);
    ResolvesTo(t, LineMetadata(parts), c, address, gateway, network);
  }

  // One letter and up to fourteen letters, digits, underscores, dots or hyphens.
  ghost predicate NamesInterface(s: string) {
    && 0 < |s| < 16 && ('a' <= s[0] <= 'z' || 'A' <= s[0] <= 'Z')
    && forall c :: c in s ==> 'a' <= c <= 'z' || 'A' <= c <= 'Z' || '0' <= c <= '9' || c in ['_', '.', '-']
  }

  lemma InterfaceNamesAre(s: string)
    ensures IsInterfaceName(s) <==> NamesInterface(s)
  {
    if NamesInterface(s) {
      forall i | 0 <= i < |s|
        ensures IsLetter(s[i]) || IsDigit(s[i]) || s[i] == '_' || s[i] == '.' || s[i] == '-'
      {
        assert s[i] in s;
      }
    }
  }

  // There are such configurations: two addresses of a /126, as on a tunnel.
  lemma TunnelIsAccepted(t: AddressText, bridge: string, tunnelInterface: string) returns (c: RoutedIPv6Config)
    requires ReadsBack(t) && NamesInterface(bridge)
    requires tunnelInterface == "" || (NamesInterface(tunnelInterface) && tunnelInterface != "lo")
    ensures Accepted(t, c) && c.prefix == 126 && c.bridge == bridge && c.tunnelInterface == tunnelInterface
  {
    InterfaceNamesAre(bridge);
    InterfaceNamesAre(tunnelInterface);
    c := RoutedIPv6Config(t.spell(2), t.spell(0) + "/" + Itoa(126), t.spell(1), bridge, 126, 17, tunnelInterface);
    assert Pow2(2) == 2 * Pow2(1) == 4;
    DescribedIsAccepted(t, c, 2, 1, 0);
  }

  // A network ends within the address space.
  lemma NetworkEnds(t: AddressText, c: RoutedIPv6Config, address: Address, gateway: Address, network: Address)
    requires Describes(t, c, address, gateway, network)
    ensures network + Pow2(128 - c.prefix) <= ADDRESSES
  {
    AddressesArePow2();
    Pow2Add(c.prefix, 128 - c.prefix);
    NextMultiple(network, Pow2(128 - c.prefix), Pow2(c.prefix));
  }

  lemma AddressesArePow2()
    ensures ADDRESSES == Pow2(128)
  {
    Pow2Byte();
    Pow2Twice(8, 0x100);
    Pow2Twice(16, 0x1_0000);
    Pow2Twice(32, 0x1_0000_0000);
    Pow2Twice(64, 0x1_0000_0000_0000_0000);
  }

  lemma LinkIsPlaced(network: Address, first: bool)
    requires network % 2 == 0
    ensures network + 1 < ADDRESSES
    ensures if first then Placed(network, network + 1, network, 127) else Placed(network + 1, network, network, 127)
  {
    assert Pow2(1) == 2 * Pow2(0);
  }

  // Both ways round, each of the two addresses of a /127 is accepted for the guest.
  lemma EitherEndOfALink(t: AddressText, network: Address, address: Address, gateway: Address, bridge: string)
    returns (c: RoutedIPv6Config)
    requires ReadsBack(t) && IsInterfaceName(bridge) && network % 2 == 0
    requires {address, gateway} == {network, network + 1} && !Mapped(network) && !Mapped(network + 1)
    ensures Accepted(t, c) && c.prefix == 127 && c.address == t.spell(address) && c.gateway == t.spell(gateway)
  {
    c := RoutedIPv6Config(t.spell(address), t.spell(network) + "/" + Itoa(127), t.spell(gateway), bridge, 127, 0, "");
    assert address in {network, network + 1} && gateway in {network, network + 1};
    assert network in {address, gateway} && network + 1 in {address, gateway};
    LinkIsPlaced(network, address == network);
    DescribedIsAccepted(t, c, address, gateway, network);
  }
}
