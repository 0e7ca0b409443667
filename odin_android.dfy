/**
 * The Android side of the node: the checks on `pns://` uris and the web client's two decisions,
 * the device name, the upload job id of a file, and the addresses the node announces.
 */
module OdinAndroid {
  import opened Wrappers
  import opened Text
  import opened Records
  import Style

  /** A parsed uri: its optional scheme, host and path, and its query as decoded (name, value) pairs. */
  datatype Uri = Uri(scheme: Option<string>, host: Option<string>, path: Option<string>, query: seq<(string, string)>)

  const Pns: string := "pns"

  /** `getQueryParameter(name)`: the value of the first parameter with that name, or null. */
  function QueryParameter(query: seq<(string, string)>, name: string): (r: Option<string>)
    ensures r.None? <==> forall i :: 0 <= i < |query| ==> query[i].0 != name
    ensures r.Some? ==> exists i :: 0 <= i < |query| && query[i] == (name, r.value)
  {
    if query == [] then None
    else if query[0].0 == name then Some(query[0].1)
    else
      var r := QueryParameter(query[1..], name);
      assert forall i :: 1 <= i < |query| ==> query[i] == query[1..][i - 1];
      r
  }

  // ---------------------------------------------------------------- validate

  datatype ValidateError = SchemeNotDefined | SchemeNotPns | HostNotDefined | HostIsEmpty

  /** `validate`: the host of a `pns` uri, or the first check it fails. */
  function Validate(pns: Uri): (r: Result<string, ValidateError>)
    ensures r == Err(SchemeNotDefined) <==> pns.scheme.None?
    ensures r == Err(SchemeNotPns) <==> pns.scheme.Some? && pns.scheme.value != Pns
    ensures r == Err(HostNotDefined) <==> pns.scheme == Some(Pns) && pns.host.None?
    ensures r == Err(HostIsEmpty) <==> pns.scheme == Some(Pns) && pns.host.Some? && IsBlank(pns.host.value)
    ensures r.Ok? <==> pns.scheme == Some(Pns) && pns.host.Some? && !IsBlank(pns.host.value)
    ensures r.Ok? ==> r.value == pns.host.value && Trim(r.value) != []
  {
    if pns.scheme.None? then Err(SchemeNotDefined)
    else if pns.scheme.value != Pns then Err(SchemeNotPns)
    else if pns.host.None? then Err(HostNotDefined)
    else if IsBlank(pns.host.value) then Err(HostIsEmpty)
    else Ok(pns.host.value)
  }

  // ---------------------------------------------------------------- extractCidFromUri

  const MinLong: int := -0x8000_0000_0000_0000
  const MaxLong: int := 0x7FFF_FFFF_FFFF_FFFF

  predicate IsHexDigit(c: char) {
    '0' <= c <= '9' || 'a' <= c <= 'f' || 'A' <= c <= 'F'
  }

  predicate AllHex(s: string) {
    forall i :: 0 <= i < |s| ==> IsHexDigit(s[i])
  }

  function HexDigitValue(c: char): (d: nat)
    requires IsHexDigit(c)
    ensures d < 16
  {
    if '0' <= c <= '9' then c as nat - '0' as nat
    else if 'a' <= c <= 'f' then c as nat - 'a' as nat + 10
    else c as nat - 'A' as nat + 10
  }

  /** The value of a string of base-16 digits. */
  function HexValue(s: string): nat
    requires AllHex(s)
  {
    if s == [] then 0 else HexValue(s[..|s| - 1]) * 16 + HexDigitValue(s[|s| - 1])
  }

  /**
   * `String.toLong(radix = 16)`: an optional '-' or '+', then at least one base-16 digit, and a
   * value within the range of a `Long`; `None` where it throws `NumberFormatException`.
   */
  function ParseLong16(s: string): (r: Option<int>)
    ensures r.Some? ==> MinLong <= r.value <= MaxLong
    ensures s == [] ==> r.None?
  {
    if s == [] then None
    else
      var signed := s[0] == '-' || s[0] == '+';
      var digits := if signed then s[1..] else s;
      if digits == [] || !AllHex(digits) then None
      else
        var v: int := if s[0] == '-' then 0 - HexValue(digits) as int else HexValue(digits);
        if MinLong <= v <= MaxLong then Some(v) else None
  }

  /** The text `extractCidFromUri` reads the number from: the path trimmed, less one leading '/'. */
  function CidText(path: string): string {
    RemovePrefix(Trim(path), "/")
  }

  datatype CidError = NumberFormat

  /** `extractCidFromUri`: no cid when the path is absent or blank, else its base-16 value or an error. */
  function ExtractCidFromUri(pns: Uri): (r: Result<Option<int>, CidError>)
    ensures r == Ok(None) <==> pns.path.None? || IsBlank(CidText(pns.path.value))
    ensures r.Ok? && r.value.Some? ==> ParseLong16(CidText(pns.path.value)) == r.value
    ensures r.Err? <==> pns.path.Some? && !IsBlank(CidText(pns.path.value)) && ParseLong16(CidText(pns.path.value)).None?
  {
    match pns.path
    case None => Ok(None)
    case Some(p) =>
      var path := CidText(p);
      if IsBlank(path) then Ok(None)
      else
        match ParseLong16(path)
        case Some(cid) => Ok(Some(cid))
        case None => Err(NumberFormat)
  }

  function HexChar(d: nat): (c: char)
    requires d < 16
    ensures IsHexDigit(c) && HexDigitValue(c) == d
  {
    if d < 10 then (48 + d) as char else (87 + d) as char
  }

  /** The lower-case base-16 text of a natural number. */
  function Hex(n: nat): (r: string)
    ensures r != [] && AllHex(r)
  {
    if n < 16 then [HexChar(n)] else Hex(n / 16) + [HexChar(n % 16)]
  }

  lemma {:induction false} HexValueOfHex(n: nat)
    ensures HexValue(Hex(n)) == n
  {
    if 16 <= n {
      var s := Hex(n);
      assert s[..|s| - 1] == Hex(n / 16);
      HexValueOfHex(n / 16);
    }
  }

  lemma TrimUnchanged(s: string)
    requires s != [] && !IsWhitespace(s[0]) && !IsWhitespace(s[|s| - 1])
    ensures Trim(s) == s
  {
  }

  /** A path "/" followed by the base-16 text of a cid in the `Long` range yields that cid. */
  lemma CidRoundTrip(pns: Uri, n: nat)
    requires n <= MaxLong && pns.path == Some("/" + Hex(n))
    ensures ExtractCidFromUri(pns) == Ok(Some(n))
  {
    var h := Hex(n);
    var p := "/" + h;
    assert !IsWhitespace(p[|p| - 1]) by { assert p[|p| - 1] == h[|h| - 1]; }
    TrimUnchanged(p);
    assert CidText(p) == h by { assert p[..1] == "/"; assert p[1..] == h; }
    assert !IsWhitespace(h[0]);
    HexValueOfHex(n);
  }

  /**
   * A character that is not a base-16 digit, and not a sign in front, makes the cid an error
   * (a leading or trailing space of the path is trimmed first; one after the '/' is not).
   */
  lemma NonHexRejected(pns: Uri, i: nat)
    requires pns.path.Some? && i < |CidText(pns.path.value)|
    requires var t := CidText(pns.path.value); !IsHexDigit(t[i]) && !(i == 0 && (t[0] == '-' || t[0] == '+'))
    ensures ExtractCidFromUri(pns).Err? || IsBlank(CidText(pns.path.value))
  {
    var t := CidText(pns.path.value);
    if t[0] == '-' || t[0] == '+' {
      assert t[1..][i - 1] == t[i];
    }
  }

  // ---------------------------------------------------------------- the web client

  datatype Warning = NoActivityFoundToHandleUri

  /** What `shouldOverrideUrlLoading` answers, and the warnings it raised on the way. */
  datatype OverrideDecision = OverrideDecision(handled: bool, warnings: seq<Warning>)

  /** `shouldOverrideUrlLoading`: a `pns` link carrying `Content-Download` is refused with a warning. */
  function ShouldOverrideUrlLoading(url: Uri): (r: OverrideDecision)
    ensures r.handled <==> url.scheme == Some(Pns) && QueryParameter(url.query, Style.ContentDownload).Some?
    ensures r.warnings == if r.handled then [NoActivityFoundToHandleUri] else []
  {
    if url.scheme == Some(Pns) && QueryParameter(url.query, Style.ContentDownload).Some? then
      OverrideDecision(true, [NoActivityFoundToHandleUri])
    else
      OverrideDecision(false, [])
  }

  /** A `pns` request the client answers from storage: the peer it names and the cid it asks for. */
  datatype Served = Served(peerId: PeerId, cid: Option<int>)

  datatype InterceptError = InvalidUri(reason: ValidateError) | InvalidPeerId | InvalidCid

  /**
   * `shouldInterceptRequest`: null (let the view load it) for every non-`pns` uri; for a `pns`
   * uri the storage's response for its cid, once the host decodes (base58, given as `decode58`)
   * to a peer id; each failed check throws.
   */
  function ShouldInterceptRequest(url: Uri, decode58: string -> Option<seq<bv8>>): (r: Result<Option<Served>, InterceptError>)
    // Only non-`pns` requests are left to the view; every `pns` request is served or throws.
    ensures r == Ok(None) <==> url.scheme != Some(Pns)
    ensures r.Ok? && r.value.Some? ==>
      url.scheme == Some(Pns) && Validate(url).Ok? && decode58(Validate(url).value).Some?
      && ExtractCidFromUri(url).Ok?
      && r.value.value == Served(PeerId(decode58(Validate(url).value).value), ExtractCidFromUri(url).value)
    ensures url.scheme == Some(Pns) && Validate(url).Err? ==> r == Err(InvalidUri(Validate(url).error))
    ensures url.scheme == Some(Pns) && Validate(url).Ok? && decode58(Validate(url).value).None?
        ==> r == Err(InvalidPeerId)
    ensures (url.scheme == Some(Pns) && Validate(url).Ok? && decode58(Validate(url).value).Some?
             && ExtractCidFromUri(url).Err?) ==> r == Err(InvalidCid)
    ensures (url.scheme == Some(Pns) && Validate(url).Ok? && decode58(Validate(url).value).Some?
             && ExtractCidFromUri(url).Ok?)
        ==> r == Ok(Some(Served(PeerId(decode58(Validate(url).value).value), ExtractCidFromUri(url).value)))
    ensures url.scheme == Some(Pns) && ExtractCidFromUri(url).Err? ==> r.Err?
  {
    if url.scheme != Some(Pns) then Ok(None)
    else
      match Validate(url)
      case Err(e) => Err(InvalidUri(e))
      case Ok(host) =>
        match decode58(host)
        case None => Err(InvalidPeerId)
        case Some(bytes) =>
          match ExtractCidFromUri(url)
          case Err(_) => Err(InvalidCid)
          case Ok(cid) => Ok(Some(Served(PeerId(bytes), cid)))
  }

  // ---------------------------------------------------------------- device name and work id

  /** `deviceName`: the model alone when it already starts with the manufacturer. */
  function DeviceName(manufacturer: string, model: string): (r: string)
    ensures StartsWith(r, manufacturer) && EndsWith(r, model)
    ensures StartsWith(model, manufacturer) ==> r == model
    ensures !StartsWith(model, manufacturer) ==> |r| == |manufacturer| + 1 + |model| && r[|manufacturer|] == ' '
  {
    if StartsWith(model, manufacturer) then model
    else
      var r := manufacturer + " " + model;
      assert r[..|manufacturer|] == manufacturer;
      assert r[|r| - |model|..] == model;
      r
  }

  /** Naming a device twice gives the same name. */
  lemma DeviceNameIdempotent(manufacturer: string, model: string)
    ensures DeviceName(manufacturer, DeviceName(manufacturer, model)) == DeviceName(manufacturer, model)
  {
  }

  /** A UUID, as its two 64-bit halves. */
  datatype Uuid = Uuid(mostSignificant: int, leastSignificant: int)

  datatype UuidError = MalformedUuid

  /** `workUUID`: the upload job of a row still being stored; `fromString` is `UUID.fromString`, `None` where it throws. */
  function WorkUuid(fileInfo: FileInfo, fromString: string -> Option<Uuid>): (r: Result<Option<Uuid>, UuidError>)
    ensures r == Ok(None) <==> fileInfo.work.None?
    ensures fileInfo.work.Some? && fromString(fileInfo.work.value).Some? ==> r == Ok(fromString(fileInfo.work.value))
    ensures fileInfo.work.Some? && fromString(fileInfo.work.value).None? ==> r == Err(MalformedUuid)
  {
    match fileInfo.work
    case None => Ok(None)
    case Some(work) =>
      match fromString(work)
      case Some(uuid) => Ok(Some(uuid))
      case None => Err(MalformedUuid)
  }

  // ---------------------------------------------------------------- public addresses

  /** An interface address, with the answers of the `InetAddress` predicates the filter asks. */
  datatype InetAddress = InetAddress(
    address: seq<bv8>,
    isInet6: bool,
    isAnyLocal: bool,
    isLinkLocal: bool,
    isLoopback: bool,
    isSiteLocal: bool)

  datatype NetworkInterface = NetworkInterface(isUp: bool, addresses: seq<InetAddress>)

  /** `isLanAddress`. */
  predicate IsLanAddress(a: InetAddress) {
    a.isAnyLocal || a.isLinkLocal || a.isLoopback || a.isSiteLocal
  }

  /** An address `publicAddresses` keeps: IPv6 and not on the local network. */
  predicate IsPublic(a: InetAddress) {
    a.isInet6 && !IsLanAddress(a)
  }

  /** The public addresses among `addresses`, in order. */
  function PublicAmong(addresses: seq<InetAddress>): (r: seq<InetAddress>)
    ensures |r| <= |addresses|
  {
    if addresses == [] then []
    else
      var last := addresses[|addresses| - 1];
      PublicAmong(addresses[..|addresses| - 1]) + (if IsPublic(last) then [last] else [])
  }

  /** An address is kept exactly when it is one of the interface's addresses and public. */
  lemma {:induction false} PublicAmongMembers(addresses: seq<InetAddress>, a: InetAddress)
    ensures a in PublicAmong(addresses) <==> a in addresses && IsPublic(a)
  {
    if addresses != [] {
      var init, last := addresses[..|addresses| - 1], addresses[|addresses| - 1];
      PublicAmongMembers(init, a);
      assert addresses == init + [last];
    }
  }

  /** The public addresses of the interfaces that are up, interface by interface. */
  function PublicOf(interfaces: seq<NetworkInterface>): seq<InetAddress> {
    if interfaces == [] then []
    else
      var last := interfaces[|interfaces| - 1];
      PublicOf(interfaces[..|interfaces| - 1]) + (if last.isUp then PublicAmong(last.addresses) else [])
  }

  /** An address is announced exactly when it is public and belongs to an interface that is up. */
  lemma {:induction false} PublicOfMembers(interfaces: seq<NetworkInterface>, a: InetAddress)
    ensures a in PublicOf(interfaces) <==>
      IsPublic(a) && exists i :: 0 <= i < |interfaces| && interfaces[i].isUp && a in interfaces[i].addresses
  {
    if interfaces != [] {
      var init := interfaces[..|interfaces| - 1];
      PublicOfMembers(init, a);
      PublicAmongMembers(interfaces[|interfaces| - 1].addresses, a);
      assert forall i :: 0 <= i < |init| ==> init[i] == interfaces[i];
      if IsPublic(a) && (exists i :: 0 <= i < |interfaces| && interfaces[i].isUp && a in interfaces[i].addresses) {
        var i :| 0 <= i < |interfaces| && interfaces[i].isUp && a in interfaces[i].addresses;
        if i < |init| {
          assert init[i].isUp && a in init[i].addresses;
        }
      }
    }
  }

  /**
   * `isLanAddress` decides the filter: an any-local, link-local, loopback or site-local address is
   * never public, and an IPv6 address of none of those kinds on an interface that is up always is.
   */
  lemma LanAddressExcluded(interfaces: seq<NetworkInterface>, a: InetAddress)
    ensures a.isAnyLocal || a.isLinkLocal || a.isLoopback || a.isSiteLocal ==> a !in PublicOf(interfaces)
    ensures (a.isInet6 && !a.isAnyLocal && !a.isLinkLocal && !a.isLoopback && !a.isSiteLocal
             && exists i :: 0 <= i < |interfaces| && interfaces[i].isUp && a in interfaces[i].addresses)
        ==> a in PublicOf(interfaces)
  {
    PublicOfMembers(interfaces, a);
  }

  /** One more address of an interface that is up: kept when it is public. */
  lemma PublicAmongSnoc(addresses: seq<InetAddress>, j: nat)
    requires j < |addresses|
    ensures PublicAmong(addresses[..j + 1]) == PublicAmong(addresses[..j]) + (if IsPublic(addresses[j]) then [addresses[j]] else [])
  {
    assert addresses[..j + 1][..j] == addresses[..j];
  }

  /** One more interface: its public addresses when it is up. */
  lemma PublicOfSnoc(interfaces: seq<NetworkInterface>, i: nat)
    requires i < |interfaces|
    ensures PublicOf(interfaces[..i + 1])
         == PublicOf(interfaces[..i]) + (if interfaces[i].isUp then PublicAmong(interfaces[i].addresses) else [])
  {
    assert interfaces[..i + 1][..i] == interfaces[..i];
  }

  /** `publicAddresses`: the nested loops over the interfaces and their addresses. */
  method PublicAddresses(interfaces: seq<NetworkInterface>) returns (inetAddresses: seq<InetAddress>)
    ensures inetAddresses == PublicOf(interfaces)
  {
    inetAddresses := [];
    for i := 0 to |interfaces|
      invariant inetAddresses == PublicOf(interfaces[..i])
    {
      PublicOfSnoc(interfaces, i);
      var networkInterface := interfaces[i];
      if networkInterface.isUp {
        var addresses := networkInterface.addresses;
        ghost var done := inetAddresses;
        for j := 0 to |addresses|
          invariant inetAddresses == done + PublicAmong(addresses[..j])
        {
          PublicAmongSnoc(addresses, j);
          var inetAddress := addresses[j];
          if inetAddress.isInet6 {
            if !IsLanAddress(inetAddress) {
              inetAddresses := inetAddresses + [inetAddress];
            }
          }
        }
        assert addresses[..|addresses|] == addresses;
      }
    }
    assert interfaces[..|interfaces|] == interfaces;
  }

  /** `reservationFeaturePossible`: the node has a public address. */
  method ReservationFeaturePossible(interfaces: seq<NetworkInterface>) returns (possible: bool)
    ensures possible <==> exists a :: a in PublicOf(interfaces)
  {
    var addresses := PublicAddresses(interfaces);
    possible := |addresses| > 0;
    if possible {
      assert addresses[0] in PublicOf(interfaces);
    }
  }

  const OdinPort: int := 5001

  /** An address the node announces: its peer id, an address and a port. */
  datatype Peeraddr = Peeraddr(peerId: PeerId, address: seq<bv8>, port: int)

  /** `peeraddrs(peerId)`: one announced address per public address, in order, on port 5001. */
  method Peeraddrs(peerId: PeerId, interfaces: seq<NetworkInterface>) returns (result: seq<Peeraddr>)
    ensures |result| == |PublicOf(interfaces)|
    ensures forall i :: 0 <= i < |result| ==>
      result[i] == Peeraddr(peerId, PublicOf(interfaces)[i].address, OdinPort)
  {
    var inetSocketAddresses := PublicAddresses(interfaces);
    result := [];
    for i := 0 to |inetSocketAddresses|
      invariant |result| == i
      invariant forall j :: 0 <= j < i ==> result[j] == Peeraddr(peerId, inetSocketAddresses[j].address, OdinPort)
    {
      result := result + [Peeraddr(peerId, inetSocketAddresses[i].address, OdinPort)];
    }
  }

  /** Every announced address carries this node's peer id and port 5001, and comes from a public address of an interface that is up. */
  lemma PeeraddrsAnnounced(peerId: PeerId, interfaces: seq<NetworkInterface>, result: seq<Peeraddr>, i: nat)
    requires |result| == |PublicOf(interfaces)| && i < |result|
    requires result[i] == Peeraddr(peerId, PublicOf(interfaces)[i].address, OdinPort)
    ensures result[i].peerId == peerId && result[i].port == OdinPort
    ensures exists k, a :: (0 <= k < |interfaces| && interfaces[k].isUp && a in interfaces[k].addresses
      && IsPublic(a) && a.address == result[i].address)
  {
    var a := PublicOf(interfaces)[i];
    PublicOfMembers(interfaces, a);
  }
}
