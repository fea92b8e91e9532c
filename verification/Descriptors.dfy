/** The configuration descriptor, serialised part by part into a buffer that may be too short
    (Bootloader/libopencm3/lib/usb/usb_standard.c; USB 2.0 section 9.6.3). */
module Descriptors {
  import opened Bytes

  datatype Extra = Absent | Present(bytes: seq<byte>)

  datatype Endpoint = Endpoint(descriptor: seq<byte>, extra: Extra)

  datatype AltSetting = AltSetting(descriptor: seq<byte>, extra: Extra, endpoints: seq<Endpoint>)

  datatype Interface = Interface(association: Extra, altSettings: seq<AltSetting>)

  datatype Configuration = Configuration(descriptor: seq<byte>, interfaces: seq<Interface>)

  // ---- The full concatenation, in order ----

  function FlatExtra(e: Extra): seq<byte> {
    match e
    case Absent => []
    case Present(bytes) => bytes
  }

  function FlatEndpoint(e: Endpoint): seq<byte> {
    e.descriptor + FlatExtra(e.extra)
  }

  function FlatEndpoints(es: seq<Endpoint>): seq<byte> {
    if es == [] then [] else FlatEndpoints(es[..|es| - 1]) + FlatEndpoint(es[|es| - 1])
  }

  function FlatAltSetting(a: AltSetting): seq<byte> {
    a.descriptor + FlatExtra(a.extra) + FlatEndpoints(a.endpoints)
  }

  function FlatAltSettings(s: seq<AltSetting>): seq<byte> {
    if s == [] then [] else FlatAltSettings(s[..|s| - 1]) + FlatAltSetting(s[|s| - 1])
  }

  function FlatInterface(i: Interface): seq<byte> {
    FlatExtra(i.association) + FlatAltSettings(i.altSettings)
  }

  function FlatInterfaces(s: seq<Interface>): seq<byte> {
    if s == [] then [] else FlatInterfaces(s[..|s| - 1]) + FlatInterface(s[|s| - 1])
  }

  function Flat(c: Configuration): seq<byte> {
    c.descriptor + FlatInterfaces(c.interfaces)
  }

  /** The concatenation with its own length in the wTotalLength field, low byte first. */
  function Descriptor(c: Configuration): (r: seq<byte>)
    requires |c.descriptor| >= 4
    ensures |r| == |Flat(c)|
  {
    Flat(c)[2 := |Flat(c)| % 0x100][3 := |Flat(c)| / 0x100 % 0x100]
  }

  // ---- The order USB 2.0 asks for (section 9.4.3) ----

  /** What a list of extra bytes adds. */
  lemma ExtraIs(e: Extra)
    ensures FlatExtra(e) == if e.Present? then e.bytes else []
  {
  }

  lemma InFront(a: seq<byte>, b: seq<byte>, lo: nat, hi: nat)
    requires lo <= hi <= |a|
    ensures (a + b)[lo..hi] == a[lo..hi]
  {
  }

  lemma Behind(a: seq<byte>, b: seq<byte>, lo: nat, hi: nat)
    requires lo <= hi <= |b|
    ensures (a + b)[|a| + lo..|a| + hi] == b[lo..hi]
  {
  }

  /** Each element of a list lies behind the ones before it. */
  lemma {:induction false} InEndpoints(s: seq<Endpoint>, k: nat, lo: nat, hi: nat)
    requires k < |s| && lo <= hi <= |FlatEndpoint(s[k])|
    ensures var at := |FlatEndpoints(s[..k])|;
            at + hi <= |FlatEndpoints(s)| && FlatEndpoints(s)[at + lo..at + hi] == FlatEndpoint(s[k])[lo..hi]
    decreases |s|
  {
    hide FlatEndpoint;
    var m, at := |s| - 1, |FlatEndpoints(s[..k])|;
    if k < m {
      InEndpoints(s[..m], k, lo, hi);
      assert s[..m][..k] == s[..k];
      InFront(FlatEndpoints(s[..m]), FlatEndpoint(s[m]), at + lo, at + hi);
    } else {
      Behind(FlatEndpoints(s[..m]), FlatEndpoint(s[m]), lo, hi);
    }
  }

  lemma {:induction false} InAltSettings(s: seq<AltSetting>, k: nat, lo: nat, hi: nat)
    requires k < |s| && lo <= hi <= |FlatAltSetting(s[k])|
    ensures var at := |FlatAltSettings(s[..k])|;
            at + hi <= |FlatAltSettings(s)| && FlatAltSettings(s)[at + lo..at + hi] == FlatAltSetting(s[k])[lo..hi]
    decreases |s|
  {
    hide FlatAltSetting;
    var m, at := |s| - 1, |FlatAltSettings(s[..k])|;
    if k < m {
      InAltSettings(s[..m], k, lo, hi);
      assert s[..m][..k] == s[..k];
      InFront(FlatAltSettings(s[..m]), FlatAltSetting(s[m]), at + lo, at + hi);
    } else {
      Behind(FlatAltSettings(s[..m]), FlatAltSetting(s[m]), lo, hi);
    }
  }

  lemma {:induction false} InInterfaces(s: seq<Interface>, k: nat, lo: nat, hi: nat)
    requires k < |s| && lo <= hi <= |FlatInterface(s[k])|
    ensures var at := |FlatInterfaces(s[..k])|;
            at + hi <= |FlatInterfaces(s)| && FlatInterfaces(s)[at + lo..at + hi] == FlatInterface(s[k])[lo..hi]
    decreases |s|
  {
    hide FlatInterface;
    var m, at := |s| - 1, |FlatInterfaces(s[..k])|;
    if k < m {
      InInterfaces(s[..m], k, lo, hi);
      assert s[..m][..k] == s[..k];
      InFront(FlatInterfaces(s[..m]), FlatInterface(s[m]), at + lo, at + hi);
    } else {
      Behind(FlatInterfaces(s[..m]), FlatInterface(s[m]), lo, hi);
    }
  }

  /** Where interface `i` begins: behind the configuration and the interfaces before it. */
  function InterfaceAt(cfg: Configuration, i: nat): nat
    requires i < |cfg.interfaces|
  {
    |cfg.descriptor| + |FlatInterfaces(cfg.interfaces[..i])|
  }

  /** The bytes from `at` on are `part`. */
  predicate Holds(all: seq<byte>, at: nat, part: seq<byte>) {
    at + |part| <= |all| && all[at..at + |part|] == part
  }

  lemma InterfaceHolds(cfg: Configuration, i: nat, lo: nat, part: seq<byte>)
    requires i < |cfg.interfaces| && Holds(FlatInterface(cfg.interfaces[i]), lo, part)
    ensures Holds(Flat(cfg), InterfaceAt(cfg, i) + lo, part)
  {
    hide FlatInterface, FlatInterfaces;
    var at := |FlatInterfaces(cfg.interfaces[..i])|;
    InInterfaces(cfg.interfaces, i, lo, lo + |part|);
    Behind(cfg.descriptor, FlatInterfaces(cfg.interfaces), at + lo, at + lo + |part|);
  }

  /** The configuration comes first; an interface begins with its association. */
  lemma AssociationPlace(cfg: Configuration, i: nat)
    requires i < |cfg.interfaces|
    ensures Holds(Flat(cfg), 0, cfg.descriptor)
    ensures Holds(Flat(cfg), InterfaceAt(cfg, i), FlatExtra(cfg.interfaces[i].association))
  {
    hide FlatInterfaces, FlatExtra, FlatAltSettings;
    assert Holds(FlatInterface(cfg.interfaces[i]), 0, FlatExtra(cfg.interfaces[i].association));
    InterfaceHolds(cfg, i, 0, FlatExtra(cfg.interfaces[i].association));
  }

  /** Where setting `j` of interface `i` begins: behind the association and the settings before it. */
  function AltSettingAt(cfg: Configuration, i: nat, j: nat): nat
    requires i < |cfg.interfaces| && j < |cfg.interfaces[i].altSettings|
  {
    var iface := cfg.interfaces[i];
    InterfaceAt(cfg, i) + |FlatExtra(iface.association)| + |FlatAltSettings(iface.altSettings[..j])|
  }

  lemma AltSettingHolds(cfg: Configuration, i: nat, j: nat, lo: nat, part: seq<byte>)
    requires i < |cfg.interfaces| && j < |cfg.interfaces[i].altSettings|
    requires Holds(FlatAltSetting(cfg.interfaces[i].altSettings[j]), lo, part)
    ensures Holds(Flat(cfg), AltSettingAt(cfg, i, j) + lo, part)
  {
    hide FlatAltSetting, FlatAltSettings, FlatExtra, Flat;
    var iface := cfg.interfaces[i];
    var at := |FlatAltSettings(iface.altSettings[..j])|;
    InAltSettings(iface.altSettings, j, lo, lo + |part|);
    Behind(FlatExtra(iface.association), FlatAltSettings(iface.altSettings), at + lo, at + lo + |part|);
    InterfaceHolds(cfg, i, |FlatExtra(iface.association)| + at + lo, part);
  }

  /** A setting's descriptor comes first in it, then its own extra bytes. */
  lemma AltSettingPlace(cfg: Configuration, i: nat, j: nat)
    requires i < |cfg.interfaces| && j < |cfg.interfaces[i].altSettings|
    ensures var alt, at := cfg.interfaces[i].altSettings[j], AltSettingAt(cfg, i, j);
            && Holds(Flat(cfg), at, alt.descriptor)
            && Holds(Flat(cfg), at + |alt.descriptor|, FlatExtra(alt.extra))
  {
    hide FlatEndpoints, FlatExtra, Flat, AltSettingAt;
    var alt := cfg.interfaces[i].altSettings[j];
    assert Holds(FlatAltSetting(alt), 0, alt.descriptor);
    assert Holds(FlatAltSetting(alt), |alt.descriptor|, FlatExtra(alt.extra));
    AltSettingHolds(cfg, i, j, 0, alt.descriptor);
    AltSettingHolds(cfg, i, j, |alt.descriptor|, FlatExtra(alt.extra));
  }

  /** Where endpoint `k` of that setting begins: behind the setting's own bytes and the endpoints before it. */
  function EndpointAt(cfg: Configuration, i: nat, j: nat, k: nat): nat
    requires i < |cfg.interfaces| && j < |cfg.interfaces[i].altSettings|
    requires k < |cfg.interfaces[i].altSettings[j].endpoints|
  {
    var alt := cfg.interfaces[i].altSettings[j];
    AltSettingAt(cfg, i, j) + |alt.descriptor| + |FlatExtra(alt.extra)| + |FlatEndpoints(alt.endpoints[..k])|
  }

  lemma EndpointHolds(cfg: Configuration, i: nat, j: nat, k: nat, lo: nat, part: seq<byte>)
    requires i < |cfg.interfaces| && j < |cfg.interfaces[i].altSettings|
    requires k < |cfg.interfaces[i].altSettings[j].endpoints|
    requires Holds(FlatEndpoint(cfg.interfaces[i].altSettings[j].endpoints[k]), lo, part)
    ensures Holds(Flat(cfg), EndpointAt(cfg, i, j, k) + lo, part)
  {
    hide FlatEndpoint, FlatEndpoints, FlatExtra, Flat, AltSettingAt;
    var alt := cfg.interfaces[i].altSettings[j];
    var at := |FlatEndpoints(alt.endpoints[..k])|;
    InEndpoints(alt.endpoints, k, lo, lo + |part|);
    Behind(alt.descriptor + FlatExtra(alt.extra), FlatEndpoints(alt.endpoints), at + lo, at + lo + |part|);
    AltSettingHolds(cfg, i, j, |alt.descriptor| + |FlatExtra(alt.extra)| + at + lo, part);
  }

  /** An endpoint's descriptor, then its extra bytes. */
  lemma EndpointPlace(cfg: Configuration, i: nat, j: nat, k: nat)
    requires i < |cfg.interfaces| && j < |cfg.interfaces[i].altSettings|
    requires k < |cfg.interfaces[i].altSettings[j].endpoints|
    ensures var ep, at := cfg.interfaces[i].altSettings[j].endpoints[k], EndpointAt(cfg, i, j, k);
            && Holds(Flat(cfg), at, ep.descriptor)
            && Holds(Flat(cfg), at + |ep.descriptor|, FlatExtra(ep.extra))
  {
    hide FlatExtra, Flat, EndpointAt;
    var ep := cfg.interfaces[i].altSettings[j].endpoints[k];
    assert Holds(FlatEndpoint(ep), 0, ep.descriptor);
    assert Holds(FlatEndpoint(ep), |ep.descriptor|, FlatExtra(ep.extra));
    EndpointHolds(cfg, i, j, k, 0, ep.descriptor);
    EndpointHolds(cfg, i, j, k, |ep.descriptor|, FlatExtra(ep.extra));
  }

  /** And there is nothing else: the lengths of all parts make up the whole. */
  lemma {:induction false} EndpointLengths(s: seq<Endpoint>)
    ensures |FlatEndpoints(s)| == EndpointsSize(s)
  {
    if s != [] {
      EndpointLengths(s[..|s| - 1]);
    }
  }

  lemma {:induction false} AltSettingLengths(s: seq<AltSetting>)
    ensures |FlatAltSettings(s)| == AltSettingsSize(s)
  {
    if s != [] {
      AltSettingLengths(s[..|s| - 1]);
      EndpointLengths(s[|s| - 1].endpoints);
    }
  }

  lemma {:induction false} InterfaceLengths(s: seq<Interface>)
    ensures |FlatInterfaces(s)| == InterfacesSize(s)
  {
    if s != [] {
      InterfaceLengths(s[..|s| - 1]);
      AltSettingLengths(s[|s| - 1].altSettings);
    }
  }

  function ExtraSize(e: Extra): nat {
    if e.Present? then |e.bytes| else 0
  }

  function EndpointsSize(s: seq<Endpoint>): nat {
    if s == [] then 0
    else
      var last := s[|s| - 1];
      EndpointsSize(s[..|s| - 1]) + |last.descriptor| + ExtraSize(last.extra)
  }

  function AltSettingsSize(s: seq<AltSetting>): nat {
    if s == [] then 0
    else
      var last := s[|s| - 1];
      AltSettingsSize(s[..|s| - 1]) + |last.descriptor| + ExtraSize(last.extra) + EndpointsSize(last.endpoints)
  }

  function InterfacesSize(s: seq<Interface>): nat {
    if s == [] then 0
    else
      var last := s[|s| - 1];
      InterfacesSize(s[..|s| - 1]) + ExtraSize(last.association) + AltSettingsSize(last.altSettings)
  }

  lemma TotalIsSum(cfg: Configuration)
    ensures |Flat(cfg)| == |cfg.descriptor| + InterfacesSize(cfg.interfaces)
  {
    InterfaceLengths(cfg.interfaces);
  }

  // ---- The writer ----

  /** `buf`, `len`, `total` and `totallen` of the source, with `buf` as an index. */
  datatype Cursor = Cursor(at: nat, len: nat, total: nat, totallen: nat)

  /** The cursor after `flat` has been offered to a buffer with room for `room` bytes. */
  ghost predicate Wrote(was: seq<byte>, now: seq<byte>, room: nat, c: Cursor, flat: seq<byte>) {
    && room <= |was| == |now|
    && c.at == c.total == Min(room, |flat|)
    && c.len == room - c.total
    && c.totallen == |flat| % 0x1_0000
    && now[..c.at] == flat[..c.at]
    && now[c.at..] == was[c.at..]
  }

  method Append(buf: array<byte>, c: Cursor, part: seq<byte>, ghost was: seq<byte>, ghost room: nat,
                ghost flat: seq<byte>)
    returns (d: Cursor)
    requires Wrote(was, buf[..], room, c, flat)
    modifies buf
    ensures Wrote(was, buf[..], room, d, flat + part)
  {
    var count := Min(c.len, |part|);
    ghost var before := buf[..];
    forall i | 0 <= i < count {
      buf[c.at + i] := part[i];
    }
    d := Cursor(c.at + count, c.len - count, c.total + count, (c.totallen + |part|) % 0x1_0000);
    assert buf[..] == Store(before, c.at, part[..count]);
    AppendWrote(was, before, room, c, flat, part);
  }

  lemma AppendWrote(was: seq<byte>, before: seq<byte>, room: nat, c: Cursor, flat: seq<byte>, part: seq<byte>)
    requires Wrote(was, before, room, c, flat)
    ensures var count := Min(c.len, |part|);
            Wrote(was, Store(before, c.at, part[..count]), room,
                  Cursor(c.at + count, c.len - count, c.total + count, (c.totallen + |part|) % 0x1_0000), flat + part)
  {
    var count := Min(c.len, |part|);
    var now := Store(before, c.at, part[..count]);
    var at := c.at + count;
    assert now[..at] == before[..c.at] + part[..count];
    assert now[at..] == before[c.at..][count..];
    assert was[at..] == was[c.at..][count..];
    assert (flat + part)[..at] == flat[..c.at] + part[..count];
  }

  method AppendExtra(buf: array<byte>, c: Cursor, extra: Extra, ghost was: seq<byte>, ghost room: nat,
                     ghost flat: seq<byte>)
    returns (d: Cursor)
    requires Wrote(was, buf[..], room, c, flat)
    modifies buf
    ensures Wrote(was, buf[..], room, d, flat + FlatExtra(extra))
  {
    match extra
    case Absent =>
      assert flat + [] == flat;
      d := c;
    case Present(bytes) =>
      d := Append(buf, c, bytes, was, room, flat);
  }

  /** The body of the endpoint loop. */
  method AppendEndpoint(buf: array<byte>, c: Cursor, ep: Endpoint,
                        ghost was: seq<byte>, ghost room: nat, ghost flat: seq<byte>)
    returns (d: Cursor)
    requires Wrote(was, buf[..], room, c, flat)
    modifies buf
    ensures Wrote(was, buf[..], room, d, flat + FlatEndpoint(ep))
  {
    hide Wrote;
    d := Append(buf, c, ep.descriptor, was, room, flat);
    d := AppendExtra(buf, d, ep.extra, was, room, flat + ep.descriptor);
    assert flat + ep.descriptor + FlatExtra(ep.extra) == flat + FlatEndpoint(ep);
  }

  /** The body of the loop over alternate settings. */
  method AppendAltSetting(buf: array<byte>, c: Cursor, iface: AltSetting,
                          ghost was: seq<byte>, ghost room: nat, ghost flat: seq<byte>)
    returns (d: Cursor)
    requires Wrote(was, buf[..], room, c, flat)
    modifies buf
    ensures Wrote(was, buf[..], room, d, flat + FlatAltSetting(iface))
  {
    hide Wrote, FlatExtra, FlatEndpoints;
    ghost var head := iface.descriptor + FlatExtra(iface.extra);
    d := Append(buf, c, iface.descriptor, was, room, flat);
    d := AppendExtra(buf, d, iface.extra, was, room, flat + iface.descriptor);
    assert flat + iface.descriptor + FlatExtra(iface.extra) == flat + head;
    assert flat + head + FlatEndpoints(iface.endpoints[..0]) == flat + head by { FlatNothing(); }
    for k := 0 to |iface.endpoints|
      invariant Wrote(was, buf[..], room, d, flat + head + FlatEndpoints(iface.endpoints[..k]))
    {
      d := AppendEndpoint(buf, d, iface.endpoints[k], was, room, flat + head + FlatEndpoints(iface.endpoints[..k]));
      FlatEndpointsStep(iface.endpoints, k, flat + head);
    }
    assert iface.endpoints[..|iface.endpoints|] == iface.endpoints;
    assert flat + head + FlatEndpoints(iface.endpoints) == flat + FlatAltSetting(iface);
  }

  /** The body of the loop over interfaces. */
  method AppendInterface(buf: array<byte>, c: Cursor, iface: Interface,
                         ghost was: seq<byte>, ghost room: nat, ghost flat: seq<byte>)
    returns (d: Cursor)
    requires Wrote(was, buf[..], room, c, flat)
    modifies buf
    ensures Wrote(was, buf[..], room, d, flat + FlatInterface(iface))
  {
    hide Wrote, FlatExtra, FlatAltSettings;
    ghost var head := FlatExtra(iface.association);
    d := AppendExtra(buf, c, iface.association, was, room, flat);
    assert flat + head + FlatAltSettings(iface.altSettings[..0]) == flat + head by { FlatNothing(); }
    for j := 0 to |iface.altSettings|
      invariant Wrote(was, buf[..], room, d, flat + head + FlatAltSettings(iface.altSettings[..j]))
    {
      d := AppendAltSetting(buf, d, iface.altSettings[j], was, room,
                            flat + head + FlatAltSettings(iface.altSettings[..j]));
      FlatAltSettingsStep(iface.altSettings, j, flat + head);
    }
    assert iface.altSettings[..|iface.altSettings|] == iface.altSettings;
    assert flat + head + FlatAltSettings(iface.altSettings) == flat + FlatInterface(iface);
  }

  lemma FlatNothing()
    ensures FlatEndpoints([]) == [] && FlatAltSettings([]) == [] && FlatInterfaces([]) == []
  {
  }

  lemma FlatEndpointsStep(s: seq<Endpoint>, k: nat, flat: seq<byte>)
    requires k < |s|
    ensures flat + FlatEndpoints(s[..k]) + FlatEndpoint(s[k]) == flat + FlatEndpoints(s[..k + 1])
  {
    assert s[..k + 1][..k] == s[..k];
  }

  lemma FlatAltSettingsStep(s: seq<AltSetting>, k: nat, flat: seq<byte>)
    requires k < |s|
    ensures flat + FlatAltSettings(s[..k]) + FlatAltSetting(s[k]) == flat + FlatAltSettings(s[..k + 1])
  {
    assert s[..k + 1][..k] == s[..k];
  }

  lemma FlatInterfacesStep(s: seq<Interface>, k: nat, flat: seq<byte>)
    requires k < |s|
    ensures flat + FlatInterfaces(s[..k]) + FlatInterface(s[k]) == flat + FlatInterfaces(s[..k + 1])
  {
    assert s[..k + 1][..k] == s[..k];
  }

  /** Serialises into `buf`: the longest prefix of the descriptor that fits in `len`. The wTotalLength
      field is patched in unconditionally, so bytes 2 and 3 of the buffer are written whatever `len` is. */
  method BuildConfigDescriptor(cfg: Configuration, buf: array<byte>, len: nat) returns (total: nat)
    requires |cfg.descriptor| >= 4 && len <= buf.Length && 4 <= buf.Length
    modifies buf
    ensures total == Min(len, |Flat(cfg)|)
    ensures buf[..total] == Descriptor(cfg)[..total]
    ensures buf[2] == |Flat(cfg)| % 0x100 && buf[3] == |Flat(cfg)| / 0x100 % 0x100
    ensures forall i :: total <= i < buf.Length && i != 2 && i != 3 ==> buf[i] == old(buf[i])
  {
    ghost var was := buf[..];
    var c := AppendAll(cfg, buf, len);
    ghost var flat := buf[..];
    assert forall k :: c.total <= k < |was| ==> flat[k] == flat[c.total..][k - c.total];
    TotalLengthBytes(|Flat(cfg)|);
    buf[2] := c.totallen % 0x100;
    buf[3] := c.totallen / 0x100;
    total := c.total;
  }

  method AppendAll(cfg: Configuration, buf: array<byte>, len: nat) returns (c: Cursor)
    requires len <= buf.Length
    modifies buf
    ensures Wrote(old(buf[..]), buf[..], len, c, Flat(cfg))
  {
    ghost var was := buf[..];
    c := Cursor(0, len, 0, 0);
    c := Append(buf, c, cfg.descriptor, was, len, []);
    hide Wrote, FlatInterfaces;
    assert [] + cfg.descriptor == cfg.descriptor + FlatInterfaces(cfg.interfaces[..0]) by { FlatNothing(); }
    for i := 0 to |cfg.interfaces|
      invariant Wrote(was, buf[..], len, c, cfg.descriptor + FlatInterfaces(cfg.interfaces[..i]))
    {
      c := AppendInterface(buf, c, cfg.interfaces[i], was, len, cfg.descriptor + FlatInterfaces(cfg.interfaces[..i]));
      FlatInterfacesStep(cfg.interfaces, i, cfg.descriptor);
    }
    assert cfg.interfaces[..|cfg.interfaces|] == cfg.interfaces;
  }

  lemma TotalLengthBytes(n: nat)
    ensures n % 0x1_0000 % 0x100 == n % 0x100
    ensures n % 0x1_0000 / 0x100 == n / 0x100 % 0x100
  {
    var m, high := n % 0x1_0000, n / 0x1_0000;
    assert n == 0x100 * (0x100 * high + m / 0x100) + m % 0x100;
    assert n / 0x100 == 0x100 * high + m / 0x100;
  }

  /** A host reads the first nine bytes, finds the total length in them, asks again for that many, and
      has the whole descriptor. */
  lemma TotalLengthLeadsToAll(cfg: Configuration, len: nat)
    requires 4 <= |cfg.descriptor| && 4 <= len && |Flat(cfg)| < 0x1_0000
    ensures var first := Descriptor(cfg)[..Min(len, |Flat(cfg)|)];
            var wTotalLength := first[2] as nat + 0x100 * first[3] as nat;
            Descriptor(cfg)[..Min(wTotalLength, |Flat(cfg)|)] == Descriptor(cfg)
  {
    var n := |Flat(cfg)|;
    assert n / 0x100 % 0x100 == n / 0x100;
    assert n % 0x100 + 0x100 * (n / 0x100) == n;
  }
}
