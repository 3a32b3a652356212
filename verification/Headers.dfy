/** The 48-byte headers: one layout for versions 3 and 4, and another for version 5. */
module Headers {
  import opened Bytes
  import opened Protocol

  type Bits2 = x: int | 0 <= x < 4
  type Bits3 = x: int | 0 <= x < 8
  type Bytes4 = b: Bytes | |b| == 4 witness [0, 0, 0, 0]
  type Bytes8 = b: Bytes | |b| == 8 witness [0, 0, 0, 0, 0, 0, 0, 0]

  const ZEROS4: Bytes4 := [0, 0, 0, 0]
  const ZEROS8: Bytes8 := [0, 0, 0, 0, 0, 0, 0, 0]

  /** Times and durations stay as they are on the wire. The leap indicator is its two bits, which are the same
      for an unknown one and for a server that is not synchronized. */
  datatype Header =
    | Old(leap: Bits2, mode: Bits3, stratum: Byte, poll: Byte, precision: Byte, delay: Bytes4, dispersion: Bytes4,
          referenceId: Bytes4, reference: Bytes8, origin: Bytes8, receive: Bytes8, transmit: Bytes8)
    | New(leap: Bits2, request: bool, stratum: Byte, poll: Byte, precision: Byte, delay: Bytes4, dispersion: Bytes4,
          timescale: Bits2, era: Byte, synchronized: bool, interleaved: bool, authNak: bool,
          serverCookie: Bytes8, clientCookie: Bytes8, receive: Bytes8, transmit: Bytes8)

  const CLIENT_MODE: Bits3 := 3
  const SERVER_MODE: Bits3 := 4
  const NOT_SYNCHRONIZED: Bits2 := 3

  function ModeOf(h: Header): Mode {
    match h
    case Old(_, mode, _, _, _, _, _, _, _, _, _, _) =>
      if mode == CLIENT_MODE then Client else if mode == SERVER_MODE then Server else OtherMode
    case New(_, request, _, _, _, _, _, _, _, _, _, _, _, _, _, _) => if request then Client else Server
  }

  function VersionNumber(v: NtpVersion): Bits3 {
    match v
    case Ntp3 => 3
    case Ntp4 => 4
    case Ntp5 => 5
  }

  /** "NTP5DRFT", by which version 4 packets ask for version 5 and agree to it. */
  const UPGRADE: Bytes8 := [78, 84, 80, 53, 68, 82, 70, 84]

  /** Reasons for a refusal in versions 3 and 4; in version 5 it is the interval or a flag. */
  const KISS_DENY: Bytes4 := [68, 69, 78, 89]
  const KISS_RATE: Bytes4 := [82, 65, 84, 69]
  const KISS_RSTR: Bytes4 := [82, 83, 84, 82]
  const KISS_NTSN: Bytes4 := [78, 84, 83, 78]
  const NEVER_BYTE: Byte := 127

  /* ---- Reading ---- */

  function VersionBits(data: Bytes): Bits3 {
    if data == [] then 0 else data[0] / 8 % 8
  }

  function ReadOld(data: Bytes): Header
    requires |data| >= HEADER
  {
    Old(data[0] / 64, data[0] % 8, data[1], data[2], data[3], data[4..8], data[8..12], data[12..16],
        data[16..24], data[24..32], data[32..40], data[40..48])
  }

  /** Version 5 has two modes, four timescales and three flags; the rest is malformed. A server that is not
      synchronized has no leap indicator. */
  function ReadNew(data: Bytes): Option<Header>
    requires |data| >= HEADER
  {
    var mode, flags := data[0] % 8, data[15];
    if (mode != CLIENT_MODE && mode != SERVER_MODE) || data[12] >= 4 || data[14] != 0 || flags >= 8 then None
    else
      Some(SettleLeap(New(data[0] / 64, mode == CLIENT_MODE, data[1], data[2], data[3], data[4..8], data[8..12],
                          data[12], data[13], flags % 2 == 1, flags / 2 % 2 == 1, flags / 4 == 1,
                          data[16..24], data[24..32], data[32..40], data[40..48])))
  }

  function SettleLeap(h: Header): (r: Header)
    ensures ModeOf(r) == ModeOf(h) && TokenOf(r) == TokenOf(h) && OriginOf(r) == OriginOf(h) && (r.New? <==> h.New?)
  {
    if h.New? && !h.synchronized then
      New(NOT_SYNCHRONIZED, h.request, h.stratum, h.poll, h.precision, h.delay, h.dispersion, h.timescale, h.era,
          false, h.interleaved, h.authNak, h.serverCookie, h.clientCookie, h.receive, h.transmit)
    else h
  }

  /* ---- Writing ---- */

  lemma Split(q: int, r: int, n: int)
    requires 0 <= r < n
    ensures (n * q + r) / n == q && (n * q + r) % n == r
  {
    var x := n * q + r;
    var d := x / n - q;
    assert n * d == r - x % n;
    assert 0 - n < n * d < n;
  }

  function FirstByte(leap: Bits2, version: Bits3, mode: Bits3): (b: Byte)
    ensures b / 64 == leap && b / 8 % 8 == version && b % 8 == mode
  {
    Split(leap, 8 * version + mode, 64);
    Split(8 * leap + version, mode, 8);
    Split(leap, version, 8);
    64 * leap + 8 * version + mode
  }

  function Flag(on: bool, value: nat): nat {
    if on then value else 0
  }

  function Flags(h: Header): (b: Byte)
    requires h.New?
    ensures b < 8 && (b % 2 == 1 <==> h.synchronized) && (b / 2 % 2 == 1 <==> h.interleaved) && (b / 4 == 1 <==> h.authNak)
  {
    Flag(h.synchronized, 1) + Flag(h.interleaved, 2) + Flag(h.authNak, 4)
  }

  function Write(h: Header, v: NtpVersion): (r: Bytes)
    ensures |r| == HEADER
  {
    match h
    case Old(leap, mode, stratum, poll, precision, delay, dispersion, referenceId, reference, origin, receive, transmit) =>
      [FirstByte(leap, VersionNumber(v), mode), stratum, poll, precision]
      + delay + dispersion + referenceId + reference + origin + receive + transmit
    case New(leap, request, stratum, poll, precision, delay, dispersion, timescale, era, _, _, _,
             serverCookie, clientCookie, receive, transmit) =>
      [FirstByte(leap, 5, if request then CLIENT_MODE else SERVER_MODE), stratum, poll, precision]
      + delay + dispersion + [timescale, era, 0, Flags(h)] + serverCookie + clientCookie + receive + transmit
  }

  /** The layout that goes with a version. */
  predicate Suits(h: Header, v: NtpVersion) {
    h.New? <==> v == Ntp5
  }

  function ReadHeader(data: Bytes, v: NtpVersion): Option<Header>
    requires |data| >= HEADER
  {
    if v == Ntp5 then ReadNew(data) else Some(ReadOld(data))
  }

  lemma FirstBytes(h: Header, v: NtpVersion, rest: Bytes)
    requires Suits(h, v)
    ensures var data := Write(h, v) + rest;
            && VersionBits(data) == VersionNumber(v)
            && data[0] / 64 == h.leap && data[1] == h.stratum && data[2] == h.poll && data[3] == h.precision
            && data[0] % 8 == (if h.Old? then h.mode else if h.request then CLIENT_MODE else SERVER_MODE)
  {
    hide FirstByte;
    var data := Write(h, v) + rest;
    assert data[0] == Write(h, v)[0] && data[1] == Write(h, v)[1] && data[2] == Write(h, v)[2] && data[3] == Write(h, v)[3];
  }

  lemma Slices(a: Bytes, b: Bytes4, c: Bytes4, d: Bytes4, e: Bytes8, f: Bytes8, g: Bytes8, h: Bytes8, rest: Bytes)
    requires |a| == 4
    ensures var data := a + b + c + d + e + f + g + h + rest;
            && data[4..8] == b && data[8..12] == c && data[12..16] == d && data[16..24] == e && data[24..32] == f
            && data[32..40] == g && data[40..48] == h
  {
  }

  /** A header is read back from its writing, whatever follows, with the leap indicator settled. */
  lemma HeaderReadBack(h: Header, v: NtpVersion, rest: Bytes)
    requires Suits(h, v)
    ensures var data := Write(h, v) + rest;
            VersionBits(data) == VersionNumber(v) && ReadHeader(data, v) == Some(SettleLeap(h))
  {
    hide FirstByte, Flags, Flag, VersionBits;
    FirstBytes(h, v, rest);
    var data := Write(h, v) + rest;
    match h
    case Old(leap, mode, stratum, poll, precision, delay, dispersion, referenceId, reference, origin, receive, transmit) =>
      Slices([FirstByte(leap, VersionNumber(v), mode), stratum, poll, precision], delay, dispersion, referenceId,
               reference, origin, receive, transmit, rest);
    case New(leap, request, stratum, poll, precision, delay, dispersion, timescale, era, _, _, _,
             serverCookie, clientCookie, receive, transmit) =>
      var middle := [timescale, era, 0, Flags(h)];
      Slices([FirstByte(leap, 5, if request then CLIENT_MODE else SERVER_MODE), stratum, poll, precision], delay, dispersion,
               middle, serverCookie, clientCookie, receive, transmit, rest);
      assert data[12] == data[12..16][0] && data[13] == data[12..16][1] && data[14] == data[12..16][2] && data[15] == data[12..16][3];
  }

  lemma JoinByte(b: Byte)
    ensures FirstByte(b / 64, b / 8 % 8, b % 8) == b
  {
    assert b / 64 == b / 8 / 8;
  }

  lemma JoinFlags(b: Byte)
    requires b < 8
    ensures Flag(b % 2 == 1, 1) + Flag(b / 2 % 2 == 1, 2) + Flag(b / 4 == 1, 4) == b
  {
  }

  lemma Joined(data: Bytes)
    requires |data| >= HEADER
    ensures data[..HEADER] == [data[0], data[1], data[2], data[3]] + data[4..8] + data[8..12] + data[12..16]
                              + data[16..24] + data[24..32] + data[32..40] + data[40..48]
    ensures data[12..16] == [data[12], data[13], data[14], data[15]]
  {
  }

  /** What is read and written again is the same bytes, unless version 5 dropped a leap indicator. */
  lemma HeaderWriteBack(data: Bytes, v: NtpVersion)
    requires |data| >= HEADER && VersionBits(data) == VersionNumber(v) && ReadHeader(data, v).Some?
    ensures Write(ReadHeader(data, v).value, v) == data[..HEADER] <==>
            v != Ntp5 || data[15] % 2 == 1 || data[0] / 64 == NOT_SYNCHRONIZED
  {
    hide FirstByte, Flag;
    Joined(data);
    JoinByte(data[0]);
    if v == Ntp5 {
      JoinFlags(data[15]);
      var w := Write(ReadHeader(data, v).value, v);
      if data[15] % 2 != 1 && data[0] / 64 != NOT_SYNCHRONIZED {
        assert w[0] / 64 == NOT_SYNCHRONIZED && data[..HEADER][0] == data[0];
      }
    }
  }

  /* ---- Polls ---- */

  /** The header of a poll: what the answer must carry back is the random transmit time, or the client cookie. */
  function PollHeader(v: NtpVersion, poll: Byte, origin: Bytes8): Header {
    if v == Ntp5 then
      New(0, true, 0, poll, 0, ZEROS4, ZEROS4, 0, 0, false, false, false, ZEROS8, origin, ZEROS8, ZEROS8)
    else Old(0, CLIENT_MODE, 0, poll, 0, ZEROS4, ZEROS4, ZEROS4, ZEROS8, ZEROS8, ZEROS8, origin)
  }

  /** A version 4 poll that asks for version 5. */
  function UpgradeHeader(poll: Byte, origin: Bytes8): Header {
    Old(0, CLIENT_MODE, 0, poll, 0, ZEROS4, ZEROS4, ZEROS4, UPGRADE, ZEROS8, ZEROS8, origin)
  }

  /** What a request is told by. */
  function TokenOf(h: Header): Bytes8 {
    if h.Old? then h.transmit else h.clientCookie
  }

  /** What a response says that it answers. */
  function OriginOf(h: Header): Bytes8 {
    if h.Old? then h.origin else h.clientCookie
  }
}
