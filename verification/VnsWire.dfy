/**
 The wire between the Python server and the C client: messages framed by their
 total length, read in whatever pieces the socket delivers, packets wrapped
 with an interface name, and the hardware description from which the client
 rebuilds the interface list.
 */
module VnsWire {
  import opened Bytes
  import opened Routing
  import opened Frames
  import opened Links
  import opened IfList

  // ---------------------------------------------------------------------
  // Fields
  // ---------------------------------------------------------------------

  /** `htonl` and `struct.pack('>I', n)`. */
  function Be32(n: nat): (r: seq<Byte>)
    requires n < 0x1_0000_0000
    ensures |r| == 4
  {
    [n / 0x100_0000, n / 0x1_0000 % 256, n / 256 % 256, n % 256]
  }

  function Read32(s: seq<Byte>): nat
    requires |s| >= 4
  {
    ((s[0] as int * 256 + s[1]) * 256 + s[2]) * 256 + s[3]
  }

  lemma Read32Be32(n: nat, rest: seq<Byte>)
    requires n < 0x1_0000_0000
    ensures Read32(Be32(n) + rest) == n
  {
    var s := Be32(n) + rest;
    assert s[0] == n / 0x100_0000 && s[1] == n / 0x1_0000 % 256 && s[2] == n / 256 % 256 && s[3] == n % 256;
    assert n / 256 / 256 == n / 0x1_0000 && n / 0x1_0000 / 256 == n / 0x100_0000;
  }

  function ZeroOctets(n: nat): (r: seq<Byte>)
    ensures |r| == n && forall i :: 0 <= i < n ==> r[i] == 0
  {
    seq(n, _ => 0)
  }

  /** `struct.pack('ns', s)` and `strncpy(dst, s, n)`: cut or padded with zeros. */
  function Pad(s: seq<Byte>, n: nat): (r: seq<Byte>)
    ensures |r| == n && (|s| <= n ==> r[..|s|] == s)
  {
    if |s| >= n then s[..n] else s + ZeroOctets(n - |s|)
  }

  /** The C string at the start of `s`. */
  function CString(s: seq<Byte>): (r: seq<Byte>)
    ensures 0 !in r
  {
    if s == [] || s[0] == 0 then [] else [s[0]] + CString(s[1..])
  }

  /** `strip_null_chars`. */
  function StripNulls(s: seq<Byte>): (r: seq<Byte>)
    ensures 0 !in r
  {
    if s == [] then [] else (if s[0] == 0 then [] else [s[0]]) + StripNulls(s[1..])
  }

  lemma {:induction false} CStringStops(s: seq<Byte>, rest: seq<Byte>)
    requires 0 !in s && (rest != [] ==> rest[0] == 0)
    ensures CString(s + rest) == s
  {
    if s != [] {
      assert (s + rest)[1..] == s[1..] + rest;
      CStringStops(s[1..], rest);
    } else {
      assert s + rest == rest;
    }
  }

  lemma {:induction false} StripKeeps(s: seq<Byte>, zeros: nat)
    requires 0 !in s
    ensures StripNulls(s + ZeroOctets(zeros)) == s
    decreases |s|, zeros
  {
    var t := s + ZeroOctets(zeros);
    if s != [] {
      assert t[1..] == s[1..] + ZeroOctets(zeros);
      StripKeeps(s[1..], zeros);
    } else if zeros > 0 {
      assert t[1..] == [] + ZeroOctets(zeros - 1);
      StripKeeps([], zeros - 1);
    }
  }

  /** Padding then stripping gives a null-free string back. */
  lemma StripPad(s: seq<Byte>, n: nat)
    requires 0 !in s && |s| <= n
    ensures StripNulls(Pad(s, n)) == s
  {
    StripKeeps(s, n - |s|);
    assert s + ZeroOctets(0) == s && s[..|s|] == s;
  }

  /** Padding then reading as a C string does too, even without a terminator. */
  lemma CStringPad(s: seq<Byte>, n: nat)
    requires 0 !in s && |s| <= n
    ensures CString(Pad(s, n)) == s
  {
    if |s| == n {
      assert s + [] == s && s[..n] == s;
      CStringStops(s, []);
    } else {
      CStringStops(s, ZeroOctets(n - |s|));
    }
  }

  // ---------------------------------------------------------------------
  // Framing, whatever the pieces
  // ---------------------------------------------------------------------

  const MAX_MESSAGE: nat := 10000

  /** A message as it travels: total length first, header included. */
  ghost predicate Framed(m: seq<Byte>) {
    8 <= |m| <= MAX_MESSAGE && Read32(m) == |m|
  }

  function Joined(parts: seq<seq<Byte>>): seq<Byte> {
    if parts == [] then [] else parts[0] + Joined(parts[1..])
  }

  /** The receiving end: what `recv` will deliver, in non-empty pieces. */
  class Socket {
    var pieces: seq<seq<Byte>>

    ghost predicate Valid()
      reads this
    {
      forall i :: 0 <= i < |pieces| ==> pieces[i] != []
    }

    ghost function Stream(): seq<Byte>
      reads this
    {
      Joined(pieces)
    }

    constructor (pieces: seq<seq<Byte>>)
      requires forall i :: 0 <= i < |pieces| ==> pieces[i] != []
      ensures Valid() && this.pieces == pieces
    {
      this.pieces := pieces;
    }

    /** `recv`: some octets, no more than asked for, none of them skipped. */
    method Receive(limit: nat) returns (r: seq<Byte>)
      requires Valid() && limit > 0 && Stream() != []
      modifies this
      ensures Valid() && 0 < |r| <= limit && old(Stream()) == r + Stream()
    {
      ghost var before := pieces;
      assert pieces != [];
      var piece := pieces[0];
      if |piece| <= limit {
        r, pieces := piece, pieces[1..];
      } else {
        r, pieces := piece[..limit], [piece[limit..]] + pieces[1..];
        assert pieces[1..] == before[1..];
        assert piece == piece[..limit] + piece[limit..];
        assert piece + Joined(before[1..]) == r + (piece[limit..] + Joined(before[1..]));
      }
    }

    /** Either read loop of `sr_read_from_server_expect`. */
    method ReadExactly(n: nat) returns (r: seq<Byte>)
      requires Valid() && |Stream()| >= n
      modifies this
      ensures Valid() && |r| == n && old(Stream()) == r + Stream()
    {
      r := [];
      while |r| < n
        invariant Valid() && |r| <= n && old(Stream()) == r + Stream()
      {
        var got := Receive(n - |r|);
        r := r + got;
      }
    }

    /** The framing of `sr_read_from_server_expect`: a length over 10000, which a
        negative one also is, closes the connection; otherwise exactly one message
        is taken off the stream. A length under 8 is outside the contract, since
        the source then writes past the buffer it allocates. */
    method ReadMessage() returns (m: Option<seq<Byte>>)
      requires Valid() && |Stream()| >= 4
      requires var n := Read32(Stream()); n <= MAX_MESSAGE ==> 8 <= n <= |Stream()|
      modifies this
      ensures Valid()
      ensures m.None? <==> Read32(old(Stream())) > 10000
      ensures m.Some? ==> Framed(m.value) && old(Stream()) == m.value + Stream()
    {
      var head := ReadExactly(4);
      var len := Read32(head);
      assert len == Read32(old(Stream()));
      if len > MAX_MESSAGE {
        return None;
      }
      var body := ReadExactly(len - 4);
      assert Read32(head + body) == Read32(head);
      m := Some(head + body);
    }
  }

  /** What framed messages a stream starts with does not depend on how it is cut:
      a message is determined by the stream it is read from. */
  lemma FramingIsUnique(a: seq<Byte>, b: seq<Byte>, s: seq<Byte>, t: seq<Byte>)
    requires Framed(a) && Framed(b) && a + s == b + t
    ensures a == b && s == t
  {
    assert Read32(a + s) == Read32(a) && Read32(b + t) == Read32(b);
    assert a == (a + s)[..|a|] && b == (b + t)[..|b|];
    assert s == (a + s)[|a|..] && t == (b + t)[|b|..];
  }

  /** Any number of messages, sent as one stream and received in any non-empty
      pieces, are decoded as sent. */
  method ReadMessages(pieces: seq<seq<Byte>>, ghost sent: seq<seq<Byte>>) returns (got: seq<seq<Byte>>)
    requires forall i :: 0 <= i < |pieces| ==> pieces[i] != []
    requires forall i :: 0 <= i < |sent| ==> Framed(sent[i])
    requires Joined(pieces) == Joined(sent)
    ensures got == sent
  {
    hide Framed, Joined, Read32;
    var socket := new Socket(pieces);
    got := [];
    ghost var left := sent;
    while socket.pieces != []
      invariant socket.Valid() && fresh(socket)
      invariant got + left == sent && socket.Stream() == Joined(left)
      invariant forall i :: 0 <= i < |left| ==> Framed(left[i])
      decreases |left|
    {
      assert socket.pieces[0] != [];
      SomethingJoined(socket.pieces);
      StreamStarts(left, socket.Stream());
      var m := socket.ReadMessage();
      FramingIsUnique(m.value, left[0], socket.Stream(), Joined(left[1..]));
      assert got + [m.value] + left[1..] == got + left;
      got := got + [m.value];
      left := left[1..];
    }
    SomethingJoined(socket.pieces);
    StreamStarts(left, []);
  }

  lemma SomethingJoined(parts: seq<seq<Byte>>)
    requires parts != [] ==> parts[0] != []
    ensures Joined(parts) == [] <==> parts == []
  {
  }

  lemma StreamStarts(left: seq<seq<Byte>>, s: seq<Byte>)
    requires (forall i :: 0 <= i < |left| ==> Framed(left[i])) && s == Joined(left)
    ensures left != [] ==> s == left[0] + Joined(left[1..])
    ensures left != [] ==> |s| >= 8 && Read32(s) == |left[0]| <= MAX_MESSAGE && |left[0]| >= 8 && |s| >= |left[0]|
    ensures left == [] ==> s == []
  {
    if left != [] {
      assert Framed(left[0]);
    }
  }

  // ---------------------------------------------------------------------
  // Packets
  // ---------------------------------------------------------------------

  const PACKET_TYPE: nat := 4

  /** The message `sr_send_packet` writes for a frame. */
  function ClientPacket(name: Name, frame: Frame): (m: seq<Byte>)
    requires 24 + |frame| < 0x1_0000_0000
    ensures |m| == 24 + |frame|
  {
    Be32(24 + |frame|) + Be32(PACKET_TYPE) + Pad(name, 16) + frame
  }

  /** `VNSPacket.unpack`, on the body after the eight octets of header. */
  function ServerUnpack(body: seq<Byte>): (Name, Frame)
    requires |body| >= 16
  {
    (StripNulls(body[..16]), body[16..])
  }

  /** `VNSPacket.pack` under the header of total length and type. */
  function ServerPacket(name: Name, frame: Frame): (m: seq<Byte>)
    requires 24 + |frame| < 0x1_0000_0000
    ensures |m| == 24 + |frame|
  {
    Be32(24 + |frame|) + Be32(PACKET_TYPE) + (Pad(name, 16) + frame)
  }

  /** What the client passes to `sr_handlepacket`: the name runs to its first
      null, wherever that is, and the frame starts at octet 24. */
  function ClientUnpack(m: seq<Byte>): (Name, Frame)
    requires |m| >= 24
  {
    (CString(m[8..]), m[24..])
  }

  lemma PacketLayout(name: Name, frame: Frame)
    requires 24 + |frame| < 0x1_0000_0000
    ensures var m := ServerPacket(name, frame); m[8..] == Pad(name, 16) + frame && m[24..] == frame
  {
    hide Be32, Pad;
  }

  /** Padding: the octets of the string, cut at `n`, then zeros. */
  lemma PadOctets(s: seq<Byte>, n: nat, i: nat)
    requires i < n
    ensures Pad(s, n)[i] == if i < |s| then s[i] else 0
  {
  }

  /** The packet message of both programs: total length and type 4, each four
      octets and big-endian, sixteen octets of name, and the frame. */
  lemma PacketOctets(name: Name, frame: Frame)
    requires 24 + |frame| < 0x1_0000_0000
    ensures var m := ClientPacket(name, frame);
            && m == ServerPacket(name, frame) && |m| == 24 + |frame|
            && ((m[0] as int * 256 + m[1]) * 256 + m[2]) * 256 + m[3] == 24 + |frame|
            && m[4..8] == [0, 0, 0, 4] && m[24..] == frame
            && forall i :: 0 <= i < 16 ==> m[8 + i] == if i < |name| then name[i] else 0
  {
    hide Be32, Pad;
    var m, total := ClientPacket(name, frame), 24 + |frame|;
    SamePacket(name, frame);
    Read32Be32(total, m[4..]);
    assert m == Be32(total) + m[4..];
    assert m[4..8] == Be32(4) && m[8..24] == Pad(name, 16);
    TypeFour();
    forall i | 0 <= i < 16
      ensures m[8 + i] == if i < |name| then name[i] else 0
    {
      PadOctets(name, 16, i);
      assert m[8 + i] == m[8..24][i];
    }
  }

  lemma SamePacket(name: Name, frame: Frame)
    requires 24 + |frame| < 0x1_0000_0000
    ensures ClientPacket(name, frame) == ServerPacket(name, frame)
  {
    hide Be32, Pad;
  }

  lemma TypeFour()
    ensures Be32(4) == [0, 0, 0, 4]
  {
  }

  lemma Recovers(name: Name, more: seq<Byte>)
    requires |name| >= 16
    ensures name[..16] + more == name <==> more == name[16..]
  {
    assert name == name[..16] + name[16..];
    assert (name[..16] + more)[16..] == more;
  }

  /** A frame sent by the client arrives at the server under the name it was sent
      for, for every name of at most 16 null-free octets. */
  lemma ClientToServer(name: Name, frame: Frame)
    requires 0 !in name && |name| <= 16 && 24 + |frame| < 0x1_0000_0000
    ensures ServerUnpack(ClientPacket(name, frame)[8..]) == (name, frame)
    ensures 24 + |frame| <= MAX_MESSAGE ==> Framed(ClientPacket(name, frame))
  {
    var m := ClientPacket(name, frame);
    assert m[8..][..16] == Pad(name, 16) && m[8..][16..] == frame;
    StripPad(name, 16);
    Read32Be32(24 + |frame|, m[4..]);
    assert m == Be32(24 + |frame|) + m[4..];
  }

  /** A frame sent by the server reaches the client's handler likewise, for every
      name of at most 15 null-free octets. */
  lemma ServerToClient(name: Name, frame: Frame)
    requires 0 !in name && |name| <= 15 && 24 + |frame| < 0x1_0000_0000
    ensures ClientUnpack(ServerPacket(name, frame)) == (name, frame)
  {
    hide CString, ServerPacket;
    PacketLayout(name, frame);
    var rest := ZeroOctets(16 - |name|) + frame;
    assert Pad(name, 16) + frame == name + rest;
    CStringStops(name, rest);
  }

  /** A name that leaves no room for its terminator is where the client reads on
      into the frame: it takes the first sixteen octets and whatever C string the
      frame starts with, which is the name exactly when the frame happens to start
      with the rest of it. */
  lemma LongNameRunsOn(name: Name, frame: Frame)
    requires 0 !in name && |name| >= 16 && 24 + |frame| < 0x1_0000_0000
    ensures ClientUnpack(ServerPacket(name, frame)) == (name[..16] + CString(frame), frame)
    ensures ClientUnpack(ServerPacket(name, frame)).0 == name <==> CString(frame) == name[16..]
  {
    hide CString, ServerPacket;
    PacketLayout(name, frame);
    CStringGoesOn(name[..16], frame);
    Recovers(name, CString(frame));
  }

  /** The other way such a name is cut to sixteen octets, so the server recovers
      it exactly when it has no more. */
  lemma LongNameIsCut(name: Name, frame: Frame)
    requires 0 !in name && |name| >= 16 && 24 + |frame| < 0x1_0000_0000
    ensures ServerUnpack(ClientPacket(name, frame)[8..]) == (name[..16], frame)
    ensures ServerUnpack(ClientPacket(name, frame)[8..]).0 == name <==> |name| == 16
  {
    var m := ClientPacket(name, frame);
    assert m[8..][..16] == Pad(name, 16) == Pad(name[..16], 16) && m[8..][16..] == frame;
    StripPad(name[..16], 16);
  }

  lemma {:induction false} CStringGoesOn(s: seq<Byte>, rest: seq<Byte>)
    requires 0 !in s
    ensures CString(s + rest) == s + CString(rest)
  {
    if s != [] {
      assert (s + rest)[1..] == s[1..] + rest;
      CStringGoesOn(s[1..], rest);
    } else {
      assert s + rest == rest;
    }
  }

  // ---------------------------------------------------------------------
  // Hardware information
  // ---------------------------------------------------------------------

  /** An interface as the server describes it. */
  datatype VnsInterface = VnsInterface(name: Name, mac: Mac, ip: Ip, mask: Ip)

  /** One key and its 32-octet value. */
  function HwEntry(key: nat, value: seq<Byte>): (r: seq<Byte>)
    requires key < 256 && |value| == 32
    ensures |r| == 36
  {
    Be32(key) + value
  }

  /** `VNSInterface.pack`: six entries. */
  function PackInterface(i: VnsInterface): (r: seq<Byte>)
    ensures |r| == 216
  {
    HwEntry(1, Pad(i.name, 32)) + HwEntry(2, ZeroOctets(32)) + HwEntry(32, Pad(i.mac, 32))
    + HwEntry(64, Pad(i.ip, 32)) + HwEntry(4, ZeroOctets(32)) + HwEntry(128, Pad(i.mask, 32))
  }

  /** `VNSHardwareInfo.pack`. */
  function PackHwInfo(ifs: seq<VnsInterface>): (r: seq<Byte>)
    ensures |r| == 216 * |ifs|
  {
    if ifs == [] then [] else PackInterface(ifs[0]) + PackHwInfo(ifs[1..])
  }

  /** One entry applied to the interface list: a name appends an interface whose
      other fields are whatever the allocated memory held, an address goes to the
      last one, and an address with no interface is the failed assertion. */
  function ApplyEntry(list: seq<Interface>, key: nat, value: seq<Byte>, memory: Interface): Option<seq<Interface>>
    requires |value| == 32
  {
    var n := |list| - 1;
    if key == 1 then Some(list + [memory.(name := Clip(CString(value), NAME_LEN))])
    else if key == 64 then (if list == [] then None else Some(list[n := list[n].(ip := IpAt(value, 0))]))
    else if key == 32 then (if list == [] then None else Some(list[n := list[n].(mac := MacAt(value, 0))]))
    else Some(list)
  }

  /** All entries of a message body; fewer than 36 octets left over are ignored. */
  function ApplyEntries(list: seq<Interface>, body: seq<Byte>, memory: nat -> Interface): Option<seq<Interface>>
    decreases |body|
  {
    if |body| < 36 then Some(list)
    else
      match ApplyEntry(list, Read32(body), body[4..36], memory(|body|))
      case None => None
      case Some(next) => ApplyEntries(next, body[36..], memory)
  }

  /** One turn of the loop of `sr_handle_hwinfo`; `ok` is false where the source's
      assertion stops the program. */
  method HandleEntry(l: InterfaceList, key: nat, value: seq<Byte>, memory: Interface) returns (ok: bool)
    requires l.Valid() && |value| == 32
    modifies l, l.nodes
    ensures l.Valid() && (ok <==> ApplyEntry(old(l.List()), key, value, memory).Some?)
    ensures ok ==> Some(l.List()) == ApplyEntry(old(l.List()), key, value, memory)
    ensures forall n :: n in l.nodes ==> n in old(l.nodes) || fresh(n)
  {
    hide Chain, Values, CString;
    ok := true;
    if key == 1 {
      l.Add(CString(value), memory);
    } else if key == 64 || key == 32 {
      var empty := IsEmpty(l);
      if empty {
        ok := false;
      } else if key == 64 {
        l.SetEtherIp(IpAt(value, 0));
      } else {
        l.SetEtherAddr(MacAt(value, 0));
      }
    }
  }

  /** `sr_handle_hwinfo`, on the body after the header. */
  method HandleHwInfo(l: InterfaceList, body: seq<Byte>, memory: nat -> Interface) returns (ok: bool, count: nat)
    requires l.Valid()
    modifies l, l.nodes
    ensures l.Valid() && count == |body| / 36
    ensures ok <==> ApplyEntries(old(l.List()), body, memory).Some?
    ensures ok ==> Some(l.List()) == ApplyEntries(old(l.List()), body, memory)
  {
    hide Chain, Values, ApplyEntry, ApplyEntries, Read32;
    count := |body| / 36;
    var i := 0;
    ok := true;
    assert body[0..] == body;
    while i < count
      invariant l.Valid() && ok && 0 <= i <= count && 36 * i <= |body|
      invariant forall n :: n in l.nodes ==> n in old(l.nodes) || fresh(n)
      invariant ApplyEntries(l.List(), body[36 * i..], memory) == ApplyEntries(old(l.List()), body, memory)
    {
      var entry := body[36 * i..];
      UnfoldEntries(l.List(), entry, memory);
      assert entry[36..] == body[36 * (i + 1)..];
      assert forall k :: 0 <= k < |l.nodes| ==> l.nodes[k] in old(l.nodes) || fresh(l.nodes[k]);
      ok := HandleEntry(l, Read32(entry), entry[4..36], memory(|entry|));
      if !ok {
        return;
      }
      i := i + 1;
    }
    UnfoldEntries(l.List(), body[36 * i..], memory);
  }

  lemma UnfoldEntries(list: seq<Interface>, body: seq<Byte>, memory: nat -> Interface)
    ensures ApplyEntries(list, body, memory) ==
            if |body| < 36 then Some(list)
            else match ApplyEntry(list, Read32(body), body[4..36], memory(|body|))
                 case None => None
                 case Some(next) => ApplyEntries(next, body[36..], memory)
  {
  }

  /** The test behind the assertion in both setters. */
  method IsEmpty(l: InterfaceList) returns (r: bool)
    requires l.Valid()
    ensures r <==> l.nodes == []
  {
    r := l.head == null;
  }

  function Rebuilt(i: VnsInterface): Interface {
    Interface(i.name, i.mac, i.ip)
  }

  /** Six entries of four octets of key and 32 of value: name, speed, hardware
      address, IP address, subnet and mask, under the keys 1, 2, 32, 64, 4, 128. */
  lemma InterfaceOctets(i: VnsInterface)
    ensures var r := PackInterface(i);
            && |r| == 216
            && r[0..4] == [0, 0, 0, 1] && r[36..40] == [0, 0, 0, 2] && r[72..76] == [0, 0, 0, 32]
            && r[108..112] == [0, 0, 0, 64] && r[144..148] == [0, 0, 0, 4] && r[180..184] == [0, 0, 0, 128]
            && r[76..82] == i.mac && r[112..116] == i.ip && r[184..188] == i.mask
            && r[4..36] == Pad(i.name, 32)
  {
    hide Pad;
    var r := PackInterface(i);
    assert r[72..108] == HwEntry(32, Pad(i.mac, 32));
    assert r[108..144] == HwEntry(64, Pad(i.ip, 32));
    assert r[180..216] == HwEntry(128, Pad(i.mask, 32));
    assert r[76..82] == Pad(i.mac, 32)[..6] && r[112..116] == Pad(i.ip, 32)[..4] && r[184..188] == Pad(i.mask, 32)[..4];
  }

  lemma EntryStep(list: seq<Interface>, key: nat, value: seq<Byte>, rest: seq<Byte>, memory: nat -> Interface)
    requires key < 256 && |value| == 32
    ensures ApplyEntries(list, HwEntry(key, value) + rest, memory) ==
            match ApplyEntry(list, key, value, memory(36 + |rest|))
            case None => None
            case Some(next) => ApplyEntries(next, rest, memory)
  {
    var body := HwEntry(key, value) + rest;
    Read32Be32(key, value + rest);
    assert body == Be32(key) + (value + rest);
    assert body[4..36] == value && body[36..] == rest;
  }

  /** The six entries of one interface append exactly that interface. */
  lemma InterfaceStep(list: seq<Interface>, i: VnsInterface, rest: seq<Byte>, memory: nat -> Interface)
    requires 0 !in i.name && |i.name| <= NAME_LEN
    ensures ApplyEntries(list, PackInterface(i) + rest, memory) == ApplyEntries(list + [Rebuilt(i)], rest, memory)
  {
    hide HwEntry, ApplyEntries, Pad;
    var e1, e2, e3 := HwEntry(1, Pad(i.name, 32)), HwEntry(2, ZeroOctets(32)), HwEntry(32, Pad(i.mac, 32));
    var e4, e5, e6 := HwEntry(64, Pad(i.ip, 32)), HwEntry(4, ZeroOctets(32)), HwEntry(128, Pad(i.mask, 32));
    var r6 := e6 + rest;
    var r5 := e5 + r6;
    var r4 := e4 + r5;
    var r3 := e3 + r4;
    var r2 := e2 + r3;
    assert PackInterface(i) + rest == e1 + r2;
    var blank := memory(36 + |r2|);
    var l1 := list + [blank.(name := i.name)];
    CStringPad(i.name, 32);
    EntryStep(list, 1, Pad(i.name, 32), r2, memory);
    EntryStep(l1, 2, ZeroOctets(32), r3, memory);
    var l3 := list + [blank.(name := i.name, mac := i.mac)];
    assert l1[|list| := l1[|list|].(mac := i.mac)] == l3;
    EntryStep(l1, 32, Pad(i.mac, 32), r4, memory);
    var l4 := list + [Rebuilt(i)];
    assert l3[|list| := l3[|list|].(ip := i.ip)] == l4;
    EntryStep(l3, 64, Pad(i.ip, 32), r5, memory);
    EntryStep(l4, 4, ZeroOctets(32), r6, memory);
    EntryStep(l4, 128, Pad(i.mask, 32), rest, memory);
  }

  /** The hardware round trip: whatever list the client has and whatever memory
      holds, parsing the server's description appends the same names, addresses
      and order. On an empty list it rebuilds the server's list. */
  lemma {:induction false} HwInfoRoundTrip(list: seq<Interface>, ifs: seq<VnsInterface>, memory: nat -> Interface)
    requires forall k :: 0 <= k < |ifs| ==> 0 !in ifs[k].name && |ifs[k].name| <= NAME_LEN
    ensures ApplyEntries(list, PackHwInfo(ifs), memory) ==
            Some(list + seq(|ifs|, k requires 0 <= k < |ifs| => Rebuilt(ifs[k])))
    decreases |ifs|
  {
    hide ApplyEntry, PackInterface;
    var all := seq(|ifs|, k requires 0 <= k < |ifs| => Rebuilt(ifs[k]));
    if ifs == [] {
      assert list + all == list;
    } else {
      var tail := ifs[1..];
      InterfaceStep(list, ifs[0], PackHwInfo(tail), memory);
      HwInfoRoundTrip(list + [Rebuilt(ifs[0])], tail, memory);
      assert list + all == list + [Rebuilt(ifs[0])] + seq(|tail|, k requires 0 <= k < |tail| => Rebuilt(tail[k]));
    }
  }

  /** Forty-two interfaces fit both limits on the client's side. */
  lemma HwInfoFits(ifs: seq<VnsInterface>)
    requires |ifs| <= 42
    ensures 8 + |PackHwInfo(ifs)| <= MAX_MESSAGE && |PackHwInfo(ifs)| / 36 <= 256
  {
  }
}
