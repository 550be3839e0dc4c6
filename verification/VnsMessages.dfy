/**
 Two codecs of the Python server: long texts split over banner messages and a
 closing one, and the template request with its list of source filters.
 */
module VnsMessages {
  import opened Bytes
  import opened Routing
  import opened VnsWire

  // ---------------------------------------------------------------------
  // Banners
  // ---------------------------------------------------------------------

  datatype Message = Banner(text: seq<Byte>) | Close(text: seq<Byte>)

  const PIECE: nat := 255

  /** `msg[i*255:(i+1)*255]`, where Python cuts a slice at the end. */
  function Slice(msg: seq<Byte>, i: nat): seq<Byte> {
    var from, to := i * PIECE, (i + 1) * PIECE;
    if |msg| <= from then [] else if |msg| <= to then msg[from..] else msg[from..to]
  }

  /** What the receiver sees of a text: packed to 256 octets, nulls stripped. */
  function Delivered(m: Message): seq<Byte> {
    StripNulls(Pad(m.text, 256))
  }

  function DeliveredAll(ms: seq<Message>): seq<Byte> {
    if ms == [] then [] else DeliveredAll(ms[..|ms| - 1]) + Delivered(ms[|ms| - 1])
  }

  /** The fewest pieces of at most 255 octets; an empty text still needs one. */
  function FewestPieces(n: nat): nat {
    if n == 0 then 1 else (n + PIECE - 1) / PIECE
  }

  /** The part of a text that its first `i` pieces cover. */
  function Upto(msg: seq<Byte>, i: nat): seq<Byte> {
    if i * PIECE <= |msg| then msg[..i * PIECE] else msg
  }

  /** At most the first `n` octets. */
  function Cut(s: seq<Byte>, n: nat): seq<Byte> {
    if |s| <= n then s else s[..n]
  }

  lemma SlicesJoin(msg: seq<Byte>, i: nat)
    requires i * PIECE <= |msg|
    ensures Slice(msg, i) == Cut(msg[255 * i..], 255)
    ensures |Slice(msg, i)| <= PIECE
    ensures Upto(msg, i) + Slice(msg, i) == Upto(msg, i + 1)
  {
  }

  lemma {:induction false} StripJoins(s: seq<Byte>, t: seq<Byte>)
    ensures StripNulls(s + t) == StripNulls(s) + StripNulls(t)
  {
    hide StripNulls;
    if s == [] {
      StripNothing(s);
      assert s + t == t;
    } else {
      StripFirst(s);
      StripFirst(s + t);
      assert (s + t)[1..] == s[1..] + t;
      StripJoins(s[1..], t);
    }
  }

  lemma StripFirst(s: seq<Byte>)
    requires s != []
    ensures StripNulls(s) == (if s[0] == 0 then [] else [s[0]]) + StripNulls(s[1..])
  {
  }

  lemma {:induction false} StripZeros(s: seq<Byte>)
    requires forall i :: 0 <= i < |s| ==> s[i] == 0
    ensures StripNulls(s) == []
  {
    if s != [] {
      StripZeros(s[1..]);
    }
  }

  lemma StripPadded(s: seq<Byte>, n: nat)
    requires |s| <= n
    ensures StripNulls(Pad(s, n)) == StripNulls(s)
  {
    hide StripNulls;
    if |s| == n {
      assert Pad(s, n) == s;
    } else {
      var zeros := ZeroOctets(n - |s|);
      assert Pad(s, n) == s + zeros;
      StripJoins(s, zeros);
      StripZeros(zeros);
    }
  }

  /** A null-free text is not changed by stripping. */
  lemma StripNothing(s: seq<Byte>)
    requires 0 !in s
    ensures StripNulls(s) == s
  {
    StripKeeps(s, 0);
    assert s + ZeroOctets(0) == s;
  }

  lemma DeliveredStep(ms: seq<Message>, m: Message, before: seq<Byte>)
    requires |m.text| <= PIECE && DeliveredAll(ms) == StripNulls(before)
    ensures DeliveredAll(ms + [m]) == StripNulls(before + m.text)
  {
    assert (ms + [m])[..|ms|] == ms;
    StripPadded(m.text, 256);
    StripJoins(before, m.text);
  }

  lemma NothingDelivered(msg: seq<Byte>)
    ensures DeliveredAll([]) == StripNulls(Upto(msg, 0))
  {
  }

  /** `VNSClose.get_banners_and_close`: every piece but the last is a banner, the
      last closes, and unpacking them all gives the text back, less its nulls. */
  method BannersAndClose(msg: seq<Byte>) returns (ms: seq<Message>)
    ensures |ms| == |msg| / 255 + 1
    ensures forall i :: 0 <= i < |ms| ==> |ms[i].text| <= 255 && (ms[i].Close? <==> i == |ms| - 1)
    ensures forall i :: 0 <= i < |ms| ==> 255 * i <= |msg| && ms[i].text == Cut(msg[255 * i..], 255)
    ensures DeliveredAll(ms) == StripNulls(msg)
    ensures 0 !in msg ==> DeliveredAll(ms) == msg
  {
    hide StripNulls, Slice, DeliveredAll;
    ms := [];
    var n := |msg| / PIECE + 1;
    NothingDelivered(msg);
    for i := 0 to n
      invariant |ms| == i
      invariant forall k :: 0 <= k < i ==> |ms[k].text| <= PIECE && (ms[k].Close? <==> k == n - 1)
      invariant forall k :: 0 <= k < i ==> 255 * k <= |msg| && ms[k].text == Cut(msg[255 * k..], 255)
      invariant DeliveredAll(ms) == StripNulls(Upto(msg, i))
    {
      assert i * PIECE <= |msg|;
      SlicesJoin(msg, i);
      var text := Slice(msg, i);
      var m := if i + 1 < n then Banner(text) else Close(text);
      DeliveredStep(ms, m, Upto(msg, i));
      ms := ms + [m];
    }
    assert Upto(msg, n) == msg;
    if 0 !in msg {
      StripNothing(msg);
    }
  }

  /** `VNSBanner.get_banners`: the same pieces, none of them closing. */
  method Banners(msg: seq<Byte>) returns (ms: seq<Message>)
    ensures |ms| == |msg| / 255 + 1
    ensures forall i :: 0 <= i < |ms| ==> |ms[i].text| <= 255 && ms[i].Banner?
    ensures forall i :: 0 <= i < |ms| ==> 255 * i <= |msg| && ms[i].text == Cut(msg[255 * i..], 255)
    ensures DeliveredAll(ms) == StripNulls(msg)
  {
    hide StripNulls, Slice, DeliveredAll;
    ms := [];
    var n := |msg| / PIECE + 1;
    NothingDelivered(msg);
    for i := 0 to n
      invariant |ms| == i
      invariant forall k :: 0 <= k < i ==> |ms[k].text| <= PIECE && ms[k].Banner?
      invariant forall k :: 0 <= k < i ==> 255 * k <= |msg| && ms[k].text == Cut(msg[255 * k..], 255)
      invariant DeliveredAll(ms) == StripNulls(Upto(msg, i))
    {
      assert i * PIECE <= |msg|;
      SlicesJoin(msg, i);
      DeliveredStep(ms, Banner(Slice(msg, i)), Upto(msg, i));
      ms := ms + [Banner(Slice(msg, i))];
    }
    assert Upto(msg, n) == msg;
  }

  /** A way to split a text into pieces that fit. */
  ghost predicate Splits(parts: seq<seq<Byte>>, msg: seq<Byte>) {
    && parts != [] && Joined(parts) == msg
    && forall i :: 0 <= i < |parts| ==> |parts[i]| <= PIECE
  }

  lemma {:induction false} JoinedFits(parts: seq<seq<Byte>>)
    requires forall i :: 0 <= i < |parts| ==> |parts[i]| <= PIECE
    ensures |Joined(parts)| <= |parts| * PIECE
  {
    if parts != [] {
      JoinedFits(parts[1..]);
    }
  }

  /** No split has fewer pieces. */
  lemma NoSplitIsSmaller(parts: seq<seq<Byte>>, msg: seq<Byte>)
    requires Splits(parts, msg)
    ensures |parts| >= FewestPieces(|msg|)
  {
    JoinedFits(parts);
  }

  /** Some split has no more. */
  lemma {:induction false} FewestIsEnough(msg: seq<Byte>) returns (parts: seq<seq<Byte>>)
    ensures Splits(parts, msg) && |parts| == FewestPieces(|msg|)
    decreases |msg|
  {
    if |msg| <= PIECE {
      parts := [msg];
      assert parts[1..] == [] && msg + [] == msg;
    } else {
      var rest := FewestIsEnough(msg[PIECE..]);
      parts := [msg[..PIECE]] + rest;
      assert parts[1..] == rest && msg[..PIECE] + msg[PIECE..] == msg;
    }
  }

  /** The documentation promises the fewest pieces. The count the code uses is one
      more than the size of a smallest split at positive multiples of 255, and
      equal to it everywhere else. */
  lemma PieceCount(msg: seq<Byte>)
    ensures exists parts ::
              && Splits(parts, msg)
              && (forall other :: Splits(other, msg) ==> |parts| <= |other|)
              && |msg| / PIECE + 1 == |parts| + if |msg| > 0 && |msg| % PIECE == 0 then 1 else 0
  {
    hide Splits;
    var parts := FewestIsEnough(msg);
    forall other | Splits(other, msg)
      ensures |parts| <= |other|
    {
      NoSplitIsSmaller(other, msg);
    }
    assert |msg| == |msg| / PIECE * PIECE + |msg| % PIECE;
  }

  // ---------------------------------------------------------------------
  // Templates
  // ---------------------------------------------------------------------

  /** A source filter: an address, already in binary form, and its mask bits. */
  datatype Filter = Filter(ip: Ip, bits: Byte)
  datatype Template = Template(name: Name, host: Name, filters: seq<Filter>)

  function PackFilters(fs: seq<Filter>): (r: seq<Byte>)
    ensures |r| == 5 * |fs|
  {
    if fs == [] then [] else fs[0].ip + [fs[0].bits] + PackFilters(fs[1..])
  }

  /** `VNSOpenTemplate.pack`. */
  function PackTemplate(t: Template): (r: seq<Byte>)
    ensures |r| == 62 + 5 * |t.filters|
  {
    Pad(t.name, 30) + Pad(t.host, 32) + PackFilters(t.filters)
  }

  /** The filter list a constructor call keeps: an empty one means no filter. */
  function Filters(fs: seq<Filter>): seq<Filter> {
    if fs == [] then [Filter([0, 0, 0, 0], 0)] else fs
  }

  /** The filters in `s`, octets left over ignored, or nothing for a bad mask. */
  function ParseFilters(s: seq<Byte>): Option<seq<Filter>>
    decreases |s|
  {
    if |s| < 5 then Some([])
    else if s[4] > 32 then None
    else
      match ParseFilters(s[5..])
      case None => None
      case Some(rest) => Some([Filter(s[..4], s[4])] + rest)
  }

  /** What `VNSOpenTemplate.unpack` means: nothing where it raises, for a body
      too short for its two names or a mask over 32. */
  function Unpacked(body: seq<Byte>): Option<Template> {
    if |body| < 62 then None
    else
      match ParseFilters(body[62..])
      case None => None
      case Some(fs) => Some(Template(StripNulls(body[..30]), StripNulls(body[30..62]), Filters(fs)))
  }

  /** `VNSOpenTemplate.unpack`. */
  method UnpackTemplate(body: seq<Byte>) returns (r: Option<Template>)
    ensures r == Unpacked(body)
  {
    if |body| < 62 {
      return None;
    }
    hide StripNulls;
    var octets := body[62..];
    var filters: seq<Filter> := [];
    assert octets[0..] == octets;
    if ParseFilters(octets).Some? {
      assert [] + ParseFilters(octets).value == ParseFilters(octets).value;
    }
    for i := 0 to |octets| / 5
      invariant 5 * i <= |octets|
      invariant match ParseFilters(octets[5 * i..])
                case None => ParseFilters(octets) == None
                case Some(rest) => ParseFilters(octets) == Some(filters + rest)
    {
      assert octets[5 * i..][5..] == octets[5 * (i + 1)..];
      var bits := octets[5 * i + 4];
      if bits > 32 {
        return None;
      }
      ghost var before, f := filters, Filter(octets[5 * i..5 * i + 4], bits);
      filters := filters + [Filter(octets[5 * i..5 * i + 4], bits)];
      assert octets[5 * i..][..4] == octets[5 * i..5 * i + 4];
      if ParseFilters(octets[5 * (i + 1)..]).Some? {
        var rest := ParseFilters(octets[5 * (i + 1)..]).value;
        assert before + ([f] + rest) == filters + rest;
      }
    }
    assert filters + [] == filters;
    r := Some(Template(StripNulls(body[..30]), StripNulls(body[30..62]), Filters(filters)));
  }

  ghost predicate MasksFit(fs: seq<Filter>) {
    forall i :: 0 <= i < |fs| ==> fs[i].bits <= 32
  }

  lemma {:induction false} FiltersRoundTrip(fs: seq<Filter>)
    ensures ParseFilters(PackFilters(fs)) == if MasksFit(fs) then Some(fs) else None
  {
    if fs != [] {
      var s := PackFilters(fs);
      FiltersRoundTrip(fs[1..]);
      assert fs == [fs[0]] + fs[1..];
      assert s[..4] == fs[0].ip && s[4] == fs[0].bits && s[5..] == PackFilters(fs[1..]);
      assert MasksFit(fs) <==> fs[0].bits <= 32 && MasksFit(fs[1..]);
    }
  }

  lemma {:induction false} FilterOctets(fs: seq<Filter>, k: nat)
    requires k < |fs|
    ensures PackFilters(fs)[5 * k..5 * k + 4] == fs[k].ip && PackFilters(fs)[5 * k + 4] == fs[k].bits
  {
    var s, rest := PackFilters(fs), PackFilters(fs[1..]);
    if k > 0 {
      FilterOctets(fs[1..], k - 1);
      assert s[5 * k..5 * k + 4] == rest[5 * (k - 1)..5 * (k - 1) + 4] && s[5 * k + 4] == rest[5 * (k - 1) + 4];
    }
  }

  /** The template message: 30 octets of name, 32 of host, then four octets of
      address and one of mask bits for each filter. */
  lemma TemplateOctets(t: Template, k: nat)
    requires k < |t.filters|
    ensures var b := PackTemplate(t);
            && |b| == 62 + 5 * |t.filters| && b[..30] == Pad(t.name, 30) && b[30..62] == Pad(t.host, 32)
            && b[62 + 5 * k..62 + 5 * k + 4] == t.filters[k].ip && b[62 + 5 * k + 4] == t.filters[k].bits
  {
    hide Pad;
    FilterOctets(t.filters, k);
    var b := PackTemplate(t);
    assert b[62..] == PackFilters(t.filters);
    assert b[62 + 5 * k..62 + 5 * k + 4] == b[62..][5 * k..5 * k + 4] && b[62 + 5 * k + 4] == b[62..][5 * k + 4];
  }

  /** Unpacking undoes packing for null-free names that fit, exactly when every
      mask is at most 32 (an empty filter list comes back as no filter). */
  lemma TemplateRoundTrip(t: Template)
    requires 0 !in t.name && |t.name| <= 30 && 0 !in t.host && |t.host| <= 32
    ensures Unpacked(PackTemplate(t)) ==
            if MasksFit(t.filters) then Some(t.(filters := Filters(t.filters))) else None
  {
    var body := PackTemplate(t);
    assert body[..30] == Pad(t.name, 30) && body[30..62] == Pad(t.host, 32) && body[62..] == PackFilters(t.filters);
    StripPad(t.name, 30);
    StripPad(t.host, 32);
    FiltersRoundTrip(t.filters);
  }
}
