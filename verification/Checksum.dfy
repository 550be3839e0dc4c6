/**
 The two Internet checksum routines of the router: `ip_checksum`, which adds
 host-order words, and `cksum`, which adds network-order words. Both are loops
 over a 32-bit accumulator that wraps; both are related to the ones'-complement
 sum of RFC 1071, and through it to each other.
 */
module Checksum {
  import opened Bytes

  datatype Host = Little | Big

  const WRAP: int := 0x1_0000_0000

  /** The longest buffer whose 16-bit words always fit a 32-bit accumulator. */
  const MAX_EXACT: nat := 131074

  function HtoNs(host: Host, w: Word16): Word16 {
    if host.Little? then Swap16(w) else w
  }

  /** The value of `*(uint16_t *)p` when `p` points at `b0, b1`. */
  function Load(host: Host, b0: Byte, b1: Byte): Word16 {
    if host.Little? then b0 + 256 * b1 else 256 * b0 + b1
  }

  // ---------------------------------------------------------------------
  // Specification: RFC 1071 ones'-complement sums
  // ---------------------------------------------------------------------

  /** The words `ip_checksum` adds; a trailing octet counts as its own value. */
  function HostWords(host: Host, s: seq<Byte>): seq<Word16> {
    if |s| == 0 then []
    else if |s| == 1 then [s[0]]
    else [Load(host, s[0], s[1])] + HostWords(host, s[2..])
  }

  /** The words of the wire: big-endian, a trailing octet padded with a zero. */
  function NetWords(s: seq<Byte>): seq<Word16> {
    if |s| == 0 then []
    else if |s| == 1 then [Load(Big, s[0], 0)]
    else [Load(Big, s[0], s[1])] + NetWords(s[2..])
  }

  /** 16-bit addition with end-around carry. */
  function OnesAdd(a: Word16, b: Word16): Word16 {
    if a + b > 0xffff then a + b - 0xffff else a + b
  }

  function OnesSum(ws: seq<Word16>): Word16 {
    if ws == [] then 0 else OnesAdd(ws[0], OnesSum(ws[1..]))
  }

  /** What RFC 791 asks of a receiver: the whole header sums to all ones. */
  predicate Verifies(s: seq<Byte>) {
    OnesSum(NetWords(s)) == 0xffff
  }

  // ---------------------------------------------------------------------
  // What the loops compute
  // ---------------------------------------------------------------------

  function Sum(ws: seq<Word16>): nat {
    if ws == [] then 0 else ws[0] + Sum(ws[1..])
  }

  /** Repeated `(sum & 0xffff) + (sum >> 16)`. */
  function Fold(s: nat): Word16 {
    if s > 0xffff then Fold(s % 0x10000 + s / 0x10000) else s
  }

  /** The value `ip_checksum` returns. */
  function IpChecksumOf(host: Host, s: seq<Byte>): Word16 {
    0xffff - Fold(Sum(HostWords(host, s)) % WRAP)
  }

  /** The value `cksum` returns. */
  function CksumOf(host: Host, s: seq<Byte>): Word16 {
    var c := HtoNs(host, 0xffff - Fold(Sum(NetWords(s)) % WRAP));
    if c == 0 then 0xffff else c
  }

  method FoldLoop(start: nat) returns (sum: Word16)
    ensures sum == Fold(start)
  {
    var s := start;
    while s / 0x10000 != 0
      invariant 0 <= s && Fold(s) == Fold(start)
      decreases s
    {
      s := s % 0x10000 + s / 0x10000;
    }
    sum := s;
  }

  /** `ip_checksum`: for every buffer the wrapped, folded, complemented sum; the
      ones'-complement sum itself whenever the buffer is short enough. */
  method IpChecksum(host: Host, buf: seq<Byte>) returns (r: Word16)
    ensures r == IpChecksumOf(host, buf)
    ensures |buf| <= MAX_EXACT ==> r == 0xffff - OnesSum(HostWords(host, buf))
  {
    var sum, i := 0, 0;
    ghost var total := Sum(HostWords(host, buf));
    while |buf| - i > 1
      invariant 0 <= i <= |buf| && 0 <= sum < WRAP
      invariant SameWrapped(sum + Sum(HostWords(host, buf[i..])), total)
    {
      var w := Load(host, buf[i], buf[i + 1]);
      HostWordsStep(host, buf, i);
      WrapStep(sum, w, Sum(HostWords(host, buf[i + 2..])), total);
      sum := (sum + w) % WRAP;
      i := i + 2;
    }
    HostWordsEnd(host, buf, i);
    if |buf| - i == 1 {
      WrapStep(sum, buf[i], 0, total);
      sum := (sum + buf[i]) % WRAP;
    }
    WrapEnd(sum, total);
    var folded := FoldLoop(sum);
    r := 0xffff - folded;
    if |buf| <= MAX_EXACT {
      HostSumIsExact(host, buf);
      FoldIsOnesSum(HostWords(host, buf));
    }
  }

  lemma HtoNsOfZero(host: Host, w: Word16)
    ensures HtoNs(host, w) == 0 <==> w == 0
  {
    SwapLaws(w);
  }

  /** `cksum`, likewise over network-order words. */
  method Cksum(host: Host, buf: seq<Byte>) returns (r: Word16)
    ensures r == CksumOf(host, buf)
    ensures r != 0
    ensures |buf| <= MAX_EXACT ==>
              r == if OnesSum(NetWords(buf)) == 0xffff then 0xffff else HtoNs(host, 0xffff - OnesSum(NetWords(buf)))
  {
    hide NetWords, Sum, Fold, OnesSum, SameWrapped;
    var sum, i := 0, 0;
    ghost var total := Sum(NetWords(buf));
    assert buf[0..] == buf;
    SameWrappedSelf(total);
    while |buf| - i >= 2
      invariant 0 <= i <= |buf| && 0 <= sum < WRAP
      invariant SameWrapped(sum + Sum(NetWords(buf[i..])), total)
    {
      var w := Load(Big, buf[i], buf[i + 1]);
      NetWordsStep(buf, i);
      WrapStep(sum, w, Sum(NetWords(buf[i + 2..])), total);
      sum := (sum + w) % WRAP;
      i := i + 2;
    }
    NetWordsEnd(buf, i);
    if |buf| - i > 0 {
      var w := Load(Big, buf[i], 0);
      WrapStep(sum, w, 0, total);
      sum := (sum + w) % WRAP;
    }
    WrapEnd(sum, total);
    var folded := FoldLoop(sum);
    r := HtoNs(host, 0xffff - folded);
    HtoNsOfZero(host, 0xffff - folded);
    if r == 0 {
      r := 0xffff;
    }
    if |buf| <= MAX_EXACT {
      NetSumIsExact(buf);
      FoldIsOnesSum(NetWords(buf));
    }
  }

  ghost predicate SameWrapped(a: int, b: int) {
    a % WRAP == b % WRAP
  }

  lemma SameWrappedSelf(a: int)
    ensures SameWrapped(a, a)
  {
  }

  lemma WrapStep(sum: int, w: int, rest: int, total: int)
    requires SameWrapped(sum + (w + rest), total)
    ensures SameWrapped((sum + w) % WRAP + rest, total)
  {
  }

  lemma WrapEnd(sum: int, total: int)
    requires 0 <= sum < WRAP && SameWrapped(sum, total)
    ensures sum == total % WRAP
  {
  }

  lemma HostWordsStep(host: Host, s: seq<Byte>, i: nat)
    requires i + 1 < |s|
    ensures Sum(HostWords(host, s[i..])) == Load(host, s[i], s[i + 1]) + Sum(HostWords(host, s[i + 2..]))
  {
    assert s[i..][2..] == s[i + 2..];
  }

  lemma HostWordsEnd(host: Host, s: seq<Byte>, i: nat)
    requires |s| - 1 <= i <= |s|
    ensures Sum(HostWords(host, s[i..])) == if i == |s| then 0 else s[i]
  {
    if i < |s| {
      assert HostWords(host, s[i..])[1..] == [];
    }
  }

  lemma NetWordsStep(s: seq<Byte>, i: nat)
    requires i + 1 < |s|
    ensures Sum(NetWords(s[i..])) == Load(Big, s[i], s[i + 1]) + Sum(NetWords(s[i + 2..]))
  {
    assert s[i..][2..] == s[i + 2..];
  }

  lemma NetWordsEnd(s: seq<Byte>, i: nat)
    requires |s| - 1 <= i <= |s|
    ensures Sum(NetWords(s[i..])) == if i == |s| then 0 else Load(Big, s[i], 0)
  {
    if i < |s| {
      assert NetWords(s[i..])[1..] == [];
    }
  }

  // ---------------------------------------------------------------------
  // The 32-bit accumulator is exact up to 131074 octets
  // ---------------------------------------------------------------------

  lemma {:induction false} SumBound(ws: seq<Word16>)
    ensures Sum(ws) <= 0xffff * |ws|
  {
    if ws != [] {
      SumBound(ws[1..]);
    }
  }

  lemma {:induction false} WordCount(host: Host, s: seq<Byte>)
    ensures |HostWords(host, s)| == |NetWords(s)| == (|s| + 1) / 2
  {
    if |s| > 1 {
      WordCount(host, s[2..]);
    }
  }

  lemma FitsAccumulator(total: nat, count: nat, length: nat)
    requires length <= MAX_EXACT && count == (length + 1) / 2 && total <= 0xffff * count
    ensures total % WRAP == total
  {
    assert count <= 65537;
  }

  lemma HostSumIsExact(host: Host, s: seq<Byte>)
    requires |s| <= MAX_EXACT
    ensures Sum(HostWords(host, s)) % WRAP == Sum(HostWords(host, s))
  {
    WordCount(host, s);
    SumBound(HostWords(host, s));
    FitsAccumulator(Sum(HostWords(host, s)), |HostWords(host, s)|, |s|);
  }

  lemma NetSumIsExact(s: seq<Byte>)
    requires |s| <= MAX_EXACT
    ensures Sum(NetWords(s)) % WRAP == Sum(NetWords(s))
  {
    WordCount(Big, s);
    SumBound(NetWords(s));
    FitsAccumulator(Sum(NetWords(s)), |NetWords(s)|, |s|);
  }

  // ---------------------------------------------------------------------
  // Folding is ones'-complement addition
  // ---------------------------------------------------------------------

  /** Congruence modulo 65535, the arithmetic behind end-around carry. */
  ghost predicate Cong(a: int, b: int) {
    a % 0xffff == b % 0xffff
  }

  lemma CongShift(a: int, b: int, q: int)
    requires a == b + 0xffff * q
    ensures Cong(a, b)
  {
  }

  lemma CongAdd(a: int, b: int, c: int)
    requires Cong(a, b)
    ensures Cong(a + c, b + c)
  {
  }

  lemma CongScale(a: int, b: int)
    requires Cong(a, b)
    ensures Cong(256 * a, 256 * b)
  {
    CongShift(256 * a, 256 * b, 256 * (a / 0xffff - b / 0xffff));
  }

  /** Residue and zeroness pin a 16-bit word down. */
  lemma SameResidue(a: Word16, b: Word16)
    requires Cong(a, b) && (a == 0 <==> b == 0)
    ensures a == b
  {
  }

  /** A fold keeps the residue modulo 65535 and sends only zero to zero. */
  lemma {:induction false} FoldResidue(s: nat)
    ensures Cong(Fold(s), s)
    ensures Fold(s) == 0 <==> s == 0
  {
    if s > 0xffff {
      var t := s % 0x10000 + s / 0x10000;
      FoldResidue(t);
      CongShift(s, t, s / 0x10000);
    }
  }

  lemma {:induction false} OnesSumResidue(ws: seq<Word16>)
    ensures Cong(OnesSum(ws), Sum(ws))
    ensures OnesSum(ws) == 0 <==> Sum(ws) == 0
  {
    if ws != [] {
      OnesSumResidue(ws[1..]);
      CongAdd(OnesSum(ws[1..]), Sum(ws[1..]), ws[0]);
    }
  }

  lemma FoldIsOnesSum(ws: seq<Word16>)
    ensures Fold(Sum(ws)) == OnesSum(ws)
  {
    FoldResidue(Sum(ws));
    OnesSumResidue(ws);
    SameResidue(Fold(Sum(ws)), OnesSum(ws));
  }

  // ---------------------------------------------------------------------
  // Byte order independence, section 2(B) of RFC 1071
  // ---------------------------------------------------------------------

  lemma SwapParts(hi: Byte, lo: Byte)
    ensures Swap16(Load(Big, hi, lo)) == Load(Big, lo, hi)
  {
  }

  lemma SwapLaws(w: Word16)
    ensures Cong(Swap16(w), 256 * w)
    ensures Swap16(w) == 0 <==> w == 0
    ensures Swap16(Swap16(w)) == w
    ensures Swap16(0xffff - w) == 0xffff - Swap16(w)
  {
    CongShift(256 * w, Swap16(w), w / 256);
    SwapParts(w / 256, w % 256);
    SwapParts(w % 256, w / 256);
    SwapParts(255 - w / 256, 255 - w % 256);
  }

  lemma LoadsAgree(b0: Byte, b1: Byte)
    ensures Cong(Load(Big, b0, b1), 256 * Load(Little, b0, b1))
  {
    CongShift(256 * Load(Little, b0, b1), Load(Big, b0, b1), b1);
  }

  lemma CongSum(a: int, b: int, c: int, d: int)
    requires Cong(a, 256 * b) && Cong(c, 256 * d)
    ensures Cong(a + c, 256 * (b + d))
  {
    CongAdd(a, 256 * b, c);
    CongAdd(c, 256 * d, 256 * b);
  }

  lemma {:induction false} SumsAgree(s: seq<Byte>)
    ensures Cong(Sum(NetWords(s)), 256 * Sum(HostWords(Little, s)))
    ensures Sum(NetWords(s)) == 0 <==> Sum(HostWords(Little, s)) == 0
  {
    assert s[0..] == s;
    if |s| <= 1 {
      NetWordsEnd(s, 0);
      HostWordsEnd(Little, s, 0);
    } else {
      NetWordsStep(s, 0);
      HostWordsStep(Little, s, 0);
      SumsAgree(s[2..]);
      LoadsAgree(s[0], s[1]);
      CongSum(Load(Big, s[0], s[1]), Load(Little, s[0], s[1]),
              Sum(NetWords(s[2..])), Sum(HostWords(Little, s[2..])));
    }
  }

  /** Summing in the other byte order swaps the two octets of the result. */
  lemma ByteOrderIndependence(s: seq<Byte>)
    ensures OnesSum(NetWords(s)) == Swap16(OnesSum(HostWords(Little, s)))
  {
    var net, host := NetWords(s), HostWords(Little, s);
    OnesSumResidue(net);
    OnesSumResidue(host);
    SumsAgree(s);
    SwapLaws(OnesSum(host));
    CongScale(OnesSum(host), Sum(host));
    SameResidue(OnesSum(net), Swap16(OnesSum(host)));
  }

  lemma IpChecksumIsOnesSum(host: Host, s: seq<Byte>)
    requires |s| <= MAX_EXACT
    ensures IpChecksumOf(host, s) == 0xffff - OnesSum(HostWords(host, s))
  {
    HostSumIsExact(host, s);
    FoldIsOnesSum(HostWords(host, s));
  }

  /** On a little-endian host the two routines agree on every buffer they sum
      exactly, except that `cksum` never returns zero. */
  lemma RoutinesAgree(s: seq<Byte>)
    requires |s| <= MAX_EXACT
    ensures var ip := IpChecksumOf(Little, s);
            CksumOf(Little, s) == if ip == 0 then 0xffff else ip
  {
    IpChecksumIsOnesSum(Little, s);
    NetSumIsExact(s);
    FoldIsOnesSum(NetWords(s));
    ByteOrderIndependence(s);
    var h := OnesSum(HostWords(Little, s));
    SwapLaws(h);
    SwapLaws(Swap16(h));
  }

  // ---------------------------------------------------------------------
  // Emitted checksums and whether they verify
  // ---------------------------------------------------------------------

  /** Storing the 16-bit value `v` at `k` as the host does. */
  function Store(host: Host, s: seq<Byte>, k: nat, v: Word16): (r: seq<Byte>)
    requires k + 1 < |s|
    ensures |r| == |s|
  {
    if host.Little? then s[k := v % 256][k + 1 := v / 256]
    else s[k := v / 256][k + 1 := v % 256]
  }

  lemma {:induction false} StoreAdds(host: Host, s: seq<Byte>, k: nat, v: Word16)
    requires k % 2 == 0 && k + 1 < |s| && s[k] == s[k + 1] == 0
    ensures Sum(HostWords(host, Store(host, s, k, v))) == Sum(HostWords(host, s)) + v
  {
    var t := Store(host, s, k, v);
    assert HostWords(host, s)[1..] == HostWords(host, s[2..]);
    assert HostWords(host, t)[1..] == HostWords(host, t[2..]);
    if k == 0 {
      assert t[2..] == s[2..];
    } else {
      StoreAdds(host, s[2..], k - 2, v);
      assert t[2..] == Store(host, s[2..], k - 2, v);
    }
  }

  lemma {:induction false} BigHostReadsNetworkOrder(s: seq<Byte>)
    requires |s| % 2 == 0
    ensures HostWords(Big, s) == NetWords(s)
  {
    if s != [] {
      BigHostReadsNetworkOrder(s[2..]);
    }
  }

  /** `Verifies` read through host-order words. */
  lemma VerifiesOnHost(host: Host, s: seq<Byte>)
    requires host.Little? || |s| % 2 == 0
    ensures Verifies(s) <==> OnesSum(HostWords(host, s)) == 0xffff
  {
    if host.Little? {
      ByteOrderIndependence(s);
      var h := OnesSum(HostWords(Little, s));
      SwapLaws(h);
      SwapParts(255, 255);
    } else {
      BigHostReadsNetworkOrder(s);
    }
  }

  lemma AllOnes(w: Word16, total: nat)
    requires Cong(w, total) && (w == 0 <==> total == 0)
    ensures w == 0xffff <==> (Cong(total, 0) && total != 0)
  {
  }

  lemma Complement(total: nat, fold: Word16, c: Word16, v: Word16)
    requires Cong(fold, total) && c == 0xffff - fold
    ensures Cong(total + v, 0) <==> Cong(v, c)
  {
    CongAdd(fold, total, v);
  }

  /** Storing `v` into a zeroed field makes the buffer verify exactly when `v`
      is congruent to what `ip_checksum` returned. */
  lemma StoredVerifiesIff(host: Host, s: seq<Byte>, k: nat, v: Word16)
    requires |s| <= MAX_EXACT && (host.Little? || |s| % 2 == 0)
    requires k % 2 == 0 && k + 1 < |s| && s[k] == s[k + 1] == 0
    requires v == 0 ==> IpChecksumOf(host, s) == 0
    ensures Verifies(Store(host, s, k, v)) <==> Cong(v, IpChecksumOf(host, s))
  {
    var total, stored := Sum(HostWords(host, s)), Store(host, s, k, v);
    OnesSumResidue(HostWords(host, s));
    IpChecksumIsOnesSum(host, s);
    StoreAdds(host, s, k, v);
    VerifiesOnHost(host, stored);
    OnesSumResidue(HostWords(host, stored));
    AllOnes(OnesSum(HostWords(host, stored)), total + v);
    Complement(total, OnesSum(HostWords(host, s)), IpChecksumOf(host, s), v);
  }

  /** The same for any value, when the buffer is not all zeros. */
  lemma StoredVerifiesNonzero(s: seq<Byte>, k: nat, v: Word16)
    requires |s| <= MAX_EXACT && k % 2 == 0 && 2 <= k && k + 1 < |s| && s[k] == s[k + 1] == 0 && s[0] != 0
    ensures Verifies(Store(Little, s, k, v)) <==> Cong(v, IpChecksumOf(Little, s))
  {
    hide Verifies, HostWords, Sum, OnesSum, Fold, Store;
    var total, stored := Sum(HostWords(Little, s)), Store(Little, s, k, v);
    HostWordsStep(Little, s, 0);
    assert s[0..] == s;
    OnesSumResidue(HostWords(Little, s));
    IpChecksumIsOnesSum(Little, s);
    StoreAdds(Little, s, k, v);
    VerifiesOnHost(Little, stored);
    OnesSumResidue(HostWords(Little, stored));
    AllOnes(OnesSum(HostWords(Little, stored)), total + v);
    Complement(total, OnesSum(HostWords(Little, s)), IpChecksumOf(Little, s), v);
  }

  /** A native store of either routine's result always verifies; the ARP
      timeout path stores the result of `cksum` this way. */
  lemma NativeStoreVerifies(s: seq<Byte>, k: nat)
    requires |s| <= MAX_EXACT && k % 2 == 0 && k + 1 < |s| && s[k] == s[k + 1] == 0
    ensures Verifies(Store(Little, s, k, IpChecksumOf(Little, s)))
    ensures Verifies(Store(Little, s, k, CksumOf(Little, s)))
  {
    RoutinesAgree(s);
    StoredVerifiesIff(Little, s, k, IpChecksumOf(Little, s));
    StoredVerifiesIff(Little, s, k, CksumOf(Little, s));
  }

  lemma SwapFixed(c: Word16)
    ensures Cong(Swap16(c), c) <==> EqualOctets(c)
  {
    var d := c / 256 - c % 256;
    assert c == Swap16(c) + 255 * d;
    if Cong(Swap16(c), c) {
      assert 255 * d % 0xffff == 0;
      assert -255 <= d <= 255;
    }
  }

  predicate EqualOctets(c: Word16) {
    c / 256 == c % 256
  }

  /** The `htons`-wrapped store of the forwarding and ICMP paths: on a
      little-endian host the buffer verifies exactly when the two octets of the
      checksum are equal. */
  lemma WrappedStoreVerifiesIff(s: seq<Byte>, k: nat)
    requires |s| <= MAX_EXACT && k % 2 == 0 && k + 1 < |s| && s[k] == s[k + 1] == 0
    ensures var c := IpChecksumOf(Little, s);
            Verifies(Store(Little, s, k, HtoNs(Little, c))) <==> EqualOctets(c)
  {
    var c := IpChecksumOf(Little, s);
    SwapLaws(c);
    SwapFixed(c);
    StoredVerifiesIff(Little, s, k, Swap16(c));
  }

  /** On a big-endian host the wrapper is the identity and every even-length
      buffer verifies. */
  lemma WrappedStoreVerifiesOnBigEndian(s: seq<Byte>, k: nat)
    requires |s| <= MAX_EXACT && |s| % 2 == 0
    requires k % 2 == 0 && k + 1 < |s| && s[k] == s[k + 1] == 0
    ensures Verifies(Store(Big, s, k, HtoNs(Big, IpChecksumOf(Big, s))))
  {
    StoredVerifiesIff(Big, s, k, IpChecksumOf(Big, s));
  }
}
