/**
 The checksum fix-up of tests/tcp_parser.cc: a captured TCP segment, whose checksum
 covers the IPv4 pseudo-header, is rewritten so that it verifies on its own.
 */
module TcpFixup {
  import opened Bytes
  import opened Checksum

  const ETHERNET := 14   // octets of the link-layer header
  const CKSUM := 16      // offset of the checksum in a TCP header

  /** The length of the IPv4 header, from its low nibble. */
  function HeaderLength(pkt: seq<byte>): nat
    requires |pkt| > ETHERNET
  {
    (pkt[ETHERNET] % 0x10) * 4
  }

  /** A frame whose IPv4 total length is what was captured, with the fields read below present. */
  predicate Captured(pkt: seq<byte>) {
    && 34 <= |pkt| <= ETHERNET + 0xffff
    && ETHERNET + HeaderLength(pkt) + CKSUM + 2 <= |pkt|
  }

  function Segment(pkt: seq<byte>): seq<byte>
    requires Captured(pkt)
  {
    pkt[ETHERNET + HeaderLength(pkt)..]
  }

  /** Section 3.1 of RFC 793: source, destination, zero, protocol, TCP length. */
  function PseudoHeader(pkt: seq<byte>): seq<byte>
    requires Captured(pkt)
  {
    var len := |pkt| - ETHERNET - HeaderLength(pkt);
    pkt[26..34] + [0, pkt[23], High(len), Low(len)]
  }

  /** The sum of the pseudo-header as the code adds it up. */
  function PseudoSum(pkt: seq<byte>): nat
    requires Captured(pkt)
  {
    Word(pkt[26], pkt[27]) + Word(pkt[28], pkt[29]) +
    Word(pkt[30], pkt[31]) + Word(pkt[32], pkt[33]) +
    pkt[23] as int + |pkt| - ETHERNET - HeaderLength(pkt)
  }

  lemma PseudoSumIsHeaderSum(pkt: seq<byte>)
    requires Captured(pkt)
    ensures TrueSum(false, PseudoHeader(pkt)) == PseudoSum(pkt)
  {
    var len := |pkt| - ETHERNET - HeaderLength(pkt);
    var h := PseudoHeader(pkt);
    PartsWord(len);
    assert h == [pkt[26], pkt[27]] + ([pkt[28], pkt[29]] + ([pkt[30], pkt[31]] +
                ([pkt[32], pkt[33]] + ([0, pkt[23]] + [High(len), Low(len)]))));
    PairSum(pkt[26], pkt[27], [pkt[28], pkt[29]] + ([pkt[30], pkt[31]] +
                ([pkt[32], pkt[33]] + ([0, pkt[23]] + [High(len), Low(len)]))));
    PairSum(pkt[28], pkt[29], [pkt[30], pkt[31]] + ([pkt[32], pkt[33]] + ([0, pkt[23]] + [High(len), Low(len)])));
    PairSum(pkt[30], pkt[31], [pkt[32], pkt[33]] + ([0, pkt[23]] + [High(len), Low(len)]));
    PairSum(pkt[32], pkt[33], [0, pkt[23]] + [High(len), Low(len)]);
    PairSum(0, pkt[23], [High(len), Low(len)]);
    PairSum(High(len), Low(len), []);
    assert [High(len), Low(len)] + [] == [High(len), Low(len)];
  }

  lemma PairSum(hi: byte, lo: byte, rest: seq<byte>)
    ensures TrueSum(false, [hi, lo] + rest) == Word(hi, lo) + TrueSum(false, rest)
  {
  }

  /** The segment with another checksum field. */
  function WithChecksum(seg: seq<byte>, hi: byte, lo: byte): seq<byte>
    requires CKSUM + 2 <= |seg|
  {
    seg[CKSUM := hi][CKSUM + 1 := lo]
  }

  /** The segment that the fix-up hands to the parser. */
  function FixedUp(pkt: seq<byte>): seq<byte>
    requires Captured(pkt)
  {
    var seg := Segment(pkt);
    var f := Fold(PseudoSum(pkt) + Word(seg[CKSUM], seg[CKSUM + 1]));
    WithChecksum(seg, High(f), Low(f))
  }

  method FixUp(pkt: seq<byte>) returns (tcpData: array<byte>)
    requires Captured(pkt)
    ensures fresh(tcpData) && tcpData[..] == FixedUp(pkt)
  {
    var seg := pkt[ETHERNET + HeaderLength(pkt)..];
    tcpData := new byte[|seg|](i requires 0 <= i < |seg| => seg[i]);
    assert tcpData[..] == Segment(pkt);
    var fixup: nat := Word(pkt[26], pkt[27]) + Word(pkt[28], pkt[29]);
    fixup := fixup + Word(pkt[30], pkt[31]) + Word(pkt[32], pkt[33]);
    fixup := fixup + pkt[23] as int;
    fixup := fixup + |seg|;
    fixup := fixup + Word(tcpData[CKSUM], tcpData[CKSUM + 1]);
    ghost var total := PseudoSum(pkt) + Word(seg[CKSUM], seg[CKSUM + 1]);
    assert fixup == total;
    while fixup > ONES
      invariant fixup < WRAP && Fold(fixup) == Fold(total)
      invariant tcpData[..] == Segment(pkt)
    {
      FoldStep(fixup);
      fixup := fixup / 0x1_0000 + fixup % 0x1_0000;
    }
    assert fixup == Fold(total);
    tcpData[CKSUM] := fixup / 0x100;
    tcpData[CKSUM + 1] := fixup % 0x100;
  }

  /**
   Soundness: the fixed-up segment on its own has the very value that the original has
   under a checksum seeded with the pseudo-header sum.  In particular one is 0 exactly
   when the other is, also when everything is zero.
   */
  lemma FixUpSound(pkt: seq<byte>)
    requires Captured(pkt)
    ensures ChecksumOf(0, FixedUp(pkt)) == ChecksumOf(PseudoSum(pkt), Segment(pkt))
  {
    var seg, p := Segment(pkt), PseudoSum(pkt);
    var pre, post := seg[..CKSUM], seg[CKSUM + 2..];
    var f := Fold(p + Word(seg[CKSUM], seg[CKSUM + 1]));
    assert seg == WithWord(pre, seg[CKSUM], seg[CKSUM + 1], post);
    assert FixedUp(pkt) == WithWord(pre, High(f), Low(f), post);
    TrueSumBound(pre);
    TrueSumBound(post);
    SeedIntoWord(p, pre, seg[CKSUM], seg[CKSUM + 1], post);
  }

  /** That seed is what feeding the pseudo-header of RFC 793 first would have produced. */
  lemma SeedIsPseudoHeader(pkt: seq<byte>)
    requires Captured(pkt)
    ensures ChecksumOf(PseudoSum(pkt), Segment(pkt)) ==
            RfcChecksum(PseudoHeader(pkt) + Segment(pkt))
  {
    var h, seg := PseudoHeader(pkt), Segment(pkt);
    PseudoSumIsHeaderSum(pkt);
    TrueSumAppend(false, h, seg);
    TrueSumBound(seg);
    NoWrap(PseudoSum(pkt), seg);
    OnesSumIsFold(h + seg);
  }

  /** So the fixed-up segment verifies on its own exactly if the captured one does under RFC 793. */
  lemma FixUpVerifiesIff(pkt: seq<byte>)
    requires Captured(pkt)
    ensures ChecksumOf(0, FixedUp(pkt)) == 0 <==> RfcChecksum(PseudoHeader(pkt) + Segment(pkt)) == 0
  {
    FixUpSound(pkt);
    SeedIsPseudoHeader(pkt);
  }

  // --------------------------------------------------- the frame as its layers see it

  /** RFC 791 section 3.1: four bits of version, then the length in 32-bit words. */
  lemma HeaderLengthMeaning(pkt: seq<byte>, version: nat, ihl: nat)
    requires |pkt| > 14 && ihl < 16 && pkt[14] == 0x10 * version + ihl
    ensures HeaderLength(pkt) == 4 * ihl
  {
  }

  /** An Ethernet header, an IPv4 header of at least five words without padding behind it, a TCP segment. */
  ghost predicate Frame(link: seq<byte>, ip: seq<byte>, tcp: seq<byte>, version: nat, ihl: nat) {
    && |link| == 14 && 5 <= ihl < 16 && |ip| == 4 * ihl && ip[0] == 0x10 * version + ihl
    && 18 <= |tcp| && |ip| + |tcp| <= 0xffff
  }

  /** Where everything is in such a frame. */
  lemma Layers(link: seq<byte>, ip: seq<byte>, tcp: seq<byte>, version: nat, ihl: nat)
    requires Frame(link, ip, tcp, version, ihl)
    ensures var pkt := link + ip + tcp;
            && Captured(pkt) && Segment(pkt) == tcp
            && PseudoHeader(pkt) == ip[12..16] + ip[16..20] + [0, ip[9], |tcp| / 0x100, |tcp| % 0x100]
  {
    var pkt := link + ip + tcp;
    HeaderLengthMeaning(pkt, version, ihl);
    assert pkt[26..34] == ip[12..16] + ip[16..20];
  }

  /**
   The segment handed on differs from the captured one in octets 16 and 17 only, and its
   value is the RFC 1071 checksum of the segment behind the pseudo-header of RFC 793.
   */
  lemma FixUpOfFrame(link: seq<byte>, ip: seq<byte>, tcp: seq<byte>, version: nat, ihl: nat)
    requires Frame(link, ip, tcp, version, ihl)
    ensures var pkt := link + ip + tcp;
            var pseudo := ip[12..16] + ip[16..20] + [0, ip[9], |tcp| / 0x100, |tcp| % 0x100];
            && Captured(pkt) && |FixedUp(pkt)| == |tcp|
            && (forall i :: 0 <= i < |tcp| && i != 16 && i != 17 ==> FixedUp(pkt)[i] == tcp[i])
            && ChecksumOf(0, FixedUp(pkt)) == RfcChecksum(pseudo + tcp)
  {
    Layers(link, ip, tcp, version, ihl);
    FixUpSound(link + ip + tcp);
    SeedIsPseudoHeader(link + ip + tcp);
  }
}
