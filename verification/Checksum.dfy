/**
 The Internet checksum (RFC 1071) as ipv4_checksum computes it, the IPv4 header built with it and
 the ICMP echo reply.
 */
module Checksum {
  import opened Machine

  // ---------------------------------------------------------------- sums of words

  /** The sum of 16-bit little-endian loads; a last odd byte counts by itself. */
  function SumLE(b: seq<Byte>): (s: nat) {
    if |b| == 0 then 0 else if |b| == 1 then b[0] else b[0] + 256 * b[1] + SumLE(b[2..])
  }

  /** The sum as RFC 1071 defines it: big-endian words, an odd byte padded with zero on the right. */
  function SumBE(b: seq<Byte>): (s: nat) {
    if |b| == 0 then 0 else if |b| == 1 then 256 * b[0] else 256 * b[0] + b[1] + SumBE(b[2..])
  }

  function OddBytes(b: seq<Byte>): (s: nat) {
    if |b| <= 1 then 0 else b[1] + OddBytes(b[2..])
  }

  /** The end-around carry: fold the upper half in until it is gone. */
  function Fold(s: nat): (f: nat) {
    if s < 65536 then s else Fold(s % 65536 + s / 65536)
  }

  function ChecksumOf(b: seq<Byte>): (c: nat)
    ensures c <= 65535
  {
    FoldIsResidue(SumLE(b));
    65535 - Fold(SumLE(b))
  }

  /** Folding yields the residue modulo 65535, with 65535 rather than 0 for a positive sum. */
  lemma {:induction false} FoldIsResidue(s: nat)
    ensures Fold(s) == if s == 0 then 0 else (s - 1) % 65535 + 1
    ensures Fold(s) <= 65535
  {
    if s >= 65536 {
      var t := s % 65536 + s / 65536;
      FoldIsResidue(t);
      assert s - 1 == t - 1 + s / 65536 * 65535;
      ShiftResidue(t - 1, s / 65536);
    }
  }

  lemma ShiftResidue(a: nat, k: nat)
    ensures (a + k * 65535) % 65535 == a % 65535
  {
    if k > 0 {
      ShiftResidue(a, k - 1);
      assert a + k * 65535 == a + (k - 1) * 65535 + 65535;
    }
  }

  /** A buffer verifies exactly when its sum is a positive multiple of 65535. */
  lemma VerifiesIff(b: seq<Byte>)
    ensures ChecksumOf(b) == 0 <==> SumLE(b) > 0 && SumLE(b) % 65535 == 0
  {
    hide Fold;
    FoldIsResidue(SumLE(b));
    var s := SumLE(b);
    if s > 0 {
      PredecessorResidue(s);
    }
  }

  lemma PredecessorResidue(s: nat)
    requires s > 0
    ensures (s - 1) % 65535 == 65534 <==> s % 65535 == 0
  {
    var q, r := s / 65535, s % 65535;
    assert s == q * 65535 + r;
    if r == 0 {
      assert q >= 1;
      assert s - 1 == (65535 - 1) + (q - 1) * 65535;
      ShiftResidue(65535 - 1, q - 1);
    } else {
      assert s - 1 == (r - 1) + q * 65535;
      ShiftResidue(r - 1, q);
    }
  }

  // ---------------------------------------------------------------- the loops

  /** The summing loop of ipv4_checksum, in 32 bits. */
  method SumWords(data: seq<Byte>) returns (sum: nat)
    ensures sum < 0x1_0000_0000
    ensures SumLE(data) < 0x1_0000_0000 ==> sum == SumLE(data)
  {
    ghost var exact := SumLE(data) < 0x1_0000_0000;
    var i := 0;
    sum := 0;
    while |data| - i > 1
      invariant i <= |data| && sum < 0x1_0000_0000
      invariant exact ==> sum + SumLE(data[i..]) == SumLE(data)
    {
      assert data[i..][2..] == data[i + 2..];
      sum := (sum + WordLE(data, i)) % 0x1_0000_0000;
      i := i + 2;
    }
    if i < |data| {
      sum := (sum + data[i]) % 0x1_0000_0000;
    }
  }

  /** ipv4_checksum. */
  method Compute(data: seq<Byte>) returns (c: nat)
    ensures c <= 65535
    ensures SumLE(data) < 0x1_0000_0000 ==> c == ChecksumOf(data)
  {
    hide SumLE;
    var sum := SumWords(data);
    ghost var all := sum;
    while sum >= 65536
      invariant Fold(sum) == Fold(all)
      decreases sum
    {
      sum := sum % 65536 + sum / 65536;
    }
    c := 65535 - sum;
  }

  /** The 32-bit sum cannot overflow for up to 131074 bytes, more than any IPv4 packet holds. */
  lemma SumFits(b: seq<Byte>)
    requires |b| <= 131074
    ensures SumLE(b) < 0x1_0000_0000
  {
    SmallSum(b);
  }

  lemma {:induction false} SmallSum(b: seq<Byte>)
    ensures SumLE(b) <= (|b| + 1) / 2 * 65535
    decreases |b|
  {
    if |b| > 1 {
      SmallSum(b[2..]);
    }
  }

  // ---------------------------------------------------------------- storing a word

  /** The 16-bit word c stored at offset k, low byte first. */
  function StoreLE(b: seq<Byte>, k: nat, c: nat): (r: seq<Byte>)
    requires k + 1 < |b| && c < 65536
  {
    b[k := c % 256][k + 1 := c / 256]
  }

  function WordLE(b: seq<Byte>, k: nat): (w: nat)
    requires k + 1 < |b|
  {
    b[k] as nat + 256 * b[k + 1] as nat
  }

  /** Replacing an aligned word moves the sum by the difference. */
  lemma {:induction false} StoreMovesSum(b: seq<Byte>, k: nat, c: nat)
    requires k % 2 == 0 && k + 1 < |b| && c < 65536
    ensures SumLE(StoreLE(b, k, c)) + WordLE(b, k) == SumLE(b) + c
    decreases |b|
  {
    var r := StoreLE(b, k, c);
    if k == 0 {
      assert r[2..] == b[2..];
    } else {
      StoreMovesSum(b[2..], k - 2, c);
      assert r[2..] == StoreLE(b[2..], k - 2, c);
    }
  }

  /** Storing the checksum into its zeroed, even-aligned field makes the buffer verify. */
  lemma StoredChecksumVerifies(b: seq<Byte>, k: nat)
    requires k % 2 == 0 && k + 1 < |b| && WordLE(b, k) == 0
    ensures ChecksumOf(StoreLE(b, k, ChecksumOf(b))) == 0
  {
    hide Fold;
    var s, c := SumLE(b), ChecksumOf(b);
    FoldIsResidue(s);
    StoreMovesSum(b, k, c);
    VerifiesIff(StoreLE(b, k, c));
    if s > 0 {
      var q, r := (s - 1) / 65535, (s - 1) % 65535;
      assert s - 1 == q * 65535 + r;
      assert s + c == 65535 + q * 65535;
      ShiftResidue(65535, q);
    }
  }

  /**
   In a buffer that verifies, a change of one aligned word is noticed exactly when the two values differ
   modulo 65535: only 0x0000 for 0xFFFF, or the reverse, slips through, and not even that if nothing else is there.
   */
  lemma WordChangeNoticedIff(b: seq<Byte>, k: nat, c: nat)
    requires k % 2 == 0 && k + 1 < |b| && c < 65536 && ChecksumOf(b) == 0
    ensures ChecksumOf(StoreLE(b, k, c)) != 0 <==> c % 65535 != WordLE(b, k) % 65535 || SumLE(b) + c == WordLE(b, k)
  {
    hide Fold;
    hide ChecksumOf;
    VerifiesIff(b);
    VerifiesIff(StoreLE(b, k, c));
    StoreMovesSum(b, k, c);
    var s, w, n := SumLE(b), WordLE(b, k), SumLE(StoreLE(b, k, c));
    assert n + w == s + c;
    SameResidues(n, w, s, c);
  }

  /** A multiple of 65535 strictly between -65535 and 2 * 65535 is 0 or 65535. */
  lemma MultipleBelow(x: int, k: int)
    requires x == k * 65535 && -65535 < x < 2 * 65535
    ensures x == 0 || x == 65535
  {
  }

  lemma SameResidues(n: nat, w: nat, s: nat, c: nat)
    requires n + w == s + c && s % 65535 == 0
    ensures n % 65535 == 0 <==> c % 65535 == w % 65535
  {
    var ns, ws, ss, cs := n / 65535, w / 65535, s / 65535, c / 65535;
    var a, b, d := n % 65535, w % 65535, c % 65535;
    assert n == ns * 65535 + a && w == ws * 65535 + b && s == ss * 65535 && c == cs * 65535 + d;
    assert a + b - d == (ss + cs - ns - ws) * 65535;
    MultipleBelow(a + b - d, ss + cs - ns - ws);
  }

  // ---------------------------------------------------------------- byte order

  function Swap(c: nat): (r: nat)
    requires c < 65536
  {
    c % 256 * 256 + c / 256
  }

  lemma {:induction false} SumsAgree(b: seq<Byte>)
    ensures 256 * SumLE(b) == SumBE(b) + 65535 * OddBytes(b)
    ensures SumLE(b) == 0 <==> SumBE(b) == 0
    decreases |b|
  {
    if |b| > 1 {
      SumsAgree(b[2..]);
    }
  }

  lemma SwapIsTimes256(f: nat)
    requires 1 <= f <= 65535
    ensures 1 <= Swap(f) <= 65535 && 256 * f == Swap(f) + f / 256 * 65535
  {
  }

  /** Folding the little-endian sum gives the byte-swapped fold of the big-endian one. */
  lemma FoldsSwap(b: seq<Byte>)
    ensures Fold(SumLE(b)) < 65536 && Fold(SumBE(b)) == Swap(Fold(SumLE(b)))
  {
    hide Fold;
    var l, g := SumLE(b), SumBE(b);
    FoldIsResidue(l);
    FoldIsResidue(g);
    SumsAgree(b);
    if l > 0 {
      var f := Fold(l);
      SwapIsTimes256(f);
      var q := (l - 1) / 65535;
      assert l == q * 65535 + f;
      SwappedResidue(g, OddBytes(b), q, f);
    }
  }

  lemma SwappedResidue(g: nat, o: nat, q: nat, f: nat)
    requires g > 0 && 1 <= f <= 65535 && 256 * (q * 65535 + f) == g + 65535 * o
    ensures (g - 1) % 65535 + 1 == Swap(f)
  {
    SwapIsTimes256(f);
    var h := Swap(f);
    var k := 256 * q + f / 256 - o;
    assert g == h + k * 65535;
    assert k >= 0;
    ShiftResidue(h - 1, k);
  }

  /** A word from its two bytes, and its complement. */
  lemma ComplementBytes(hi: nat, lo: nat)
    requires hi < 256 && lo < 256
    ensures var c := 65535 - (256 * hi + lo); c / 256 == 255 - hi && c % 256 == 255 - lo
  {
    assert 65535 - (256 * hi + lo) == 256 * (255 - hi) + (255 - lo);
  }

  /** Complementing a word and swapping its bytes commute. */
  lemma ComplementOfSwap(f: nat)
    requires f <= 65535
    ensures var c, n := 65535 - f, 65535 - Swap(f); c % 256 == n / 256 && c / 256 == n % 256
  {
    ComplementBytes(f / 256, f % 256);
    ComplementBytes(f % 256, f / 256);
  }

  /** So little-endian loads and a little-endian store put the very bytes the big-endian definition asks for. */
  lemma ByteOrderDoesNotMatter(b: seq<Byte>)
    ensures Fold(SumBE(b)) <= 65535
    ensures ChecksumOf(b) % 256 == (65535 - Fold(SumBE(b))) / 256
    ensures ChecksumOf(b) / 256 == (65535 - Fold(SumBE(b))) % 256
  {
    hide Fold;
    hide Swap;
    hide SumLE;
    hide SumBE;
    FoldsSwap(b);
    FoldIsResidue(SumBE(b));
    ComplementOfSwap(Fold(SumLE(b)));
  }

  // ---------------------------------------------------------------- ICMP echo

  const ECHO_REQUEST: Byte := 8
  const ECHO_REPLY: Byte := 0

  /** icmp_rx accepts a message when it is long enough and verifies. */
  predicate IcmpAccepts(msg: seq<Byte>) {
    |msg| >= 8 && ChecksumOf(msg) == 0
  }

  /** An echo reply to `msg`: it passes the receiver's own check and differs only in type and checksum. */
  predicate AnswersEcho(msg: seq<Byte>, reply: seq<Byte>) {
    && IcmpAccepts(reply) && |reply| == |msg| && reply[0] == 0
    && forall i :: 0 < i < |msg| && i != 2 && i != 3 ==> reply[i] == msg[i]
  }

  /** icmp_rx: the echo reply it sends, if any, for messages whose 32-bit sum cannot overflow. */
  method IcmpReply(msg: seq<Byte>) returns (reply: Option<seq<Byte>>)
    ensures |msg| <= 131074 ==> (reply.Some? <==> |msg| >= 8 && ChecksumOf(msg) == 0 && msg[0] == 8)
    ensures |msg| <= 131074 && reply.Some? ==> AnswersEcho(msg, reply.value)
  {
    hide SumLE;
    hide ChecksumOf;
    if |msg| < 8 {
      return None;
    }
    if |msg| <= 131074 {
      SumFits(msg);
    }
    var c := Compute(msg);
    if c != 0 {
      return None;
    }
    if msg[0] != ECHO_REQUEST {
      return None;
    }
    var r := msg[0 := ECHO_REPLY][2 := 0][3 := 0];
    if |msg| <= 131074 {
      SumFits(r);
    }
    c := Compute(r);
    StoredChecksumVerifies(r, 2);
    reply := Some(StoreLE(r, 2, c));
  }

  // ---------------------------------------------------------------- the IPv4 header

  function Read16(b: seq<Byte>, k: nat): (v: nat)
    requires k + 1 < |b|
  {
    256 * b[k] as nat + b[k + 1]
  }

  function Read32(b: seq<Byte>, k: nat): (v: nat)
    requires k + 3 < |b|
  {
    0x1_0000 * Read16(b, k) + Read16(b, k + 2)
  }

  function BE16(v: nat): (b: seq<Byte>)
    requires v < 0x1_0000
    ensures |b| == 2 && Read16(b, 0) == v
  {
    [v / 256, v % 256]
  }

  function BE32(v: nat): (b: seq<Byte>)
    requires v < 0x1_0000_0000
    ensures |b| == 4 && Read32(b, 0) == v
  {
    BE16(v / 0x1_0000) + BE16(v % 0x1_0000)
  }

  /** The header ipv4_send fills in, with the checksum still zero. */
  function Header(total: nat, id: nat, proto: Byte, src: nat, dst: nat): (h: seq<Byte>)
    requires total < 0x1_0000 && id < 0x1_0000 && src < 0x1_0000_0000 && dst < 0x1_0000_0000
    ensures |h| == 20 && h[0] == 0x45 && h[1] == 0 && h[8] == 64 && h[9] == proto && WordLE(h, 10) == 0
    ensures Read16(h, 2) == total && Read16(h, 4) == id && Read16(h, 6) == 0
    ensures Read32(h, 12) == src && Read32(h, 16) == dst
  {
    var t, n, s, d := BE16(total), BE16(id), BE32(src), BE32(dst);
    [0x45, 0, t[0], t[1], n[0], n[1], 0, 0, 64, proto, 0, 0, s[0], s[1], s[2], s[3], d[0], d[1], d[2], d[3]]
  }

  function HeaderLength(pkt: seq<Byte>): (ihl: nat)
    requires |pkt| > 0
  {
    pkt[0] % 16 * 4
  }

  /** ipv4_rx takes a packet for `me`. Its length test looks only at the low byte of the length. */
  predicate RxAccepts(me: nat, pkt: seq<Byte>) {
    && |pkt| >= 20
    && 20 <= HeaderLength(pkt) <= |pkt| % 256
    && ChecksumOf(pkt[..HeaderLength(pkt)]) == 0
    && Read32(pkt, 16) == me
  }

  /** The payload length ipv4_rx hands on, as a 64-bit difference. */
  function PayloadLength(pkt: seq<Byte>): (n: nat)
    requires |pkt| >= 20
  {
    (Read16(pkt, 2) - HeaderLength(pkt)) % TWO64
  }

  /** What a packet from ipv4_send is. */
  predicate Carries(pkt: seq<Byte>, src: nat, dst: nat, id: nat, proto: Byte, payload: seq<Byte>) {
    && |pkt| == 20 + |payload| && pkt[20..] == payload
    && pkt[0] == 0x45 && pkt[1] == 0 && Read16(pkt, 6) == 0 && pkt[8] == 64 && pkt[9] == proto
    && ChecksumOf(pkt[..20]) == 0
    && Read16(pkt, 2) == (20 + |payload|) % 0x1_0000 && Read16(pkt, 4) == id
    && Read32(pkt, 12) == src && Read32(pkt, 16) == dst
  }

  /** ipv4_send up to the point where the packet is handed to the link layer. */
  method BuildPacket(src: nat, dst: nat, id: nat, proto: Byte, payload: seq<Byte>) returns (pkt: seq<Byte>)
    requires src < 0x1_0000_0000 && dst < 0x1_0000_0000 && id < 0x1_0000
    ensures Carries(pkt, src, dst, id, proto, payload)
  {
    hide SumLE;
    hide ChecksumOf;
    hide Header;
    var h := Header((20 + |payload|) % 0x1_0000, id, proto, src, dst);
    SumFits(h);
    var c := Compute(h);
    StoredChecksumVerifies(h, 10);
    var g := StoreLE(h, 10, c);
    pkt := g + payload;
    assert pkt[..20] == g && pkt[20..] == payload;
  }

  /**
   The receiver takes such a packet exactly when its length modulo 256 is at least 20, and then it learns the
   payload's length exactly when the whole packet fits in 16 bits.
   */
  lemma SentIsReceivedIff(pkt: seq<Byte>, src: nat, dst: nat, id: nat, proto: Byte, payload: seq<Byte>)
    requires Carries(pkt, src, dst, id, proto, payload) && |payload| + 20 < TWO64
    ensures RxAccepts(dst, pkt) <==> (20 + |payload|) % 256 >= 20
    ensures PayloadLength(pkt) == |payload| <==> 20 + |payload| < 0x1_0000
  {
    hide ChecksumOf;
    var total := 20 + |payload|;
    assert HeaderLength(pkt) == 20;
    if total % 0x1_0000 >= 20 {
      assert PayloadLength(pkt) == total % 0x1_0000 - 20;
    } else {
      assert PayloadLength(pkt) == TWO64 + total % 0x1_0000 - 20;
    }
  }

  /** A packet of 256 bytes, sent and dropped. */
  method PacketOf256IsDropped(src: nat, dst: nat, id: nat, proto: Byte) returns (pkt: seq<Byte>)
    requires src < 0x1_0000_0000 && dst < 0x1_0000_0000 && id < 0x1_0000
    ensures |pkt| == 256 && Carries(pkt, src, dst, id, proto, Zeros(236)) && !RxAccepts(dst, pkt)
  {
    hide ChecksumOf;
    pkt := BuildPacket(src, dst, id, proto, Zeros(236));
    SentIsReceivedIff(pkt, src, dst, id, proto, Zeros(236));
  }
}
