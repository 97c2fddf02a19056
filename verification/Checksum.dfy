/** The Internet checksum of net/net.c and the packets it protects (RFC 1071, RFC 791). */
module Checksum {
  import opened Bytes

  const HEADER_SIZE: nat := 20
  const ETH_MTU: nat := 1500
  const ICMP_ECHO_REPLY: byte := 0
  const ICMP_ECHO_REQUEST: byte := 8

  /** The longest buffer whose word sum cannot leave 32 bits: 65537 words of 65535. */
  const SAFE_LENGTH: nat := 131074

  /** Sum of the big-endian 16-bit words; an odd last byte is the high half of a word. */
  function WordSum(b: seq<byte>): (sum: nat)
  {
    if |b| == 0 then 0
    else if |b| == 1 then 256 * b[0] as int
    else 256 * b[0] as int + b[1] as int + WordSum(b[2..])
  }

  /** Ones' complement value of a sum: the representative in 1..65535 of its class, 0 only for 0. */
  function OnesFold(sum: nat): (f: nat)
    ensures f <= 0xFFFF
    ensures f % 0xFFFF == sum % 0xFFFF
    ensures f == 0 <==> sum == 0
  {
    if sum == 0 then 0 else (sum - 1) % 0xFFFF + 1
  }

  /** The checksum RFC 1071 defines, on unbounded integers. */
  function InternetChecksum(b: seq<byte>): (c: nat)
    ensures c <= 0xFFFF
  {
    0xFFFF - OnesFold(WordSum(b))
  }

  function WordAt(b: seq<byte>, at: nat): (w: nat)
    requires at + 2 <= |b|
    ensures w <= 0xFFFF
  {
    256 * b[at] as int + b[at + 1] as int
  }

  function Htons(v: nat): (r: nat)
    requires v < TWO16
    ensures r < TWO16
    ensures Put16(r) == [v / 256, v % 256]
  {
    v % 256 * 256 + v / 256
  }

  function Htonl(v: nat): (r: nat)
    requires v < TWO32
    ensures r < TWO32
    ensures Put32(r) == [v / 256 / 256 / 256, v / 256 / 256 % 256, v / 256 % 256, v % 256]
  {
    var network: seq<byte> := [v / 256 / 256 / 256, v / 256 / 256 % 256, v / 256 % 256, v % 256];
    Put32OfLe32(network);
    Le32(network, 0)
  }

  /** The 16-bit field at `at` stored from a host value already passed through `Htons`. */
  function StoreWord(b: seq<byte>, at: nat, host: nat): (r: seq<byte>)
    requires at + 2 <= |b| && host < TWO16
    ensures |r| == |b| && WordAt(r, at) == host
  {
    Splice(b, at, Put16(Htons(host)))
  }

  lemma {:induction false} WordSumBound(b: seq<byte>)
    ensures WordSum(b) <= 0xFFFF * ((|b| + 1) / 2)
  {
    if |b| >= 2 {
      WordSumBound(b[2..]);
    }
  }

  /** What each byte weighs in the sum: 256 at an even place, the last one of an odd buffer included, else 1. */
  lemma {:induction false} ByteWeight(b: seq<byte>, i: nat, v: byte)
    requires i < |b|
    ensures WordSum(b[i := v]) - WordSum(b) == (v - b[i]) * if i % 2 == 0 then 256 else 1
  {
    if i >= 2 {
      assert b[i := v][2..] == b[2..][i - 2 := v];
      ByteWeight(b[2..], i - 2, v);
    } else {
      assert |b| >= 2 ==> b[i := v][2..] == b[2..];
    }
  }

  lemma {:induction false} ZerosWeighNothing(b: seq<byte>)
    requires forall i :: 0 <= i < |b| ==> b[i] == 0
    ensures WordSum(b) == 0
  {
    if |b| >= 2 {
      ZerosWeighNothing(b[2..]);
    }
  }

  /** An odd buffer sums as if a zero byte followed it, as section 4.1 of RFC 1071 pads it. */
  lemma {:induction false} OddPadding(b: seq<byte>)
    requires |b| % 2 == 1
    ensures WordSum(b + [0]) == WordSum(b)
  {
    if |b| > 1 {
      assert (b + [0])[2..] == b[2..] + [0];
      OddPadding(b[2..]);
    }
  }

  /** Replacing one aligned word moves the sum by the difference of the two words. */
  lemma {:induction false} WordSumUpdate(b: seq<byte>, b': seq<byte>, at: nat)
    requires at % 2 == 0 && at + 2 <= |b| == |b'|
    requires b[..at] == b'[..at] && b[at + 2..] == b'[at + 2..]
    ensures WordSum(b') + WordAt(b, at) == WordSum(b) + WordAt(b', at)
  {
    if at == 0 {
    } else {
      assert b[..at][0] == b'[..at][0] && b[..at][1] == b'[..at][1];
      assert b[2..][..at - 2] == b[..at][2..] && b'[2..][..at - 2] == b'[..at][2..];
      assert b[2..][at - 2 + 2..] == b[at + 2..] && b'[2..][at - 2 + 2..] == b'[at + 2..];
      WordSumUpdate(b[2..], b'[2..], at - 2);
    }
  }

  lemma {:induction false} WordSumAtLeast(b: seq<byte>, at: nat)
    requires at % 2 == 0 && at + 2 <= |b|
    ensures WordAt(b, at) <= WordSum(b)
  {
    if at > 0 {
      WordSumAtLeast(b[2..], at - 2);
    }
  }

  lemma FoldsToZero(sum: nat, c: nat)
    requires c == 0xFFFF - OnesFold(sum)
    ensures OnesFold(sum + c) == 0xFFFF
  {
    assert (sum + 0xFFFF - OnesFold(sum)) % 0xFFFF == 0;
  }

  /**
   * Storing the checksum of a buffer whose checksum field is zero makes the buffer check to 0:
   * the receiver's test of RFC 1071, for every even or odd length.
   */
  lemma StoredChecksumVerifies(b: seq<byte>, at: nat)
    requires at % 2 == 0 && at + 2 <= |b|
    requires WordAt(b, at) == 0
    ensures InternetChecksum(StoreWord(b, at, InternetChecksum(b))) == 0
  {
    var c := InternetChecksum(b);
    WordSumUpdate(b, StoreWord(b, at, c), at);
    FoldsToZero(WordSum(b), c);
  }

  lemma ShiftedFold(sum: nat, old_: nat, new_: nat)
    requires old_ <= sum && old_ <= 0xFFFF && new_ <= 0xFFFF
    requires OnesFold(sum) == 0xFFFF
    ensures OnesFold(sum + new_ - old_) == 0xFFFF <==>
            || new_ == old_
            || (new_ == 0xFFFF && old_ == 0)
            || (new_ == 0 && old_ == 0xFFFF && sum > 0xFFFF)
  {
    var k := sum / 0xFFFF;
    assert sum == k * 0xFFFF && k > 0;
    var d := new_ - old_;
    if 0 < d < 0xFFFF {
      assert (sum + d) % 0xFFFF == d;
    } else if -0xFFFF < d < 0 {
      assert (sum + d) % 0xFFFF == d + 0xFFFF;
    }
  }

  /**
   * What a receiver can and cannot see: a change of one word of a buffer that checks to 0 goes
   * unnoticed exactly when it swaps the two ones' complement zeros.
   */
  lemma SingleWordErrorDetection(b: seq<byte>, at: nat, w: nat)
    requires at % 2 == 0 && at + 2 <= |b| && w < TWO16
    requires InternetChecksum(b) == 0
    ensures InternetChecksum(StoreWord(b, at, w)) == 0 <==>
            || w == WordAt(b, at)
            || (w == 0xFFFF && WordAt(b, at) == 0)
            || (w == 0 && WordAt(b, at) == 0xFFFF && WordSum(b) > 0xFFFF)
  {
    hide OnesFold;
    var b' := StoreWord(b, at, w);
    WordSumUpdate(b, b', at);
    WordSumAtLeast(b, at);
    ShiftedFold(WordSum(b), WordAt(b, at), w);
  }

  lemma WrapAdd(a: nat, b: nat)
    ensures (a % TWO32 + b) % TWO32 == (a + b) % TWO32
  {
  }

  /** The accumulation loop of `checksum16`, with the wrap of its 32-bit accumulator made explicit. */
  method SumWords(data: seq<byte>) returns (sum: nat)
    ensures sum == WordSum(data) % TWO32
  {
    var i := 0;
    sum := 0;
    while |data| - i > 1
      invariant 0 <= i <= |data| && 0 <= sum < TWO32
      invariant (sum + WordSum(data[i..])) % TWO32 == WordSum(data) % TWO32
    {
      var word := WordAt(data, i);
      assert data[i..][2..] == data[i + 2..];
      WrapAdd(sum + word, WordSum(data[i + 2..]));
      sum := (sum + word) % TWO32;
      i := i + 2;
    }
    if |data| - i == 1 {
      sum := (sum + 256 * data[i] as int) % TWO32;
    }
  }

  /** The folding loop of `checksum16`. */
  method FoldSum(sum: nat) returns (folded: nat)
    ensures folded == OnesFold(sum)
  {
    folded := sum;
    while folded / TWO16 != 0
      invariant 0 <= folded && OnesFold(folded) == OnesFold(sum)
      decreases folded
    {
      FoldStep(folded);
      folded := folded % TWO16 + folded / TWO16;
    }
  }

  /** `checksum16`: exact on every length whose word sum fits the 32-bit accumulator. */
  method Checksum16(data: seq<byte>) returns (c: nat)
    ensures c == 0xFFFF - OnesFold(WordSum(data) % TWO32)
    ensures |data| <= SAFE_LENGTH ==> c == InternetChecksum(data)
  {
    hide OnesFold;
    var sum := SumWords(data);
    var folded := FoldSum(sum);
    c := 0xFFFF - folded;
    WordSumBound(data);
  }

  lemma FoldStep(sum: nat)
    requires sum >= TWO16
    ensures sum % TWO16 + sum / TWO16 < sum
    ensures OnesFold(sum % TWO16 + sum / TWO16) == OnesFold(sum)
  {
    var hi, lo := sum / TWO16, sum % TWO16;
    assert sum == hi * 0xFFFF + (hi + lo);
    assert (hi + lo) % 0xFFFF == sum % 0xFFFF;
  }

  /** The 20-byte header `send_ipv4` writes, with `checksum` in its checksum field. */
  function Ipv4Header(length: nat, protocol: byte, src: nat, dst: nat, checksum: nat): (h: seq<byte>)
    requires length < TWO16 && src < TWO32 && dst < TWO32 && checksum < TWO16
    ensures |h| == HEADER_SIZE && h[0] == 0x45 && h[1] == 0 && h[8] == 64 && h[9] == protocol
    ensures WordAt(h, 4) == 0 && WordAt(h, 6) == 0x4000
    ensures WordAt(h, 2) == length && WordAt(h, 10) == checksum
    ensures h[12..16] == Put32(Htonl(src)) && h[16..20] == Put32(Htonl(dst))
  {
    [0x45, 0] + Put16(Htons(length)) + Put16(Htons(0)) + Put16(Htons(0x4000)) + [64, protocol]
    + Put16(Htons(checksum)) + Put32(Htonl(src)) + Put32(Htonl(dst))
  }

  /** The 32-bit network-order field at `at`. */
  function Be32(b: seq<byte>, at: nat): (v: nat)
    requires at + 4 <= |b|
  {
    WordAt(b, at) * TWO16 + WordAt(b, at + 2)
  }

  lemma Be32OfHtonl(b: seq<byte>, at: nat, v: nat)
    requires v < TWO32 && at + 4 <= |b| && b[at..at + 4] == Put32(Htonl(v))
    ensures Be32(b, at) == v
  {
    hide Le32;
    var n := Put32(Htonl(v));
    assert b[at] == n[0] && b[at + 1] == n[1] && b[at + 2] == n[2] && b[at + 3] == n[3];
  }

  datatype Option<+T> = None | Some(value: T)

  /**
   * The packet `send_ipv4` hands to the link layer: refused when it would exceed the MTU, otherwise
   * a header that checks to 0 in front of the unchanged payload.
   */
  method BuildIpv4(localIp: nat, dstIp: nat, protocol: byte, payload: seq<byte>) returns (packet: Option<seq<byte>>)
    requires localIp < TWO32 && dstIp < TWO32
    ensures packet.None? <==> HEADER_SIZE + |payload| > ETH_MTU
    ensures packet.Some? ==>
              var p := packet.value;
              && |p| == HEADER_SIZE + |payload|
              && p[HEADER_SIZE..] == payload
              && InternetChecksum(p[..HEADER_SIZE]) == 0
              && p[0] == 0x45 && p[1] == 0 && WordAt(p, 2) == |p|
              && WordAt(p, 4) == 0 && WordAt(p, 6) == 0x4000 && p[8] == 64
              && p[9] == protocol
              && Be32(p, 12) == localIp
              && Be32(p, 16) == dstIp
  {
    hide OnesFold, WordSum, Ipv4Header, Be32, Htonl, Le32, Put32;
    if HEADER_SIZE + |payload| > ETH_MTU {
      return None;
    }
    var blank := Ipv4Header(HEADER_SIZE + |payload|, protocol, localIp, dstIp, 0);
    var c := Checksum16(blank);
    var header := StoreWord(blank, 10, c);
    StoredChecksumVerifies(blank, 10);
    var p := header + payload;
    assert p[..HEADER_SIZE] == header && p[HEADER_SIZE..] == payload;
    assert p[12..16] == blank[12..16] && p[16..20] == blank[16..20];
    Be32OfHtonl(p, 12, localIp);
    Be32OfHtonl(p, 16, dstIp);
    return Some(p);
  }

  /** The ICMP message `handle_icmp` answers an echo request with; other messages get no answer. */
  method EchoReply(request: seq<byte>) returns (reply: Option<seq<byte>>)
    ensures reply.Some? <==> 8 <= |request| <= ETH_MTU && request[0] == ICMP_ECHO_REQUEST
    ensures reply.Some? ==>
              var r := reply.value;
              && |r| == |request|
              && r[0] == ICMP_ECHO_REPLY
              && r[1] == request[1]
              && r[4..] == request[4..]
              && InternetChecksum(r) == 0
  {
    hide OnesFold, WordSum;
    if |request| < 8 || request[0] != ICMP_ECHO_REQUEST || |request| > ETH_MTU {
      return None;
    }
    var blank := StoreWord(request[0 := ICMP_ECHO_REPLY], 2, 0);
    var c := Checksum16(blank);
    StoredChecksumVerifies(blank, 2);
    return Some(StoreWord(blank, 2, c));
  }

  /** The 64-byte echo request `net_ping` sends. */
  method PingPacket(sequence: nat) returns (packet: array<byte>)
    requires sequence < TWO16
    ensures fresh(packet) && packet.Length == 64
    ensures packet[0] == ICMP_ECHO_REQUEST && packet[1] == 0
    ensures WordAt(packet[..], 4) == 0x4756 && WordAt(packet[..], 6) == sequence
    ensures forall i :: 8 <= i < 64 ==> packet[i] == 97 + i % 26
    ensures InternetChecksum(packet[..]) == 0
  {
    hide OnesFold, WordSum;
    packet := new byte[64](_ => 0);
    packet[0] := ICMP_ECHO_REQUEST;
    packet[4], packet[5] := 0x47, 0x56;
    packet[6], packet[7] := sequence / 256, sequence % 256;
    for i := 8 to 64
      invariant packet[0] == ICMP_ECHO_REQUEST && packet[1] == packet[2] == packet[3] == 0
      invariant packet[4] == 0x47 && packet[5] == 0x56
      invariant packet[6] == sequence / 256 && packet[7] == sequence % 256
      invariant forall j :: 8 <= j < i ==> packet[j] == 97 + j % 26
    {
      packet[i] := 97 + i % 26;
    }
    ghost var blank := packet[..];
    var c := Checksum16(packet[..]);
    StoredChecksumVerifies(blank, 2);
    packet[2], packet[3] := c / 256, c % 256;
    assert packet[..] == StoreWord(blank, 2, c);
  }
}
