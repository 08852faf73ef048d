/** The Internet checksum (section 2 of RFC 1071) in the repository's two forms: 64-bit additions
    with carry (inc/asm/chksum.h) and deferred 16-bit sums (inc/net/chksum.h). */
module Checksum {
  import opened Bits
  import opened Memory

  const M := 0xffff

  // ----- the one's complement sum ----------------------------------------------------------

  /** The sum of the 16-bit words of a buffer as the machine loads them; an odd last byte counts
      as a word of its own. */
  function WordSum(b: seq<byte>): nat
  {
    if |b| == 0 then 0
    else if |b| == 1 then b[0]
    else b[0] + 0x100 * b[1] + WordSum(b[2..])
  }

  /** The one's complement sum with the value 0 only for 0: all carries folded back in. */
  function Ones(s: nat): (r: u16) { if s == 0 then 0 else (s - 1) % M + 1 }

  /** Equal one's complement sums. */
  predicate Same(x: int, y: int) { x >= 0 && y >= 0 && (x - y) % M == 0 && (x == 0 <==> y == 0) }

  lemma SameOnes(x: nat, y: nat)
    ensures Same(x, y) <==> Ones(x) == Ones(y)
  {
    if x > 0 && y > 0 {
      SameRemainder(x - 1, y - 1);
    }
  }

  lemma SameRemainder(x: nat, y: nat)
    ensures (x - y) % M == 0 <==> x % M == y % M
  {
    var a, b := x / M, y / M;
    if x % M == y % M {
      DivModUnique(x - y, M, a - b, 0);
    }
    if (x - y) % M == 0 {
      DivModUnique(x, M, b + (x - y) / M, y % M);
    }
  }

  lemma SameAdd(x: nat, y: nat, d: nat, e: nat)
    requires Same(x, y) && Same(d, e)
    ensures Same(x + d, y + e)
  {
  }

  lemma SameTransitive(x: nat, y: nat, z: nat)
    requires Same(x, y) && Same(y, z)
    ensures Same(x, z)
  {
  }

  /** A number of at most 16 bits that is the same as `s` is its one's complement sum. */
  lemma OnesUnique(r: nat, s: nat)
    requires Same(r, s) && r <= M
    ensures r == Ones(s)
  {
    SameOnes(r, s);
  }

  // ----- loads ---------------------------------------------------------------

  lemma {:induction false} WordSumSplit(b: seq<byte>, c: seq<byte>)
    requires |b| % 2 == 0
    ensures WordSum(b + c) == WordSum(b) + WordSum(c)
    decreases |b|
  {
    if b == [] {
      assert b + c == c;
    } else {
      assert (b + c)[2..] == b[2..] + c;
      WordSumSplit(b[2..], c);
    }
  }

  lemma Word2(b: seq<byte>)
    requires |b| == 2
    ensures WordSum(b) == Le16(b)
  {
    assert b[2..] == [];
  }

  /** A wide load has the same one's complement sum as its 16-bit words. */
  lemma Wide4(b: seq<byte>)
    requires |b| == 4
    ensures Same(Le32(b), WordSum(b))
  {
    assert b == b[..2] + b[2..];
    WordSumSplit(b[..2], b[2..]);
    Word2(b[..2]);
    Word2(b[2..]);
    var hi: nat := Le16(b[2..]);
    assert 0x1_0000 * hi - hi == M * hi;
  }

  lemma Wide8(b: seq<byte>)
    requires |b| == 8
    ensures Same(Le64(b), WordSum(b))
  {
    hide Same, Le32, WordSum;
    assert b == b[..4] + b[4..];
    WordSumSplit(b[..4], b[4..]);
    Wide4(b[..4]);
    Wide4(b[4..]);
    Shifted32(Le32(b[4..]));
    SameTransitive(0x1_0000_0000 * Le32(b[4..]), Le32(b[4..]), WordSum(b[4..]));
    SameAdd(Le32(b[..4]), WordSum(b[..4]), 0x1_0000_0000 * Le32(b[4..]), WordSum(b[4..]));
  }

  lemma Shifted32(x: nat)
    ensures Same(0x1_0000_0000 * x, x)
  {
    assert 0x1_0000_0000 * x - x == M * (0x1_0001 * x);
  }

  // ----- chksum_internet -------------------------------------------------------------------

  /** adc: sum plus word plus carry, in 64 bits. */
  function Adc(sum: u64, word: u64, carry: nat): (r: (u64, nat))
    requires carry <= 1
    ensures r.1 <= 1
  {
    var t := sum + word + carry;
    if t >= W64 then (t - W64, 1) else (t, 0)
  }

  /** No end-around carry is ever lost: the accumulator is never all ones with the carry set, and
      accumulator plus carry keeps the one's complement sum. */
  lemma AdcKeeps(sum: u64, word: u64, carry: nat, total: nat)
    requires carry <= 1 && !(sum == W64 - 1 && carry == 1) && Same(sum + carry, total)
    ensures var (s, c) := Adc(sum, word, carry);
      !(s == W64 - 1 && c == 1) && Same(s + c, total + word)
  {
    var t := sum + word + carry;
    SameAdd(sum + carry, total, word, word);
    assert W64 - 1 == M * 0x1_0001_0001_0001;
  }

  /** Folding a carry into a sum that has room. */
  lemma FoldCarry(sum: u64, carry: nat)
    requires carry <= 1 && !(sum == W64 - 1 && carry == 1)
    ensures sum + carry < W64
  {
  }

  /** addq then adcq $0. */
  function AddWithCarry(sum: u64, word: u64): (s: u64)
  {
    var (t, c) := Adc(sum, word, 0);
    (t + c) % W64
  }

  lemma AddWithCarryKeeps(sum: u64, word: u64, total: nat)
    requires Same(sum, total)
    ensures Same(AddWithCarry(sum, word), total + word)
  {
    AdcKeeps(sum, word, 0, total);
  }

  /** The final folding: 64 to 32 to 16 bits, carries added back, complement. */
  function Finish(sum: u64): (r: u16) {
    var a := sum / W32 + sum % W32;                        // shrq $32; addl
    var b := if a >= W32 then a - W32 + 1 else a;          // adcl $0
    var c := b / W16 + b % W16;                            // shrl $16; addw
    var d := if c >= W16 then c - W16 + 1 else c;          // adcw $0
    M - d                                                  // not
  }

  lemma FinishExact(sum: u64)
    ensures Finish(sum) == M - Ones(sum)
  {
    hide Same, Ones;
    var a := sum / W32 + sum % W32;
    var b := if a >= W32 then a - W32 + 1 else a;
    var c := b / W16 + b % W16;
    var d := if c >= W16 then c - W16 + 1 else c;
    Fold64(sum);
    Carry32(a);
    Fold32(b);
    Carry16(c);
    SameTransitive(b, a, sum);
    SameTransitive(c, b, sum);
    SameTransitive(d, c, sum);
    OnesUnique(d, sum);
  }

  lemma Fold64(x: u64)
    ensures Same(x / W32 + x % W32, x)
  {
    assert x - (x / W32 + x % W32) == M * (0x1_0001 * (x / W32));
  }

  lemma Carry32(a: nat)
    ensures Same(if a >= W32 then a - W32 + 1 else a, a)
  {
    assert W32 - 1 == M * 0x1_0001;
  }

  lemma Fold32(x: u32)
    ensures Same(x / W16 + x % W16, x)
  {
    assert x - (x / W16 + x % W16) == M * (x / W16);
  }

  lemma Carry16(c: nat)
    ensures Same(if c >= W16 then c - W16 + 1 else c, c)
  {
  }

  /** chksum_internet: for every buffer the complement of the one's complement sum. */
  method ChksumInternet(buf: seq<byte>) returns (r: u16)
    ensures r == M - Ones(WordSum(buf))
  {
    hide Adc, Same, WordSum, Ones, Finish, AddWithCarry;
    var sum: u64, carry: nat, ptr: nat := 0, 0, 0;
    var edx: nat := |buf| / 8;
    ghost var total: nat := 0;
    SumStart(buf);
    if edx != 0 {
      while edx != 0
        invariant ptr + 8 * edx + |buf| % 8 == |buf| && carry <= 1
        invariant !(sum == W64 - 1 && carry == 1) && Same(sum + carry, total)
        invariant total + WordSum(buf[ptr..]) == WordSum(buf)
      {
        Peel(buf, ptr, 8);
        var word := Le64(buf[ptr..ptr + 8]);
        Wide8(buf[ptr..ptr + 8]);
        AdcKeeps(sum, word, carry, total);
        var (s, c) := Adc(sum, word, carry);
        SwapWord(s + c, total, word, WordSum(buf[ptr..ptr + 8]));
        total := total + WordSum(buf[ptr..ptr + 8]);
        sum, carry := s, c;
        ptr := ptr + 8;
        edx := edx - 1;
      }
      FoldCarry(sum, carry);
      sum := sum + carry;
    }
    sum, ptr, total := TakeTail(buf, sum, ptr, total);
    FinishExact(sum);
    SameOnes(sum, total);
    r := Finish(sum);
  }

  /** The last 4, 2 and 1 bytes, if any. */
  method TakeTail(buf: seq<byte>, sum0: u64, ptr0: nat, ghost total0: nat) returns (sum: u64, ptr: nat, ghost total: nat)
    requires ptr0 + |buf| % 8 == |buf| && Adding(buf, sum0, ptr0, total0)
    ensures Same(sum, total) && total == WordSum(buf)
  {
    hide Same, WordSum, Adding;
    TailSize(|buf|);
    sum, ptr, total := sum0, ptr0, total0;
    if |buf| / 4 % 2 == 1 {
      sum, ptr, total := Take4(buf, sum, ptr, total);
    }
    if |buf| / 2 % 2 == 1 {
      sum, ptr, total := Take2(buf, sum, ptr, total);
    }
    if |buf| % 2 == 1 {
      sum, ptr, total := Take1(buf, sum, ptr, total);
    }
    AllAdded(buf, sum, ptr, total);
  }

  lemma TailSize(n: nat)
    ensures n % 8 == 4 * (n / 4 % 2) + 2 * (n / 2 % 2) + n % 2
  {
    var h := n / 2;
    DivModUnique(n, 4, h / 2, 2 * (h % 2) + n % 2);
    DivModUnique(n, 8, h / 2 / 2, 4 * (h / 2 % 2) + (2 * (h % 2) + n % 2));
  }

  lemma AllAdded(buf: seq<byte>, sum: u64, ptr: nat, total: nat)
    requires Adding(buf, sum, ptr, total) && ptr == |buf|
    ensures Same(sum, total) && total == WordSum(buf)
  {
    hide Same, WordSum;
    NothingLeft(buf, ptr);
  }

  /** `sum` stands for the `total` of the bytes before `ptr`. */
  ghost predicate Adding(buf: seq<byte>, sum: u64, ptr: nat, total: nat) {
    ptr <= |buf| && Same(sum, total) && total + WordSum(buf[ptr..]) == WordSum(buf)
  }

  method Take4(buf: seq<byte>, sum0: u64, ptr0: nat, ghost total0: nat) returns (sum: u64, ptr: nat, ghost total: nat)
    requires ptr0 + 4 <= |buf| && Adding(buf, sum0, ptr0, total0)
    ensures ptr == ptr0 + 4 && Adding(buf, sum, ptr, total)
  {
    hide Same, AddWithCarry, WordSum, Le32;
    Peel(buf, ptr0, 4);
    var word := Le32(buf[ptr0..ptr0 + 4]);
    Wide4(buf[ptr0..ptr0 + 4]);
    AddWithCarryKeeps(sum0, word, total0);
    sum := AddWithCarry(sum0, word);
    SwapWord(sum, total0, word, WordSum(buf[ptr0..ptr0 + 4]));
    total := total0 + WordSum(buf[ptr0..ptr0 + 4]);
    ptr := ptr0 + 4;
  }

  method Take2(buf: seq<byte>, sum0: u64, ptr0: nat, ghost total0: nat) returns (sum: u64, ptr: nat, ghost total: nat)
    requires ptr0 + 2 <= |buf| && Adding(buf, sum0, ptr0, total0)
    ensures ptr == ptr0 + 2 && Adding(buf, sum, ptr, total)
  {
    hide Same, AddWithCarry, WordSum, Le16;
    Peel(buf, ptr0, 2);
    var word := Le16(buf[ptr0..ptr0 + 2]);
    Word2(buf[ptr0..ptr0 + 2]);
    AddWithCarryKeeps(sum0, word, total0);
    sum := AddWithCarry(sum0, word);
    total := total0 + word;
    ptr := ptr0 + 2;
  }

  method Take1(buf: seq<byte>, sum0: u64, ptr0: nat, ghost total0: nat) returns (sum: u64, ptr: nat, ghost total: nat)
    requires ptr0 + 1 == |buf| && Adding(buf, sum0, ptr0, total0)
    ensures ptr == ptr0 + 1 && Adding(buf, sum, ptr, total)
  {
    hide Same, AddWithCarry, WordSum;
    LastByte(buf, ptr0);
    NothingLeft(buf, ptr0 + 1);
    AddWithCarryKeeps(sum0, buf[ptr0], total0);
    sum := AddWithCarry(sum0, buf[ptr0]);
    total := total0 + buf[ptr0];
    ptr := ptr0 + 1;
  }

  lemma SumStart(buf: seq<byte>)
    ensures Same(0, 0) && 0 + WordSum(buf[0..]) == WordSum(buf)
  {
    assert buf[0..] == buf;
  }

  lemma NothingLeft(buf: seq<byte>, p: nat)
    requires p == |buf|
    ensures WordSum(buf[p..]) == 0
  {
  }

  lemma LastByte(buf: seq<byte>, p: nat)
    requires p + 1 == |buf|
    ensures WordSum(buf[p..]) == buf[p]
  {
  }

  lemma Peel(buf: seq<byte>, p: nat, n: nat)
    requires p + n <= |buf| && n % 2 == 0
    ensures WordSum(buf[p..]) == WordSum(buf[p..p + n]) + WordSum(buf[p + n..])
  {
    assert buf[p..] == buf[p..p + n] + buf[p + n..];
    WordSumSplit(buf[p..p + n], buf[p + n..]);
  }

  lemma SwapWord(s: nat, total: nat, word: nat, words: nat)
    requires Same(s, total + word) && Same(word, words)
    ensures Same(s, total + words)
  {
    SameAdd(total, total, word, words);
    SameTransitive(s, total + word, total + words);
  }

  // ----- raw_cksum -------------------------------------------------------------------------

  /** __raw_cksum: 32-bit additions that wrap, four words at a time, then one, then an odd byte. */
  method RawSum(buf: seq<byte>, sum0: u32) returns (sum: u32)
    ensures sum == Wrap32(sum0 + WordSum(buf))
  {
    hide WordSum, Le16, Wrap32;
    var len: nat, p: nat := |buf|, 0;
    sum := sum0;
    RawStart(buf, sum0);
    while len >= 8
      invariant p + len == |buf|
      invariant Wrap32(sum + WordSum(buf[p..])) == Wrap32(sum0 + WordSum(buf))
    {
      sum, p := AddWord(buf, sum, p);
      sum, p := AddWord(buf, sum, p);
      sum, p := AddWord(buf, sum, p);
      sum, p := AddWord(buf, sum, p);
      len := len - 8;
    }
    while len >= 2
      invariant p + len == |buf|
      invariant Wrap32(sum + WordSum(buf[p..])) == Wrap32(sum0 + WordSum(buf))
    {
      sum, p := AddWord(buf, sum, p);
      len := len - 2;
    }
    if len == 1 {
      LastByte(buf, p);
      sum := Wrap32(sum + buf[p]);
    } else {
      NothingLeft(buf, p);
      WrapOnce(sum);
    }
  }

  lemma RawStart(buf: seq<byte>, sum0: u32)
    ensures Wrap32(sum0 + WordSum(buf[0..])) == Wrap32(sum0 + WordSum(buf))
  {
    assert buf[0..] == buf;
  }

  lemma WrapOnce(x: u32)
    ensures Wrap32(x + 0) == x
  {
  }

  /** sum += *u16++ */
  method AddWord(buf: seq<byte>, sum0: u32, p0: nat) returns (sum: u32, p: nat)
    requires p0 + 2 <= |buf|
    ensures p == p0 + 2 && Wrap32(sum + WordSum(buf[p..])) == Wrap32(sum0 + WordSum(buf[p0..]))
  {
    hide WordSum, Le16;
    Peel(buf, p0, 2);
    Word2(buf[p0..p0 + 2]);
    sum := Wrap32(sum0 + Le16(buf[p0..p0 + 2]));
    p := p0 + 2;
  }

  /** __raw_cksum_reduce: two folds. */
  function Reduce(sum: u32): (r: u16) {
    var a := sum / W16 + sum % W16;
    var b := a / W16 + a % W16;
    b % W16
  }

  /** Two folds are enough for every 32-bit sum. */
  lemma ReduceExact(sum: u32)
    ensures Reduce(sum) == Ones(sum)
  {
    var a := sum / W16 + sum % W16;
    var b := a / W16 + a % W16;
    assert sum - a == M * (sum / W16) && a - b == M * (a / W16);
    assert Same(a, sum) && Same(b, a);
    SameTransitive(b, a, sum);
    OnesUnique(b, sum);
  }

  /** What raw_cksum computes. */
  function Raw(buf: seq<byte>): u16 { Ones(Wrap32(WordSum(buf))) }

  method RawCksum(buf: seq<byte>) returns (r: u16)
    ensures r == Raw(buf)
  {
    hide WordSum, Ones, Reduce;
    var sum := RawSum(buf, 0);
    ReduceExact(sum);
    r := Reduce(sum);
  }

  // ----- the two forms agree up to 131074 bytes ----------------------------------------------

  const MAX_RAW := 131074

  lemma {:induction false} SumBound(b: seq<byte>)
    ensures WordSum(b) <= M * (|b| / 2) + 0xff * (|b| % 2)
    decreases |b|
  {
    if |b| >= 2 {
      SumBound(b[2..]);
      assert |b| / 2 == |b[2..]| / 2 + 1 && |b| % 2 == |b[2..]| % 2;
    }
  }

  /** The 32-bit sum does not overflow on a buffer of at most 131074 bytes. */
  lemma NoOverflow(b: seq<byte>)
    requires |b| <= MAX_RAW
    ensures WordSum(b) < W32
  {
    SumBound(b);
  }

  /** A buffer of all ones, and one byte behind it that makes the sum overflow to zero. */
  function Overflowing(n: nat): (b: seq<byte>)
    requires n > MAX_RAW
    ensures |b| == n
  {
    seq(MAX_RAW, _ => 0xff) + [1] + seq(n - MAX_RAW - 1, _ => 0)
  }

  lemma {:induction false} AllOnes(n: nat)
    ensures WordSum(seq(2 * n, _ => 0xff)) == M * n
  {
    var b: seq<byte> := seq(2 * n, _ => 0xff);
    if n > 0 {
      assert b[2..] == seq(2 * (n - 1), _ => 0xff);
      AllOnes(n - 1);
    }
  }

  lemma {:induction false} AllZero(b: seq<byte>)
    ensures WordSum(b) == 0 <==> forall i :: 0 <= i < |b| ==> b[i] == 0
    decreases |b|
  {
    if |b| >= 2 {
      AllZero(b[2..]);
      forall i | 2 <= i < |b| ensures b[i] == b[2..][i - 2] { }
    }
  }

  lemma OverflowingSum(n: nat)
    requires n > MAX_RAW
    ensures WordSum(Overflowing(n)) == W32
  {
    hide WordSum;
    var front: seq<byte>, zeros: seq<byte> := seq(MAX_RAW, _ => 0xff), seq(n - MAX_RAW - 1, _ => 0);
    assert Overflowing(n) == front + ([1] + zeros);
    WordSumSplit(front, [1] + zeros);
    AllOnes(MAX_RAW / 2);
    assert front == seq(2 * (MAX_RAW / 2), _ => 0xff);
    OneThenZeros(zeros);
  }

  lemma OneThenZeros(zeros: seq<byte>)
    requires forall i :: 0 <= i < |zeros| ==> zeros[i] == 0
    ensures WordSum([1] + zeros) == 1
  {
    if zeros != [] {
      assert ([1] + zeros)[2..] == zeros[1..];
      AllZero(zeros[1..]);
    }
  }

  /** The two checksums of buffers of `n` bytes are complements of each other for all contents if
      and only if n <= 131074. */
  lemma FormsAgree(n: nat)
    ensures (forall b: seq<byte> :: |b| == n ==> M - Ones(WordSum(b)) == M - Raw(b)) <==> n <= MAX_RAW
  {
    hide WordSum, Overflowing;
    if n <= MAX_RAW {
      forall b: seq<byte> | |b| == n ensures M - Ones(WordSum(b)) == M - Raw(b) {
        NoOverflow(b);
        WrapOnce(WordSum(b));
      }
    } else {
      var b := Overflowing(n);
      OverflowingSum(n);
      assert Raw(b) == 0 && Ones(WordSum(b)) == 1;
    }
  }

  /** Before the complement the result is 0 only for all-zero data. */
  lemma ZeroOnlyForZeros(b: seq<byte>)
    ensures Ones(WordSum(b)) == 0 <==> forall i :: 0 <= i < |b| ==> b[i] == 0
  {
    AllZero(b);
  }

  // ----- UDP and TCP checksums ---------------------------------------------------------------

  /** The pseudo-header of ipv4_phdr_cksum. */
  function PseudoHeader(proto: byte, saddr: u32, daddr: u32, l4len: u16): (b: seq<byte>)
    ensures |b| == 12
  {
    Be32(saddr) + Be32(daddr) + [0, proto] + Be16(l4len)
  }

  /** The fields at their places in RFC 768: source, destination, zero, protocol, length, in network order. */
  lemma PseudoHeaderFields(proto: byte, saddr: u32, daddr: u32, l4len: u16)
    ensures var b := PseudoHeader(proto, saddr, daddr, l4len);
      && UnBe32(b[0..4]) == saddr && UnBe32(b[4..8]) == daddr && b[8] == 0 && b[9] == proto && UnBe16(b[10..12]) == l4len
  {
    hide Be32, UnBe32, Be16, UnBe16;
    var b := PseudoHeader(proto, saddr, daddr, l4len);
    assert b[0..4] == Be32(saddr) && b[4..8] == Be32(daddr) && b[10..12] == Be16(l4len);
    Be32RoundTrip(saddr);
    Be32RoundTrip(daddr);
    Be16RoundTrip(l4len);
  }

  /** An IPv4 header without options that names protocol and addresses. */
  predicate IpHeader(ip: seq<byte>, proto: byte, saddr: u32, daddr: u32) {
    |ip| == 20 && ip[9] == proto && UnBe32(ip[12..16]) == saddr && UnBe32(ip[16..20]) == daddr
  }

  /** The pseudo-header as the receiver of a segment of `len` bytes takes it from the IPv4 header. */
  function ReceivedPseudo(ip: seq<byte>, len: u16): (b: seq<byte>)
    requires |ip| == 20
    ensures |b| == 12
  {
    ip[12..20] + [0, ip[9], len / 0x100, len % 0x100]
  }

  /** Sender and receiver sum the same pseudo-header. */
  lemma SamePseudo(ip: seq<byte>, proto: byte, saddr: u32, daddr: u32, len: u16)
    requires IpHeader(ip, proto, saddr, daddr)
    ensures ReceivedPseudo(ip, len) == PseudoHeader(proto, saddr, daddr, len)
  {
    hide UnBe32, UnBe16;
    var a, b := ReceivedPseudo(ip, len), PseudoHeader(proto, saddr, daddr, len);
    PseudoHeaderFields(proto, saddr, daddr, len);
    assert a[0..4] == ip[12..16] && a[4..8] == ip[16..20];
    SameBe32(a[0..4], b[0..4]);
    SameBe32(a[4..8], b[4..8]);
    assert UnBe16(a[10..12]) == len by { LengthBytes(a[10..12], len); }
    SameBe16(a[10..12], b[10..12]);
    assert a == a[0..4] + a[4..8] + [0, proto] + a[10..12];
    assert b == b[0..4] + b[4..8] + [0, proto] + b[10..12];
  }

  lemma LengthBytes(x: seq<byte>, len: u16)
    requires x == [len / 0x100, len % 0x100]
    ensures UnBe16(x) == len
  {
  }

  lemma SameBe16(x: seq<byte>, y: seq<byte>)
    requires |x| == |y| == 2 && UnBe16(x) == UnBe16(y)
    ensures x == y
  {
  }

  lemma SameBe32(x: seq<byte>, y: seq<byte>)
    requires |x| == |y| == 4 && UnBe32(x) == UnBe32(y)
    ensures x == y
  {
    hide UnBe16;
    SameBe16(x[..2], y[..2]);
    SameBe16(x[2..], y[2..]);
    assert x == x[..2] + x[2..] && y == y[..2] + y[2..];
  }

  /** ipv4_phdr_cksum */
  method PhdrCksum(proto: byte, saddr: u32, daddr: u32, l4len: u16) returns (r: u16)
    ensures r == Ones(WordSum(PseudoHeader(proto, saddr, daddr, l4len)))
  {
    hide WordSum, Ones, PseudoHeader;
    NoOverflow(PseudoHeader(proto, saddr, daddr, l4len));
    WrapOnce(WordSum(PseudoHeader(proto, saddr, daddr, l4len)));
    r := RawCksum(PseudoHeader(proto, saddr, daddr, l4len));
  }

  /** The checksum that makes segment and pseudo-header sum to all ones; zero is sent as all ones. */
  function Complement(s: nat): (r: u16) { if Ones(s) == M then M else M - Ones(s) }

  /** ipv4_udptcp_cksum */
  method UdpTcpCksum(proto: byte, saddr: u32, daddr: u32, l4: seq<byte>) returns (r: u16)
    requires |l4| < W16
    ensures r == Complement(WordSum(l4) + WordSum(PseudoHeader(proto, saddr, daddr, |l4|)))
  {
    hide WordSum, PseudoHeader;
    var cksum: u32 := RawCksum(l4);
    NoOverflow(l4);
    WrapOnce(WordSum(l4));
    var p := PhdrCksum(proto, saddr, daddr, |l4|);
    FoldOnce(WordSum(l4), WordSum(PseudoHeader(proto, saddr, daddr, |l4|)));
    cksum := cksum + p;
    cksum := cksum / W16 + cksum % W16;
    cksum := M - cksum;
    if cksum == 0 {
      cksum := M;
    }
    r := cksum;
  }

  /** One fold is enough for the sum of two 16-bit sums. */
  lemma FoldOnce(x: nat, y: nat)
    ensures var t := Ones(x) + Ones(y); t / W16 + t % W16 == Ones(x + y)
  {
    var t := Ones(x) + Ones(y);
    var f := t / W16 + t % W16;
    assert t - f == M * (t / W16);
    OnesSame(x);
    OnesSame(y);
    SameAdd(Ones(x), x, Ones(y), y);
    assert Same(f, t);
    SameTransitive(f, t, x + y);
    OnesUnique(f, x + y);
  }

  lemma OnesSame(x: nat)
    ensures Same(Ones(x), x)
  {
  }

  /** A 16-bit field of the segment, written in host order. */
  function WithField(l4: seq<byte>, at: nat, v: u16): (s: seq<byte>)
    requires at + 2 <= |l4|
    ensures |s| == |l4|
  {
    l4[at := v % 0x100][at + 1 := v / 0x100]
  }

  lemma WithFieldSum(l4: seq<byte>, at: nat, v: u16)
    requires at + 2 <= |l4| && at % 2 == 0 && l4[at] == 0 && l4[at + 1] == 0
    ensures WordSum(WithField(l4, at, v)) == WordSum(l4) + v
  {
    hide WordSum;
    var w := WithField(l4, at, v);
    Cut(l4, at);
    Cut(w, at);
    assert w[..at] == l4[..at] && w[at + 2..] == l4[at + 2..];
    Word2(l4[at..at + 2]);
    Word2(w[at..at + 2]);
  }

  lemma Cut(b: seq<byte>, at: nat)
    requires at + 2 <= |b| && at % 2 == 0
    ensures WordSum(b) == WordSum(b[..at]) + WordSum(b[at..at + 2]) + WordSum(b[at + 2..])
  {
    hide WordSum;
    assert b == b[..at] + b[at..];
    WordSumSplit(b[..at], b[at..]);
    Peel(b, at, 2);
  }

  /** Verification by the receiver: with the checksum written into its zeroed, 16-bit-aligned field, the segment and the
      pseudo-header taken from any IPv4 header with the same protocol and addresses sum to 0xffff; and the checksum is
      never 0, for every segment. */
  lemma ChecksumVerifies(proto: byte, saddr: u32, daddr: u32, l4: seq<byte>, at: nat, ip: seq<byte>)
    requires |l4| < W16 && at + 2 <= |l4| && at % 2 == 0 && l4[at] == 0 && l4[at + 1] == 0
    requires IpHeader(ip, proto, saddr, daddr)
    ensures var r := Complement(WordSum(l4) + WordSum(PseudoHeader(proto, saddr, daddr, |l4|)));
      r != 0 && Ones(WordSum(WithField(l4, at, r)) + WordSum(ReceivedPseudo(ip, |l4|))) == M
  {
    hide WordSum, PseudoHeader, WithField, IpHeader, ReceivedPseudo;
    SamePseudo(ip, proto, saddr, daddr, |l4|);
    var s := WordSum(l4) + WordSum(PseudoHeader(proto, saddr, daddr, |l4|));
    WithFieldSum(l4, at, Complement(s));
    ComplementSums(s);
  }

  lemma ComplementSums(s: nat)
    ensures Complement(s) != 0 && Ones(s + Complement(s)) == M
  {
    OnesSame(s);
    assert (s + Complement(s)) % M == 0;
    assert s + Complement(s) > 0;
  }

  lemma OnesFull(t: nat)
    requires t > 0
    ensures Ones(t) == M <==> t % M == 0
  {
    if t % M == 0 {
      DivModUnique(t - 1, M, t / M - 1, M - 1);
    } else if (t - 1) % M == M - 1 {
      DivModUnique(t, M, (t - 1) / M + 1, 0);
    }
  }

  /** And the other way round: whatever bytes `got` arrive in place of the segment, they pass the
      verification exactly when their sum differs by a multiple of 0xffff. */
  lemma VerifiesOnlySame(proto: byte, saddr: u32, daddr: u32, l4: seq<byte>, at: nat, ip: seq<byte>, got: seq<byte>)
    requires |l4| < W16 && at + 2 <= |l4| && at % 2 == 0 && l4[at] == 0 && l4[at + 1] == 0
    requires IpHeader(ip, proto, saddr, daddr)
    ensures var psd := ReceivedPseudo(ip, |l4|);
      var sent := WithField(l4, at, Complement(WordSum(l4) + WordSum(PseudoHeader(proto, saddr, daddr, |l4|))));
      WordSum(got) + WordSum(psd) > 0 ==>
        (Ones(WordSum(got) + WordSum(psd)) == M <==> (WordSum(got) - WordSum(sent)) % M == 0)
  {
    hide WordSum, PseudoHeader, WithField, Ones, Complement, ReceivedPseudo;
    var psd := ReceivedPseudo(ip, |l4|);
    var sent := WithField(l4, at, Complement(WordSum(l4) + WordSum(PseudoHeader(proto, saddr, daddr, |l4|))));
    ChecksumVerifies(proto, saddr, daddr, l4, at, ip);
    var s, t := WordSum(sent) + WordSum(psd), WordSum(got) + WordSum(psd);
    OnesZero();
    OnesFull(s);
    if t > 0 { OnesFull(t); }
    SameRemainder(t, s);
    assert t - s == WordSum(got) - WordSum(sent);
  }

  lemma OnesZero()
    ensures Ones(0) == 0
  {
  }
}
