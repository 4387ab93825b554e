/** base64_encode of util.c, against the bit-level definition in section 4 of RFC 4648. */
module Base64 {
  import opened Sequences

  type Byte = n: nat | n < 256

  // ---- strings of bits, the most significant bit first ----

  function Pow2(k: nat): (p: nat)
    ensures p > 0
  {
    if k == 0 then 1 else 2 * Pow2(k - 1)
  }

  /** The numbers of bits in the pieces of a group. */
  const OCTET: nat := 8
  const SEXTET: nat := 6
  const NIBBLE: nat := 4
  const PAIR: nat := 2

  /** n in so many bits. */
  function Bits(n: nat, width: nat): (b: seq<bool>)
    ensures |b| == width
  {
    if width == 0 then [] else Bits(n / 2, width - 1) + [n % 2 == 1]
  }

  function Number(bits: seq<bool>): nat {
    if bits == [] then 0 else 2 * Number(bits[..|bits| - 1]) + if bits[|bits| - 1] then 1 else 0
  }

  lemma {:induction false} NumberOfBits(n: nat, width: nat)
    requires n < Pow2(width)
    ensures Number(Bits(n, width)) == n
  {
    if width > 0 {
      NumberOfBits(n / 2, width - 1);
      assert Bits(n, width)[..width - 1] == Bits(n / 2, width - 1);
    }
  }

  lemma Halves(high: nat, low: nat, half: nat)
    ensures (high * (2 * half) + low) / 2 == high * half + low / 2
    ensures (high * (2 * half) + low) % 2 == low % 2
  {
    assert high * (2 * half) == 2 * (high * half);
  }

  /** The bits of a number are those of its high part and those of its low part. */
  lemma {:induction false} BitsSplit(high: nat, low: nat, width: nat, k: nat)
    requires low < Pow2(k)
    ensures Bits(high * Pow2(k) + low, width + k) == Bits(high, width) + Bits(low, k)
    decreases k
  {
    if k == 0 {
      assert high * Pow2(0) + low == high;
    } else {
      Halves(high, low, Pow2(k - 1));
      BitsSplit(high, low / 2, width, k - 1);
      assert Bits(high, width) + Bits(low, k) == Bits(high, width) + Bits(low / 2, k - 1) + [low % 2 == 1];
    }
  }

  /** All bits of a string of numbers, each with the same width. */
  function Stream(s: seq<nat>, width: nat): seq<bool> {
    if s == [] then [] else Bits(s[0], width) + Stream(s[1..], width)
  }

  lemma {:induction false} StreamConcat(a: seq<nat>, b: seq<nat>, width: nat)
    ensures Stream(a + b, width) == Stream(a, width) + Stream(b, width)
    decreases |a|
  {
    if a == [] {
      assert a + b == b;
    } else {
      assert (a + b)[0] == a[0] && (a + b)[1..] == a[1..] + b;
      StreamConcat(a[1..], b, width);
      Assoc(Bits(a[0], width), Stream(a[1..], width), Stream(b, width));
    }
  }

  // ---- what RFC 4648 asks for ----

  /** Enough zero bits to complete the last group of six. */
  function Fill(n: nat): (zeros: seq<bool>)
    ensures |zeros| < 6 && (n + |zeros|) % 6 == 0
  {
    seq((6 - n % 6) % 6, _ => false)
  }

  predicate AreSextets(sextets: seq<nat>) {
    forall x | x in sextets :: x < 64
  }

  /** The sextets are the bits of the bytes from left to right, in groups of six, with zero bits
      added on the right to complete the last group. */
  ghost predicate Encodes(sextets: seq<nat>, s: seq<Byte>) {
    && AreSextets(sextets)
    && Stream(sextets, SEXTET) == Stream(s, OCTET) + Fill(8 * |s|)
  }

  /** Enough padding to complete the last group of four characters. */
  function Padding(n: nat): string {
    if n % 4 == 2 then "==" else if n % 4 == 3 then "=" else ""
  }

  const UPPER: string := "ABCDEFGHIJKLMNOPQRSTUVWXYZ"
  const LOWER: string := "abcdefghijklmnopqrstuvwxyz"
  const DIGITS: string := "0123456789"
  const PRES: string := UPPER + LOWER + DIGITS + "+/"

  function Text(sextets: seq<nat>): (t: string)
    requires AreSextets(sextets)
    ensures |t| == |sextets|
  {
    seq(|sextets|, i requires 0 <= i < |sextets| => assert sextets[i] in sextets; PRES[sextets[i]])
  }

  /** t is the encoding of s as the RFC defines it. */
  ghost predicate IsBase64(t: string, s: seq<Byte>) {
    exists sextets: seq<nat> :: Encodes(sextets, s) && t == Text(sextets) + Padding(|sextets|)
  }

  // ---- decoding ----

  /** Numbers of eight bits, up to an incomplete one. */
  function Octets(bits: seq<bool>): seq<nat>
    decreases |bits|
  {
    if |bits| < 8 then [] else [Number(bits[..8])] + Octets(bits[8..])
  }

  lemma FirstOctet(bits: seq<bool>, rest: seq<bool>)
    requires |bits| == 8
    ensures Octets(bits + rest) == [Number(bits)] + Octets(rest)
  {
    assert (bits + rest)[..8] == bits && (bits + rest)[8..] == rest;
  }

  lemma ByteFits(b: Byte)
    ensures b < Pow2(OCTET)
  {
    assert Pow2(4) == 16;
    assert Pow2(6) == 64;
  }

  lemma {:induction false} OctetsOfStream(s: seq<Byte>, rest: seq<bool>)
    requires |rest| < 8
    ensures Octets(Stream(s, OCTET) + rest) == s
    decreases |s|
  {
    if s == [] {
      assert Stream(s, OCTET) + rest == rest;
    } else {
      var bits := Bits(s[0], OCTET);
      ByteFits(s[0]);
      NumberOfBits(s[0], OCTET);
      OctetsOfStream(s[1..], rest);
      Assoc(bits, Stream(s[1..], OCTET), rest);
      FirstOctet(bits, Stream(s[1..], OCTET) + rest);
    }
  }

  /** The place of a character in the alphabet. */
  function Value(c: char): nat {
    if 'A' <= c <= 'Z' then (c - 'A') as nat
    else if 'a' <= c <= 'z' then (c - 'a') as nat + 26
    else if '0' <= c <= '9' then (c - '0') as nat + 52
    else if c == '+' then 62
    else 63
  }

  lemma Upper(v: nat)
    requires v < 26
    ensures UPPER[v] == 'A' + v as char
  {
  }

  lemma Lower(v: nat)
    requires v < 26
    ensures LOWER[v] == 'a' + v as char
  {
  }

  lemma Digit(v: nat)
    requires v < 10
    ensures DIGITS[v] == '0' + v as char
  {
  }

  lemma ValueOfPres(v: nat)
    requires v < 64
    ensures Value(PRES[v]) == v && PRES[v] != '='
  {
    if v < 26 {
      Upper(v);
      assert PRES[v] == UPPER[v];
    } else if v < 52 {
      Lower(v - 26);
      assert PRES[v] == LOWER[v - 26];
    } else if v < 62 {
      Digit(v - 52);
      assert PRES[v] == DIGITS[v - 52];
    }
  }

  /** Decoding: the values of the characters other than `=', as bits, in groups of eight. */
  function Decode(t: string): seq<nat> {
    Octets(Stream(Values(t), SEXTET))
  }

  function Values(t: string): seq<nat> {
    if t == "" then [] else (if t[0] == '=' then [] else [Value(t[0])]) + Values(t[1..])
  }

  lemma TextFirst(sextets: seq<nat>, rest: string)
    requires sextets != [] && AreSextets(sextets)
    ensures sextets[0] < 64 && AreSextets(sextets[1..])
    ensures Text(sextets) + rest == [PRES[sextets[0]]] + (Text(sextets[1..]) + rest)
  {
    assert sextets[0] in sextets;
    assert forall x | x in sextets[1..] :: x in sextets;
  }

  lemma ValuesFirst(c: char, t: string)
    requires c != '='
    ensures Values([c] + t) == [Value(c)] + Values(t)
  {
    assert ([c] + t)[1..] == t;
  }

  lemma {:induction false} ValuesOfText(sextets: seq<nat>, rest: string)
    requires AreSextets(sextets)
    requires forall c | c in rest :: c == '='
    ensures Values(Text(sextets) + rest) == sextets
    decreases |sextets|
  {
    if sextets == [] {
      assert Text(sextets) + rest == rest;
      NoValues(rest);
    } else {
      TextFirst(sextets, rest);
      ValueOfPres(sextets[0]);
      ValuesFirst(PRES[sextets[0]], Text(sextets[1..]) + rest);
      ValuesOfText(sextets[1..], rest);
    }
  }

  lemma {:induction false} NoValues(t: string)
    requires forall c | c in t :: c == '='
    ensures Values(t) == []
  {
    if t != "" {
      assert t[0] in t;
      assert forall c | c in t[1..] :: c in t;
      NoValues(t[1..]);
    }
  }

  /** Decoding gives back every string of bytes, whatever padding follows its sextets. */
  lemma DecodeEncoded(sextets: seq<nat>, s: seq<Byte>, rest: string)
    requires Encodes(sextets, s) && forall c | c in rest :: c == '='
    ensures Decode(Text(sextets) + rest) == s
  {
    ValuesOfText(sextets, rest);
    OctetsOfStream(s, Fill(8 * |s|));
  }

  // ---- one group of three bytes ----

  /** The sextets of a group. */
  function First(a: Byte): nat {
    a / 4
  }

  function Second(a: Byte, b: Byte): nat {
    a % 4 * 16 + b / 16
  }

  function Third(b: Byte, c: Byte): nat {
    b % 16 * 4 + c / 64
  }

  function Fourth(c: Byte): nat {
    c % 64
  }

  lemma Powers()
    ensures Pow2(PAIR) == 4 && Pow2(NIBBLE) == 16 && Pow2(SEXTET) == 64
  {
    assert Pow2(3) == 8;
    assert Pow2(5) == 32;
  }

  /** What the shifts and masks take out of 24 bits. */
  lemma ShiftsAndMasks(a: Byte, b: Byte, c: Byte, val: nat)
    requires val == a * 0x10000 + b * 0x100 + c
    ensures val / 0x40000 == First(a)
    ensures val / 0x1000 % 64 == Second(a, b)
    ensures val / 64 % 64 == Third(b, c)
    ensures val % 64 == Fourth(c)
  {
    Shift18(a, b, c, val);
    Shift12(a, b, c, val);
    Shift6(a, b, c, val);
  }

  lemma Shift18(a: Byte, b: Byte, c: Byte, val: nat)
    requires val == a * 0x10000 + b * 0x100 + c
    ensures val / 0x40000 == a / 4
  {
    assert val == a / 4 * 0x40000 + (a % 4 * 0x10000 + b * 0x100 + c);
  }

  lemma Shift12(a: Byte, b: Byte, c: Byte, val: nat)
    requires val == a * 0x10000 + b * 0x100 + c
    ensures val / 0x1000 % 64 == Second(a, b)
  {
    assert val == (a * 16 + b / 16) * 0x1000 + (b % 16 * 0x100 + c);
    assert val / 0x1000 == a * 16 + b / 16;
    assert a * 16 + b / 16 == a / 4 * 64 + Second(a, b);
  }

  lemma Shift6(a: Byte, b: Byte, c: Byte, val: nat)
    requires val == a * 0x10000 + b * 0x100 + c
    ensures val / 64 % 64 == Third(b, c)
    ensures val % 64 == Fourth(c)
  {
    var upper := a * 0x400 + b * 4 + c / 64;
    assert val == upper * 64 + c % 64;
    LowBits(a, b, c / 64);
  }

  lemma LowBits(a: Byte, b: Byte, top: nat)
    requires top < 4
    ensures (a * 0x400 + b * 4 + top) % 64 == b % 16 * 4 + top
  {
    assert a * 0x400 + b * 4 + top == (a * 16 + b / 16) * 64 + (b % 16 * 4 + top);
  }

  lemma BitsOfFirst(a: Byte)
    ensures Bits(a, OCTET) == Bits(First(a), SEXTET) + Bits(a % 4, PAIR)
  {
    Powers();
    BitsSplit(a / 4, a % 4, SEXTET, PAIR);
  }

  lemma BitsOfSecond(a: Byte, b: Byte)
    ensures Bits(Second(a, b), SEXTET) == Bits(a % 4, PAIR) + Bits(b / 16, NIBBLE)
  {
    Powers();
    BitsSplit(a % 4, b / 16, PAIR, NIBBLE);
  }

  lemma BitsOfSecondByte(b: Byte)
    ensures Bits(b, OCTET) == Bits(b / 16, NIBBLE) + Bits(b % 16, NIBBLE)
  {
    Powers();
    BitsSplit(b / 16, b % 16, NIBBLE, NIBBLE);
  }

  lemma BitsOfThird(b: Byte, c: Byte)
    ensures Bits(Third(b, c), SEXTET) == Bits(b % 16, NIBBLE) + Bits(c / 64, PAIR)
  {
    Powers();
    BitsSplit(b % 16, c / 64, NIBBLE, PAIR);
  }

  lemma BitsOfThirdByte(c: Byte)
    ensures Bits(c, OCTET) == Bits(c / 64, PAIR) + Bits(Fourth(c), SEXTET)
  {
    Powers();
    BitsSplit(c / 64, c % 64, PAIR, SEXTET);
  }

  lemma Stream2(a: nat, b: nat, width: nat)
    ensures Stream([a, b], width) == Bits(a, width) + Bits(b, width)
  {
    assert [a, b][1..] == [b] && [b][1..] == [];
    assert Stream([b], width) == Bits(b, width) + Stream([b][1..], width);
  }

  lemma Stream3(a: nat, b: nat, c: nat, width: nat)
    ensures Stream([a, b, c], width) == Bits(a, width) + Bits(b, width) + Bits(c, width)
  {
    assert [a, b, c][1..] == [b, c];
    Stream2(b, c, width);
  }

  lemma Stream4(a: nat, b: nat, c: nat, d: nat, width: nat)
    ensures Stream([a, b, c, d], width) == Bits(a, width) + Bits(b, width) + Bits(c, width) + Bits(d, width)
  {
    assert [a, b, c, d][1..] == [b, c, d];
    Stream3(b, c, d, width);
  }

  lemma Regroup(a1: seq<bool>, a2: seq<bool>, b1: seq<bool>, b2: seq<bool>, c1: seq<bool>, c2: seq<bool>)
    ensures (a1 + a2) + (b1 + b2) + (c1 + c2) == a1 + (a2 + b1) + (b2 + c1) + c2
  {
  }

  /** Three bytes are four sextets, bit by bit. */
  lemma Group3(a: Byte, b: Byte, c: Byte)
    ensures Stream([First(a), Second(a, b), Third(b, c), Fourth(c)], SEXTET) == Stream([a, b, c], OCTET)
  {
    BitsOfFirst(a);
    BitsOfSecond(a, b);
    BitsOfSecondByte(b);
    BitsOfThird(b, c);
    BitsOfThirdByte(c);
    Stream4(First(a), Second(a, b), Third(b, c), Fourth(c), SEXTET);
    Stream3(a, b, c, OCTET);
    Regroup(Bits(First(a), SEXTET), Bits(a % 4, PAIR), Bits(b / 16, NIBBLE), Bits(b % 16, NIBBLE),
            Bits(c / 64, PAIR), Bits(Fourth(c), SEXTET));
  }

  lemma {:induction false} NoBits(width: nat)
    ensures Bits(0, width) == seq(width, _ => false)
  {
    if width > 0 {
      NoBits(width - 1);
    }
  }

  lemma Regroup2(a1: seq<bool>, a2: seq<bool>, b1: seq<bool>, b2: seq<bool>, zeros: seq<bool>)
    ensures (a1 + a2) + (b1 + b2) + zeros == a1 + (a2 + b1) + (b2 + zeros)
  {
  }

  /** With zeros for a missing third byte the bits are those of two bytes, and two zeros more. */
  lemma Group2(a: Byte, b: Byte)
    ensures Stream([First(a), Second(a, b), Third(b, 0)], SEXTET) == Stream([a, b], OCTET) + Bits(0, PAIR)
  {
    BitsOfFirst(a);
    BitsOfSecond(a, b);
    BitsOfSecondByte(b);
    BitsOfThird(b, 0);
    Stream3(First(a), Second(a, b), Third(b, 0), SEXTET);
    Stream2(a, b, OCTET);
    Regroup2(Bits(First(a), SEXTET), Bits(a % 4, PAIR), Bits(b / 16, NIBBLE), Bits(b % 16, NIBBLE), Bits(0, PAIR));
  }

  lemma Stream1(a: nat, width: nat)
    ensures Stream([a], width) == Bits(a, width)
  {
    assert [a][1..] == [];
  }

  lemma Group1(a: Byte)
    ensures Stream([First(a), Second(a, 0)], SEXTET) == Stream([a], OCTET) + Bits(0, NIBBLE)
  {
    BitsOfFirst(a);
    BitsOfSecond(a, 0);
    Stream2(First(a), Second(a, 0), SEXTET);
    Stream1(a, OCTET);
    Assoc(Bits(First(a), SEXTET), Bits(a % 4, PAIR), Bits(0, NIBBLE));
  }

  // ---- the encoder ----

  /** Sextets and bytes that are the same bits. */
  ghost predicate SameBits(sextets: seq<nat>, s: seq<Byte>) {
    AreSextets(sextets) && |s| % 3 == 0 && Stream(sextets, SEXTET) == Stream(s, OCTET)
  }

  lemma FillNibble(n: nat)
    requires n % 3 == 1
    ensures Fill(8 * n) == Bits(0, NIBBLE)
  {
    assert 8 * n % 6 == 2;
    NoBits(NIBBLE);
  }

  lemma FillPair(n: nat)
    requires n % 3 == 2
    ensures Fill(8 * n) == Bits(0, PAIR)
  {
    assert 8 * n % 6 == 4;
    NoBits(PAIR);
  }

  lemma SextetsFit(a: Byte, b: Byte, c: Byte)
    ensures First(a) < 64 && Second(a, b) < 64 && Third(b, c) < 64 && Fourth(c) < 64
  {
  }

  lemma MoreSextets(sextets: seq<nat>, more: seq<nat>)
    requires AreSextets(sextets) && AreSextets(more)
    ensures AreSextets(sextets + more)
  {
  }

  lemma Extended(sextets: seq<nat>, s: seq<Byte>, more: seq<nat>, tail: seq<Byte>, zeros: seq<bool>)
    requires SameBits(sextets, s) && AreSextets(more) && Stream(more, SEXTET) == Stream(tail, OCTET) + zeros
    ensures AreSextets(sextets + more)
    ensures Stream(sextets + more, SEXTET) == Stream(s + tail, OCTET) + zeros
  {
    MoreSextets(sextets, more);
    StreamConcat(sextets, more, SEXTET);
    StreamConcat(s, tail, OCTET);
    Assoc(Stream(s, OCTET), Stream(tail, OCTET), zeros);
  }

  /** The zeros that complete the bits of a group of so many bytes. */
  function Zeros(bytes: nat): seq<bool> {
    if bytes == 1 then Bits(0, NIBBLE) else if bytes == 2 then Bits(0, PAIR) else []
  }

  lemma CountUp(m: nat, k: nat)
    requires m % 3 == 0 && k < 3
    ensures (m + k) % 3 == k && (m + 3) % 3 == 0
  {
  }

  lemma LastGroup(sextets: seq<nat>, s: seq<Byte>, more: seq<nat>, tail: seq<Byte>)
    requires SameBits(sextets, s) && AreSextets(more) && 1 <= |tail| < 3
    requires Stream(more, SEXTET) == Stream(tail, OCTET) + Zeros(|tail|)
    ensures Encodes(sextets + more, s + tail)
  {
    Extended(sextets, s, more, tail, Zeros(|tail|));
    CountUp(|s|, |tail|);
    ZerosFill(|s + tail|, |tail|);
  }

  lemma WholeGroup(sextets: seq<nat>, s: seq<Byte>, more: seq<nat>, tail: seq<Byte>)
    requires SameBits(sextets, s) && AreSextets(more) && |tail| == 3
    requires Stream(more, SEXTET) == Stream(tail, OCTET) + Zeros(|tail|)
    ensures SameBits(sextets + more, s + tail)
  {
    Extended(sextets, s, more, tail, []);
    CountUp(|s|, 0);
    assert Stream(s + tail, OCTET) + [] == Stream(s + tail, OCTET);
  }

  lemma ZerosFill(n: nat, k: nat)
    requires 0 < k < 3 && n % 3 == k
    ensures Zeros(k) == Fill(8 * n)
  {
    if k == 1 {
      FillNibble(n);
    } else {
      FillPair(n);
    }
  }

  lemma NoneMore(sextets: seq<nat>, s: seq<Byte>)
    requires SameBits(sextets, s)
    ensures Encodes(sextets, s)
  {
    assert 8 * |s| % 6 == 0;
    assert Stream(s, OCTET) + [] == Stream(s, OCTET);
  }

  /** A byte of the input, or zero in its place. */
  function ByteAt(buf: seq<Byte>, i: nat): Byte {
    if i < |buf| then buf[i] else 0
  }

  method Gather(buf: seq<Byte>, pos: nat) returns (val: nat)
    requires pos < |buf|
    ensures val == ByteAt(buf, pos) * 0x10000 + ByteAt(buf, pos + 1) as int * 0x100 + ByteAt(buf, pos + 2)
  {
    val := buf[pos] as int * 0x10000;
    if pos + 1 < |buf| {
      val := val + buf[pos + 1] as int * 0x100;
    }
    if pos + 2 < |buf| {
      val := val + buf[pos + 2] as int;
    }
  }

  /** The sextets that a turn of the loop writes. */
  function Turn(buf: seq<Byte>, pos: nat): (more: seq<nat>)
    requires pos < |buf|
    ensures |more| == if pos + 1 >= |buf| then 2 else if pos + 2 >= |buf| then 3 else 4
    ensures AreSextets(more)
  {
    var a, b, c := ByteAt(buf, pos), ByteAt(buf, pos + 1), ByteAt(buf, pos + 2);
    SextetsFit(a, b, c);
    if pos + 1 >= |buf| then [First(a), Second(a, b)]
    else if pos + 2 >= |buf| then [First(a), Second(a, b), Third(b, c)]
    else [First(a), Second(a, b), Third(b, c), Fourth(c)]
  }

  /** The bytes that they stand for. */
  function Input(buf: seq<Byte>, pos: nat): (tail: seq<Byte>)
    requires pos < |buf|
    ensures 1 <= |tail| <= 3 && (|tail| < 3 <==> pos + 2 >= |buf|)
  {
    if pos + 3 <= |buf| then buf[pos..pos + 3] else buf[pos..]
  }

  lemma TurnBits(buf: seq<Byte>, pos: nat)
    requires pos < |buf|
    ensures Stream(Turn(buf, pos), SEXTET) == Stream(Input(buf, pos), OCTET) + Zeros(|Input(buf, pos)|)
  {
    var a, b, c := ByteAt(buf, pos), ByteAt(buf, pos + 1), ByteAt(buf, pos + 2);
    if pos + 1 >= |buf| {
      assert Input(buf, pos) == [a];
      Group1(a);
    } else if pos + 2 >= |buf| {
      assert Input(buf, pos) == [a, b];
      Group2(a, b);
    } else {
      assert Input(buf, pos) == [a, b, c];
      Group3(a, b, c);
      assert Stream([a, b, c], OCTET) + [] == Stream([a, b, c], OCTET);
    }
  }

  lemma GoesOn(buf: seq<Byte>, pos: nat, sextets: seq<nat>, more: seq<nat>)
    requires pos < |buf| && SameBits(sextets, buf[..pos]) && AreSextets(more)
    requires Stream(more, SEXTET) == Stream(Input(buf, pos), OCTET) + Zeros(|Input(buf, pos)|)
    ensures if pos + 2 >= |buf| then Encodes(sextets + more, buf) else SameBits(sextets + more, buf[..pos + 3])
  {
    if pos + 2 >= |buf| {
      LastGroup(sextets, buf[..pos], more, Input(buf, pos));
      assert buf[..pos] + Input(buf, pos) == buf;
    } else {
      WholeGroup(sextets, buf[..pos], more, Input(buf, pos));
      assert buf[..pos] + Input(buf, pos) == buf[..pos + 3];
    }
  }

  lemma TextConcat(a: seq<nat>, b: seq<nat>)
    requires AreSextets(a) && AreSextets(b)
    ensures AreSextets(a + b) && Text(a + b) == Text(a) + Text(b)
  {
    MoreSextets(a, b);
  }

  /** One turn of the loop, which stops at an incomplete group. */
  method Group(buf: seq<Byte>, pos: nat, enc: array<char>, at: nat) returns (i: nat, stop: bool)
    requires pos < |buf| && at + 4 <= enc.Length
    modifies enc
    ensures stop <==> pos + 2 >= |buf|
    ensures i == at + |Turn(buf, pos)| <= enc.Length
    ensures enc[..at] == old(enc[..at]) && enc[at..i] == Text(Turn(buf, pos))
  {
    var val := Gather(buf, pos);
    ghost var a, b, c := ByteAt(buf, pos), ByteAt(buf, pos + 1), ByteAt(buf, pos + 2);
    ShiftsAndMasks(a, b, c, val);
    SextetsFit(a, b, c);
    i := at;
    enc[i] := PRES[val / 0x40000];
    i := i + 1;
    enc[i] := PRES[val / 0x1000 % 64];
    i := i + 1;
    if pos + 1 >= |buf| {
      return i, true;
    }
    enc[i] := PRES[val / 64 % 64];
    i := i + 1;
    if pos + 2 >= |buf| {
      return i, true;
    }
    enc[i] := PRES[val % 64];
    i := i + 1;
    stop := false;
  }

  /** The characters that are written for n bytes. */
  function EncodedLength(n: nat): nat {
    4 * ((n + 2) / 3) + if n % 3 == 0 then 3 else 1
  }

  /** A turn of the loop, and what it does to the sextets. */
  method Step(buf: seq<Byte>, pos: nat, enc: array<char>, at: nat, ghost was: seq<nat>)
      returns (i: nat, stop: bool, ghost sextets: seq<nat>)
    requires pos < |buf| && SameBits(was, buf[..pos]) && at == |was| && at + 4 <= enc.Length && enc[..at] == Text(was)
    modifies enc
    ensures i == |sextets| <= enc.Length && AreSextets(sextets) && enc[..i] == Text(sextets)
    ensures stop <==> pos + 2 >= |buf|
    ensures i == at + if pos + 1 >= |buf| then 2 else if pos + 2 >= |buf| then 3 else 4
    ensures if stop then Encodes(sextets, buf) else SameBits(sextets, buf[..pos + 3])
  {
    ghost var more := Turn(buf, pos);
    TurnBits(buf, pos);
    GoesOn(buf, pos, was, more);
    TextConcat(was, more);
    i, stop := Group(buf, pos, enc, at);
    assert enc[..i] == enc[..at] + enc[at..i];
    sextets := was + more;
  }

  /** What holds before turn q, and after the last. */
  ghost predicate Before(buf: seq<Byte>, q: nat, i: nat, sextets: seq<nat>, stop: bool) {
    && 3 * q <= |buf|
    && if stop then
         Encodes(sextets, buf) && 3 * q < |buf| <= 3 * q + 2 && i == 4 * q + (|buf| - 3 * q) + 1
       else
         SameBits(sextets, buf[..3 * q]) && i == 4 * q
  }

  lemma RoomForTurn(n: nat, q: nat, length: nat)
    requires 3 * q < n && EncodedLength(n) <= length
    ensures 4 * q + 4 <= length
  {
  }

  /** The loop, up to the place where the padding goes. */
  method Groups(buf: seq<Byte>, enc: array<char>) returns (i: nat, pos: nat, ghost q: nat, ghost sextets: seq<nat>)
    requires EncodedLength(|buf|) <= enc.Length
    modifies enc
    ensures Encodes(sextets, buf) && i == |sextets| && i <= enc.Length && enc[..i] == Text(sextets)
    ensures pos == 3 * q <= |buf| < 3 * q + 3 && i == 4 * q + if pos == |buf| then 0 else |buf| - pos + 1
  {
    i, pos, q, sextets := 0, 0, 0, [];
    var stop := false;
    while pos < |buf| && !stop
      invariant i == |sextets| <= enc.Length && AreSextets(sextets) && enc[..i] == Text(sextets)
      invariant pos == 3 * q && Before(buf, q, i, sextets, stop)
      decreases |buf| - pos, !stop
    {
      RoomForTurn(|buf|, q, enc.Length);
      i, stop, sextets := Step(buf, pos, enc, i, sextets);
      if !stop {
        pos, q := pos + 3, q + 1;
      }
    }
    if !stop {
      assert buf[..pos] == buf;
      NoneMore(sextets, buf);
    }
  }

  /** What is written that the RFC does not ask for. */
  function Excess(n: nat): string {
    if n % 3 == 0 then "==" else ""
  }

  /** Write the padding, and the NUL. */
  method Finish(n: nat, pos: nat, enc: array<char>, at: nat) returns (i: nat)
    requires pos <= n < pos + 3 && at + (if pos + 2 == n then 2 else 3) <= enc.Length
    modifies enc
    ensures i == at + (if pos + 2 == n then 2 else 3) && enc[..at] == old(enc[..at])
    ensures enc[at..i] == (if pos + 2 == n then "=" else "==") + "\0"
  {
    i := at;
    if pos + 1 >= n {
      enc[i] := '=';
      i := i + 1;
      enc[i] := '=';
      i := i + 1;
    } else if pos + 2 >= n {
      enc[i] := '=';
      i := i + 1;
    }
    enc[i] := '\0';
    i := i + 1;
  }

  /** n bytes are q whole groups and r bytes more. */
  lemma LengthOfEncoded(n: nat, q: nat, r: nat)
    requires n == 3 * q + r && r < 3
    ensures n % 3 == r && EncodedLength(n) == 4 * q + if r == 0 then 3 else 5
  {
    assert (n + 2) / 3 == q + if r == 0 then 0 else 1;
  }

  lemma EndOfEncoded(n: nat, q: nat, r: nat, at: nat)
    requires n % 3 == r && at == 4 * q + (if r == 0 then 0 else r + 1)
    ensures (if r == 2 then "=" else "==") + "\0" == Padding(at) + Excess(n) + "\0"
  {
    assert at % 4 == if r == 0 then 0 else r + 1;
    assert Padding(at) + Excess(n) == if r == 2 then "=" else "==";
  }

  /** base64_encode. The characters are those of the RFC and a NUL, but when the number of bytes is
      a multiple of three two more `=' are written before the NUL. */
  method Encode(buf: seq<Byte>, enc: array<char>) returns (ghost sextets: seq<nat>)
    requires EncodedLength(|buf|) <= enc.Length
    modifies enc
    ensures Encodes(sextets, buf)
    ensures enc[..EncodedLength(|buf|)] == Text(sextets) + (Padding(|sextets|) + Excess(|buf|) + "\0")
  {
    var i, pos;
    ghost var q;
    i, pos, q, sextets := Groups(buf, enc);
    LengthOfEncoded(|buf|, q, |buf| - pos);
    EndOfEncoded(|buf|, q, |buf| - pos, i);
    ghost var at := i;
    i := Finish(|buf|, pos, enc, i);
    assert enc[..i] == enc[..at] + enc[at..i];
  }

  /** So the characters before the NUL are the encoding that the RFC defines exactly if the number
      of bytes is no multiple of three. */
  lemma EncodesIffNotMultipleOfThree(buf: seq<Byte>, sextets: seq<nat>)
    requires Encodes(sextets, buf)
    ensures IsBase64(Text(sextets) + (Padding(|sextets|) + Excess(|buf|)), buf) <==> |buf| % 3 != 0
  {
    var t := Text(sextets) + (Padding(|sextets|) + Excess(|buf|));
    if |buf| % 3 != 0 {
      assert Padding(|sextets|) + "" == Padding(|sextets|);
      assert t == Text(sextets) + Padding(|sextets|);
    } else {
      forall other: seq<nat> | Encodes(other, buf)
        ensures t != Text(other) + Padding(|other|)
      {
        EncodedSize(other, buf);
        EncodedSize(sextets, buf);
      }
    }
  }

  lemma {:induction false} StreamSize(s: seq<nat>, width: nat)
    ensures |Stream(s, width)| == |s| * width
    decreases |s|
  {
    if s != [] {
      StreamSize(s[1..], width);
      assert |s| * width == (|s| - 1) * width + width;
    }
  }

  lemma EncodedSize(sextets: seq<nat>, s: seq<Byte>)
    requires Encodes(sextets, s)
    ensures |sextets| * 6 == |s| * 8 + |Fill(8 * |s|)|
  {
    StreamSize(sextets, SEXTET);
    StreamSize(s, OCTET);
  }
}
