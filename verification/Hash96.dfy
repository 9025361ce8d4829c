/** Identifiers of 96 bits: seconds in the high 41 bits, a random number in the low 55, written in hex. */
module Hash96 {
  import opened Wrappers
  import opened Numbers

  newtype byte = x: int | 0 <= x < 256

  const RANDOM_BITS: nat := 55
  const TIME_BITS: nat := 41

  /** `a << bits` */
  function Shl(a: nat, bits: nat): nat {
    a * Pow2(bits)
  }

  /** `a | b` */
  function Or(a: nat, b: nat): nat {
    if a == 0 then b else if b == 0 then a
    else 2 * Or(a / 2, b / 2) + if a % 2 == 1 || b % 2 == 1 then 1 else 0
  }

  /** `int.from_bytes(bytes, "big")` */
  function FromBytes(bytes: seq<byte>): nat {
    if bytes == [] then 0 else 256 * FromBytes(bytes[..|bytes| - 1]) + bytes[|bytes| - 1] as nat
  }

  /** `n.to_bytes(size, "big")`; `None` is the OverflowError. */
  function ToBytes(n: nat, size: nat): Option<seq<byte>> {
    if size == 0 then if n == 0 then Some([]) else None
    else match ToBytes(n / 256, size - 1)
      case None => None
      case Some(high) => Some(high + [(n % 256) as byte])
  }

  const HEX_DIGITS: string := "0123456789abcdef"

  /** `binascii.hexlify` */
  function Hexlify(bytes: seq<byte>): string {
    if bytes == [] then ""
    else
      var last := bytes[|bytes| - 1] as nat;
      Hexlify(bytes[..|bytes| - 1]) + [HEX_DIGITS[last / 16]] + [HEX_DIGITS[last % 16]]
  }

  /** The random part drawn from some bytes. */
  function Random(entropy: seq<byte>): nat {
    FromBytes(entropy) % Pow2(RANDOM_BITS)
  }

  function IdInt(ts: nat, entropy: seq<byte>): nat {
    Or(Shl(ts, RANDOM_BITS), Shl(Random(entropy), 0))
  }

  /** `Hash96.time_random_string().id_hex` at second `ts` with the random bytes `entropy`. */
  function IdHex(ts: nat, entropy: seq<byte>): Option<string> {
    match ToBytes(IdInt(ts, entropy), 12)
    case None => None
    case Some(bytes) => Some(Hexlify(bytes))
  }

  // ---- The packed number ----

  /** A bit of `a | b` is set exactly if it is set in either. */
  lemma {:induction false} OrBit(a: nat, b: nat, i: nat)
    ensures Bit(Or(a, b), i) <==> Bit(a, i) || Bit(b, i)
  {
    OrStep(a, b);
    hide Or;
    if i > 0 {
      OrBit(a / 2, b / 2, i - 1);
    }
  }

  lemma OrStep(a: nat, b: nat)
    ensures Or(a, b) % 2 == 1 <==> a % 2 == 1 || b % 2 == 1
    ensures Or(a, b) / 2 == Or(a / 2, b / 2)
  {
  }

  predicate Bit(n: nat, i: nat) {
    if i == 0 then n % 2 == 1 else Bit(n / 2, i - 1)
  }

  lemma {:induction false} OrIsSum(a: nat, b: nat, bits: nat)
    requires b < Pow2(bits)
    ensures Or(a * Pow2(bits), b) == a * Pow2(bits) + b
  {
    if bits > 0 && a > 0 && b > 0 {
      var half := a * Pow2(bits - 1);
      assert a * Pow2(bits) == 2 * half;
      OrIsSum(a, b / 2, bits - 1);
    }
  }

  lemma IdIsSum(ts: nat, entropy: seq<byte>)
    ensures IdInt(ts, entropy) == ts * Pow2(RANDOM_BITS) + Random(entropy)
    ensures Random(entropy) < Pow2(RANDOM_BITS)
  {
    var num := Random(entropy);
    assert num < Pow2(RANDOM_BITS);
    hide Random;
    assert Shl(num, 0) == num;
    OrIsSum(ts, num, RANDOM_BITS);
  }

  // ---- Writing and reading hex ----

  function HexValue(c: char): (v: nat)
    ensures v < 16
  {
    if '0' <= c <= '9' then c as nat - '0' as nat
    else if 'a' <= c <= 'f' then c as nat - 'a' as nat + 10
    else 0
  }

  predicate IsHex(s: string) {
    forall c <- s :: c in HEX_DIGITS
  }

  /** `int(s, 16)` */
  function ParseHex(s: string): nat {
    if s == "" then 0 else 16 * ParseHex(s[..|s| - 1]) + HexValue(s[|s| - 1])
  }

  lemma HexDigitValue(v: nat)
    requires v < 16
    ensures HEX_DIGITS[v] in HEX_DIGITS && HexValue(HEX_DIGITS[v]) == v
  {
  }

  lemma ParseHexAppend(s: string, hi: nat, lo: nat)
    requires hi < 16 && lo < 16
    ensures ParseHex(s + [HEX_DIGITS[hi]] + [HEX_DIGITS[lo]]) == 256 * ParseHex(s) + 16 * hi + lo
  {
    HexDigitValue(hi);
    HexDigitValue(lo);
    var t := s + [HEX_DIGITS[hi]];
    assert t[..|t| - 1] == s;
    var u := t + [HEX_DIGITS[lo]];
    assert u[..|u| - 1] == t;
  }

  /** A number fits the bytes exactly below the power. */
  lemma {:induction false} BytesFit(n: nat, size: nat)
    ensures ToBytes(n, size).Some? <==> n < Pow2(8 * size)
  {
    if size > 0 {
      BytesFit(n / 256, size - 1);
      ByteMore(size - 1);
      hide Pow2;
      assert 8 * (size - 1 + 1) == 8 * size;
    }
  }

  /** The hex digits of the bytes read back as the number. */
  lemma {:induction false} BytesRoundTrip(n: nat, size: nat)
    requires ToBytes(n, size).Some?
    ensures var hex := Hexlify(ToBytes(n, size).value);
            |hex| == 2 * size && IsHex(hex) && ParseHex(hex) == n
  {
    if size > 0 {
      BytesRoundTrip(n / 256, size - 1);
      var high := ToBytes(n / 256, size - 1).value;
      HexAppend(high, n % 256);
      hide Hexlify, ParseHex, IsHex;
    }
  }

  lemma HexGrows(s: string, c: char, d: char)
    requires IsHex(s) && c in HEX_DIGITS && d in HEX_DIGITS
    ensures IsHex(s + [c] + [d])
  {
  }

  lemma HexAppend(high: seq<byte>, last: nat)
    requires last < 256 && IsHex(Hexlify(high))
    ensures var hex := Hexlify(high + [last as byte]);
            |hex| == |Hexlify(high)| + 2 && IsHex(hex) && ParseHex(hex) == 256 * ParseHex(Hexlify(high)) + last
  {
    var bytes := high + [last as byte];
    assert bytes[..|bytes| - 1] == high;
    assert Hexlify(bytes) == Hexlify(high) + [HEX_DIGITS[last / 16]] + [HEX_DIGITS[last % 16]];
    hide Hexlify;
    ParseHexAppend(Hexlify(high), last / 16, last % 16);
    hide ParseHex;
    HexDigitValue(last / 16);
    HexDigitValue(last % 16);
    HexGrows(Hexlify(high), HEX_DIGITS[last / 16], HEX_DIGITS[last % 16]);
    hide IsHex;
  }

  lemma ByteMore(size: nat)
    ensures Pow2(8 * (size + 1)) == 256 * Pow2(8 * size)
  {
    assert Pow2(8) == 256;
    Pow2Add(8 * size, 8);
  }

  /** Bytes that are the digits of a number read back as it. */
  lemma {:induction false} FromBytesRoundTrip(n: nat, size: nat)
    requires ToBytes(n, size).Some?
    ensures |ToBytes(n, size).value| == size && FromBytes(ToBytes(n, size).value) == n
  {
    if size > 0 {
      FromBytesRoundTrip(n / 256, size - 1);
      var high := ToBytes(n / 256, size - 1).value;
      var bytes := high + [(n % 256) as byte];
      assert bytes[..|bytes| - 1] == high;
    }
  }

  /** Every number below 2^55 can be drawn, from 90 bytes. */
  lemma EveryNumberIsDrawn(num: nat) returns (entropy: seq<byte>)
    requires num < 36028797018963968
    ensures |entropy| == 90 && Random(entropy) == num
  {
    RandomLimitIs();
    hide Pow2;
    BytesFit(num, 90);
    Pow2Add(RANDOM_BITS, 8 * 90 - RANDOM_BITS);
    Times(1, Pow2(8 * 90 - RANDOM_BITS), Pow2(RANDOM_BITS));
    FromBytesRoundTrip(num, 90);
    hide ToBytes, FromBytes;
    entropy := ToBytes(num, 90).value;
  }

  lemma RandomLimitIs()
    ensures Pow2(RANDOM_BITS) == 36028797018963968
  {
    hide Pow2;
    PowersFrom(10);
  }

  lemma PowersFrom(ten: nat)
    requires ten == 10
    ensures Pow2(4 * ten + 1) == TIME_LIMIT
    ensures Pow2(5 * ten + ten / 2) == 36028797018963968
  {
    Pow2Ten(ten);
    assert Pow2(1) == 2 && Pow2(ten / 2) == 32;
    hide Pow2;
    Pow2Add(ten, ten);
    Pow2Add(2 * ten, 2 * ten);
    Pow2Add(4 * ten, 1);
    Pow2Add(4 * ten, ten);
    Pow2Add(5 * ten, ten / 2);
  }

  // ---- Order ----

  /** Order of strings: by the first difference, a prefix first. */
  predicate Before(a: string, b: string) {
    (a < b) || exists i | 0 <= i < |a| && i < |b| :: a[..i] == b[..i] && a[i] < b[i]
  }

  lemma HexValueOrder(c: char, d: char)
    requires c in HEX_DIGITS && d in HEX_DIGITS
    ensures c < d <==> HexValue(c) < HexValue(d)
  {
  }

  lemma BeforeStep(a: string, c: char, b: string, d: char)
    requires |a| == |b|
    ensures Before(a + [c], b + [d]) <==> Before(a, b) || (a == b && c < d)
  {
    var a', b', n := a + [c], b + [d], |a|;
    assert a'[..n] == a && b'[..n] == b;
    assert forall i | 0 <= i <= n :: a'[..i] == a[..i] && b'[..i] == b[..i];
    if Before(a, b) {
      var i :| 0 <= i < n && a[..i] == b[..i] && a[i] < b[i];
      assert a'[..i] == b'[..i] && a'[i] < b'[i];
    }
    if a == b && c < d {
      assert a'[..n] == b'[..n] && a'[n] < b'[n];
    }
  }

  /** Among hex strings of one length the order of strings is the order of numbers. */
  lemma {:induction false} HexOrder(a: string, b: string)
    requires |a| == |b| && IsHex(a) && IsHex(b)
    ensures Before(a, b) <==> ParseHex(a) < ParseHex(b)
    ensures a == b <==> ParseHex(a) == ParseHex(b)
  {
    if a != "" {
      var n := |a| - 1;
      HexOrder(a[..n], b[..n]);
      HexValueOrder(a[n], b[n]);
      HexValueOrder(b[n], a[n]);
      BeforeStep(a[..n], a[n], b[..n], b[n]);
      hide Before, HexValue;
      assert a == a[..n] + [a[n]] && b == b[..n] + [b[n]];
    }
  }

  // ---- What identifiers promise ----

  /** 2^41 */
  const TIME_LIMIT: nat := 2199023255552

  lemma TimeLimitIs()
    ensures Pow2(TIME_BITS) == TIME_LIMIT
  {
    hide Pow2;
    PowersFrom(10);
  }

  lemma IdFits(ts: nat, entropy: seq<byte>)
    ensures ToBytes(IdInt(ts, entropy), 12).Some? <==> ts < Pow2(TIME_BITS)
  {
    hide IdInt, Random, ToBytes, Pow2;
    IdIsSum(ts, entropy);
    BytesFit(IdInt(ts, entropy), 12);
    Pow2Add(TIME_BITS, RANDOM_BITS);
    Packed(ts, Random(entropy), Pow2(RANDOM_BITS), Pow2(TIME_BITS));
  }

  /**
    An identifier exists exactly while the time fits 41 bits; it has 24 digits that
    decode to the time and the random number.
   */
  lemma IdRoundTrip(ts: nat, entropy: seq<byte>)
    ensures IdHex(ts, entropy).Some? <==> ts < Pow2(TIME_BITS)
    ensures IdHex(ts, entropy).Some? ==>
              var hex := IdHex(ts, entropy).value;
              && |hex| == 24 && IsHex(hex)
              && ParseHex(hex) / Pow2(RANDOM_BITS) == ts
              && ParseHex(hex) % Pow2(RANDOM_BITS) == Random(entropy)
  {
    hide IdInt, Random, ToBytes, Hexlify, ParseHex, IsHex, Pow2;
    IdFits(ts, entropy);
    if IdHex(ts, entropy).Some? {
      IdIsSum(ts, entropy);
      BytesRoundTrip(IdInt(ts, entropy), 12);
      Packed(ts, Random(entropy), Pow2(RANDOM_BITS), 0);
    }
  }

  lemma Packed(ts: nat, num: nat, unit: nat, limit: nat)
    requires num < unit
    ensures ts * unit + num < limit * unit <==> ts < limit
    ensures (ts * unit + num) / unit == ts && (ts * unit + num) % unit == num
  {
    if ts < limit {
      Times(ts + 1, limit, unit);
    } else {
      Times(limit, ts, unit);
    }
    var id := ts * unit + num;
    QuotientsUnique(ts, num, id / unit, id % unit, unit);
  }

  /** Identifiers sort as strings by time first, and by the random number within one second. */
  lemma IdsSortByTime(ts: nat, entropy: seq<byte>, ts': nat, entropy': seq<byte>)
    requires ts < TIME_LIMIT && ts' < TIME_LIMIT
    ensures IdHex(ts, entropy).Some? && IdHex(ts', entropy').Some?
    ensures Before(IdHex(ts, entropy).value, IdHex(ts', entropy').value) <==>
            ts < ts' || (ts == ts' && Random(entropy) < Random(entropy'))
    ensures IdHex(ts, entropy) == IdHex(ts', entropy') <==> ts == ts' && Random(entropy) == Random(entropy')
  {
    hide IdInt, Random, ToBytes, Hexlify, ParseHex, IsHex, Pow2, Before;
    TimeLimitIs();
    IdFits(ts, entropy);
    IdFits(ts', entropy');
    var a, b := IdHex(ts, entropy).value, IdHex(ts', entropy').value;
    IdIsSum(ts, entropy);
    IdIsSum(ts', entropy');
    BytesRoundTrip(IdInt(ts, entropy), 12);
    BytesRoundTrip(IdInt(ts', entropy'), 12);
    HexOrder(a, b);
    PackedOrder(ts, Random(entropy), ts', Random(entropy'), Pow2(RANDOM_BITS));
  }

  lemma PackedOrder(ts: nat, num: nat, ts': nat, num': nat, unit: nat)
    requires num < unit && num' < unit
    ensures ts * unit + num < ts' * unit + num' <==> ts < ts' || (ts == ts' && num < num')
    ensures ts * unit + num == ts' * unit + num' <==> ts == ts' && num == num'
  {
    if ts < ts' {
      Times(ts + 1, ts', unit);
    } else if ts' < ts {
      Times(ts' + 1, ts, unit);
    }
  }
}
