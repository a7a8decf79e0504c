/**
 Base 128 varints and the length-prefixed message stream written and read with them. A varint holds
 seven bits per byte, least significant first, and the top bit of every byte but the last is set.
 */
module MessageStream {
  import opened Common

  type Byte = x: int | 0 <= x < 256

  const TWO_TO_32 := 0x1_0000_0000
  const TWO_TO_63 := 0x8000_0000_0000_0000
  const TWO_TO_70 := 0x40_0000_0000_0000_0000

  // ---------------------------------------------------------------- encoding

  function Encode(v: nat): (r: seq<Byte>)
    ensures |r| >= 1
  {
    if v < 128 then [v] else [128 + v % 128] + Encode(v / 128)
  }

  lemma EncodeMore(bits: nat, value: nat)
    requires bits < 128 && value > 0
    ensures Encode(bits + 128 * value) == [128 + bits] + Encode(value)
    ensures value == value % 128 + 128 * (value / 128)
  {
    var all := bits + 128 * value;
    assert all / 128 == value && all % 128 == bits;
  }

  method EncodeVarint32(v: nat) returns (out: seq<Byte>)
    ensures out == Encode(v)
  {
    out := [];
    var bits := v % 128;
    var value := v / 128;
    while value != 0
      invariant 0 <= bits < 128 && 0 <= value && Encode(v) == out + Encode(bits + 128 * value)
      decreases value
    {
      EncodeMore(bits, value);
      out := out + [128 + bits];
      bits := value % 128;
      value := value / 128;
    }
    out := out + [bits];
  }

  // ---------------------------------------------------------------- decoding

  function Pow128(n: nat): (r: nat)
    ensures r >= 1
  {
    if n == 0 then 1 else 128 * Pow128(n - 1)
  }

  /** The number that the low seven bits of the bytes spell, least significant byte first. */
  function LittleEndian(s: seq<Byte>): nat {
    if s == [] then 0 else s[0] % 128 + 128 * LittleEndian(s[1..])
  }

  /** Position of the first byte without the continuation bit, or the length. */
  function LastByte(s: seq<Byte>): (n: nat)
    ensures n <= |s|
    ensures forall i :: 0 <= i < n ==> s[i] >= 128
    ensures n < |s| ==> s[n] < 128
  {
    if s == [] || s[0] < 128 then 0 else 1 + LastByte(s[1..])
  }

  /** The 32-bit masking: modulo 2^32, and negative from 2^63 on. */
  function Masked(x: nat): int {
    if x >= TWO_TO_63 then x % TWO_TO_32 - TWO_TO_32 else x % TWO_TO_32
  }

  /** What reading a varint gives, with the bytes left unread; end of file reads as 0 of length 0. */
  datatype VarRead = Value(value: int, count: nat, rest: seq<Byte>) | TooManyBytes(rest: seq<Byte>)

  function Decode(s: seq<Byte>): VarRead {
    var n := LastByte(s);
    if n >= 10 then TooManyBytes(s[10..])
    else if n == |s| then Value(0, 0, [])
    else Value(Masked(LittleEndian(s[..n + 1])), n + 1, s[n + 1..])
  }

  lemma Move128(x: nat, p: nat)
    ensures 128 * (x * p) == x * (128 * p)
  {
  }

  lemma {:induction false} LittleEndianSnoc(s: seq<Byte>, b: Byte)
    ensures LittleEndian(s + [b]) == LittleEndian(s) + b % 128 * Pow128(|s|)
  {
    if s == [] {
      assert [b][1..] == [];
    } else {
      LittleEndianSnoc(s[1..], b);
      assert (s + [b])[1..] == s[1..] + [b];
      Move128(b % 128, Pow128(|s| - 1));
    }
  }

  lemma {:induction false} LittleEndianBound(s: seq<Byte>)
    ensures LittleEndian(s) < Pow128(|s|)
  {
    if s == [] {
    } else {
      LittleEndianBound(s[1..]);
    }
  }

  lemma {:induction false} LastByteFrom(s: seq<Byte>, i: nat)
    requires i <= |s| && forall j :: 0 <= j < i ==> s[j] >= 128
    ensures LastByte(s) == i + LastByte(s[i..])
  {
    if i > 0 {
      LastByteFrom(s[1..], i - 1);
      assert s[1..][i - 1..] == s[i..];
    } else {
      assert s[0..] == s;
    }
  }

  /** Subtracting 2^64 does not change the low 32 bits. */
  lemma MaskNegative(x: int)
    ensures (x - 0x1_0000_0000_0000_0000) % TWO_TO_32 == x % TWO_TO_32
  {
  }

  /** How reading ends: at a byte without the continuation bit, at the end of the file, or after ten bytes. */
  lemma DecodeEnds(s: seq<Byte>, n: nat)
    requires n <= |s| && forall j :: 0 <= j < n ==> s[j] >= 128
    ensures n < 10 && n < |s| && s[n] < 128 ==> Decode(s) == Value(Masked(LittleEndian(s[..n + 1])), n + 1, s[n + 1..])
    ensures n < 10 && n == |s| ==> Decode(s) == Value(0, 0, [])
    ensures n == 10 ==> Decode(s) == TooManyBytes(s[10..])
  {
    LastByteFrom(s, n);
  }

  /** Or-ing in a shifted group of seven bits is adding it, as the bits below are all that is there so far. */
  method DecodeVarint32(s: seq<Byte>) returns (r: VarRead)
    ensures r == Decode(s)
  {
    var result, shift, pos := 0, 0, 0;
    while true
      invariant pos <= |s| && shift == 7 * pos < 64
      invariant forall j :: 0 <= j < pos ==> s[j] >= 128
      invariant result == LittleEndian(s[..pos])
      decreases |s| - pos
    {
      if pos == |s| {
        DecodeEnds(s, pos);
        return Value(0, 0, []);
      }
      var b := s[pos];
      LittleEndianBound(s[..pos]);
      assert result < Pow128(pos);
      LittleEndianSnoc(s[..pos], b);
      assert s[..pos] + [b] == s[..pos + 1];
      result := result + b % 128 * Pow128(pos);
      pos := pos + 1;
      if b < 128 {
        DecodeEnds(s, pos - 1);
        var masked := Mask(result);
        return Value(masked, pos, s[pos..]);
      }
      shift := shift + 7;
      if shift >= 64 {
        DecodeEnds(s, pos);
        return TooManyBytes(s[pos..]);
      }
    }
  }

  /** Masking as the source does it: from 2^63 on it subtracts 2^64 and sets all bits above the low 32. */
  method Mask(x: nat) returns (r: int)
    ensures r == Masked(x)
    ensures r % TWO_TO_32 == x % TWO_TO_32 && if x < TWO_TO_63 then 0 <= r < TWO_TO_32 else -TWO_TO_32 <= r < 0
  {
    if x > 0x7FFF_FFFF_FFFF_FFFF {
      MaskNegative(x);
      r := (x - 0x1_0000_0000_0000_0000) % TWO_TO_32 - TWO_TO_32;
    } else {
      r := x % TWO_TO_32;
    }
  }

  // ---------------------------------------------------------------- decoding an encoding

  lemma {:induction false} EncodeSpells(v: nat)
    ensures LittleEndian(Encode(v)) == v
  {
    var e := Encode(v);
    if v < 128 {
      assert e[1..] == [];
    } else {
      EncodeSpells(v / 128);
      assert e[1..] == Encode(v / 128);
      assert (128 + v % 128) % 128 == v % 128;
    }
  }

  lemma {:induction false} EncodeEnds(v: nat, rest: seq<Byte>)
    ensures LastByte(Encode(v) + rest) == |Encode(v)| - 1
  {
    var s := Encode(v) + rest;
    if v < 128 {
      assert s[0] < 128;
    } else {
      EncodeEnds(v / 128, rest);
      assert s[0] >= 128;
      assert s[1..] == Encode(v / 128) + rest;
    }
  }

  /** An encoding spells its number and ends at its only byte without the continuation bit. */
  lemma EncodeShape(v: nat, rest: seq<Byte>)
    ensures LittleEndian(Encode(v)) == v
    ensures LastByte(Encode(v) + rest) == |Encode(v)| - 1
  {
    EncodeSpells(v);
    EncodeEnds(v, rest);
  }

  lemma {:induction false} EncodeLength(v: nat, n: nat)
    ensures |Encode(v)| <= n + 1 <==> v < Pow128(n + 1)
  {
    if v < 128 {
      assert Pow128(n + 1) >= 128;
    } else if n == 0 {
      assert Pow128(1) == 128;
    } else {
      EncodeLength(v / 128, n - 1);
      var p := Pow128(n);
      assert v / 128 < p <==> v < 128 * p;
    }
  }

  lemma Pow128Ten()
    ensures Pow128(10) == TWO_TO_70
  {
    assert Pow128(2) == 16384;
    assert Pow128(4) == 128 * (128 * Pow128(2));
    assert Pow128(6) == 128 * (128 * Pow128(4));
    assert Pow128(8) == 128 * (128 * Pow128(6));
    assert Pow128(10) == 128 * (128 * Pow128(8));
  }

  /**
   Decoding an encoding, for every number and whatever follows: up to 2^70 it consumes exactly the
   encoding and gives the low 32 bits of the number, so the number itself below 2^32, and from 2^63 on less
   2^32; from 2^70 on it gives up after ten bytes.
   */
  lemma DecodeEncode(v: nat, rest: seq<Byte>)
    ensures v < TWO_TO_32 ==> Decode(Encode(v) + rest) == Value(v, |Encode(v)|, rest)
    ensures v < TWO_TO_63 ==> Decode(Encode(v) + rest) == Value(v % TWO_TO_32, |Encode(v)|, rest)
    ensures TWO_TO_63 <= v < TWO_TO_70 ==>
              Decode(Encode(v) + rest) == Value(v % TWO_TO_32 - TWO_TO_32, |Encode(v)|, rest)
    ensures v >= TWO_TO_70 ==> |Encode(v)| > 10 && Decode(Encode(v) + rest) == TooManyBytes(Encode(v)[10..] + rest)
  {
    TenBytes(v);
    DecodeEncoded(v, rest);
    MaskedSmall(v);
  }

  lemma TenBytes(v: nat)
    ensures |Encode(v)| <= 10 <==> v < TWO_TO_70
  {
    EncodeLength(v, 9);
    Pow128Ten();
  }

  lemma MaskedSmall(v: nat)
    ensures v < TWO_TO_32 ==> Masked(v) == v
  {
  }

  lemma DecodeEncoded(v: nat, rest: seq<Byte>)
    ensures |Encode(v)| <= 10 ==> Decode(Encode(v) + rest) == Value(Masked(v), |Encode(v)|, rest)
    ensures |Encode(v)| > 10 ==> Decode(Encode(v) + rest) == TooManyBytes(Encode(v)[10..] + rest)
  {
    var e := Encode(v);
    EncodeShape(v, rest);
    assert (e + rest)[..|e|] == e && (e + rest)[|e|..] == rest;
    if |e| > 10 {
      assert (e + rest)[10..] == e[10..] + rest;
    }
  }

  /** The digit of weight 128 to the `i`. */
  function Digit(v: nat, i: nat): nat {
    if i == 0 then v % 128 else Digit(v / 128, i - 1)
  }

  /** Byte `i` of an encoding is digit `i`, with the top bit set unless it is the last; no digit is missing. */
  lemma {:induction false} EncodeDigits(v: nat, i: nat)
    requires i < |Encode(v)|
    ensures Encode(v)[i] == Digit(v, i) + if i + 1 < |Encode(v)| then 128 else 0
    ensures v < Pow128(|Encode(v)|)
  {
    EncodeLength(v, |Encode(v)| - 1);
    if i == 0 {
    } else {
      EncodeDigits(v / 128, i - 1);
    }
  }

  lemma {:induction false} LittleEndianDigits(s: seq<Byte>, i: nat)
    requires i < |s|
    ensures Digit(LittleEndian(s), i) == s[i] % 128
  {
    var high := LittleEndian(s[1..]);
    assert (s[0] % 128 + 128 * high) % 128 == s[0] % 128 && (s[0] % 128 + 128 * high) / 128 == high;
    if i == 0 {
    } else {
      LittleEndianDigits(s[1..], i - 1);
    }
  }

  /**
   Decoding any bytes, minimal or not, up to the first byte below 128: the value has the low seven bits of
   the bytes read as its digits and no others, and comes out reduced to 32 bits, negative from 2^63 on.
   */
  lemma DecodeDigits(s: seq<Byte>, n: nat) returns (x: nat)
    requires n < 10 && n < |s| && s[n] < 128 && forall j :: 0 <= j < n ==> s[j] >= 128
    ensures x < Pow128(n + 1) && forall i: nat :: i <= n ==> Digit(x, i) == s[i] % 128
    ensures Decode(s) == Value(x % TWO_TO_32 - (if x < TWO_TO_63 then 0 else TWO_TO_32), n + 1, s[n + 1..])
  {
    x := LittleEndian(s[..n + 1]);
    DecodeEnds(s, n);
    LittleEndianBound(s[..n + 1]);
    forall i: nat | i <= n
      ensures Digit(x, i) == s[i] % 128
    {
      LittleEndianDigits(s[..n + 1], i);
    }
  }

  /** No encoding is a proper prefix of another. */
  lemma PrefixFree(v: nat, w: nat)
    requires Encode(v) <= Encode(w)
    ensures v == w
  {
    var e, f := Encode(v), Encode(w);
    EncodeShape(v, f[|e|..]);
    EncodeShape(w, []);
    assert e + f[|e|..] == f && f + [] == f;
    assert e == f;
  }

  // ---------------------------------------------------------------- messages

  function EncodeMessage(p: seq<Byte>): seq<Byte> { Encode(|p|) + p }

  /** A message, no message, or the exception that reading a negative number of bytes raises. */
  datatype MessageRead = Message(payload: seq<Byte>, rest: seq<Byte>) | NoMessage | ReadError

  /** What a file read of `size` bytes returns: -1 means all that is left, anything below is refused. */
  function ReadBytes(s: seq<Byte>, size: int): (r: Option<seq<Byte>>)
    ensures r.None? <==> size < -1
    ensures r.Some? ==> |r.value| <= |s| && r.value == s[..|r.value|]
  {
    if size < -1 then None
    else if size == -1 then Some(s)
    else Some(s[..Min(size, |s|)])
  }

  function DecodeMessage(s: seq<Byte>): (r: MessageRead)
    ensures r.Message? ==> |r.rest| < |s|
  {
    match Decode(s)
    case TooManyBytes(_) => NoMessage
    case Value(size, _, rest) =>
      if size == 0 then NoMessage
      else
        match ReadBytes(rest, size)
        case None => ReadError
        case Some(buf) => Message(buf, rest[|buf|..])
  }

  /** All messages a reader gets, and whether it ends in the exception instead of a clean end. */
  datatype Session = Session(messages: seq<seq<Byte>>, failed: bool)

  function ReadAll(s: seq<Byte>): Session
    decreases |s|
  {
    match DecodeMessage(s)
    case NoMessage => Session([], false)
    case ReadError => Session([], true)
    case Message(p, rest) =>
      var more := ReadAll(rest);
      Session([p] + more.messages, more.failed)
  }

  function WriteAll(ps: seq<seq<Byte>>): seq<Byte> {
    if ps == [] then [] else EncodeMessage(ps[0]) + WriteAll(ps[1..])
  }

  /** A prefix of ten bytes whose value masks to less than -1. */
  ghost predicate RefusedPrefix(s: seq<Byte>) {
    var n := LastByte(s);
    n < |s| && n < 10 && var x := LittleEndian(s[..n + 1]); x >= TWO_TO_63 && x % TWO_TO_32 != TWO_TO_32 - 1
  }

  /**
   Reading ends in the exception exactly when the length prefix spells a number from 2^63 on whose low 32
   bits are not all set.
   */
  lemma ReadFailsExactlyWhen(s: seq<Byte>)
    ensures DecodeMessage(s).ReadError? <==> RefusedPrefix(s)
    ensures RefusedPrefix(s) ==> LastByte(s) == 9
  {
    var n := LastByte(s);
    if n < |s| && n < 10 {
      var x := LittleEndian(s[..n + 1]);
      LittleEndianBound(s[..n + 1]);
      Pow128Nine(n + 1);
      MaskedSign(x);
    }
  }

  lemma {:induction false} Pow128Grows(m: nat, n: nat)
    requires m <= n
    ensures Pow128(m) <= Pow128(n)
  {
    if m == n {
    } else {
      Pow128Grows(m, n - 1);
    }
  }

  lemma Pow128Nine(n: nat)
    ensures n <= 9 ==> Pow128(n) <= TWO_TO_63
  {
    if n <= 9 {
      Pow128Grows(n, 9);
      Pow128Ten();
      assert Pow128(10) == 128 * Pow128(9);
    }
  }

  lemma MaskedSign(x: nat)
    ensures Masked(x) < -1 <==> x >= TWO_TO_63 && x % TWO_TO_32 != TWO_TO_32 - 1
    ensures Masked(x) == -1 <==> x >= TWO_TO_63 && x % TWO_TO_32 == TWO_TO_32 - 1
  {
  }

  /** Nine bytes 0x80 and a byte 0x01, the encoding of 2^63, are such a prefix, whatever follows. */
  lemma ReadFailsFor(rest: seq<Byte>)
    ensures RefusedPrefix(Encode(TWO_TO_63) + rest) && ReadAll(Encode(TWO_TO_63) + rest) == Session([], true)
  {
    var s := Encode(TWO_TO_63) + rest;
    DecodeEncode(TWO_TO_63, rest);
    MaskedSign(TWO_TO_63);
    assert DecodeMessage(s) == ReadError;
    ReadFailsExactlyWhen(s);
  }

  /**
   One message survives writing and reading exactly when its length is from 1 to 2^32 - 1; or when the
   length reads as -1, so all that is left is read, and nothing follows. Its length makes reading fail
   exactly when it reads as less than -1.
   */
  lemma MessageSurvivesExactlyWhen(p: seq<Byte>, rest: seq<Byte>)
    ensures DecodeMessage(EncodeMessage(p) + rest) == Message(p, rest) <==>
              || 1 <= |p| < TWO_TO_32
              || (TWO_TO_63 <= |p| < TWO_TO_70 && |p| % TWO_TO_32 == TWO_TO_32 - 1 && rest == [])
    ensures DecodeMessage(EncodeMessage(p) + rest) == ReadError <==>
              TWO_TO_63 <= |p| < TWO_TO_70 && |p| % TWO_TO_32 != TWO_TO_32 - 1
  {
    assert EncodeMessage(p) + rest == Encode(|p|) + (p + rest);
    DecodeEncode(|p|, p + rest);
    MaskedSign(|p|);
    if |p| < TWO_TO_70 {
      ReadPayload(p, rest, Masked(|p|));
    }
  }

  /** What a read of `size` bytes takes of a payload with more behind it. */
  lemma ReadPayload(p: seq<Byte>, rest: seq<Byte>, size: int)
    ensures size == |p| ==> ReadBytes(p + rest, size) == Some(p) && (p + rest)[|p|..] == rest
    ensures 0 <= size < |p| ==> ReadBytes(p + rest, size).value != p
    ensures size == -1 ==> (ReadBytes(p + rest, size) == Some(p) <==> rest == []) && (p + rest)[|p + rest|..] == []
  {
    assert (p + rest)[..|p|] == p && (p + rest)[|p|..] == rest;
    assert rest == [] ==> p + rest == p;
    if 0 <= size < |p| {
      assert |ReadBytes(p + rest, size).value| == size;
    }
  }

  lemma ReadPart(p: seq<Byte>, rest: seq<Byte>, k: nat)
    requires k <= |p|
    ensures ReadBytes(p + rest, k) == Some(p[..k]) && (p + rest)[k..] == p[k..] + rest
  {
    assert (p + rest)[..k] == p[..k];
  }

  /**
   What reading makes of a written message of any length: the length is taken modulo 2^32, so longer payloads
   are cut there and the rest of the stream starts inside them; from 2^63 on everything left is read or the
   read is refused, and from 2^70 on the prefix is given up.
   */
  lemma MessageReads(p: seq<Byte>, rest: seq<Byte>)
    ensures var r := DecodeMessage(EncodeMessage(p) + rest); var low := |p| % TWO_TO_32;
            && low <= |p|
            && (|p| < TWO_TO_63 && low > 0 ==> r == Message(p[..low], p[low..] + rest))
            && (|p| < TWO_TO_63 && low == 0 ==> r == NoMessage)
            && (TWO_TO_63 <= |p| < TWO_TO_70 ==> r == if low == TWO_TO_32 - 1 then Message(p + rest, []) else ReadError)
            && (|p| >= TWO_TO_70 ==> r == NoMessage)
  {
    assert EncodeMessage(p) + rest == Encode(|p|) + (p + rest);
    DecodeEncode(|p|, p + rest);
    ReadPart(p, rest, |p| % TWO_TO_32);
  }

  lemma ReadOne(p: seq<Byte>, rest: seq<Byte>)
    requires 1 <= |p| < TWO_TO_32
    ensures ReadAll(EncodeMessage(p) + rest) == Session([p] + ReadAll(rest).messages, ReadAll(rest).failed)
  {
    MessageSurvivesExactlyWhen(p, rest);
  }

  /** Reading what was written gives the messages back, then whatever the rest of the stream holds. */
  lemma {:induction false} ReadWritten(ps: seq<seq<Byte>>, tail: seq<Byte>)
    requires forall i :: 0 <= i < |ps| ==> 1 <= |ps[i]| < TWO_TO_32
    ensures ReadAll(WriteAll(ps) + tail) == Session(ps + ReadAll(tail).messages, ReadAll(tail).failed)
  {
    if ps == [] {
      assert WriteAll(ps) + tail == tail;
      assert [] + ReadAll(tail).messages == ReadAll(tail).messages;
    } else {
      ReadWritten(ps[1..], tail);
      ReadFirst(ps, tail, ReadAll(tail));
    }
  }

  lemma ReadFirst(ps: seq<seq<Byte>>, tail: seq<Byte>, more: Session)
    requires ps != [] && 1 <= |ps[0]| < TWO_TO_32
    requires ReadAll(WriteAll(ps[1..]) + tail) == Session(ps[1..] + more.messages, more.failed)
    ensures ReadAll(WriteAll(ps) + tail) == Session(ps + more.messages, more.failed)
  {
    calc {
      ReadAll(WriteAll(ps) + tail);
      { WriteAllFirst(ps, tail); }
      ReadAll(EncodeMessage(ps[0]) + (WriteAll(ps[1..]) + tail));
      { ReadOne(ps[0], WriteAll(ps[1..]) + tail); }
      Session([ps[0]] + (ps[1..] + more.messages), more.failed);
      { Assoc(ps, more.messages); }
      Session(ps + more.messages, more.failed);
    }
  }

  lemma Assoc<T>(ps: seq<T>, more: seq<T>)
    requires ps != []
    ensures [ps[0]] + (ps[1..] + more) == ps + more
  {
  }

  lemma WriteAllFirst(ps: seq<seq<Byte>>, tail: seq<Byte>)
    requires ps != []
    ensures WriteAll(ps) + tail == EncodeMessage(ps[0]) + (WriteAll(ps[1..]) + tail)
  {
  }

  /** A stream that was written and not cut reads back as written, and then ends. */
  lemma RoundTrip(ps: seq<seq<Byte>>)
    requires forall i :: 0 <= i < |ps| ==> 1 <= |ps[i]| < TWO_TO_32
    ensures ReadAll(WriteAll(ps)) == Session(ps, false)
  {
    ReadWritten(ps, []);
    assert WriteAll(ps) + [] == WriteAll(ps);
    assert ReadAll([]) == Session([], false);
    assert ps + [] == ps;
  }

  /** An empty payload ends the stream with the messages before it. */
  lemma EmptyPayloadEnds(ps: seq<seq<Byte>>, after: seq<Byte>)
    requires forall i :: 0 <= i < |ps| ==> 1 <= |ps[i]| < TWO_TO_32
    ensures ReadAll(WriteAll(ps) + (EncodeMessage([]) + after)) == Session(ps, false)
  {
    ReadWritten(ps, EncodeMessage([]) + after);
    NothingAfterEmpty(after);
    assert ps + [] == ps;
  }

  lemma NothingAfterEmpty(after: seq<Byte>)
    ensures ReadAll(EncodeMessage([]) + after) == Session([], false)
  {
    assert EncodeMessage([]) + after == Encode(0) + after;
    DecodeEncode(0, after);
  }

  /** A cut inside a length prefix ends the stream with the messages before it. */
  lemma CutPrefixEnds(ps: seq<seq<Byte>>, n: nat, k: nat)
    requires forall i :: 0 <= i < |ps| ==> 1 <= |ps[i]| < TWO_TO_32
    requires k < |Encode(n)|
    ensures ReadAll(WriteAll(ps) + Encode(n)[..k]) == Session(ps, false)
  {
    ReadWritten(ps, Encode(n)[..k]);
    CutPrefix(n, k);
    assert ps + [] == ps;
  }

  lemma CutPrefix(n: nat, k: nat)
    requires k < |Encode(n)|
    ensures DecodeMessage(Encode(n)[..k]) == NoMessage
  {
    EncodeShape(n, []);
    var s := Encode(n)[..k];
    assert Encode(n) + [] == Encode(n);
    LastByteFrom(s, k);
    assert s[k..] == [];
  }

  /** A cut inside a payload is not noticed: the reader gets the bytes that are left as a message. */
  lemma CutPayload(p: seq<Byte>, k: nat)
    requires k < |p| < TWO_TO_32
    ensures DecodeMessage(Encode(|p|) + p[..k]) == Message(p[..k], [])
  {
    DecodeEncode(|p|, p[..k]);
    assert p[..k][..k] == p[..k] && p[..k][k..] == [];
  }

  method EncodeMessageBytes(p: seq<Byte>) returns (out: seq<Byte>)
    ensures out == EncodeMessage(p)
  {
    var prefix := EncodeVarint32(|p|);
    out := prefix + p;
  }

  method DecodeMessageFrom(s: seq<Byte>) returns (r: MessageRead)
    ensures r == DecodeMessage(s)
  {
    var v := DecodeVarint32(s);
    if v.TooManyBytes? || v.value == 0 {
      return NoMessage;
    }
    var buf := ReadBytes(v.rest, v.value);
    if buf.None? {
      return ReadError;
    }
    r := Message(buf.value, v.rest[|buf.value|..]);
  }
}
