/**
 * Base64 with the standard alphabet and padding, as in section 4 of RFC 4648
 * (`base64.b64encode` / `base64.b64decode`). The decoder here is the strict
 * one: the length must be a multiple of four, padding may only close the
 * last quantum, and every other character must be in the alphabet.
 */
module Base64 {
  import opened Wrappers
  import opened Bytes

  /** The character of a 6-bit value (RFC 4648, table 1). */
  function CharOf(v: int): (c: char)
    requires 0 <= v < 64
  {
    if v < 26 then ('A' as int + v) as char
    else if v < 52 then ('a' as int + v - 26) as char
    else if v < 62 then ('0' as int + v - 52) as char
    else if v == 62 then '+'
    else '/'
  }

  /** The 6-bit value of an alphabet character; `None` for anything else, the pad `=` included. */
  function ValueOf(c: char): (r: Option<int>)
    ensures r.Some? ==> 0 <= r.value < 64
  {
    if 'A' <= c <= 'Z' then Some(c as int - 'A' as int)
    else if 'a' <= c <= 'z' then Some(c as int - 'a' as int + 26)
    else if '0' <= c <= '9' then Some(c as int - '0' as int + 52)
    else if c == '+' then Some(62)
    else if c == '/' then Some(63)
    else None
  }

  predicate InAlphabet(c: char) { ValueOf(c).Some? }

  lemma ValueOfCharOf(v: int)
    requires 0 <= v < 64
    ensures ValueOf(CharOf(v)) == Some(v)
  {
  }

  /** Three bytes become four characters. */
  function EncodeQuantum(a: byte, b: byte, c: byte): string
  {
    [CharOf(a as int / 4), CharOf((a as int % 4) * 16 + b as int / 16),
     CharOf((b as int % 16) * 4 + c as int / 64), CharOf(c as int % 64)]
  }

  /** `base64.b64encode(b).decode()` */
  function Encode(b: seq<byte>): string
  {
    if |b| < 3 then EncodeTail(b) else EncodeQuantum(b[0], b[1], b[2]) + Encode(b[3..])
  }

  /** The encoding of `n` bytes is `4 * ceil(n / 3)` characters long. */
  lemma {:induction false} EncodeLength(b: seq<byte>)
    ensures |Encode(b)| == 4 * ((|b| + 2) / 3)
    decreases |b|
  {
    if |b| >= 3 {
      EncodeLength(b[3..]);
      assert |Encode(b)| == 4 + |Encode(b[3..])|;
      ThirdStep(|b|);
    }
  }

  lemma ThirdStep(n: int)
    requires n >= 3
    ensures (n + 2) / 3 == (n - 3 + 2) / 3 + 1
  {
  }

  /** The last one or two bytes, padded to a full quantum. */
  function EncodeTail(b: seq<byte>): (s: string)
    requires |b| < 3
    ensures |s| == if b == [] then 0 else 4
  {
    if |b| == 0 then ""
    else if |b| == 1 then
      [CharOf(b[0] as int / 4), CharOf((b[0] as int % 4) * 16), '=', '=']
    else
      [CharOf(b[0] as int / 4), CharOf((b[0] as int % 4) * 16 + b[1] as int / 16),
       CharOf((b[1] as int % 16) * 4), '=']
  }

  function Byte0(s0: int, s1: int): byte
    requires 0 <= s0 < 64 && 0 <= s1 < 64
  {
    (s0 * 4 + s1 / 16) as byte
  }

  function Byte1(s1: int, s2: int): byte
    requires 0 <= s1 < 64 && 0 <= s2 < 64
  {
    ((s1 % 16) * 16 + s2 / 4) as byte
  }

  function Byte2(s2: int, s3: int): byte
    requires 0 <= s2 < 64 && 0 <= s3 < 64
  {
    ((s2 % 4) * 64 + s3) as byte
  }

  /** Four alphabet characters become three bytes. */
  function DecodeQuantum(q: string): (r: Option<seq<byte>>)
    requires |q| == 4
    ensures r.Some? ==> |r.value| == 3
  {
    match (ValueOf(q[0]), ValueOf(q[1]), ValueOf(q[2]), ValueOf(q[3]))
    case (Some(s0), Some(s1), Some(s2), Some(s3)) => Some([Byte0(s0, s1), Byte1(s1, s2), Byte2(s2, s3)])
    case _ => None
  }

  /** The last quantum, which may end in one or two pad characters. */
  function DecodeLast(q: string): (r: Option<seq<byte>>)
    requires |q| == 4
    ensures r.Some? ==> 1 <= |r.value| <= 3
  {
    if q[2] == '=' && q[3] == '=' then
      match (ValueOf(q[0]), ValueOf(q[1]))
      case (Some(s0), Some(s1)) => Some([Byte0(s0, s1)])
      case _ => None
    else if q[3] == '=' then
      match (ValueOf(q[0]), ValueOf(q[1]), ValueOf(q[2]))
      case (Some(s0), Some(s1), Some(s2)) => Some([Byte0(s0, s1), Byte1(s1, s2)])
      case _ => None
    else DecodeQuantum(q)
  }

  /** `base64.b64decode(s)` on well-formed input; `None` where the input is malformed. */
  function Decode(s: string): Option<seq<byte>>
    decreases |s|
  {
    if |s| % 4 != 0 then None
    else if s == "" then Some([])
    else if |s| == 4 then DecodeLast(s)
    else
      match DecodeQuantum(s[..4])
      case None => None
      case Some(q) =>
        match Decode(s[4..])
        case None => None
        case Some(rest) => Some(q + rest)
  }

  lemma HighLow16(x: int, y: int)
    requires 0 <= y < 16
    ensures (x * 16 + y) / 16 == x && (x * 16 + y) % 16 == y
  {
  }

  lemma HighLow4(x: int, y: int)
    requires 0 <= y < 4
    ensures (x * 4 + y) / 4 == x && (x * 4 + y) % 4 == y
  {
  }

  lemma QuantumRoundTrip(a: byte, b: byte, c: byte)
    ensures ValueOf(CharOf(a as int / 4)) == Some(a as int / 4)
    ensures Byte0(a as int / 4, (a as int % 4) * 16 + b as int / 16) == a
    ensures Byte1((a as int % 4) * 16 + b as int / 16, (b as int % 16) * 4 + c as int / 64) == b
    ensures Byte2((b as int % 16) * 4 + c as int / 64, c as int % 64) == c
  {
    HighLow16(a as int % 4, b as int / 16);
    HighLow4(b as int % 16, c as int / 64);
  }

  lemma DecodeQuantumOfEncode(a: byte, b: byte, c: byte)
    ensures DecodeQuantum(EncodeQuantum(a, b, c)) == Some([a, b, c])
    ensures DecodeLast(EncodeQuantum(a, b, c)) == Some([a, b, c])
  {
    var q := EncodeQuantum(a, b, c);
    ValueOfCharOf(a as int / 4);
    ValueOfCharOf((a as int % 4) * 16 + b as int / 16);
    ValueOfCharOf((b as int % 16) * 4 + c as int / 64);
    ValueOfCharOf(c as int % 64);
    QuantumRoundTrip(a, b, c);
  }

  lemma DecodeEncodeOne(b: seq<byte>)
    requires |b| == 1
    ensures Decode(Encode(b)) == Some(b)
  {
    var s0, s1 := b[0] as int / 4, (b[0] as int % 4) * 16;
    var s := Encode(b);
    assert s == [CharOf(s0), CharOf(s1), '=', '='];
    ValueOfCharOf(s0);
    ValueOfCharOf(s1);
    HighLow16(b[0] as int % 4, 0);
    assert Byte0(s0, s1) == b[0];
    assert DecodeLast(s) == Some([b[0]]);
    assert Decode(s) == DecodeLast(s);
    assert b == [b[0]];
  }

  lemma DecodeEncodeTwo(b: seq<byte>)
    requires |b| == 2
    ensures Decode(Encode(b)) == Some(b)
  {
    var s0, s1, s2 := b[0] as int / 4, (b[0] as int % 4) * 16 + b[1] as int / 16, (b[1] as int % 16) * 4;
    var s := Encode(b);
    assert s == [CharOf(s0), CharOf(s1), CharOf(s2), '='];
    ValueOfCharOf(s0);
    ValueOfCharOf(s1);
    ValueOfCharOf(s2);
    QuantumRoundTrip(b[0], b[1], 0);
    assert Byte0(s0, s1) == b[0] && Byte1(s1, s2) == b[1];
    assert DecodeLast(s) == Some([b[0], b[1]]);
    assert Decode(s) == DecodeLast(s);
    assert b == [b[0], b[1]];
  }

  /** A full quantum in front of a non-empty well-formed rest is decoded on its own. */
  lemma DecodeFront(q: string, t: string, front: seq<byte>, rest: seq<byte>)
    requires |q| == 4 && DecodeQuantum(q) == Some(front)
    requires |t| > 0 && Decode(t) == Some(rest)
    ensures Decode(q + t) == Some(front + rest)
  {
    var s := q + t;
    DecodedLength(t);
    PlusFour(|t|);
    assert s[..4] == q && s[4..] == t;
  }

  lemma DecodedLength(t: string)
    requires Decode(t).Some?
    ensures |t| % 4 == 0
  {
  }

  lemma PlusFour(n: nat)
    requires n % 4 == 0
    ensures (4 + n) % 4 == 0
  {
  }

  lemma DecodeEncodeThree(a: byte, b: byte, c: byte)
    ensures Decode(Encode([a, b, c])) == Some([a, b, c])
  {
    var bytes := [a, b, c];
    var q := EncodeQuantum(a, b, c);
    assert bytes[3..] == [];
    assert Encode(bytes[3..]) == "";
    assert Encode(bytes) == q + Encode(bytes[3..]);
    assert Encode(bytes) == q;
    DecodeQuantumOfEncode(a, b, c);
    DecodeOfQuantum(q);
  }

  /** Four characters on their own are the last quantum. */
  lemma DecodeOfQuantum(q: string)
    requires |q| == 4
    ensures Decode(q) == DecodeLast(q)
  {
  }

  /** Decoding undoes encoding, for every byte sequence. */
  lemma {:induction false} DecodeEncode(b: seq<byte>)
    ensures Decode(Encode(b)) == Some(b)
    decreases |b|
  {
    if |b| == 1 {
      DecodeEncodeOne(b);
    } else if |b| == 2 {
      DecodeEncodeTwo(b);
    } else if |b| == 3 {
      DecodeEncodeThree(b[0], b[1], b[2]);
      assert b == [b[0], b[1], b[2]];
    } else if |b| > 3 {
      DecodeEncode(b[3..]);
      DecodeEncodeLonger(b);
    }
  }

  lemma DecodeEncodeLonger(b: seq<byte>)
    requires |b| > 3 && Decode(Encode(b[3..])) == Some(b[3..])
    ensures Decode(Encode(b)) == Some(b)
  {
    var front, rest := [b[0], b[1], b[2]], b[3..];
    var q, e := EncodeQuantum(b[0], b[1], b[2]), Encode(rest);
    calc {
      Decode(Encode(b));
      == { assert Encode(b) == q + e; }
      Decode(q + e);
      == { DecodeQuantumOfEncode(b[0], b[1], b[2]); DecodeFront(q, e, front, rest); }
      Some(front + rest);
      == { SplitAfterThree(b); }
      Some(b);
    }
  }

  lemma SplitAfterThree(b: seq<byte>)
    requires |b| >= 3
    ensures [b[0], b[1], b[2]] + b[3..] == b
  {
  }

  /** Distinct byte sequences have distinct encodings. */
  lemma EncodeInjective(b: seq<byte>, c: seq<byte>)
    requires Encode(b) == Encode(c)
    ensures b == c
  {
    DecodeEncode(b);
    DecodeEncode(c);
  }

  /** Every character of an encoding is an alphabet character or the pad. */
  lemma {:induction false} EncodeAlphabet(b: seq<byte>)
    ensures forall i :: 0 <= i < |Encode(b)| ==> InAlphabet(Encode(b)[i]) || Encode(b)[i] == '='
    decreases |b|
  {
    if |b| >= 3 {
      EncodeAlphabet(b[3..]);
      var q := EncodeQuantum(b[0], b[1], b[2]);
      assert Encode(b) == q + Encode(b[3..]);
      forall i | 0 <= i < 4 ensures InAlphabet(q[i]) {
        ValueOfCharOf(b[0] as int / 4);
        ValueOfCharOf((b[0] as int % 4) * 16 + b[1] as int / 16);
        ValueOfCharOf((b[1] as int % 16) * 4 + b[2] as int / 64);
        ValueOfCharOf(b[2] as int % 64);
      }
    } else if |b| == 2 {
      ValueOfCharOf(b[0] as int / 4);
      ValueOfCharOf((b[0] as int % 4) * 16 + b[1] as int / 16);
      ValueOfCharOf((b[1] as int % 16) * 4);
    } else if |b| == 1 {
      ValueOfCharOf(b[0] as int / 4);
      ValueOfCharOf((b[0] as int % 4) * 16);
    }
  }

  /**
   * Decoding refuses a length that is not a multiple of four, and a
   * character outside the alphabet anywhere except `=` in the last two places.
   */
  lemma DecodeRejects(s: string)
    ensures |s| % 4 != 0 ==> Decode(s) == None
    ensures forall i :: 0 <= i < |s| && !InAlphabet(s[i]) && !(s[i] == '=' && i >= |s| - 2) ==> Decode(s) == None
  {
    forall i | 0 <= i < |s| && !InAlphabet(s[i]) && !(s[i] == '=' && i >= |s| - 2)
      ensures Decode(s) == None
    {
      DecodeRejectsAt(s, i);
    }
  }

  lemma {:induction false} DecodeRejectsAt(s: string, i: nat)
    requires i < |s| && !InAlphabet(s[i]) && !(s[i] == '=' && i >= |s| - 2)
    ensures Decode(s) == None
    decreases |s|
  {
    if |s| % 4 == 0 {
      if |s| == 4 {
        DecodeOfQuantum(s);
        QuantumRejectsAt(s, i);
      } else if i < 4 {
        assert s[..4][i] == s[i];
        InnerQuantumRejectsAt(s[..4], i);
        DecodeFrontNone(s);
      } else {
        var t := s[4..];
        assert |t| == |s| - 4 && t[i - 4] == s[i];
        assert !InAlphabet(t[i - 4]) && !(t[i - 4] == '=' && i - 4 >= |t| - 2);
        DecodeRejectsAt(t, i - 4);
        DecodeFrontNone(s);
      }
    }
  }

  /** In the last quantum: a bad character, other than padding at the end, is refused. */
  lemma QuantumRejectsAt(q: string, i: nat)
    requires |q| == 4 && i < 4 && !InAlphabet(q[i]) && !(q[i] == '=' && i >= 2)
    ensures DecodeLast(q) == None
  {
  }

  /** A quantum before the last one has no padding: any character outside the alphabet is refused. */
  lemma InnerQuantumRejectsAt(q: string, i: nat)
    requires |q| == 4 && i < 4 && !InAlphabet(q[i])
    ensures DecodeQuantum(q) == None
  {
  }

  /** A longer text decodes only when its first quantum and the rest both do. */
  lemma DecodeFrontNone(s: string)
    requires |s| % 4 == 0 && |s| > 4
    ensures DecodeQuantum(s[..4]) == None || Decode(s[4..]) == None ==> Decode(s) == None
  {
  }
}
