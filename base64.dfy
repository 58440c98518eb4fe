/** Padded base64 (section 4 of RFC 4648), the encoding the verify handler
    applies to the claims before it writes them into the `Authorization`
    request header (`ngx_encode_base64`, sized by `ngx_base64_encoded_length`). */
module Base64 {
  import opened Octets

  /** Output size for `n` input bytes: four symbols per started group of three. */
  function EncodedLength(n: nat): nat {
    (n + 2) / 3 * 4
  }

  /** The symbol for a 6-bit value (Table 1 of RFC 4648). */
  function Symbol(v: int): byte
    requires 0 <= v < 64
  {
    if v < 26 then 'A' as int + v
    else if v < 52 then 'a' as int + (v - 26)
    else if v < 62 then '0' as int + (v - 52)
    else if v == 62 then '+' as int
    else '/' as int
  }

  const Pad: byte := '=' as int

  /** The 6-bit value of a symbol; None for the pad byte and for bytes outside
      the alphabet. */
  function Value(c: byte): (r: Option<int>)
    ensures r.Some? ==> 0 <= r.value < 64 && Symbol(r.value) == c
    ensures c == Pad ==> r.None?
  {
    if 'A' as int <= c <= 'Z' as int then Some(c - 'A' as int)
    else if 'a' as int <= c <= 'z' as int then Some(c - 'a' as int + 26)
    else if '0' as int <= c <= '9' as int then Some(c - '0' as int + 52)
    else if c == '+' as int then Some(62)
    else if c == '/' as int then Some(63)
    else None
  }

  lemma ValueOfSymbol(v: int)
    requires 0 <= v < 64
    ensures Value(Symbol(v)) == Some(v)
  {
  }

  /** Padded base64 of `s`: each group of three bytes becomes four symbols,
      and a final group of one or two bytes is padded to four with `=`. */
  function Encode(s: seq<byte>): (r: seq<byte>)
    ensures |r| == EncodedLength(|s|)
    decreases |s|
  {
    if |s| == 0 then []
    else if |s| == 1 then Final1(s[0])
    else if |s| == 2 then Final2(s[0], s[1])
    else
      assert (|s| + 2) / 3 == (|s| - 1) / 3 + 1;
      Group(s[0], s[1], s[2]) + Encode(s[3..])
  }

  /** The four symbols for three full input bytes. */
  function Group(a: byte, b: byte, c: byte): seq<byte> {
    [Symbol(a / 4), Symbol(a % 4 * 16 + b / 16), Symbol(b % 16 * 4 + c / 64), Symbol(c % 64)]
  }

  /** A final group of one byte: two symbols and two pads. */
  function Final1(a: byte): seq<byte> {
    [Symbol(a / 4), Symbol(a % 4 * 16), Pad, Pad]
  }

  /** A final group of two bytes: three symbols and one pad. */
  function Final2(a: byte, b: byte): seq<byte> {
    [Symbol(a / 4), Symbol(a % 4 * 16 + b / 16), Symbol(b % 16 * 4), Pad]
  }

  /** One group of four symbols; padding is accepted only in the final group. */
  function DecodeGroup(q: seq<byte>, final: bool): Option<seq<byte>>
    requires |q| == 4
  {
    match (Value(q[0]), Value(q[1]), Value(q[2]), Value(q[3]))
    case (Some(a), Some(b), Some(c), Some(d)) =>
      Some([a * 4 + b / 16, b % 16 * 16 + c / 4, c % 4 * 64 + d])
    case (Some(a), Some(b), Some(c), None) =>
      if final && q[3] == Pad then Some([a * 4 + b / 16, b % 16 * 16 + c / 4]) else None
    case (Some(a), Some(b), None, None) =>
      if final && q[2] == Pad && q[3] == Pad then Some([a * 4 + b / 16]) else None
    case _ => None
  }

  /** Padded base64 decoding, group by group; None for malformed input. */
  function Decode(t: seq<byte>): Option<seq<byte>>
    decreases |t|
  {
    if |t| == 0 then Some([])
    else if |t| < 4 then None
    else match DecodeGroup(t[..4], |t| == 4)
      case None => None
      case Some(g) =>
        match Decode(t[4..])
        case None => None
        case Some(rest) => Some(g + rest)
  }

  /** The bit arithmetic of one group: the four 6-bit values a group of three
      bytes is cut into put the three bytes back together. */
  lemma SplitThree(a: byte, b: byte, c: byte)
    ensures 0 <= a % 4 * 16 + b / 16 < 64 && 0 <= b % 16 * 4 + c / 64 < 64
    ensures a / 4 * 4 + (a % 4 * 16 + b / 16) / 16 == a
    ensures (a % 4 * 16 + b / 16) % 16 * 16 + (b % 16 * 4 + c / 64) / 4 == b
    ensures (b % 16 * 4 + c / 64) % 4 * 64 + c % 64 == c
  {
    var x1, x2 := a % 4 * 16 + b / 16, b % 16 * 4 + c / 64;
    assert x1 / 16 == a % 4 && x1 % 16 == b / 16;
    assert x2 / 4 == b % 16 && x2 % 4 == c / 64;
  }

  lemma GroupOfThree(a: byte, b: byte, c: byte, final: bool)
    ensures DecodeGroup(Group(a, b, c), final) == Some([a, b, c])
  {
    var x0, x1, x2, x3 := a / 4, a % 4 * 16 + b / 16, b % 16 * 4 + c / 64, c % 64;
    SplitThree(a, b, c);
    ValueOfSymbol(x0);
    ValueOfSymbol(x1);
    ValueOfSymbol(x2);
    ValueOfSymbol(x3);
    assert Group(a, b, c) == [Symbol(x0), Symbol(x1), Symbol(x2), Symbol(x3)];
  }

  lemma FinalGroupOfOne(a: byte)
    ensures Decode(Final1(a)) == Some([a])
  {
    var e := Final1(a);
    SplitThree(a, 0, 0);
    ValueOfSymbol(a / 4);
    ValueOfSymbol(a % 4 * 16);
    assert DecodeGroup(e, true) == Some([a]);
    assert e[..4] == e && e[4..] == [];
    assert [a] + [] == [a];
  }

  lemma FinalGroupOfTwo(a: byte, b: byte)
    ensures Decode(Final2(a, b)) == Some([a, b])
  {
    var e := Final2(a, b);
    SplitThree(a, b, 0);
    ValueOfSymbol(a / 4);
    ValueOfSymbol(a % 4 * 16 + b / 16);
    ValueOfSymbol(b % 16 * 4);
    assert DecodeGroup(e, true) == Some([a, b]);
    assert e[..4] == e && e[4..] == [];
    assert [a, b] + [] == [a, b];
  }

  lemma LeadingGroup(a: byte, b: byte, c: byte, t: seq<byte>, rest: seq<byte>)
    requires Decode(t) == Some(rest)
    ensures Decode(Group(a, b, c) + t) == Some([a, b, c] + rest)
  {
    var e := Group(a, b, c) + t;
    GroupOfThree(a, b, c, |e| == 4);
    assert e[..4] == Group(a, b, c);
    assert e[4..] == t;
  }

  /** Decoding undoes encoding, so the claims written into the header can be
      recovered exactly from it. */
  lemma {:induction false} DecodeEncode(s: seq<byte>)
    ensures Decode(Encode(s)) == Some(s)
    decreases |s|
  {
    if |s| == 1 {
      assert s == [s[0]] && Encode(s) == Final1(s[0]);
      FinalGroupOfOne(s[0]);
    } else if |s| == 2 {
      assert s == [s[0], s[1]] && Encode(s) == Final2(s[0], s[1]);
      FinalGroupOfTwo(s[0], s[1]);
    } else if |s| >= 3 {
      DecodeEncode(s[3..]);
      LeadingGroup(s[0], s[1], s[2], Encode(s[3..]), s[3..]);
      assert Encode(s) == Group(s[0], s[1], s[2]) + Encode(s[3..]);
      assert [s[0], s[1], s[2]] + s[3..] == s;
    }
  }
}
