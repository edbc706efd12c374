/** Base64 as the code gets it from Python's `base64` module: `b64encode` writes the standard
    alphabet of section 4 of RFC 4648 with '=' padding, and `b64decode` (without `validate`)
    is CPython's lenient `binascii.a2b_base64`: it refuses a non-ASCII argument, skips every
    character outside the alphabet, stops at a complete padding sequence, and fails on a
    truncated final group. */
module Base64 {
  import opened Wrappers
  import opened PyValues

  /** The character that encodes the 6-bit value `v`. */
  function CharOf(v: nat): (c: char)
    requires v < 64
    ensures c as int < 128 && c != '='
  {
    if v < 26 then ('A' as int + v) as char
    else if v < 52 then ('a' as int + (v - 26)) as char
    else if v < 62 then ('0' as int + (v - 52)) as char
    else if v == 62 then '+'
    else '/'
  }

  /** The 6-bit value a character of the alphabet encodes; None for every other character. */
  function SextetOf(c: char): (r: Option<nat>)
    ensures r.Some? ==> r.value < 64
  {
    if 'A' <= c <= 'Z' then Some(c as int - 'A' as int)
    else if 'a' <= c <= 'z' then Some(c as int - 'a' as int + 26)
    else if '0' <= c <= '9' then Some(c as int - '0' as int + 52)
    else if c == '+' then Some(62)
    else if c == '/' then Some(63)
    else None
  }

  lemma SextetOfCharOf(v: nat)
    requires v < 64
    ensures SextetOf(CharOf(v)) == Some(v)
  {
  }

  /** The four characters that encode three bytes. */
  function Quad(b0: byte, b1: byte, b2: byte): string
  {
    [ CharOf(b0 as int / 4),
      CharOf(b0 as int % 4 * 16 + b1 as int / 16),
      CharOf(b1 as int % 16 * 4 + b2 as int / 64),
      CharOf(b2 as int % 64) ]
  }

  predicate IsAscii(s: string) {
    forall k :: 0 <= k < |s| ==> s[k] as int < 128
  }

  /** `base64.b64encode`: every three bytes become four characters; a final group of one or
      two bytes is completed with "==" or "=". */
  function Encode(b: seq<byte>): (r: string)
    ensures |r| == 4 * ((|b| + 2) / 3)
    decreases |b|
  {
    if |b| == 0 then ""
    else if |b| == 1 then
      [CharOf(b[0] as int / 4), CharOf(b[0] as int % 4 * 16), '=', '=']
    else if |b| == 2 then
      [ CharOf(b[0] as int / 4),
        CharOf(b[0] as int % 4 * 16 + b[1] as int / 16),
        CharOf(b[1] as int % 16 * 4),
        '=' ]
    else
      Quad(b[0], b[1], b[2]) + Encode(b[3..])
  }

  /** The decoder's registers: the position in the current group of four, the bits of the
      group not yet emitted, the number of '=' seen in a row, and the bytes emitted so far. */
  datatype A2bState = A2bState(quad: nat, left: nat, pads: nat, out: seq<byte>)

  predicate ValidState(st: A2bState) {
    && st.quad < 4
    && (st.quad == 0 ==> st.left == 0)
    && (st.quad == 1 ==> st.left < 64)
    && (st.quad == 2 ==> st.left < 16)
    && (st.quad == 3 ==> st.left < 4)
  }

  /** One character of the alphabet, of value `v`, fed to the decoder. */
  function Feed(st: A2bState, v: nat): (r: A2bState)
    requires ValidState(st) && v < 64
    ensures ValidState(r) && r.pads == 0
    ensures r.quad == (st.quad + 1) % 4
    ensures |r.out| == |st.out| + (if st.quad == 0 then 0 else 1)
  {
    match st.quad
    case 0 => A2bState(1, v, 0, st.out)
    case 1 => A2bState(2, v % 16, 0, st.out + [(st.left * 4 + v / 16) as byte])
    case 2 => A2bState(3, v % 4, 0, st.out + [(st.left * 16 + v / 4) as byte])
    case _ => A2bState(0, 0, 0, st.out + [(st.left * 64 + v) as byte])
  }

  /** The decoding loop of `binascii.a2b_base64`, from state `st` over the characters `s`. */
  function A2b(s: string, st: A2bState): (r: Result<seq<byte>, Error>)
    requires ValidState(st)
    ensures r.Ok? ==> st.out <= r.value
    ensures r.Err? ==> r.error == Base64Error
    decreases |s|
  {
    if |s| == 0 then
      if st.quad == 0 then Ok(st.out) else Err(Base64Error)
    else if s[0] == '=' then
      if st.quad >= 2 && st.quad + st.pads + 1 >= 4 then Ok(st.out)
      else A2b(s[1..], if st.quad >= 2 then st.(pads := st.pads + 1) else st)
    else
      match SextetOf(s[0])
      case None => A2b(s[1..], st)
      case Some(v) => A2b(s[1..], Feed(st, v))
  }

  /** The decoder's registers before the first character. */
  const Start: A2bState := A2bState(0, 0, 0, [])

  /** `base64.b64decode(s)`. */
  function Decode(s: string): (r: Result<seq<byte>, Error>)
    ensures !IsAscii(s) ==> r == Err(ValueError)
  {
    if !IsAscii(s) then Err(ValueError) else A2b(s, Start)
  }

  /** One character of the alphabet feeds its value to the decoder. */
  lemma A2bData(c: char, t: string, st: A2bState, v: nat)
    requires ValidState(st) && v < 64 && SextetOf(c) == Some(v)
    ensures A2b([c] + t, st) == A2b(t, Feed(st, v))
  {
    assert ([c] + t)[1..] == t;
  }

  /** The arithmetic of one group: the sextets the encoder takes from three bytes give the
      bytes back under the decoder's shifts. */
  lemma GroupArithmetic(x0: int, x1: int, x2: int)
    requires 0 <= x0 < 256 && 0 <= x1 < 256 && 0 <= x2 < 256
    ensures (x0 / 4) * 4 + (x0 % 4 * 16 + x1 / 16) / 16 == x0
    ensures (x0 % 4 * 16 + x1 / 16) % 16 == x1 / 16
    ensures (x1 / 16) * 16 + (x1 % 16 * 4 + x2 / 64) / 4 == x1
    ensures (x1 % 16 * 4 + x2 / 64) % 4 == x2 / 64
    ensures (x2 / 64) * 64 + x2 % 64 == x2
  {
  }

  /** Decoding the four characters of a full group appends its three bytes. */
  lemma QuadDecodes(b0: byte, b1: byte, b2: byte, rest: string, st: A2bState)
    requires ValidState(st) && st.quad == 0
    ensures A2b(Quad(b0, b1, b2) + rest, st) == A2b(rest, A2bState(0, 0, 0, st.out + [b0, b1, b2]))
  {
    var x0, x1, x2 := b0 as int, b1 as int, b2 as int;
    var v0, v1, v2, v3 := x0 / 4, x0 % 4 * 16 + x1 / 16, x1 % 16 * 4 + x2 / 64, x2 % 64;
    GroupArithmetic(x0, x1, x2);
    var q := Quad(b0, b1, b2);
    SextetOfCharOf(v0); SextetOfCharOf(v1); SextetOfCharOf(v2); SextetOfCharOf(v3);
    var s1 := Feed(st, v0);
    var s2 := Feed(s1, v1);
    var s3 := Feed(s2, v2);
    var s4 := Feed(s3, v3);
    assert s4 == A2bState(0, 0, 0, st.out + [b0, b1, b2]);
    assert q + rest == [q[0]] + ([q[1]] + ([q[2]] + ([q[3]] + rest)));
    A2bData(q[0], [q[1]] + ([q[2]] + ([q[3]] + rest)), st, v0);
    A2bData(q[1], [q[2]] + ([q[3]] + rest), s1, v1);
    A2bData(q[2], [q[3]] + rest, s2, v2);
    A2bData(q[3], rest, s3, v3);
  }

  /** `Encode` writes only ASCII characters. */
  lemma {:induction false} EncodeIsAscii(b: seq<byte>)
    ensures IsAscii(Encode(b))
    decreases |b|
  {
    if |b| >= 3 {
      EncodeIsAscii(b[3..]);
      var q, r := Quad(b[0], b[1], b[2]), Encode(b[3..]);
      assert Encode(b) == q + r;
      assert forall k :: 0 <= k < |q + r| ==> (q + r)[k] == if k < 4 then q[k] else r[k - 4];
    }
  }

  /** One character of the alphabet at the head of the input feeds its value to the decoder. */
  lemma A2bHead(s: string, st: A2bState, v: nat)
    requires ValidState(st) && |s| > 0 && v < 64 && SextetOf(s[0]) == Some(v)
    ensures A2b(s, st) == A2b(s[1..], Feed(st, v))
  {
  }

  /** "==" after two characters of a group ends the decoding. */
  lemma A2bPadPad(st: A2bState)
    requires ValidState(st) && st.quad == 2 && st.pads == 0
    ensures A2b("==", st) == Ok(st.out)
  {
    assert "=="[1..] == "=";
  }

  /** "=" after three characters of a group ends the decoding. */
  lemma A2bPad(st: A2bState)
    requires ValidState(st) && st.quad == 3
    ensures A2b("=", st) == Ok(st.out)
  {
  }

  /** A final group of one byte, "xy==", decodes to that byte and stops at the padding. */
  lemma TailOneDecodes(x0: byte, st: A2bState)
    requires ValidState(st) && st.quad == 0
    ensures A2b([CharOf(x0 as int / 4), CharOf(x0 as int % 4 * 16), '=', '='], st) == Ok(st.out + [x0])
  {
    var v0, v1 := x0 as int / 4, x0 as int % 4 * 16;
    var s := [CharOf(v0), CharOf(v1), '=', '='];
    SextetOfCharOf(v0); SextetOfCharOf(v1);
    var s1 := Feed(st, v0);
    var s2 := Feed(s1, v1);
    assert s2.out == st.out + [x0];
    A2bHead(s, st, v0);
    assert s[1..] == [CharOf(v1), '=', '='];
    A2bHead(s[1..], s1, v1);
    assert s[1..][1..] == "==";
    A2bPadPad(s2);
  }

  /** A final group of two bytes, "xyz=", decodes to those bytes and stops at the padding. */
  lemma TailTwoDecodes(x0: byte, x1: byte, st: A2bState)
    requires ValidState(st) && st.quad == 0
    ensures A2b([CharOf(x0 as int / 4), CharOf(x0 as int % 4 * 16 + x1 as int / 16), CharOf(x1 as int % 16 * 4), '='], st)
         == Ok(st.out + [x0, x1])
  {
    var v0, v1, v2 := x0 as int / 4, x0 as int % 4 * 16 + x1 as int / 16, x1 as int % 16 * 4;
    var s := [CharOf(v0), CharOf(v1), CharOf(v2), '='];
    GroupArithmetic(x0 as int, x1 as int, 0);
    SextetOfCharOf(v0); SextetOfCharOf(v1); SextetOfCharOf(v2);
    var s1 := Feed(st, v0);
    var s2 := Feed(s1, v1);
    var s3 := Feed(s2, v2);
    assert s3.out == st.out + [x0, x1];
    A2bHead(s, st, v0);
    assert s[1..] == [CharOf(v1), CharOf(v2), '='];
    A2bHead(s[1..], s1, v1);
    assert s[1..][1..] == [CharOf(v2), '='];
    A2bHead(s[1..][1..], s2, v2);
    assert s[1..][1..][1..] == "=";
    A2bPad(s3);
  }

  /** Decoding what `Encode` wrote, from the start of a group, appends the encoded bytes. */
  lemma {:induction false} A2bEncode(b: seq<byte>, st: A2bState)
    requires ValidState(st) && st.quad == 0
    ensures A2b(Encode(b), st) == Ok(st.out + b)
    decreases |b|
  {
    if |b| == 0 {
      assert st.out + b == st.out;
    } else if |b| == 1 {
      TailOneDecodes(b[0], st);
      assert [b[0]] == b;
    } else if |b| == 2 {
      TailTwoDecodes(b[0], b[1], st);
      assert [b[0], b[1]] == b;
    } else {
      var next := A2bState(0, 0, 0, st.out + [b[0], b[1], b[2]]);
      assert Encode(b) == Quad(b[0], b[1], b[2]) + Encode(b[3..]);
      QuadDecodes(b[0], b[1], b[2], Encode(b[3..]), st);
      A2bEncode(b[3..], next);
      GroupsJoin(st.out, b);
    }
  }

  lemma GroupsJoin(out: seq<byte>, b: seq<byte>)
    requires |b| >= 3
    ensures out + [b[0], b[1], b[2]] + b[3..] == out + b
  {
    assert [b[0], b[1], b[2]] + b[3..] == b;
  }

  /** `b64decode(b64encode(b)) == b`. */
  lemma DecodeEncode(b: seq<byte>)
    ensures Decode(Encode(b)) == Ok(b)
  {
    EncodeIsAscii(b);
    A2bEncode(b, Start);
    assert [] + b == b;
  }
}
