/** The library calls the exchange-string code relies on and does not implement: zlib
    compression (RFC 1950 and RFC 1951), UTF-8 text encoding and the JSON text format. Each is
    a pair of functions supplied by the caller; a predicate states the law the real library
    obeys (decoding what was encoded gives it back), and the properties that need it take it
    as a precondition. */
module Libraries {
  import opened Wrappers
  import opened PyValues

  /** `zlib.compress` and `zlib.decompress`; None when `zlib.decompress` raises `zlib.error`. */
  datatype Zlib = Zlib(compress: seq<byte> -> seq<byte>, decompress: seq<byte> -> Option<seq<byte>>)

  ghost predicate ZlibInverse(z: Zlib) {
    forall data :: z.decompress(z.compress(data)) == Some(data)
  }

  /** `str.encode()` and `bytes.decode()` with UTF-8; None when decoding raises. */
  datatype Utf8 = Utf8(encode: string -> seq<byte>, decode: seq<byte> -> Option<string>)

  ghost predicate Utf8Inverse(u: Utf8) {
    forall text :: u.decode(u.encode(text)) == Some(text)
  }

  /** `json.dumps(v, sort_keys=True, separators=(',', ':'))` (the canonical compact form) and
      `json.loads`; None when `json.loads` raises. */
  datatype JsonText = JsonText(dumps: Json -> string, loads: string -> Option<Json>)

  /** `json.loads` only builds dictionaries without repeated keys, and reading back what
      `json.dumps` wrote of a value `json.loads` produced gives a value equal (Python's `==`)
      to it. */
  ghost predicate JsonInverse(j: JsonText) {
    && (forall text :: j.loads(text).Some? ==> WellFormed(j.loads(text).value))
    && (forall text :: j.loads(text).Some? ==>
          var v := j.loads(text).value;
          j.loads(j.dumps(v)).Some? && SameJson(j.loads(j.dumps(v)).value, v))
  }

  datatype Libs = Libs(zlib: Zlib, utf8: Utf8, json: JsonText)

  ghost predicate Lawful(libs: Libs) {
    ZlibInverse(libs.zlib) && Utf8Inverse(libs.utf8) && JsonInverse(libs.json)
  }

  // ---------------------------------------------------------------------------------------
  // Libraries that obey the laws: the laws can be met, so the round trips that assume them
  // say something

  /** A lossless text encoding: each character as the three bytes of its code point. */
  function CodePoints(text: string): (b: seq<byte>)
    ensures |b| == 3 * |text|
  {
    if |text| == 0 then []
    else
      var c := text[0] as int;
      [(c / 0x1_0000) as byte, (c / 0x100 % 0x100) as byte, (c % 0x100) as byte] + CodePoints(text[1..])
  }

  /** Reads back what `CodePoints` wrote; None for bytes that are not such a text. */
  function FromCodePoints(b: seq<byte>): Option<string>
    decreases |b|
  {
    if |b| == 0 then Some("")
    else if |b| < 3 then None
    else
      var c := b[0] as int * 0x1_0000 + b[1] as int * 0x100 + b[2] as int;
      if !(0 <= c < 0xD800 || 0xE000 <= c < 0x11_0000) then None
      else
        match FromCodePoints(b[3..])
        case None => None
        case Some(rest) => Some([c as char] + rest)
  }

  lemma {:induction false} CodePointsRoundTrip(text: string)
    ensures FromCodePoints(CodePoints(text)) == Some(text)
    decreases |text|
  {
    if |text| > 0 {
      var b := CodePoints(text);
      var c := text[0] as int;
      assert b[3..] == CodePoints(text[1..]);
      ThreeBytes(c, b[0], b[1], b[2]);
      CodePointsRoundTrip(text[1..]);
      assert [c as char] + text[1..] == text;
    }
  }

  lemma ThreeBytes(c: int, b0: byte, b1: byte, b2: byte)
    requires 0 <= c < 0x11_0000
    requires b0 as int == c / 0x1_0000 && b1 as int == c / 0x100 % 0x100 && b2 as int == c % 0x100
    ensures b0 as int * 0x1_0000 + b1 as int * 0x100 + b2 as int == c
  {
  }

  /** No compression, the code-point encoding, and a JSON text format that knows only `null`. */
  const ExampleLibs: Libs := Libs(
    Zlib(data => data, data => Some(data)),
    Utf8(CodePoints, FromCodePoints),
    JsonText(_ => "null", text => if text == "null" then Some(Null) else None))

  lemma ExampleLibsLawful()
    ensures Lawful(ExampleLibs)
  {
    forall text: string ensures ExampleLibs.utf8.decode(ExampleLibs.utf8.encode(text)) == Some(text) {
      CodePointsRoundTrip(text);
    }
  }
}
