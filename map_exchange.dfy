/** Map exchange strings (factorio_game/exchange_string/maps.py): the ">>>payload<<<" frame
    around base64 data that is zlib-compressed from game version 0.16 on and raw before, and
    the game version stored little-endian in the first eight bytes of the map data. */
module MapExchange {
  import opened Wrappers
  import opened PyValues
  import opened Decimal
  import Base64
  import opened Libraries

  const Opening: string := ">>>"
  const Closing: string := "<<<"

  /** The three assertions of `parse_exchange_string`: at least six characters, opening with
      ">>>" and closing with "<<<". */
  predicate Framed(s: string) {
    |s| >= 6 && s[..3] == Opening && s[|s| - 3..] == Closing
  }

  /** The frame's content, `s[3:-3]`. */
  function Payload(s: string): string
    requires Framed(s)
  {
    s[3..|s| - 3]
  }

  /** `parse_exchange_string` of maps.py: the map data and whether it was compressed. */
  function ParseMapExchangeString(s: string, zlib: Zlib): (r: Result<(seq<byte>, bool), Error>)
    ensures !Framed(s) ==> r == Err(AssertionError)
    ensures Framed(s) ==> (r.Ok? <==> Base64.Decode(Payload(s)).Ok?)
    ensures Framed(s) && Base64.Decode(Payload(s)).Err? ==> r == Err(Base64.Decode(Payload(s)).error)
    ensures r.Ok? ==>
              var raw := Base64.Decode(Payload(s)).value;
              && (r.value.1 <==> zlib.decompress(raw).Some?)
              && (r.value.1 ==> r.value.0 == zlib.decompress(raw).value)
              && (!r.value.1 ==> r.value.0 == raw)
  {
    if !Framed(s) then Err(AssertionError)
    else
      var raw :- Base64.Decode(Payload(s));
      match zlib.decompress(raw)
      case Some(data) => Ok((data, true))
      case None => Ok((raw, false))
  }

  /** Framing and stripping are inverse: a framed string is its payload inside the frame, and
      any payload inside the frame is framed and strips back to itself. */
  lemma FrameStrip(s: string, payload: string)
    ensures Framed(s) ==> s == Opening + Payload(s) + Closing
    ensures Framed(Opening + payload + Closing) && Payload(Opening + payload + Closing) == payload
  {
    if Framed(s) {
      assert s == s[..3] + s[3..|s| - 3] + s[|s| - 3..];
    }
    var t := Opening + payload + Closing;
    assert t[..3] == Opening && t[|t| - 3..] == Closing && t[3..|t| - 3] == payload;
  }

  /** Map data compressed, base64-encoded and framed parses back to that data, flagged as
      compressed. */
  lemma CompressedMapRoundTrip(data: seq<byte>, zlib: Zlib)
    requires ZlibInverse(zlib)
    ensures ParseMapExchangeString(Opening + Base64.Encode(zlib.compress(data)) + Closing, zlib) == Ok((data, true))
  {
    FrameStrip("", Base64.Encode(zlib.compress(data)));
    Base64.DecodeEncode(zlib.compress(data));
  }

  /** Map data that does not decompress (the format before 0.16), base64-encoded and framed,
      parses back to those very bytes, flagged as not compressed. */
  lemma RawMapRoundTrip(raw: seq<byte>, zlib: Zlib)
    requires zlib.decompress(raw).None?
    ensures ParseMapExchangeString(Opening + Base64.Encode(raw) + Closing, zlib) == Ok((raw, false))
  {
    FrameStrip("", Base64.Encode(raw));
    Base64.DecodeEncode(raw);
  }

  /** The little-endian 16-bit number at byte offset k: `(b[k+1] << 8) + b[k]`. */
  function Le16(b: seq<byte>, k: nat): (v: nat)
    requires k + 1 < |b|
    ensures v < 0x1_0000
  {
    b[k + 1] as int * 256 + b[k] as int
  }

  /** `parse_game_version` of maps.py: fails on fewer than eight bytes; otherwise the version
      string of the four little-endian fields at offsets 0, 2, 4 and 6. */
  function ParseMapGameVersion(b: seq<byte>): (r: Result<string, Error>)
    ensures r.Ok? <==> |b| >= 8
    ensures r.Err? ==> r.error == AssertionError
  {
    if |b| < 8 then Err(AssertionError)
    else Ok(VersionString(Le16(b, 0), Le16(b, 2), Le16(b, 4), Le16(b, 6)))
  }

  /** The map version reads back as the fields at offsets 0, 2 and 4, each below 65536, and
      the one at offset 6 exactly when it is not 0; and only the first eight bytes matter. */
  lemma MapVersionReadsBack(b: seq<byte>, other: seq<byte>)
    requires |b| >= 8
    ensures var major, minor, patch, dev := Le16(b, 0), Le16(b, 2), Le16(b, 4), Le16(b, 6);
            ParseDotted(ParseMapGameVersion(b).value) == Some([major, minor, patch] + (if dev != 0 then [dev] else []))
    ensures |other| >= 8 && other[..8] == b[..8] ==> ParseMapGameVersion(other) == ParseMapGameVersion(b)
  {
    ParseVersionString(Le16(b, 0), Le16(b, 2), Le16(b, 4), Le16(b, 6));
    if |other| >= 8 && other[..8] == b[..8] {
      assert forall k :: 0 <= k < 8 ==> other[k] == b[k] by {
        forall k | 0 <= k < 8 ensures other[k] == b[k] {
          assert other[..8][k] == b[..8][k];
        }
      }
    }
  }

  /** A 16-bit number as two little-endian bytes. */
  function Le16Bytes(v: nat): (b: seq<byte>)
    requires v < 0x1_0000
    ensures |b| == 2
  {
    [(v % 256) as byte, (v / 256) as byte]
  }

  /** Reading the version fields back from their little-endian bytes, followed by any map data,
      gives the version string of those fields. */
  lemma MapVersionOfEncoded(major: nat, minor: nat, patch: nat, dev: nat, rest: seq<byte>)
    requires major < 0x1_0000 && minor < 0x1_0000 && patch < 0x1_0000 && dev < 0x1_0000
    ensures ParseMapGameVersion(Le16Bytes(major) + Le16Bytes(minor) + Le16Bytes(patch) + Le16Bytes(dev) + rest)
         == Ok(VersionString(major, minor, patch, dev))
  {
    var b := Le16Bytes(major) + Le16Bytes(minor) + Le16Bytes(patch) + Le16Bytes(dev) + rest;
    assert b[0] == Le16Bytes(major)[0] && b[1] == Le16Bytes(major)[1];
    assert b[2] == Le16Bytes(minor)[0] && b[3] == Le16Bytes(minor)[1];
    assert b[4] == Le16Bytes(patch)[0] && b[5] == Le16Bytes(patch)[1];
    assert b[6] == Le16Bytes(dev)[0] && b[7] == Le16Bytes(dev)[1];
  }

  /** An example map header of version 0.10.12, the version the unit tests expect for the map
      "old_one". */
  lemma OldOneMapVersion()
    ensures ParseMapGameVersion([0, 0, 10, 0, 12, 0, 0, 0]) == Ok("0.10.12")
  {
    MapVersionVector(0, 10, 12, 0, [0, 0, 10, 0, 12, 0, 0, 0]);
    assert Show(0) == "0" && Show(10) == "10" && Show(12) == "12";
    assert VersionString(0, 10, 12, 0) == "0" + "." + "10" + "." + "12" == "0.10.12";
  }

  /** An example map header of version 0.14.23, the version the unit tests expect for the map
      "my_base". */
  lemma MyBaseMapVersion()
    ensures ParseMapGameVersion([0, 0, 14, 0, 23, 0, 0, 0]) == Ok("0.14.23")
  {
    MapVersionVector(0, 14, 23, 0, [0, 0, 14, 0, 23, 0, 0, 0]);
    assert Show(0) == "0" && Show(14) == "14" && Show(23) == "23";
    assert VersionString(0, 14, 23, 0) == "0" + "." + "14" + "." + "23" == "0.14.23";
  }

  /** An example map header of version 1.1.110, the version the unit tests expect for the map
      "forest". */
  lemma ForestMapVersion()
    ensures ParseMapGameVersion([1, 0, 1, 0, 110, 0, 0, 0]) == Ok("1.1.110")
  {
    MapVersionVector(1, 1, 110, 0, [1, 0, 1, 0, 110, 0, 0, 0]);
    assert Show(1) == "1" && Show(11) == "11" && Show(110) == "110";
    assert VersionString(1, 1, 110, 0) == "1" + "." + "1" + "." + "110" == "1.1.110";
  }

  /** An example map header of version 2.0.11.3, the version the unit tests expect for the map
      "peninsula_2.0", whose development number is not 0. */
  lemma PeninsulaMapVersion()
    ensures ParseMapGameVersion([2, 0, 0, 0, 11, 0, 3, 0]) == Ok("2.0.11.3")
  {
    MapVersionVector(2, 0, 11, 3, [2, 0, 0, 0, 11, 0, 3, 0]);
    assert Show(2) == "2" && Show(0) == "0" && Show(11) == "11" && Show(3) == "3";
    assert VersionString(2, 0, 11, 3) == "2" + "." + "0" + "." + "11" + "." + "3" == "2.0.11.3";
  }

  lemma MapVersionVector(major: nat, minor: nat, patch: nat, dev: nat, b: seq<byte>)
    requires major < 256 && minor < 256 && patch < 256 && dev < 256
    requires b == [major as byte, 0, minor as byte, 0, patch as byte, 0, dev as byte, 0]
    ensures ParseMapGameVersion(b) == Ok(VersionString(major, minor, patch, dev))
  {
    MapVersionOfEncoded(major, minor, patch, dev, []);
    assert Le16Bytes(major) + Le16Bytes(minor) + Le16Bytes(patch) + Le16Bytes(dev) + [] == b;
  }
}
