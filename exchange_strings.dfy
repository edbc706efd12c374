/** Blueprint exchange strings (factorio_game/exchange_string/blueprints.py): the envelope
    "version digit + base64(zlib(UTF-8 text))", its JSON-object variants, the unpacking of the
    64-bit game version, and the three readers that scan the fixed table of top-level keys. */
module BlueprintExchange {
  import opened Wrappers
  import opened PyValues
  import opened Decimal
  import Base64
  import opened Libraries

  /** The envelope version written by default, and the only one accepted. */
  const DefaultVersion: nat := 0
  const SupportedVersions: seq<int> := [DefaultVersion]

  /** The top-level keys of a blueprint object and their display names, in the order of the
      dictionary literal (Python dictionaries iterate in insertion order). */
  const BlueprintTypes: seq<(string, string)> := [
    ("blueprint", "Blueprint"),
    ("blueprint_book", "Blueprint Book"),
    ("deconstruction_planner", "Deconstruction Planner"),
    ("upgrade_planner", "Upgrade Planner")
  ]

  /** What `parse_game_version` returns for an object without a version (spelling as in the code). */
  const UnknownVersion: string := "unknonwn"

  /** What `read_blueprint_name` returns for an object without a label. */
  const NoName: string := "no-name"

  // ---------------------------------------------------------------------------------------
  // The envelope

  /** `_version_check`: an assertion that the version is supported. */
  function VersionCheck(version: int): (r: Result<(), Error>)
    ensures r.Ok? <==> version == DefaultVersion
    ensures r.Err? ==> r.error == AssertionError
  {
    if version in SupportedVersions then Ok(()) else Err(AssertionError)
  }

  /** `int(s[0])`: an IndexError on the empty string, a ValueError on a non-digit. */
  function LeadingDigit(s: string): (r: Result<nat, Error>)
    ensures |s| == 0 ==> r == Err(IndexError)
    ensures |s| > 0 && !IsDigit(s[0]) ==> r == Err(ValueError)
    ensures r.Ok? <==> |s| > 0 && IsDigit(s[0])
    ensures r.Ok? ==> Show(r.value) == s[..1]
  {
    if |s| == 0 then Err(IndexError)
    else if IsDigit(s[0]) then Ok(DigitValue(s[0]))
    else Err(ValueError)
  }

  /** `parse_exchange_string`: checks the version digit, then base64-decodes the rest,
      decompresses it and decodes it as UTF-8. Only a string starting with '0' can succeed. */
  function ParseExchangeString(s: string, libs: Libs): (r: Result<string, Error>)
    ensures |s| == 0 ==> r == Err(IndexError)
    ensures |s| > 0 && !IsDigit(s[0]) ==> r == Err(ValueError)
    ensures |s| > 0 && IsDigit(s[0]) && s[0] != '0' ==> r == Err(AssertionError)
    ensures r.Ok? ==> |s| > 0 && s[0] == '0'
  {
    var version :- LeadingDigit(s);
    var _ :- VersionCheck(version);
    var compressed :- Base64.Decode(s[1..]);
    var raw :- libs.zlib.decompress(compressed).ToResult(ZlibError);
    libs.utf8.decode(raw).ToResult(UnicodeDecodeError)
  }

  /** `parse_exchange_string_as_json_object`: the envelope's text read as JSON. */
  function ParseAsJsonObject(s: string, libs: Libs): (r: Result<Json, Error>)
    ensures r.Ok? ==> ParseExchangeString(s, libs).Ok?
    ensures ParseExchangeString(s, libs).Err? ==> r == Err(ParseExchangeString(s, libs).error)
  {
    var text :- ParseExchangeString(s, libs);
    libs.json.loads(text).ToResult(JsonDecodeError)
  }

  /** `generate_exchange_string`: fails on an unsupported version; otherwise the decimal
      version followed by a base64 payload that decodes to the compressed UTF-8 text. */
  function GenerateExchangeString(text: string, version: int, libs: Libs): (r: Result<string, Error>)
    ensures r.Ok? <==> version in SupportedVersions
    ensures r.Err? ==> r.error == AssertionError
    ensures r.Ok? ==> |r.value| > 0 && r.value[0] == '0'
    ensures r.Ok? ==> Base64.Decode(r.value[1..]) == Ok(libs.zlib.compress(libs.utf8.encode(text)))
  {
    var _ :- VersionCheck(version);
    var payload := libs.zlib.compress(libs.utf8.encode(text));
    Base64.DecodeEncode(payload);
    Ok(ShowInt(version) + Base64.Encode(payload))
  }

  /** `generate_exchange_string_from_json_object`: the object serialised in the canonical
      compact form (sorted keys, no spaces), then framed. */
  function GenerateFromJsonObject(obj: Json, version: int, libs: Libs): (r: Result<string, Error>)
    ensures r.Ok? <==> version in SupportedVersions
    ensures r.Err? ==> r.error == AssertionError
    ensures r.Ok? ==> |r.value| > 0 && r.value[0] == '0'
    ensures r.Ok? ==> Base64.Decode(r.value[1..]) == Ok(libs.zlib.compress(libs.utf8.encode(libs.json.dumps(obj))))
  {
    GenerateExchangeString(libs.json.dumps(obj), version, libs)
  }

  /** Framing any text with the default version and parsing it back gives the text. */
  lemma ExchangeStringRoundTrip(text: string, libs: Libs)
    requires ZlibInverse(libs.zlib) && Utf8Inverse(libs.utf8)
    ensures GenerateExchangeString(text, DefaultVersion, libs).Ok?
    ensures ParseExchangeString(GenerateExchangeString(text, DefaultVersion, libs).value, libs) == Ok(text)
  {
    var s := GenerateExchangeString(text, DefaultVersion, libs).value;
    assert LeadingDigit(s) == Ok(0);
  }

  /** The first check of the unit tests: the text parsed from an exchange string, framed again
      and parsed again, is the same text. */
  lemma ReparseParsedText(s: string, libs: Libs)
    requires ZlibInverse(libs.zlib) && Utf8Inverse(libs.utf8)
    requires ParseExchangeString(s, libs).Ok?
    ensures var text := ParseExchangeString(s, libs).value;
            ParseExchangeString(GenerateExchangeString(text, DefaultVersion, libs).value, libs) == Ok(text)
  {
    ExchangeStringRoundTrip(ParseExchangeString(s, libs).value, libs);
  }

  /** The second check of the unit tests: an object parsed from an exchange string, framed
      again from its canonical JSON and parsed again, is equal (Python `==`) to itself. */
  lemma JsonObjectRoundTrip(s: string, libs: Libs)
    requires Lawful(libs)
    requires ParseAsJsonObject(s, libs).Ok?
    ensures var obj := ParseAsJsonObject(s, libs).value;
            var again := ParseAsJsonObject(GenerateFromJsonObject(obj, DefaultVersion, libs).value, libs);
            again.Ok? && SameJson(again.value, obj)
  {
    var obj := ParseAsJsonObject(s, libs).value;
    var text := ParseExchangeString(s, libs).value;
    assert libs.json.loads(text) == Some(obj);
    ExchangeStringRoundTrip(libs.json.dumps(obj), libs);
  }

  // ---------------------------------------------------------------------------------------
  // The game version

  /** The version shifted right by 16*k bits (floor division, as Python's `>>`). */
  function Shift16(version: int, k: nat): int
  {
    if k == 0 then version else Shift16(version, k - 1) / 0x1_0000
  }

  /** Bits 16*k .. 16*k+15 of the version: `(version & (0xFFFF << 16*k)) >> 16*k`. */
  function Field16(version: int, k: nat): (f: nat)
    ensures f < 0x1_0000
  {
    Shift16(version, k) % 0x1_0000
  }

  /** `decode_game_version`: "major.minor.patch", followed by ".dev" only when dev is not 0,
      the four numbers being the 16-bit fields from the most significant down. */
  function DecodeGameVersion(version: int): string
  {
    VersionString(Field16(version, 3), Field16(version, 2), Field16(version, 1), Field16(version, 0))
  }

  /** The rendered version reads back as its fields: three numbers below 65536 taken from bits
      48-63, 32-47 and 16-31, and a fourth (bits 0-15) exactly when that one is not 0. */
  lemma DecodeGameVersionReadsBack(version: int)
    ensures var major, minor, patch, dev := Field16(version, 3), Field16(version, 2), Field16(version, 1), Field16(version, 0);
            && major < 0x1_0000 && minor < 0x1_0000 && patch < 0x1_0000 && dev < 0x1_0000
            && ParseDotted(DecodeGameVersion(version)) == Some([major, minor, patch] + (if dev != 0 then [dev] else []))
  {
    ParseVersionString(Field16(version, 3), Field16(version, 2), Field16(version, 1), Field16(version, 0));
  }

  lemma Split16(q: int, r: int)
    requires 0 <= r < 0x1_0000
    ensures (q * 0x1_0000 + r) / 0x1_0000 == q && (q * 0x1_0000 + r) % 0x1_0000 == r
  {
  }

  /** The four fields put back together give the version, for every 64-bit unsigned version. */
  lemma FieldsRecombine(version: int)
    requires 0 <= version < 0x1_0000_0000_0000_0000
    ensures version == Field16(version, 3) * 0x1_0000_0000_0000 + Field16(version, 2) * 0x1_0000_0000
                       + Field16(version, 1) * 0x1_0000 + Field16(version, 0)
  {
    var w1, w2, w3 := Shift16(version, 1), Shift16(version, 2), Shift16(version, 3);
    assert version == w1 * 0x1_0000 + Field16(version, 0);
    assert w1 == w2 * 0x1_0000 + Field16(version, 1);
    assert w2 == w3 * 0x1_0000 + Field16(version, 2);
    assert w1 < 0x1_0000_0000_0000;
    assert w2 < 0x1_0000_0000;
    assert w3 < 0x1_0000;
    assert Field16(version, 3) == w3;
  }

  /** Unpacking a version packed from four 16-bit numbers renders exactly those numbers. */
  lemma DecodePackedVersion(major: nat, minor: nat, patch: nat, dev: nat)
    requires major < 0x1_0000 && minor < 0x1_0000 && patch < 0x1_0000 && dev < 0x1_0000
    ensures DecodeGameVersion(major * 0x1_0000_0000_0000 + minor * 0x1_0000_0000 + patch * 0x1_0000 + dev)
         == VersionString(major, minor, patch, dev)
  {
    var version := major * 0x1_0000_0000_0000 + minor * 0x1_0000_0000 + patch * 0x1_0000 + dev;
    var w1 := major * 0x1_0000_0000 + minor * 0x1_0000 + patch;
    var w2 := major * 0x1_0000 + minor;
    assert version == w1 * 0x1_0000 + dev;
    Split16(w1, dev);
    assert w1 == w2 * 0x1_0000 + patch;
    Split16(w2, patch);
    Split16(major, minor);
    Split16(0, major);
  }

  /** The unit tests' vector, 281479278886912, renders as "1.1.110". */
  lemma DecodeGameVersionVector()
    ensures DecodeGameVersion(281479278886912) == "1.1.110"
  {
    DecodePackedVersion(1, 1, 110, 0);
    assert Show(1) == "1" && Show(11) == "11" && Show(110) == "110";
    assert VersionString(1, 1, 110, 0) == "1" + "." + "1" + "." + "110" == "1.1.110";
  }

  // ---------------------------------------------------------------------------------------
  // The readers that scan the table of top-level keys

  function TypeKey(k: nat): string
    requires k < |BlueprintTypes|
  {
    BlueprintTypes[k].0
  }

  /** `key in obj` holds for the k-th key of the table. */
  predicate Present(obj: Json, k: nat)
    requires k < |BlueprintTypes|
  {
    In(TypeKey(k), obj) == Ok(true)
  }

  /** Values on which `key in obj` does not raise. */
  predicate Searchable(obj: Json) {
    obj.Obj? || obj.Arr? || obj.Str?
  }

  /** The last of the first n table keys present in `obj`. */
  function LastPresent(obj: Json, n: nat): (r: Option<nat>)
    requires n <= |BlueprintTypes|
    ensures r.Some? ==> r.value < n && Present(obj, r.value)
    ensures r.Some? ==> forall j :: r.value < j < n ==> !Present(obj, j)
    ensures r.None? ==> forall j :: 0 <= j < n ==> !Present(obj, j)
  {
    if n == 0 then None
    else if Present(obj, n - 1) then Some(n - 1)
    else LastPresent(obj, n - 1)
  }

  /** The first table key present in `obj` from position `from` on. */
  function FirstPresent(obj: Json, from: nat): (r: Option<nat>)
    requires from <= |BlueprintTypes|
    ensures r.Some? ==> from <= r.value < |BlueprintTypes| && Present(obj, r.value)
    ensures r.Some? ==> forall j :: from <= j < r.value ==> !Present(obj, j)
    ensures r.None? ==> forall j :: from <= j < |BlueprintTypes| ==> !Present(obj, j)
    decreases |BlueprintTypes| - from
  {
    if from == |BlueprintTypes| then None
    else if Present(obj, from) then Some(from)
    else FirstPresent(obj, from + 1)
  }

  /** The inner object of the last table key present (the loop has no `break`), `{}` if none. */
  function LastSubobject(obj: Json): (r: Result<Json, Error>)
    ensures !Searchable(obj) ==> r == Err(TypeError)
    ensures obj.Obj? ==> r.Ok?
    ensures obj.Obj? && LastPresent(obj, |BlueprintTypes|).None? ==> r == Ok(Obj([]))
    ensures Searchable(obj) ==>
              forall k :: (0 <= k < |BlueprintTypes| && Present(obj, k) && forall j :: k < j < |BlueprintTypes| ==> !Present(obj, j))
                          ==> r == Subscript(obj, TypeKey(k))
  {
    if !Searchable(obj) then Err(TypeError)
    else
      match LastPresent(obj, |BlueprintTypes|)
      case None => Ok(Obj([]))
      case Some(k) => Subscript(obj, TypeKey(k))
  }

  /** The inner object of the first table key present (the loop breaks), `{}` if none. */
  function FirstSubobject(obj: Json): (r: Result<Json, Error>)
    ensures !Searchable(obj) ==> r == Err(TypeError)
    ensures obj.Obj? ==> r.Ok?
    ensures obj.Obj? && FirstPresent(obj, 0).None? ==> r == Ok(Obj([]))
    ensures Searchable(obj) ==>
              forall k :: (0 <= k < |BlueprintTypes| && Present(obj, k) && forall j :: 0 <= j < k ==> !Present(obj, j))
                          ==> r == Subscript(obj, TypeKey(k))
  {
    if !Searchable(obj) then Err(TypeError)
    else
      match FirstPresent(obj, 0)
      case None => Ok(Obj([]))
      case Some(k) => Subscript(obj, TypeKey(k))
  }

  /** What `parse_game_version` returns: the decoded `version` of the last table key's object,
      or "unknonwn" when that object (or `{}`) has no `version`. */
  function GameVersionOf(obj: Json): (r: Result<string, Error>)
    ensures obj.Obj? && LastPresent(obj, |BlueprintTypes|).None? ==> r == Ok(UnknownVersion)
    ensures LastSubobject(obj).Ok? && LastSubobject(obj).value.Obj? ==>
              var sub := LastSubobject(obj).value;
              && (Lookup(sub.fields, "version").None? ==> r == Ok(UnknownVersion))
              && (Lookup(sub.fields, "version").Some? && Lookup(sub.fields, "version").value.Int? ==>
                    r == Ok(DecodeGameVersion(Lookup(sub.fields, "version").value.i)))
  {
    var sub :- LastSubobject(obj);
    var has :- In("version", sub);
    if !has then Ok(UnknownVersion)
    else
      var v :- Subscript(sub, "version");
      var n :- AsInt(v).ToResult(TypeError);
      Ok(DecodeGameVersion(n))
  }

  /** `parse_game_version`. */
  method ParseGameVersion(obj: Json) returns (r: Result<string, Error>)
    ensures r == GameVersionOf(obj)
  {
    var sub := Obj([]);
    for k := 0 to |BlueprintTypes|
      invariant k > 0 ==> Searchable(obj)
      invariant LastPresent(obj, k).None? ==> sub == Obj([])
      invariant LastPresent(obj, k).Some? ==> Subscript(obj, TypeKey(LastPresent(obj, k).value)) == Ok(sub)
    {
      var present :- In(TypeKey(k), obj);
      if present {
        var v := Subscript(obj, TypeKey(k));
        if v.Err? {
          // a list or a string: the last key present fails the same way
          assert Present(obj, k) && LastPresent(obj, |BlueprintTypes|).Some?;
          return Err(v.error);
        }
        sub := v.value;
      }
    }
    var has :- In("version", sub);
    if !has {
      return Ok(UnknownVersion);
    }
    var v :- Subscript(sub, "version");
    var n :- AsInt(v).ToResult(TypeError);
    return Ok(DecodeGameVersion(n));
  }

  /** What `read_blueprint_name` returns: the `label` of the first table key's object, or
      "no-name" when that object (or `{}`) has no `label`. */
  function NameOf(obj: Json): (r: Result<Json, Error>)
    ensures obj.Obj? && FirstPresent(obj, 0).None? ==> r == Ok(Str(NoName))
    ensures FirstSubobject(obj).Ok? && FirstSubobject(obj).value.Obj? ==>
              var sub := FirstSubobject(obj).value;
              && (Lookup(sub.fields, "label").None? ==> r == Ok(Str(NoName)))
              && (Lookup(sub.fields, "label").Some? ==> r == Ok(Lookup(sub.fields, "label").value))
  {
    var sub :- FirstSubobject(obj);
    var has :- In("label", sub);
    if has then Subscript(sub, "label") else Ok(Str(NoName))
  }

  /** `read_blueprint_name`. */
  method ReadBlueprintName(obj: Json) returns (r: Result<Json, Error>)
    ensures r == NameOf(obj)
  {
    var sub := Obj([]);
    var k := 0;
    while k < |BlueprintTypes|
      invariant k <= |BlueprintTypes|
      invariant k > 0 ==> Searchable(obj)
      invariant forall j :: 0 <= j < k ==> !Present(obj, j)
    {
      var present :- In(TypeKey(k), obj);
      if present {
        sub :- Subscript(obj, TypeKey(k));
        break;
      }
      k := k + 1;
    }
    var has :- In("label", sub);
    if has {
      r := Subscript(sub, "label");
    } else {
      r := Ok(Str(NoName));
    }
  }

  /** The keys of a list rendered as `repr` renders a list of strings: quoted, comma-separated. */
  function QuotedList(ks: seq<string>): string
  {
    if |ks| == 0 then ""
    else if |ks| == 1 then "'" + ks[0] + "'"
    else "'" + ks[0] + "', " + QuotedList(ks[1..])
  }

  /** `str(obj.keys())` for a dictionary. */
  function KeysRepr(fields: seq<(string, Json)>): string
  {
    "dict_keys([" + QuotedList(Keys(fields)) + "])"
  }

  /** What `read_blueprint_type` returns: the display name of the last table key present, or the
      rendering of the object's keys when none is; an AttributeError when `obj` is not a
      dictionary. */
  function TypeOf(obj: Json): (r: Result<string, Error>)
    ensures r.Ok? <==> obj.Obj?
    ensures !obj.Obj? ==> r == Err(AttributeError)
    ensures obj.Obj? ==>
              forall k :: (0 <= k < |BlueprintTypes| && Present(obj, k) && forall j :: k < j < |BlueprintTypes| ==> !Present(obj, j))
                          ==> r == Ok(BlueprintTypes[k].1)
    ensures obj.Obj? && (forall k :: 0 <= k < |BlueprintTypes| ==> !Present(obj, k)) ==> r == Ok(KeysRepr(obj.fields))
  {
    if !obj.Obj? then Err(AttributeError)
    else
      match LastPresent(obj, |BlueprintTypes|)
      case None => Ok(KeysRepr(obj.fields))
      case Some(k) => Ok(BlueprintTypes[k].1)
  }

  /** `read_blueprint_type`. */
  method ReadBlueprintType(obj: Json) returns (r: Result<string, Error>)
    ensures r == TypeOf(obj)
  {
    if !obj.Obj? {
      return Err(AttributeError);
    }
    var name := KeysRepr(obj.fields);
    for k := 0 to |BlueprintTypes|
      invariant LastPresent(obj, k).None? ==> name == KeysRepr(obj.fields)
      invariant LastPresent(obj, k).Some? ==> name == BlueprintTypes[LastPresent(obj, k).value].1
    {
      var present := TypeKey(k) in Keys(obj.fields);
      if present {
        name := BlueprintTypes[k].1;
      }
    }
    return Ok(name);
  }

  /** An object holding only `key` and, under it, an object with the given label and version. */
  function Single(key: string, name: string, version: int): Json
  {
    Obj([(key, Obj([("label", Str(name)), ("version", Int(version))]))])
  }

  /** The version of the unit tests' blueprints, 281479278690304, renders as "1.1.107". */
  lemma BlueprintVersionVector()
    ensures DecodeGameVersion(281479278690304) == "1.1.107"
  {
    DecodePackedVersion(1, 1, 107, 0);
    assert Show(1) == "1" && Show(10) == "10" && Show(107) == "107";
    assert VersionString(1, 1, 107, 0) == "1" + "." + "1" + "." + "107" == "1.1.107";
  }

  /** The version of the unit tests' book, 73015033857, renders as "0.17.9.1". */
  lemma BookVersionVector()
    ensures DecodeGameVersion(73015033857) == "0.17.9.1"
  {
    DecodePackedVersion(0, 17, 9, 1);
    assert Show(0) == "0" && Show(17) == "17" && Show(9) == "9" && Show(1) == "1";
    assert VersionString(0, 17, 9, 1) == "0" + "." + "17" + "." + "9" + "." + "1" == "0.17.9.1";
  }

  /** The version the unit tests expect for the oil-processing blueprint, 1.1.8, as a packed
      integer. */
  lemma OilProcessingVersion()
    ensures DecodeGameVersion(281479272202240) == "1.1.8"
  {
    DecodePackedVersion(1, 1, 8, 0);
    assert Show(1) == "1" && Show(8) == "8";
    assert VersionString(1, 1, 8, 0) == "1" + "." + "1" + "." + "8" == "1.1.8";
  }

  /** The version the unit tests expect for the red-circuits blueprint, 2.0.11.3 (whose
      development number is not 0), as a packed integer. */
  lemma RedCircuitsVersion()
    ensures DecodeGameVersion(562949954142211) == "2.0.11.3"
  {
    DecodePackedVersion(2, 0, 11, 3);
    assert Show(2) == "2" && Show(0) == "0" && Show(11) == "11" && Show(3) == "3";
    assert VersionString(2, 0, 11, 3) == "2" + "." + "0" + "." + "11" + "." + "3" == "2.0.11.3";
  }

  /** An example deconstruction planner, built like the one of the unit tests: version
      "1.1.107", name "Coal Rocks", and type "Deconstruction Planner" (the display name, not the
      raw key the test expects). */
  lemma DeconstructionPlannerVector()
    ensures var obj := Single("deconstruction_planner", "Coal Rocks", 281479278690304);
            && GameVersionOf(obj) == Ok("1.1.107")
            && NameOf(obj) == Ok(Str("Coal Rocks"))
            && TypeOf(obj) == Ok("Deconstruction Planner")
            && TypeOf(obj) != Ok("deconstruction_planner")
  {
    var inner := Obj([("label", Str("Coal Rocks")), ("version", Int(281479278690304))]);
    var obj := Obj([("deconstruction_planner", inner)]);
    assert Keys(obj.fields) == ["deconstruction_planner"];
    assert !Present(obj, 0) && !Present(obj, 1) && Present(obj, 2) && !Present(obj, 3);
    assert FirstPresent(obj, 0) == Some(2);
    assert LastPresent(obj, 4) == Some(2);
    assert LastSubobject(obj) == Ok(inner) && FirstSubobject(obj) == Ok(inner);
    assert Keys(inner.fields) == ["label", "version"];
    assert Lookup(inner.fields, "version") == Some(Int(281479278690304));
    assert Lookup(inner.fields, "label") == Some(Str("Coal Rocks"));
    BlueprintVersionVector();
  }

  /** With both a `blueprint` and a `blueprint_book` key, the name comes from the blueprint (the
      first key) while the version and the type come from the book (the last key). */
  lemma FirstAndLastKeyDiffer()
    ensures var obj := Obj([("blueprint_book", Obj([("label", Str("B")), ("version", Int(73015033857))])),
                            ("blueprint", Obj([("label", Str("P"))]))]);
            && NameOf(obj) == Ok(Str("P"))
            && GameVersionOf(obj) == Ok("0.17.9.1")
            && TypeOf(obj) == Ok("Blueprint Book")
  {
    var book := Obj([("label", Str("B")), ("version", Int(73015033857))]);
    var plan := Obj([("label", Str("P"))]);
    var obj := Obj([("blueprint_book", book), ("blueprint", plan)]);
    assert Keys(obj.fields) == ["blueprint_book", "blueprint"];
    assert Present(obj, 0) && Present(obj, 1) && !Present(obj, 2) && !Present(obj, 3);
    assert FirstPresent(obj, 0) == Some(0);
    assert LastPresent(obj, 4) == Some(1);
    assert FirstSubobject(obj) == Ok(plan) && LastSubobject(obj) == Ok(book);
    assert Keys(book.fields) == ["label", "version"];
    assert Lookup(book.fields, "version") == Some(Int(73015033857));
    assert Lookup(plan.fields, "label") == Some(Str("P"));
    BookVersionVector();
  }
}
