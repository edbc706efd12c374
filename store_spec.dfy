/** The blueprint database of the command-line tool (blueprints.py at the repository root), as
    functions over an in-memory file system: a database root holding one directory per
    blueprint book plus a directory for blueprints that belong to no book, each directory a
    listing of names bound to regular files (holding JSON) or sub-directories. These functions
    say what each operation of the tool does to that state; the class in store_db.dfy performs
    the same updates step by step. */
module BlueprintStore {
  import opened Wrappers
  import opened PyValues
  import opened Decimal
  import Base64
  import opened Libraries
  import BlueprintExchange

  /** `BLUEPRINT_SUPPORTED_VERSIONS` of the tool. */
  const CliSupportedVersions: seq<int> := [0]

  const JsonSuffix: string := ".json"

  // ---------------------------------------------------------------------------------------
  // The tool's own envelope functions (Python 2: the decoded bytes are the result)

  /** `parse_blueprint_string`: asserts the version digit is supported, then base64-decodes the
      rest (the Python 2 decoder takes any byte string; characters outside the alphabet are
      skipped) and decompresses it. */
  function ParseBlueprintString(s: string, zlib: Zlib): (r: Result<seq<byte>, Error>)
    ensures |s| == 0 ==> r == Err(IndexError)
    ensures |s| > 0 && !IsDigit(s[0]) ==> r == Err(ValueError)
    ensures |s| > 0 && IsDigit(s[0]) && s[0] != '0' ==> r == Err(AssertionError)
    ensures r.Ok? ==> |s| > 0 && s[0] == '0'
    ensures |s| > 0 && s[0] == '0' && Base64.A2b(s[1..], Base64.Start).Err? ==> r == Err(TypeError)
  {
    var version :- BlueprintExchange.LeadingDigit(s);
    if version !in CliSupportedVersions then Err(AssertionError)
    else
      match Base64.A2b(s[1..], Base64.Start)
      // Python 2's `b64decode` turns the decoder's error into a TypeError
      case Err(_) => Err(TypeError)
      case Ok(compressed) => zlib.decompress(compressed).ToResult(ZlibError)
  }

  /** `generate_blueprint_string`: the configured version (`BLUEPRINT_VERSION`, read from the
      configuration file and not checked) followed by the base64 of the compressed data. */
  function GenerateBlueprintString(data: seq<byte>, configured: int, zlib: Zlib): (r: string)
    ensures |r| >= |ShowInt(configured)| > 0 && r[..|ShowInt(configured)|] == ShowInt(configured)
  {
    ShowInt(configured) + Base64.Encode(zlib.compress(data))
  }

  /** What the tool generates it parses back when the configured version is 0; with any other
      configured version, it cannot parse what it generated. */
  lemma BlueprintStringRoundTrip(data: seq<byte>, configured: int, zlib: Zlib)
    requires ZlibInverse(zlib)
    ensures configured == 0 ==> ParseBlueprintString(GenerateBlueprintString(data, configured, zlib), zlib) == Ok(data)
    ensures configured != 0 ==> ParseBlueprintString(GenerateBlueprintString(data, configured, zlib), zlib).Err?
  {
    var s := GenerateBlueprintString(data, configured, zlib);
    var payload := Base64.Encode(zlib.compress(data));
    if configured == 0 {
      assert s == "0" + payload;
      assert s[1..] == payload;
      Base64.A2bEncode(zlib.compress(data), Base64.Start);
      assert [] + zlib.compress(data) == zlib.compress(data);
    } else if configured > 0 {
      ShowNoLeadingZero(configured);
      assert s[0] == Show(configured)[0];
    } else {
      assert s[0] == '-';
    }
  }

  // ---------------------------------------------------------------------------------------
  // The file system

  /** A directory entry: a regular file holding a JSON document, or a sub-directory. */
  datatype Node = File(content: Json) | Folder

  /** A directory: the order `os.listdir` returns its names in, and what each name is. */
  datatype Dir = Dir(listing: seq<string>, nodes: map<string, Node>)

  const EmptyDir: Dir := Dir([], map[])

  /** The database: whether its root directory exists, and its directories by name. */
  datatype Fs = Fs(rootExists: bool, dirs: map<string, Dir>)

  predicate NoDup(names: seq<string>) {
    forall a, b :: 0 <= a < b < |names| ==> names[a] != names[b]
  }

  /** The listing names every entry of the directory exactly once. */
  predicate ValidDir(d: Dir) {
    NoDup(d.listing) && d.nodes.Keys == set n | n in d.listing
  }

  /** No directory without the root, and every directory well formed. */
  predicate ValidFs(fs: Fs) {
    && (!fs.rootExists ==> fs.dirs == map[])
    && forall book :: book in fs.dirs ==> ValidDir(fs.dirs[book])
  }

  /** `create_db_directories`: the root and the directory for blueprints outside any book are
      created when missing; everything that exists is left as it is. */
  function CreateDbDirs(fs: Fs, notABook: string): (r: Fs)
    ensures r.rootExists && notABook in r.dirs
    ensures r.dirs.Keys == fs.dirs.Keys + {notABook}
    ensures forall book :: book in fs.dirs ==> r.dirs[book] == fs.dirs[book]
    ensures notABook !in fs.dirs ==> r.dirs[notABook] == EmptyDir
    ensures ValidFs(fs) ==> ValidFs(r)
  {
    Fs(true, if notABook in fs.dirs then fs.dirs else fs.dirs[notABook := EmptyDir])
  }

  /** Creating the directories a second time changes nothing. */
  lemma CreateDbDirsIdempotent(fs: Fs, notABook: string)
    ensures CreateDbDirs(CreateDbDirs(fs, notABook), notABook) == CreateDbDirs(fs, notABook)
  {
  }

  // ---------------------------------------------------------------------------------------
  // Wiping a book directory

  /** The names of `names` other than `x`, in order. */
  function Without(names: seq<string>, x: string): (r: seq<string>)
    ensures forall n :: n in r <==> n in names && n != x
    ensures NoDup(names) ==> NoDup(r)
  {
    if |names| == 0 then []
    else if names[0] == x then Without(names[1..], x)
    else
      var rest := Without(names[1..], x);
      assert NoDup(names) ==> names[0] !in names[1..];
      [names[0]] + rest
  }

  /** `os.unlink` of a name of the directory. */
  function Unlink(d: Dir, name: string): (r: Dir)
    ensures ValidDir(d) ==> ValidDir(r)
    ensures r.nodes == d.nodes - {name}
  {
    Dir(Without(d.listing, name), d.nodes - {name})
  }

  /** The entries `delete_book_content` removes: regular files the system lets it unlink.
      `readOnly` lists the (directory, name) pairs the system refuses to unlink or to open for
      writing; `delete_book_content` reports such a failure and goes on. */
  predicate Unlinkable(d: Dir, book: string, name: string, readOnly: set<(string, string)>) {
    name in d.nodes && d.nodes[name].File? && (book, name) !in readOnly
  }

  /** The loop of `delete_book_content` over the names `names`. */
  function WipeNames(d: Dir, book: string, names: seq<string>, readOnly: set<(string, string)>): Dir
    decreases |names|
  {
    if |names| == 0 then d
    else
      var next := if Unlinkable(d, book, names[0], readOnly) then Unlink(d, names[0]) else d;
      WipeNames(next, book, names[1..], readOnly)
  }

  /** `delete_book_content`: the loop over the directory's own listing. */
  function Wipe(d: Dir, book: string, readOnly: set<(string, string)>): Dir
  {
    WipeNames(d, book, d.listing, readOnly)
  }

  lemma {:induction false} WipeNamesResult(d: Dir, book: string, names: seq<string>, readOnly: set<(string, string)>)
    requires ValidDir(d) && NoDup(names)
    ensures var w := WipeNames(d, book, names, readOnly);
            && ValidDir(w)
            && (forall n :: n in w.nodes <==> n in d.nodes && !(n in names && Unlinkable(d, book, n, readOnly)))
            && (forall n :: n in w.nodes ==> w.nodes[n] == d.nodes[n])
    decreases |names|
  {
    if |names| > 0 {
      var next := if Unlinkable(d, book, names[0], readOnly) then Unlink(d, names[0]) else d;
      assert forall n :: n in names[1..] ==> n != names[0] && n in names;
      assert forall n :: n != names[0] ==> (n in names <==> n in names[1..]);
      assert forall n :: n in next.nodes && n != names[0] ==>
        (Unlinkable(next, book, n, readOnly) <==> Unlinkable(d, book, n, readOnly));
      WipeNamesResult(next, book, names[1..], readOnly);
    }
  }

  /** After `delete_book_content` a directory holds exactly its sub-directories and the files
      that could not be unlinked, each unchanged. */
  lemma WipeResult(d: Dir, book: string, readOnly: set<(string, string)>)
    requires ValidDir(d)
    ensures var w := Wipe(d, book, readOnly);
            && ValidDir(w)
            && (forall n :: n in w.nodes <==> n in d.nodes && !Unlinkable(d, book, n, readOnly))
            && (forall n :: n in w.nodes ==> w.nodes[n] == d.nodes[n])
  {
    WipeNamesResult(d, book, d.listing, readOnly);
  }

  // ---------------------------------------------------------------------------------------
  // Writing files

  /** A name that is one path component (no separator, no NUL byte). */
  predicate WritableName(name: string) {
    '/' !in name && '\0' !in name
  }

  /** A book label that names one directory directly under the root. */
  predicate ValidBookName(name: string) {
    |name| > 0 && name != "." && name != ".." && WritableName(name)
  }

  /** `open(path, 'w')` on the name in the book's directory succeeds. */
  predicate CanWriteIn(d: Dir, book: string, name: string, readOnly: set<(string, string)>) {
    && WritableName(name)
    && (book, name) !in readOnly
    && !(name in d.nodes && d.nodes[name].Folder?)
  }

  /** Creates or replaces the file `name`: a new name goes to the end of the listing. */
  function Put(d: Dir, name: string, content: Json): (r: Dir)
    ensures ValidDir(d) ==> ValidDir(r)
    ensures r.nodes == d.nodes[name := File(content)]
  {
    Dir(if name in d.nodes then d.listing else d.listing + [name], d.nodes[name := File(content)])
  }

  /** `open(path, 'w')` followed by `json.dump`; an IOError when the book directory is missing
      or the name cannot be opened for writing. */
  function WriteFile(fs: Fs, book: string, name: string, content: Json, readOnly: set<(string, string)>): (r: Result<Fs, Error>)
  {
    if book in fs.dirs && CanWriteIn(fs.dirs[book], book, name, readOnly) then
      Ok(fs.(dirs := fs.dirs[book := Put(fs.dirs[book], name, content)]))
    else Err(IOError)
  }

  /** `x['label'] if 'label' in x.keys() else 'no-name'`: `.keys()` raises AttributeError on
      anything but a dictionary. */
  function LabelOrDefault(inner: Json): (r: Result<Json, Error>)
    ensures r.Ok? <==> inner.Obj?
    ensures !inner.Obj? ==> r == Err(AttributeError)
  {
    if !inner.Obj? then Err(AttributeError)
    else
      match Lookup(inner.fields, "label")
      case None => Ok(Str(BlueprintExchange.NoName))
      case Some(tag) => Ok(tag)
  }

  /** The label the store reads from a dictionary is the one `read_blueprint_name` reads from an
      object holding that dictionary under its first table key. */
  lemma LabelIsReadName(inner: Json)
    requires inner.Obj?
    ensures LabelOrDefault(inner) == BlueprintExchange.NameOf(Obj([("blueprint", inner)]))
  {
    var obj := Obj([("blueprint", inner)]);
    assert Keys(obj.fields) == ["blueprint"];
    assert BlueprintExchange.Present(obj, 0);
    assert Lookup(obj.fields, "blueprint") == Some(inner);
  }

  /** The file name `store_single_blueprint` writes: the prefix, the blueprint's label (or
      "no-name"), then ".json"; a label that is not a string cannot be added to the prefix
      (TypeError). */
  function SingleFileName(obj: Json, prefix: string): (r: Result<string, Error>)
    ensures r.Ok? ==> Subscript(obj, "blueprint").Ok? && LabelOrDefault(Subscript(obj, "blueprint").value).Ok?
    ensures Subscript(obj, "blueprint").Ok? && r.Err? ==>
              r.error == (if Subscript(obj, "blueprint").value.Obj? then TypeError else AttributeError)
  {
    var inner :- Subscript(obj, "blueprint");
    var tag :- LabelOrDefault(inner);
    if !tag.Str? then Err(TypeError) else Ok(prefix + tag.s + JsonSuffix)
  }

  /** A single blueprint is stored under the name `read_blueprint_name` gives it: its file is
      the prefix, that name and ".json". */
  lemma SingleNameIsReadName(obj: Json, prefix: string)
    requires obj.Obj? && "blueprint" in Keys(obj.fields)
    requires SingleFileName(obj, prefix).Ok?
    ensures BlueprintExchange.NameOf(obj).Ok? && BlueprintExchange.NameOf(obj).value.Str?
    ensures SingleFileName(obj, prefix).value == prefix + BlueprintExchange.NameOf(obj).value.s + JsonSuffix
  {
    assert BlueprintExchange.Present(obj, 0);
    assert BlueprintExchange.FirstSubobject(obj) == Subscript(obj, "blueprint");
  }

  /** `store_single_blueprint`: writes `obj` to exactly one file of the book's directory, and
      leaves every other file and directory as it was. */
  function StoreSingle(fs: Fs, obj: Json, prefix: string, book: string, readOnly: set<(string, string)>): (r: Result<Fs, Error>)
    ensures r.Ok? <==> SingleFileName(obj, prefix).Ok? && book in fs.dirs
                        && CanWriteIn(fs.dirs[book], book, SingleFileName(obj, prefix).value, readOnly)
    ensures r.Ok? ==>
              var name := SingleFileName(obj, prefix).value;
              && r.value.rootExists == fs.rootExists
              && r.value.dirs.Keys == fs.dirs.Keys
              && (forall b :: b in fs.dirs && b != book ==> r.value.dirs[b] == fs.dirs[b])
              && r.value.dirs[book].nodes == fs.dirs[book].nodes[name := File(obj)]
    ensures r.Ok? && ValidFs(fs) ==> ValidFs(r.value)
    ensures SingleFileName(obj, prefix).Ok? && r.Err? ==> r.error == IOError
  {
    var name :- SingleFileName(obj, prefix);
    WriteFile(fs, book, name, obj, readOnly)
  }

  // ---------------------------------------------------------------------------------------
  // Storing a book

  /** `'{0:03d} - '.format(index)`: Python 2 formats any other object through its string, for
      which the code 'd' is a ValueError. */
  function EntryPrefix(index: Json): (r: Result<string, Error>)
    ensures r.Ok? <==> AsInt(index).Some?
    ensures r.Err? ==> r.error == ValueError
  {
    match AsInt(index)
    case Some(i) => Ok(Pad3(i) + " - ")
    case None => Err(ValueError)
  }

  /** The two statements before the `try` of the entry loop: the file-name prefix and the object
      `{'blueprint': entry['blueprint']}`. An error here escapes the loop and ends the book. */
  function EntryPlan(entry: Json): (r: Result<(string, Json), Error>)
    ensures r.Ok? <==> entry.Obj? && Subscript(entry, "index").Ok? && AsInt(Subscript(entry, "index").value).Some?
                       && Subscript(entry, "blueprint").Ok?
    ensures r.Ok? ==> r.value.1 == Obj([("blueprint", Subscript(entry, "blueprint").value)])
    ensures Subscript(entry, "index").Ok? && AsInt(Subscript(entry, "index").value).None? ==> r == Err(ValueError)
  {
    var index :- Subscript(entry, "index");
    var prefix :- EntryPrefix(index);
    var inner :- Subscript(entry, "blueprint");
    Ok((prefix, Obj([("blueprint", inner)])))
  }

  /** A planned write: the file an entry is written to and the object written there. */
  datatype Write = Write(name: string, obj: Json)

  /** What an entry writes, when its plan and its label are usable. */
  function EntryWrite(entry: Json): (w: Option<Write>)
    ensures w.Some? ==> EntryPlan(entry).Ok? && w.value.obj == EntryPlan(entry).value.1
  {
    match EntryPlan(entry)
    case Err(_) => None
    case Ok((prefix, obj)) =>
      match SingleFileName(obj, prefix)
      case Err(_) => None
      case Ok(name) => Some(Write(name, obj))
  }

  /** The writes the entries plan, one per entry. */
  function Writes(entries: seq<Json>): (ws: seq<Option<Write>>)
    ensures |ws| == |entries|
    decreases |entries|
  {
    if |entries| == 0 then [] else [EntryWrite(entries[0])] + Writes(entries[1..])
  }

  /** The file name of an entry: its index zero-padded to at least three digits (the digits
      reading back as the index), " - ", the label of its blueprint or "no-name", and ".json";
      the object written holds only the entry's blueprint. */
  lemma EntryFileName(entry: Json)
    requires EntryWrite(entry).Some?
    ensures var index := AsInt(Subscript(entry, "index").value).value;
            var tag := LabelOrDefault(Subscript(entry, "blueprint").value).value.s;
            && EntryWrite(entry).value.name == Pad3(index) + " - " + tag + JsonSuffix
            && EntryWrite(entry).value.obj == Obj([("blueprint", Subscript(entry, "blueprint").value)])
            && |Pad3(index)| >= 3
            && (index >= 0 ==> ParseNat(Pad3(index)) == Some(index))
            && (index < 0 ==> ParseNat(Pad3(index)[1..]) == Some(-index))
  {
    var plan := EntryPlan(entry).value;
    assert Subscript(plan.1, "blueprint") == Subscript(entry, "blueprint");
    Pad3ReadsBack(AsInt(Subscript(entry, "index").value).value);
  }

  /** Every name an entry writes ends in ".json". */
  lemma EntryWriteIsJson(entry: Json)
    requires EntryWrite(entry).Some?
    ensures HasJsonSuffix(EntryWrite(entry).value.name)
  {
    var (prefix, obj) := EntryPlan(entry).value;
    var name := EntryWrite(entry).value.name;
    var tag := LabelOrDefault(Subscript(obj, "blueprint").value).value.s;
    assert name == (prefix + tag) + JsonSuffix;
    assert name[|name| - 5..] == JsonSuffix;
  }

  /** What a book store did to the file system, and the exception that ended it, if any. */
  datatype Effect = Effect(fs: Fs, raised: Option<Error>)

  /** The `try` around `store_single_blueprint`: a failure is reported and changes nothing. */
  function AfterEntry(fs: Fs, book: string, prefix: string, obj: Json, readOnly: set<(string, string)>): Fs
  {
    match StoreSingle(fs, obj, prefix, book, readOnly)
    case Ok(updated) => updated
    case Err(_) => fs
  }

  /** The entry loop of `store_blueprint_book`: a failure inside `store_single_blueprint` is
      reported and the loop goes on; a failure before it ends the loop. */
  function StoreEntries(fs: Fs, book: string, entries: seq<Json>, readOnly: set<(string, string)>): Effect
    decreases |entries|
  {
    if |entries| == 0 then Effect(fs, None)
    else
      match EntryPlan(entries[0])
      case Err(e) => Effect(fs, Some(e))
      case Ok((prefix, obj)) => StoreEntries(AfterEntry(fs, book, prefix, obj, readOnly), book, entries[1..], readOnly)
  }

  /** The book's directory name: the label of `book_obj['blueprint_book']`, or "no-name"; a label
      that is not a string makes `os.path.join` raise AttributeError. */
  function BookName(bookObj: Json): (r: Result<string, Error>)
    ensures Subscript(bookObj, "blueprint_book").Ok? && r.Err? ==> r.error == AttributeError
  {
    var inner :- Subscript(bookObj, "blueprint_book");
    var tag :- LabelOrDefault(inner);
    if !tag.Str? then Err(AttributeError) else Ok(tag.s)
  }

  /** A book's directory is named as `read_blueprint_name` names the book, when the object has no
      `blueprint` key before it in the table. */
  lemma BookNameIsReadName(bookObj: Json)
    requires bookObj.Obj? && "blueprint_book" in Keys(bookObj.fields) && "blueprint" !in Keys(bookObj.fields)
    requires BookName(bookObj).Ok?
    ensures BlueprintExchange.NameOf(bookObj) == Ok(Str(BookName(bookObj).value))
  {
    assert !BlueprintExchange.Present(bookObj, 0) && BlueprintExchange.Present(bookObj, 1);
    assert BlueprintExchange.FirstSubobject(bookObj) == Subscript(bookObj, "blueprint_book");
  }

  /** The items of `book_obj['blueprint_book']['blueprints']`. */
  function BookEntries(bookObj: Json): Result<seq<Json>, Error>
  {
    var inner :- Subscript(bookObj, "blueprint_book");
    var blueprints :- Subscript(inner, "blueprints");
    Iterate(blueprints)
  }

  /** The book's directory made ready: created (with the root) when missing, wiped otherwise. */
  function PrepareBook(fs: Fs, name: string, readOnly: set<(string, string)>): Fs
  {
    if name in fs.dirs then fs.(dirs := fs.dirs[name := Wipe(fs.dirs[name], name, readOnly)])
    else Fs(true, fs.dirs[name := EmptyDir])
  }

  /** `store_blueprint_book`. */
  function StoreBook(fs: Fs, bookObj: Json, readOnly: set<(string, string)>): Effect
  {
    match BookName(bookObj)
    case Err(e) => Effect(fs, Some(e))
    case Ok(name) =>
      if !ValidBookName(name) then Effect(fs, Some(OSError))
      else
        var ready := PrepareBook(fs, name, readOnly);
        match BookEntries(bookObj)
        case Err(e) => Effect(ready, Some(e))
        case Ok(entries) => StoreEntries(ready, name, entries, readOnly)
  }

  // ---------------------------------------------------------------------------------------
  // The entry loop as a sequence of writes to one directory

  /** One planned write applied to the book's directory, skipped when the name cannot be
      written. */
  function ApplyWrite(d: Dir, book: string, w: Option<Write>, readOnly: set<(string, string)>): Dir
  {
    if w.Some? && CanWriteIn(d, book, w.value.name, readOnly) then Put(d, w.value.name, w.value.obj) else d
  }

  /** The planned writes applied in order. */
  function ApplyWrites(d: Dir, book: string, ws: seq<Option<Write>>, readOnly: set<(string, string)>): Dir
    decreases |ws|
  {
    if |ws| == 0 then d else ApplyWrites(ApplyWrite(d, book, ws[0], readOnly), book, ws[1..], readOnly)
  }

  /** The names the writes target. */
  function TargetNames(ws: seq<Option<Write>>): set<string>
    decreases |ws|
  {
    if |ws| == 0 then {}
    else (if ws[0].Some? then {ws[0].value.name} else {}) + TargetNames(ws[1..])
  }

  /** The object the last write targeting `name` stores. */
  function LastObject(ws: seq<Option<Write>>, name: string): Json
    requires name in TargetNames(ws)
    decreases |ws|
  {
    if name in TargetNames(ws[1..]) then LastObject(ws[1..], name)
    else ws[0].value.obj
  }

  /** A write never turns a writable name into an unwritable one, nor the reverse. */
  lemma WriteKeepsWritable(d: Dir, book: string, w: Option<Write>, readOnly: set<(string, string)>)
    ensures forall n :: CanWriteIn(ApplyWrite(d, book, w, readOnly), book, n, readOnly) == CanWriteIn(d, book, n, readOnly)
  {
  }

  /** Writing keeps a directory well formed. */
  lemma {:induction false} ApplyWritesValid(d: Dir, book: string, ws: seq<Option<Write>>, readOnly: set<(string, string)>)
    requires ValidDir(d)
    ensures ValidDir(ApplyWrites(d, book, ws, readOnly))
    decreases |ws|
  {
    if |ws| > 0 {
      ApplyWritesValid(ApplyWrite(d, book, ws[0], readOnly), book, ws[1..], readOnly);
    }
  }

  /** After the writes the directory holds the names it had, plus the writable target names. */
  lemma {:induction false} ApplyWritesNames(d: Dir, book: string, ws: seq<Option<Write>>, readOnly: set<(string, string)>)
    ensures var e := ApplyWrites(d, book, ws, readOnly);
            forall n :: n in e.nodes <==> n in d.nodes || (n in TargetNames(ws) && CanWriteIn(d, book, n, readOnly))
    decreases |ws|
  {
    if |ws| > 0 {
      WriteKeepsWritable(d, book, ws[0], readOnly);
      ApplyWritesNames(ApplyWrite(d, book, ws[0], readOnly), book, ws[1..], readOnly);
    }
  }

  /** The names the writes do not reach keep their content. */
  lemma {:induction false} ApplyWritesKeeps(d: Dir, book: string, ws: seq<Option<Write>>, readOnly: set<(string, string)>)
    ensures var e := ApplyWrites(d, book, ws, readOnly);
            forall n :: n in d.nodes && !(n in TargetNames(ws) && CanWriteIn(d, book, n, readOnly)) ==>
              n in e.nodes && e.nodes[n] == d.nodes[n]
    decreases |ws|
  {
    if |ws| > 0 {
      var d1 := ApplyWrite(d, book, ws[0], readOnly);
      WriteKeepsWritable(d, book, ws[0], readOnly);
      ApplyWritesKeeps(d1, book, ws[1..], readOnly);
      forall n | n in d.nodes && !(n in TargetNames(ws) && CanWriteIn(d, book, n, readOnly))
        ensures n in d1.nodes && d1.nodes[n] == d.nodes[n]
        ensures !(n in TargetNames(ws[1..]) && CanWriteIn(d1, book, n, readOnly))
      {
      }
    }
  }

  /** Each writable target name ends up holding the object of the last write targeting it. */
  lemma {:induction false} ApplyWritesLastWins(d: Dir, book: string, ws: seq<Option<Write>>, readOnly: set<(string, string)>)
    ensures var e := ApplyWrites(d, book, ws, readOnly);
            forall n :: n in TargetNames(ws) && CanWriteIn(d, book, n, readOnly) ==>
              n in e.nodes && e.nodes[n] == File(LastObject(ws, n))
    decreases |ws|
  {
    if |ws| > 0 {
      var d1 := ApplyWrite(d, book, ws[0], readOnly);
      var e := ApplyWrites(d, book, ws, readOnly);
      WriteKeepsWritable(d, book, ws[0], readOnly);
      ApplyWritesLastWins(d1, book, ws[1..], readOnly);
      ApplyWritesKeeps(d1, book, ws[1..], readOnly);
      forall n | n in TargetNames(ws) && CanWriteIn(d, book, n, readOnly)
        ensures n in e.nodes && e.nodes[n] == File(LastObject(ws, n))
      {
        if n !in TargetNames(ws[1..]) {
          assert ws[0].Some? && ws[0].value.name == n;
          assert d1.nodes[n] == File(ws[0].value.obj);
        }
      }
    }
  }

  /** One entry with a usable plan is one planned write to the book's directory. */
  lemma AfterEntryWrites(fs: Fs, book: string, entry: Json, readOnly: set<(string, string)>)
    requires book in fs.dirs && EntryPlan(entry).Ok?
    ensures AfterEntry(fs, book, EntryPlan(entry).value.0, EntryPlan(entry).value.1, readOnly)
         == fs.(dirs := fs.dirs[book := ApplyWrite(fs.dirs[book], book, EntryWrite(entry), readOnly)])
  {
    var (prefix, obj) := EntryPlan(entry).value;
    if StoreSingle(fs, obj, prefix, book, readOnly).Err? {
      assert fs.dirs[book := fs.dirs[book]] == fs.dirs;
    }
  }

  /** One turn of the entry loop. */
  lemma StoreEntriesStep(fs: Fs, book: string, entries: seq<Json>, readOnly: set<(string, string)>)
    requires book in fs.dirs && |entries| > 0 && EntryPlan(entries[0]).Ok?
    ensures StoreEntries(fs, book, entries, readOnly)
         == StoreEntries(fs.(dirs := fs.dirs[book := ApplyWrite(fs.dirs[book], book, EntryWrite(entries[0]), readOnly)]),
                         book, entries[1..], readOnly)
  {
    AfterEntryWrites(fs, book, entries[0], readOnly);
  }

  /** An entry whose write fails (no usable label, or a name the system refuses) is skipped:
      the loop goes on with the next entry from an unchanged file system. */
  lemma UnwritableEntrySkipped(fs: Fs, book: string, entries: seq<Json>, readOnly: set<(string, string)>)
    requires book in fs.dirs && |entries| > 0 && EntryPlan(entries[0]).Ok?
    requires EntryWrite(entries[0]).None? || !CanWriteIn(fs.dirs[book], book, EntryWrite(entries[0]).value.name, readOnly)
    ensures StoreEntries(fs, book, entries, readOnly) == StoreEntries(fs, book, entries[1..], readOnly)
  {
    StoreEntriesStep(fs, book, entries, readOnly);
    UpdateTwice(fs.dirs, book, fs.dirs[book], fs.dirs[book]);
    assert fs.dirs[book := fs.dirs[book]] == fs.dirs;
  }

  /** Every entry's plan is usable. */
  predicate AllPlanned(entries: seq<Json>)
    decreases |entries|
  {
    |entries| == 0 || (EntryPlan(entries[0]).Ok? && AllPlanned(entries[1..]))
  }

  lemma {:induction false} AllPlannedEach(entries: seq<Json>)
    requires forall k :: 0 <= k < |entries| ==> EntryPlan(entries[k]).Ok?
    ensures AllPlanned(entries)
    decreases |entries|
  {
    if |entries| > 0 {
      var rest := entries[1..];
      assert forall k :: 0 <= k < |rest| ==> rest[k] == entries[k + 1];
      AllPlannedEach(rest);
    }
  }

  /** With every entry's plan usable, the entry loop raises nothing and its only effect is the
      planned writes, applied in order to the book's directory. */
  lemma {:induction false} StoreEntriesApplies(fs: Fs, book: string, entries: seq<Json>, readOnly: set<(string, string)>)
    requires book in fs.dirs && AllPlanned(entries)
    ensures StoreEntries(fs, book, entries, readOnly)
         == Effect(fs.(dirs := fs.dirs[book := ApplyWrites(fs.dirs[book], book, Writes(entries), readOnly)]), None)
    decreases |entries|
  {
    if |entries| == 0 {
      assert fs.dirs[book := fs.dirs[book]] == fs.dirs;
    } else {
      var d1 := ApplyWrite(fs.dirs[book], book, EntryWrite(entries[0]), readOnly);
      var next := fs.(dirs := fs.dirs[book := d1]);
      var rest := entries[1..];
      StoreEntriesStep(fs, book, entries, readOnly);
      StoreEntriesApplies(next, book, rest, readOnly);
      UpdateTwice(fs.dirs, book, d1, ApplyWrites(d1, book, Writes(rest), readOnly));
    }
  }

  lemma UpdateTwice(dirs: map<string, Dir>, book: string, first: Dir, second: Dir)
    ensures dirs[book := first][book := second] == dirs[book := second]
  {
    assert dirs[book := first][book := second].Keys == dirs[book := second].Keys;
  }

  /** An entry that fails before its write ends the book: the entries after the first such one
      are never written, and its error is what the book store raises. */
  lemma {:induction false} StoreEntriesAborts(fs: Fs, book: string, entries: seq<Json>, k: nat, readOnly: set<(string, string)>)
    requires k < |entries| && EntryPlan(entries[k]).Err?
    requires forall j :: 0 <= j < k ==> EntryPlan(entries[j]).Ok?
    ensures StoreEntries(fs, book, entries, readOnly)
         == Effect(StoreEntries(fs, book, entries[..k], readOnly).fs, Some(EntryPlan(entries[k]).error))
    decreases k
  {
    if k > 0 {
      var (prefix, obj) := EntryPlan(entries[0]).value;
      assert entries[..k][1..] == entries[1..][..k - 1];
      StoreEntriesAborts(AfterEntry(fs, book, prefix, obj, readOnly), book, entries[1..], k - 1, readOnly);
    }
  }

  /** Whole-book replacement: when every file of an existing book directory can be removed and
      every entry's file can be written, the stored book holds exactly one file per target name,
      with the object of the last entry targeting it; no other directory changes. */
  lemma StoreBookReplaces(fs: Fs, bookObj: Json, name: string, entries: seq<Json>, readOnly: set<(string, string)>)
    requires ValidFs(fs)
    requires BookName(bookObj) == Ok(name) && ValidBookName(name)
    requires BookEntries(bookObj) == Ok(entries)
    requires forall k :: 0 <= k < |entries| ==> EntryPlan(entries[k]).Ok?
    requires name in fs.dirs ==> forall n :: n in fs.dirs[name].nodes ==> Unlinkable(fs.dirs[name], name, n, readOnly)
    requires forall n :: n in TargetNames(Writes(entries)) ==> WritableName(n) && (name, n) !in readOnly
    ensures var r, ws := StoreBook(fs, bookObj, readOnly), Writes(entries);
            && r.raised == None
            && r.fs.rootExists && ValidFs(r.fs)
            && name in r.fs.dirs
            && r.fs.dirs.Keys == fs.dirs.Keys + {name}
            && (forall b :: b in fs.dirs && b != name ==> r.fs.dirs[b] == fs.dirs[b])
            && r.fs.dirs[name].nodes.Keys == TargetNames(ws)
            && (forall n :: n in TargetNames(ws) ==> r.fs.dirs[name].nodes[n] == File(LastObject(ws, n)))
  {
    var ready := PrepareBook(fs, name, readOnly);
    AllPlannedEach(entries);
    StoreBookApplies(fs, bookObj, name, entries, readOnly);
    PrepareBookEmpties(fs, name, readOnly);
    WritesIntoEmpty(ready.dirs[name], name, Writes(entries), readOnly);
    ReplaceDir(fs, ready, name, ApplyWrites(ready.dirs[name], name, Writes(entries), readOnly));
  }

  /** Setting one directory of a prepared file system. */
  lemma ReplaceDir(fs: Fs, ready: Fs, name: string, e: Dir)
    requires ready.rootExists && ValidFs(ready) && ValidDir(e)
    requires ready.dirs.Keys == fs.dirs.Keys + {name}
    requires forall b :: b in fs.dirs && b != name ==> ready.dirs[b] == fs.dirs[b]
    ensures var after := ready.(dirs := ready.dirs[name := e]);
            && after.rootExists && ValidFs(after)
            && name in after.dirs && after.dirs[name] == e
            && after.dirs.Keys == fs.dirs.Keys + {name}
            && (forall b :: b in fs.dirs && b != name ==> after.dirs[b] == fs.dirs[b])
  {
  }

  /** With the book's name and entries usable, storing the book is preparing its directory and
      applying the entries' writes to it. */
  lemma StoreBookApplies(fs: Fs, bookObj: Json, name: string, entries: seq<Json>, readOnly: set<(string, string)>)
    requires BookName(bookObj) == Ok(name) && ValidBookName(name)
    requires BookEntries(bookObj) == Ok(entries) && AllPlanned(entries)
    ensures var ready := PrepareBook(fs, name, readOnly);
            && name in ready.dirs
            && StoreBook(fs, bookObj, readOnly)
            == Effect(ready.(dirs := ready.dirs[name := ApplyWrites(ready.dirs[name], name, Writes(entries), readOnly)]), None)
  {
    StoreEntriesApplies(PrepareBook(fs, name, readOnly), name, entries, readOnly);
  }

  /** Preparing a book whose every file can be removed leaves its directory empty, creates the
      root when missing, and touches no other directory. */
  lemma PrepareBookEmpties(fs: Fs, name: string, readOnly: set<(string, string)>)
    requires ValidFs(fs)
    requires name in fs.dirs ==> forall n :: n in fs.dirs[name].nodes ==> Unlinkable(fs.dirs[name], name, n, readOnly)
    ensures var ready := PrepareBook(fs, name, readOnly);
            && ready.rootExists && ValidFs(ready)
            && ready.dirs.Keys == fs.dirs.Keys + {name}
            && (forall b :: b in fs.dirs && b != name ==> ready.dirs[b] == fs.dirs[b])
            && ready.dirs[name].nodes == map[]
  {
    if name in fs.dirs {
      WipeResult(fs.dirs[name], name, readOnly);
      assert PrepareBook(fs, name, readOnly).dirs[name].nodes == map[];
    }
  }

  /** Writes into an empty directory, every target name being writable, leave it holding exactly
      one file per target name, with the object of the last write to it. */
  lemma WritesIntoEmpty(d: Dir, book: string, ws: seq<Option<Write>>, readOnly: set<(string, string)>)
    requires ValidDir(d) && d.nodes == map[]
    requires forall n :: n in TargetNames(ws) ==> WritableName(n) && (book, n) !in readOnly
    ensures var e := ApplyWrites(d, book, ws, readOnly);
            && ValidDir(e)
            && e.nodes.Keys == TargetNames(ws)
            && (forall n :: n in TargetNames(ws) ==> e.nodes[n] == File(LastObject(ws, n)))
  {
    ApplyWritesValid(d, book, ws, readOnly);
    ApplyWritesNames(d, book, ws, readOnly);
    ApplyWritesLastWins(d, book, ws, readOnly);
  }

  // ---------------------------------------------------------------------------------------
  // The command: store one exchange string

  /** The object an exchange string holds: parsed, decoded as UTF-8 and read as JSON. */
  function ReadRequest(s: string, libs: Libs): (r: Result<Json, Error>)
    ensures r.Ok? ==> ParseBlueprintString(s, libs.zlib).Ok?
  {
    var data :- ParseBlueprintString(s, libs.zlib);
    var text :- libs.utf8.decode(data).ToResult(UnicodeDecodeError);
    libs.json.loads(text).ToResult(ValueError)
  }

  /** The new state and the return code of a command. */
  datatype Outcome = Outcome(fs: Fs, code: int)

  /** `store_db_from_string`: a book when the object has a `blueprint_book` key, else a single
      blueprint in the directory `bookName` when it has a `blueprint` key; 0 on success and -1
      when neither key is present or anything raises. */
  function StoreDb(fs: Fs, s: string, bookName: string, libs: Libs, readOnly: set<(string, string)>): (r: Outcome)
    ensures r.code == 0 || r.code == -1
    ensures ReadRequest(s, libs).Err? ==> r == Outcome(fs, -1)
    ensures r.code == 0 ==> |s| > 0 && s[0] == '0'
    ensures ReadRequest(s, libs).Ok? ==>
              var obj := ReadRequest(s, libs).value;
              && (!obj.Obj? ==> r == Outcome(fs, -1))
              && (obj.Obj? && "blueprint_book" in Keys(obj.fields) ==>
                    r == Outcome(StoreBook(fs, obj, readOnly).fs, if StoreBook(fs, obj, readOnly).raised.None? then 0 else -1))
              && (obj.Obj? && "blueprint_book" !in Keys(obj.fields) && "blueprint" in Keys(obj.fields) ==>
                    var single := StoreSingle(fs, obj, "", bookName, readOnly);
                    && (single.Ok? ==> r == Outcome(single.value, 0))
                    && (single.Err? ==> r == Outcome(fs, -1)))
              && (obj.Obj? && "blueprint_book" !in Keys(obj.fields) && "blueprint" !in Keys(obj.fields) ==>
                    r == Outcome(fs, -1))
  {
    match ReadRequest(s, libs)
    case Err(_) => Outcome(fs, -1)
    case Ok(obj) =>
      if !obj.Obj? then Outcome(fs, -1)
      else if "blueprint_book" in Keys(obj.fields) then
        var effect := StoreBook(fs, obj, readOnly);
        Outcome(effect.fs, if effect.raised.None? then 0 else -1)
      else if "blueprint" in Keys(obj.fields) then
        match StoreSingle(fs, obj, "", bookName, readOnly)
        case Ok(updated) => Outcome(updated, 0)
        case Err(_) => Outcome(fs, -1)
      else Outcome(fs, -1)
  }

  /** A failure after a book was prepared leaves the store changed yet returns -1: a book whose
      first entry has no `blueprint` key is wiped (or created empty) and reported as an error. */
  lemma BookWithMalformedEntry(fs: Fs, bookObj: Json, name: string, entries: seq<Json>, readOnly: set<(string, string)>)
    requires BookName(bookObj) == Ok(name) && ValidBookName(name)
    requires BookEntries(bookObj) == Ok(entries) && |entries| > 0
    requires Subscript(entries[0], "blueprint").Err?
    ensures StoreBook(fs, bookObj, readOnly) == Effect(PrepareBook(fs, name, readOnly), Some(EntryPlan(entries[0]).error))
  {
    StoreEntriesAborts(PrepareBook(fs, name, readOnly), name, entries, 0, readOnly);
    assert entries[..0] == [];
  }

  // ---------------------------------------------------------------------------------------
  // Listing a book

  /** `file[-5:] == ".json"`. */
  predicate HasJsonSuffix(name: string) {
    |name| >= 5 && name[|name| - 5..] == JsonSuffix
  }

  /** The names of `names` that are regular files ending in ".json", in order. */
  function JsonFiles(names: seq<string>, nodes: map<string, Node>): (r: seq<string>)
    decreases |names|
  {
    if |names| == 0 then []
    else
      var rest := JsonFiles(names[..|names| - 1], nodes);
      var n := names[|names| - 1];
      if n in nodes && nodes[n].File? && HasJsonSuffix(n) then rest + [n] else rest
  }

  /** `list_book_contents`: an OSError when the book's directory is missing. */
  function ListBook(fs: Fs, book: string): (r: Result<seq<string>, Error>)
    ensures r.Ok? <==> book in fs.dirs
  {
    if book in fs.dirs then Ok(JsonFiles(fs.dirs[book].listing, fs.dirs[book].nodes)) else Err(OSError)
  }

  lemma {:induction false} JsonFilesMembers(names: seq<string>, nodes: map<string, Node>)
    ensures forall n :: n in JsonFiles(names, nodes) <==> n in names && n in nodes && nodes[n].File? && HasJsonSuffix(n)
    ensures NoDup(names) ==> NoDup(JsonFiles(names, nodes))
    decreases |names|
  {
    if |names| > 0 {
      var init := names[..|names| - 1];
      JsonFilesMembers(init, nodes);
      assert names == init + [names[|names| - 1]];
      assert NoDup(names) ==> NoDup(init) && names[|names| - 1] !in init;
    }
  }

  /** Filtering a listing cut in two filters each part. */
  lemma {:induction false} JsonFilesAppend(a: seq<string>, b: seq<string>, nodes: map<string, Node>)
    ensures JsonFiles(a + b, nodes) == JsonFiles(a, nodes) + JsonFiles(b, nodes)
    decreases |b|
  {
    if |b| > 0 {
      var init := b[..|b| - 1];
      JsonFilesAppend(a, init, nodes);
      assert (a + b)[..|a + b| - 1] == a + init;
      assert (a + b)[|a + b| - 1] == b[|b| - 1];
    } else {
      assert a + b == a;
    }
  }

  /** Of two names the filter keeps, the one met first comes first. */
  lemma JsonFilesKeepsOrder(names: seq<string>, nodes: map<string, Node>, i: nat, j: nat)
    requires i < j < |names|
    requires names[i] in nodes && nodes[names[i]].File? && HasJsonSuffix(names[i])
    requires names[j] in nodes && nodes[names[j]].File? && HasJsonSuffix(names[j])
    ensures exists p, q :: 0 <= p < q < |JsonFiles(names, nodes)|
                           && JsonFiles(names, nodes)[p] == names[i] && JsonFiles(names, nodes)[q] == names[j]
  {
    var front, back := names[..j], names[j..];
    assert names == front + back;
    JsonFilesAppend(front, back, nodes);
    assert back == [names[j]] + back[1..];
    JsonFilesAppend([names[j]], back[1..], nodes);
    assert JsonFiles([names[j]], nodes) == [names[j]] by {
      assert [names[j]][..0] == [];
    }
    var l := JsonFiles(front, nodes);
    assert front[i] == names[i];
    JsonFilesMembers(front, nodes);
    var p :| 0 <= p < |l| && l[p] == names[i];
    assert JsonFiles(names, nodes) == l + [names[j]] + JsonFiles(back[1..], nodes);
    assert JsonFiles(names, nodes)[p] == names[i] && JsonFiles(names, nodes)[|l|] == names[j];
  }

  /** The listing keeps the order `os.listdir` gives: of two listed names, the one the directory
      lists first comes first. */
  lemma ListBookKeepsOrder(d: Dir, fs: Fs, book: string, i: nat, j: nat)
    requires book in fs.dirs && fs.dirs[book] == d && i < j < |d.listing|
    requires d.listing[i] in d.nodes && d.nodes[d.listing[i]].File? && HasJsonSuffix(d.listing[i])
    requires d.listing[j] in d.nodes && d.nodes[d.listing[j]].File? && HasJsonSuffix(d.listing[j])
    ensures exists p, q :: 0 <= p < q < |ListBook(fs, book).value|
                           && ListBook(fs, book).value[p] == d.listing[i] && ListBook(fs, book).value[q] == d.listing[j]
  {
    var listed := JsonFiles(d.listing, d.nodes);
    assert ListBook(fs, book).value == listed;
    JsonFilesKeepsOrder(d.listing, d.nodes, i, j);
    var p, q :| 0 <= p < q < |listed| && listed[p] == d.listing[i] && listed[q] == d.listing[j];
    assert ListBook(fs, book).value[p] == d.listing[i] && ListBook(fs, book).value[q] == d.listing[j];
  }

  /** A listing names each ".json" regular file of the directory once, and nothing else. */
  lemma ListBookExactly(fs: Fs, book: string)
    requires ValidFs(fs) && book in fs.dirs
    ensures var d := fs.dirs[book];
            && NoDup(ListBook(fs, book).value)
            && forall n :: n in ListBook(fs, book).value <==> n in d.nodes && d.nodes[n].File? && HasJsonSuffix(n)
  {
    var d := fs.dirs[book];
    JsonFilesMembers(d.listing, d.nodes);
  }

  /** After a whole-book replacement, listing the book gives each target name exactly once. */
  lemma ListAfterStoreBook(fs: Fs, bookObj: Json, name: string, entries: seq<Json>, readOnly: set<(string, string)>)
    requires ValidFs(fs)
    requires BookName(bookObj) == Ok(name) && ValidBookName(name)
    requires BookEntries(bookObj) == Ok(entries)
    requires forall k :: 0 <= k < |entries| ==> EntryPlan(entries[k]).Ok?
    requires name in fs.dirs ==> forall n :: n in fs.dirs[name].nodes ==> Unlinkable(fs.dirs[name], name, n, readOnly)
    requires forall n :: n in TargetNames(Writes(entries)) ==> WritableName(n) && (name, n) !in readOnly
    ensures var listed := ListBook(StoreBook(fs, bookObj, readOnly).fs, name);
            && listed.Ok? && NoDup(listed.value)
            && (set n | n in listed.value) == TargetNames(Writes(entries))
  {
    StoreBookReplaces(fs, bookObj, name, entries, readOnly);
    ListBookExactly(StoreBook(fs, bookObj, readOnly).fs, name);
    TargetsAreJson(entries);
  }

  /** Every target name ends in ".json". */
  lemma {:induction false} TargetsAreJson(entries: seq<Json>)
    ensures forall n :: n in TargetNames(Writes(entries)) ==> HasJsonSuffix(n)
    decreases |entries|
  {
    if |entries| > 0 {
      TargetsAreJson(entries[1..]);
      if EntryWrite(entries[0]).Some? {
        EntryWriteIsJson(entries[0]);
      }
    }
  }
}
