/** The command-line tool's database operations (blueprints.py at the repository root) as
    methods that update the directory tree in place, each proved to produce the state the
    functions of store_spec.dfy describe. */
module BlueprintDatabase {
  import opened Wrappers
  import opened PyValues
  import opened Libraries
  import opened BlueprintStore

  /** The database directory tree. */
  class BlueprintDb {
    /** `NO_BOOK_NAME`: the directory for blueprints stored outside any book. */
    const notABook: string
    /** The (directory, name) pairs the system refuses to unlink or to open for writing. */
    const readOnly: set<(string, string)>
    var rootExists: bool
    var dirs: map<string, Dir>

    function State(): Fs
      reads this
    {
      Fs(rootExists, dirs)
    }

    ghost predicate Valid()
      reads this
    {
      ValidFs(State())
    }

    constructor (notABook: string, readOnly: set<(string, string)>, initial: Fs)
      requires ValidFs(initial)
      ensures Valid() && State() == initial
      ensures this.notABook == notABook && this.readOnly == readOnly
    {
      this.notABook := notABook;
      this.readOnly := readOnly;
      rootExists := initial.rootExists;
      dirs := initial.dirs;
    }

    /** `create_db_directories`. */
    method CreateDbDirectories()
      requires Valid()
      modifies this
      ensures Valid() && State() == CreateDbDirs(old(State()), notABook)
    {
      if !rootExists {
        rootExists := true;
      }
      if notABook !in dirs {
        dirs := dirs[notABook := EmptyDir];
      }
    }

    /** `delete_book_content`: an OSError when the directory is missing; otherwise every
        regular file is unlinked, a refused unlink being reported and skipped. */
    method DeleteBookContent(book: string) returns (r: Result<(), Error>)
      requires Valid()
      modifies this
      ensures Valid()
      ensures book !in old(dirs) ==> r == Err(OSError) && State() == old(State())
      ensures book in old(dirs) ==>
                r == Ok(()) && State() == old(State()).(dirs := old(dirs)[book := Wipe(old(dirs)[book], book, readOnly)])
    {
      if book !in dirs {
        return Err(OSError);
      }
      var names := dirs[book].listing;
      for i := 0 to |names|
        invariant book in dirs && rootExists == old(rootExists)
        invariant dirs == old(dirs)[book := dirs[book]]
        invariant ValidDir(dirs[book])
        invariant WipeNames(dirs[book], book, names[i..], readOnly) == Wipe(old(dirs)[book], book, readOnly)
      {
        var name := names[i];
        var d := dirs[book];
        assert names[i..][1..] == names[i + 1..];
        if name in d.nodes && d.nodes[name].File? {
          if (book, name) !in readOnly {
            dirs := dirs[book := Unlink(d, name)];
          }
        }
      }
      return Ok(());
    }

    /** `store_single_blueprint`: writes `obj` to the file named from the prefix and its label. */
    method StoreSingleBlueprint(obj: Json, prefix: string, book: string) returns (r: Result<(), Error>)
      requires Valid()
      modifies this
      ensures Valid()
      ensures StoreSingle(old(State()), obj, prefix, book, readOnly).Ok? ==>
                r == Ok(()) && State() == StoreSingle(old(State()), obj, prefix, book, readOnly).value
      ensures StoreSingle(old(State()), obj, prefix, book, readOnly).Err? ==>
                r == Err(StoreSingle(old(State()), obj, prefix, book, readOnly).error) && State() == old(State())
    {
      var inner :- Subscript(obj, "blueprint");
      var tag :- LabelOrDefault(inner);
      if !tag.Str? {
        return Err(TypeError);
      }
      var fileName := prefix + tag.s + JsonSuffix;
      if book !in dirs || !CanWriteIn(dirs[book], book, fileName, readOnly) {
        return Err(IOError);
      }
      dirs := dirs[book := Put(dirs[book], fileName, obj)];
      return Ok(());
    }

    /** `store_blueprint_book`: the book's directory is created or wiped, then each entry is
        written; the result is the exception that escaped, if any. */
    method StoreBlueprintBook(bookObj: Json) returns (raised: Option<Error>)
      requires Valid()
      modifies this
      ensures Valid()
      ensures Effect(State(), raised) == StoreBook(old(State()), bookObj, readOnly)
    {
      var bookName := BookName(bookObj);
      if bookName.Err? {
        return Some(bookName.error);
      }
      var name := bookName.value;
      if !ValidBookName(name) {
        return Some(OSError);
      }
      if name !in dirs {
        // `os.makedirs` creates the root too when it is missing
        rootExists := true;
        dirs := dirs[name := EmptyDir];
      } else {
        var wiped := DeleteBookContent(name);
      }
      assert State() == PrepareBook(old(State()), name, readOnly);
      var entries := BookEntries(bookObj);
      if entries.Err? {
        return Some(entries.error);
      }
      ghost var ready := State();
      for i := 0 to |entries.value|
        invariant Valid() && name in dirs
        invariant StoreEntries(State(), name, entries.value[i..], readOnly) == StoreEntries(ready, name, entries.value, readOnly)
      {
        assert entries.value[i..][1..] == entries.value[i + 1..];
        var plan := EntryPlan(entries.value[i]);
        if plan.Err? {
          return Some(plan.error);
        }
        var (prefix, obj) := plan.value;
        var stored := StoreSingleBlueprint(obj, prefix, name);
      }
      return None;
    }

    /** `store_db_from_string`: 0 when the book or the single blueprint was stored, -1 when the
        string does not parse, holds neither key, or any step raises. */
    method StoreDbFromString(s: string, bookName: string, libs: Libs) returns (code: int)
      requires Valid()
      modifies this
      ensures Valid()
      ensures Outcome(State(), code) == StoreDb(old(State()), s, bookName, libs, readOnly)
    {
      var request := ReadRequest(s, libs);
      if request.Err? {
        return -1;
      }
      var obj := request.value;
      if !obj.Obj? {
        // `.keys()` raises an AttributeError
        return -1;
      }
      if "blueprint_book" in Keys(obj.fields) {
        var raised := StoreBlueprintBook(obj);
        return if raised.None? then 0 else -1;
      } else if "blueprint" in Keys(obj.fields) {
        var stored := StoreSingleBlueprint(obj, "", bookName);
        return if stored.Ok? then 0 else -1;
      }
      return -1;
    }

    /** `list_book_contents`: the ".json" regular files of the book, in listing order; an
        OSError when the book's directory is missing. */
    method ListBookContents(book: string) returns (r: Result<seq<string>, Error>)
      ensures r == ListBook(State(), book)
    {
      if book !in dirs {
        return Err(OSError);
      }
      var d := dirs[book];
      var content := [];
      for i := 0 to |d.listing|
        invariant content == JsonFiles(d.listing[..i], d.nodes)
      {
        var name := d.listing[i];
        assert d.listing[..i + 1][..i] == d.listing[..i];
        if name in d.nodes && d.nodes[name].File? && HasJsonSuffix(name) {
          content := content + [name];
        }
      }
      assert d.listing[..|d.listing|] == d.listing;
      return Ok(content);
    }
  }
}
