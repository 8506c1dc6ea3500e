/** The `CVTransformer` object: listing the CSV files of its folder and transforming them all. */
module Driver {
  import opened Wrappers
  import opened Errors
  import opened Text
  import opened Frames
  import opened Reshape

  /** The folder used when none is given. */
  const DefaultFolder := "gh_data"

  /** The suffix that selects a file, compared case-sensitively. */
  const CsvSuffix := ".csv"

  /** `os.path.join(folder, name)` on POSIX: an absolute `name` replaces the folder, and a '/' is
      put between the two unless the folder is empty or already ends with one. */
  function JoinPath(folder: string, name: string): (p: string)
    ensures name != [] && name[0] == '/' ==> p == name
    ensures !(name != [] && name[0] == '/') ==> |name| <= |p| && p[|p| - |name|..] == name
    ensures !(name != [] && name[0] == '/') ==> |folder| <= |p| && p[..|folder|] == folder
  {
    if name != [] && name[0] == '/' then name
    else if folder == [] || folder[|folder| - 1] == '/' then folder + name
    else folder + "/" + name
  }

  /** `os.path.basename(path)`: the longest suffix of `path` without a '/'. */
  function BaseName(path: string): (b: string)
    ensures |b| <= |path| && b == path[|path| - |b|..]
    ensures '/' !in b
    ensures |b| < |path| ==> path[|path| - |b| - 1] == '/'
  {
    if path == [] || path[|path| - 1] == '/' then []
    else BaseName(path[..|path| - 1]) + [path[|path| - 1]]
  }

  /** A name after a '/' (or alone) is its own base name. */
  lemma {:induction false} BaseNameAfterSlash(dir: string, name: string)
    requires dir == [] || dir[|dir| - 1] == '/'
    requires '/' !in name
    ensures BaseName(dir + name) == name
  {
    if name == [] {
      assert dir + name == dir;
    } else {
      var init := name[..|name| - 1];
      assert (dir + name)[..|dir + name| - 1] == dir + init;
      BaseNameAfterSlash(dir, init);
      assert init + [name[|name| - 1]] == name;
    }
  }

  /** Joining a listed name (which holds no '/') to the folder and taking the base name gives the
      name back, so the date is read from the listed name itself. */
  lemma BaseNameOfJoin(folder: string, name: string)
    requires '/' !in name
    ensures BaseName(JoinPath(folder, name)) == name
  {
    if folder == [] || folder[|folder| - 1] == '/' {
      BaseNameAfterSlash(folder, name);
    } else {
      assert folder + "/" + name == (folder + "/") + name;
      BaseNameAfterSlash(folder + "/", name);
    }
  }

  /** The paths of the names that end with `.csv`, in listing order. */
  function CsvPaths(folder: string, names: seq<string>): (paths: seq<string>)
    ensures |paths| <= |names|
  {
    if names == [] then []
    else
      var last := names[|names| - 1];
      CsvPaths(folder, names[..|names| - 1]) + (if EndsWith(last, CsvSuffix) then [JoinPath(folder, last)] else [])
  }

  /** Filtering a listing made of two parts filters each part, in order. */
  lemma {:induction false} CsvPathsAppend(folder: string, a: seq<string>, b: seq<string>)
    ensures CsvPaths(folder, a + b) == CsvPaths(folder, a) + CsvPaths(folder, b)
    decreases |b|
  {
    if b == [] {
      assert a + b == a;
    } else {
      var init := b[..|b| - 1];
      assert (a + b)[..|a + b| - 1] == a + init;
      CsvPathsAppend(folder, a, init);
    }
  }

  /** A path is listed exactly when it joins the folder to a listed name that ends with `.csv`. */
  lemma {:induction false} CsvPathsMembers(folder: string, names: seq<string>, p: string)
    ensures p in CsvPaths(folder, names) <==>
      exists n :: n in names && EndsWith(n, CsvSuffix) && p == JoinPath(folder, n)
  {
    if names != [] {
      var init := names[..|names| - 1];
      var last := names[|names| - 1];
      CsvPathsMembers(folder, init, p);
      assert names == init + [last];
      if exists n :: n in names && EndsWith(n, CsvSuffix) && p == JoinPath(folder, n) {
        var n :| n in names && EndsWith(n, CsvSuffix) && p == JoinPath(folder, n);
        assert n in init || n == last;
      }
    }
  }

  /** `read_csv` then `transform_csv` on one path; `load` stands for reading the file. The date
      comes from the path's base name. */
  function TransformFile(path: string, load: string -> Result<Frame, Error>): (r: Result<Frame, Error>)
  {
    var wide :- load(path);
    TransformCsv(BaseName(path), wide)
  }

  /** Only the loaded table and the base name matter: the folder a file sits in never changes
      its result. */
  lemma TransformFileIgnoresFolder(p: string, q: string, load: string -> Result<Frame, Error>)
    requires BaseName(p) == BaseName(q) && load(p) == load(q)
    ensures TransformFile(p, load) == TransformFile(q, load)
  {
  }

  /** The same file name in two folders, loaded to the same table, gives the same result. */
  lemma SameNameAnyFolder(a: string, b: string, name: string, load: string -> Result<Frame, Error>)
    requires '/' !in name && load(JoinPath(a, name)) == load(JoinPath(b, name))
    ensures TransformFile(JoinPath(a, name), load) == TransformFile(JoinPath(b, name), load)
  {
    BaseNameOfJoin(a, name);
    BaseNameOfJoin(b, name);
    TransformFileIgnoresFolder(JoinPath(a, name), JoinPath(b, name), load);
  }

  /** A listed file is transformed under its listed name. */
  lemma TransformListedFile(folder: string, name: string, load: string -> Result<Frame, Error>)
    requires '/' !in name
    ensures load(JoinPath(folder, name)).Ok? ==>
      TransformFile(JoinPath(folder, name), load) == TransformCsv(name, load(JoinPath(folder, name)).value)
  {
    BaseNameOfJoin(folder, name);
  }

  /** The outcome of transforming each file, in file order. */
  function Outcomes(files: seq<string>, load: string -> Result<Frame, Error>): (results: seq<Result<Frame, Error>>)
    ensures |results| == |files|
    ensures forall i :: 0 <= i < |files| ==> results[i] == TransformFile(files[i], load)
  {
    seq(|files|, i requires 0 <= i < |files| => TransformFile(files[i], load))
  }

  /** The tables of the outcomes that succeeded, in order; failures are skipped. */
  function Successes(results: seq<Result<Frame, Error>>): (tables: seq<Frame>)
    ensures |tables| <= |results|
  {
    if results == [] then []
    else
      var last := results[|results| - 1];
      Successes(results[..|results| - 1]) + (if last.Ok? then [last.value] else [])
  }

  /** Skipping failures keeps the order across a split of the list. */
  lemma {:induction false} SuccessesAppend(a: seq<Result<Frame, Error>>, b: seq<Result<Frame, Error>>)
    ensures Successes(a + b) == Successes(a) + Successes(b)
    decreases |b|
  {
    if b == [] {
      assert a + b == a;
    } else {
      var init := b[..|b| - 1];
      assert (a + b)[..|a + b| - 1] == a + init;
      SuccessesAppend(a, init);
    }
  }

  /** A failure adds no table, wherever it is in the list. */
  lemma FailureAddsNothing(a: seq<Result<Frame, Error>>, e: Result<Frame, Error>, b: seq<Result<Frame, Error>>)
    requires e.Err?
    ensures Successes(a + [e] + b) == Successes(a + b)
  {
    SuccessesAppend(a + [e], b);
    SuccessesAppend(a, [e]);
    SuccessesAppend(a, b);
    assert Successes([e]) == [] by {
      assert [e][..0] == [];
    }
  }

  /** A table is kept exactly when some outcome produced it. */
  lemma {:induction false} SuccessesMembers(results: seq<Result<Frame, Error>>, t: Frame)
    ensures t in Successes(results) <==> Ok(t) in results
  {
    if results != [] {
      var init := results[..|results| - 1];
      var last := results[|results| - 1];
      SuccessesMembers(init, t);
      assert results == init + [last];
    }
  }

  /** Nothing is transformed exactly when every outcome is a failure. */
  lemma {:induction false} NoSuccessIffAllFail(results: seq<Result<Frame, Error>>)
    ensures Successes(results) == [] <==> forall i :: 0 <= i < |results| ==> results[i].Err?
  {
    if results != [] {
      var init := results[..|results| - 1];
      NoSuccessIffAllFail(init);
      assert forall i :: 0 <= i < |init| ==> init[i] == results[i];
    }
  }

  class CvTransformer {
    /** The folder holding the CSV files. */
    const dataFolder: string

    constructor (dataFolder: string := DefaultFolder)
      ensures this.dataFolder == dataFolder
    {
      this.dataFolder := dataFolder;
    }

    /** The files the transformer works on; `listing` is `os.listdir` of the folder, or `None`
        when the folder does not exist. */
    function CsvFiles(listing: Option<seq<string>>): (files: seq<string>)
    {
      if listing.Some? then CsvPaths(dataFolder, listing.value) else []
    }

    /** `get_csv_files`: the listed names ending in `.csv`, in listing order, joined to the folder;
        no files when the folder does not exist. */
    method GetCsvFiles(listing: Option<seq<string>>) returns (files: seq<string>)
      ensures listing.None? ==> files == []
      ensures listing.Some? ==> files == CsvPaths(dataFolder, listing.value)
    {
      files := [];
      if listing.Some? {
        var names := listing.value;
        for i := 0 to |names|
          invariant files == CsvPaths(dataFolder, names[..i])
        {
          assert names[..i + 1][..i] == names[..i];
          if EndsWith(names[i], CsvSuffix) {
            files := files + [JoinPath(dataFolder, names[i])];
          }
        }
        assert names[..|names|] == names;
      }
    }

    /** `transform_all_files`: no files is an error; each file is loaded and transformed, and a
        file that fails is skipped; if none succeeds that is an error; otherwise the tables are
        concatenated in file order with the row index renumbered. */
    method TransformAllFiles(listing: Option<seq<string>>, load: string -> Result<Frame, Error>)
      returns (r: Result<Frame, Error>)
      ensures CsvFiles(listing) == [] ==> r == Err(NoCsvFiles(dataFolder))
      ensures CsvFiles(listing) != [] && Successes(Outcomes(CsvFiles(listing), load)) == [] ==>
        r == Err(NothingTransformed)
      ensures Successes(Outcomes(CsvFiles(listing), load)) != [] ==>
        r == Concat(Successes(Outcomes(CsvFiles(listing), load)))
    {
      var files := GetCsvFiles(listing);
      if files == [] {
        return Err(NoCsvFiles(dataFolder));
      }
      var tables: seq<Frame> := [];
      for i := 0 to |files|
        invariant tables == Successes(Outcomes(files[..i], load))
      {
        assert Outcomes(files[..i + 1], load)[..i] == Outcomes(files[..i], load);
        var t := TransformFile(files[i], load);
        if t.Ok? {
          tables := tables + [t.value];
        }
      }
      assert files[..|files|] == files;
      if tables == [] {
        return Err(NothingTransformed);
      }
      r := Concat(tables);
    }
  }
}
