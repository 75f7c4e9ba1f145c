/** The second pass of `process_puzzles`: every rating bin is sorted by theme
    and written, under the field names of the input, to its own file
    `data/puzzles/puzzles_<bin>.csv`. */
module Output {
  import opened Text
  import opened Bucketing
  import opened ThemeSort

  const PuzzlesDir: string := "data/puzzles"
  const NamePrefix: string := "puzzles_"
  const NameSuffix: string := ".csv"

  /** One written CSV file: the header row and the data rows. */
  datatype CsvFile = CsvFile(header: seq<string>, rows: seq<Record>)

  /** `f"puzzles_{rating_bin}.csv"`. */
  function FileName(b: nat): string {
    NamePrefix + Decimal(b) + NameSuffix
  }

  /** `os.path.join(puzzles_dir, ...)` with the POSIX separator. */
  function OutputPath(b: nat): string {
    PuzzlesDir + "/" + FileName(b)
  }

  /** A file name reads back as its bin: it is the prefix, a canonical
      numeral for the bin, and the suffix. */
  lemma FileNameRoundTrip(b: nat)
    ensures var f := FileName(b);
      |f| > |NamePrefix| + |NameSuffix| &&
      f[..|NamePrefix|] == NamePrefix &&
      f[|f| - |NameSuffix|..] == NameSuffix &&
      IsCanonical(f[|NamePrefix|..|f| - |NameSuffix|]) &&
      ParseDigits(f[|NamePrefix|..|f| - |NameSuffix|]) == b
  {
    var f := FileName(b);
    assert f[|NamePrefix|..|f| - |NameSuffix|] == Decimal(b);
  }

  /** Distinct bins are written to distinct files. */
  lemma OutputPathInjective(a: nat, b: nat)
    requires OutputPath(a) == OutputPath(b)
    ensures a == b
  {
    var pa, pb := OutputPath(a), OutputPath(b);
    var n := |PuzzlesDir + "/" + NamePrefix|;
    assert |Decimal(a)| == |Decimal(b)|;
    assert pa[n..|pa| - |NameSuffix|] == Decimal(a);
    assert pb[n..|pb| - |NameSuffix|] == Decimal(b);
    DecimalInjective(a, b);
  }

  /** Distinct bins have distinct paths. */
  ghost predicate Injective(path: nat -> string) {
    forall a, b :: path(a) == path(b) ==> a == b
  }

  /** The files written for the bins in `done`: one per bin, at the bin's
      path, holding the bin's contents, and no other file. */
  ghost predicate Written<V>(contents: map<nat, V>, path: nat -> string,
                             done: set<nat>, files: map<string, V>)
  {
    && done <= contents.Keys
    && (forall b :: b in done ==> path(b) in files && files[path(b)] == contents[b])
    && (forall name :: name in files ==> exists b :: b in done && name == path(b))
  }

  lemma MapAddSize<K, V>(m: map<K, V>, k: K, v: V)
    requires k !in m
    ensures |m[k := v]| == |m| + 1
  {
    assert m[k := v].Keys == m.Keys + {k};
  }

  /** Writing the file of one more bin adds exactly that file. */
  lemma WrittenStep<V>(contents: map<nat, V>, path: nat -> string,
                       done: set<nat>, files: map<string, V>, b: nat)
    requires Injective(path)
    requires Written(contents, path, done, files)
    requires b in contents && b !in done
    ensures path(b) !in files
    ensures Written(contents, path, done + {b}, files[path(b) := contents[b]])
  {
    var name := path(b);
    var files' := files[name := contents[b]];
    assert forall c :: c in done ==> path(c) != name;
    forall c | c in done + {b} ensures path(c) in files' && files'[path(c)] == contents[c] {
      if c != b {
        assert path(c) != name;
      }
    }
    forall name' | name' in files' ensures exists c :: c in done + {b} && name' == path(c) {
      if name' != name {
        var c :| c in done && name' == path(c);
      }
    }
  }

  /** The writing loop over `rating_groups`: each bin's list is sorted by
      theme and becomes the rows of the file at the bin's path, under the
      input's header. Each bin has its own path, so the order in which the
      bins are visited does not change the result. */
  method WriteBins(fieldnames: seq<string>, groups: map<nat, seq<Record>>, path: nat -> string)
    returns (files: map<string, CsvFile>)
    requires Injective(path)
    ensures forall b :: b in groups ==>
              path(b) in files &&
              files[path(b)] == CsvFile(fieldnames, SortByKey(groups[b], ThemeKey))
    ensures forall name :: name in files ==> exists b :: b in groups && name == path(b)
    ensures |files| == |groups|
  {
    ghost var contents := map b | b in groups :: CsvFile(fieldnames, SortByKey(groups[b], ThemeKey));
    files := map[];
    var todo := groups.Keys;
    ghost var done: set<nat> := {};
    while todo != {}
      invariant todo <= groups.Keys
      invariant forall c :: c in done ==> c !in todo
      invariant forall c :: c in groups ==> c in done || c in todo
      invariant Written(contents, path, done, files)
      invariant |files| == |done|
      decreases |todo|
    {
      var b :| b in todo;
      var file := CsvFile(fieldnames, SortByKey(groups[b], ThemeKey));
      assert file == contents[b];
      WrittenStep(contents, path, done, files, b);
      MapAddSize(files, path(b), file);
      assert |done + {b}| == |done| + 1;
      files := files[path(b) := file];
      todo := todo - {b};
      done := done + {b};
    }
    assert done == groups.Keys;
    assert |groups| == |groups.Keys|;
  }

  /** `process_puzzles` on already-parsed input: the header and the records
      of the normalised CSV. A file is written exactly for each bin that some
      kept record falls into; it holds that bin's records sorted by theme,
      and records sharing a theme stay in input order. */
  method ProcessPuzzles(fieldnames: seq<string>, puzzles: seq<Record>)
    returns (files: map<string, CsvFile>)
    ensures forall b :: OutputPath(b) in files <==> Members(puzzles, BinOf, b) != []
    ensures forall name :: name in files ==> exists b :: name == OutputPath(b)
    ensures forall b :: OutputPath(b) in files ==>
              files[OutputPath(b)] == CsvFile(fieldnames, SortByKey(Members(puzzles, BinOf, b), ThemeKey))
    ensures forall b :: OutputPath(b) in files ==>
              var rows := files[OutputPath(b)].rows;
              Sorted(rows, ThemeKey) &&
              multiset(rows) == multiset(Members(puzzles, BinOf, b)) &&
              forall k :: WithKey(rows, ThemeKey, k) == WithKey(Members(puzzles, BinOf, b), ThemeKey, k)
  {
    var groups := GroupByRating(puzzles);
    forall a, b | OutputPath(a) == OutputPath(b) ensures a == b {
      OutputPathInjective(a, b);
    }
    files := WriteBins(fieldnames, groups, OutputPath);
    forall b | OutputPath(b) in files
      ensures b in groups
    {
      var b' :| b' in groups && OutputPath(b) == OutputPath(b');
      OutputPathInjective(b, b');
    }
    forall b, k | OutputPath(b) in files
      ensures WithKey(files[OutputPath(b)].rows, ThemeKey, k) == WithKey(Members(puzzles, BinOf, b), ThemeKey, k)
    {
      SortStable(Members(puzzles, BinOf, b), ThemeKey, k);
    }
  }
}
