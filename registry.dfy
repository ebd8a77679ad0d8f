/** Dataset discovery (app.py line 51): the directory listing is filtered to
    the names ending in ".csv", each kept name is cut at its first '.', and
    the resulting year identifiers are sorted. The listing itself (os.listdir)
    is a parameter: a sequence of file names in whatever order the file
    system returns them. */
module Registry {
  import opened Ordering

  const CsvSuffix: string := ".csv"

  predicate EndsWith(s: string, suffix: string)
  {
    |suffix| <= |s| && s[|s| - |suffix|..] == suffix
  }

  /** `name.endswith('.csv')`: case-sensitive, so "2017.CSV" is not kept. */
  predicate IsCsv(name: string): (b: bool)
    ensures b ==> |Stem(name)| <= |name| - |CsvSuffix|
  {
    var b := EndsWith(name, CsvSuffix);
    assert b ==> name[|name| - |CsvSuffix|] == CsvSuffix[0];
    b
  }

  /** `name.split('.')[0]`: the longest prefix of `name` without a '.';
      the whole name when it has no '.' at all. */
  function Stem(name: string): (r: string)
    ensures r <= name
    ensures '.' !in r
    ensures |r| < |name| ==> name[|r|] == '.'
    decreases |name|
  {
    if name == [] || name[0] == '.' then []
    else [name[0]] + Stem(name[1..])
  }

  /** The listing entries that pass the comprehension's filter, in listing order. */
  function CsvFiles(files: seq<string>): (r: seq<string>)
    ensures |r| <= |files|
    ensures forall f :: f in r <==> f in files && IsCsv(f)
    ensures forall f :: multiset(r)[f] == if IsCsv(f) then multiset(files)[f] else 0
    ensures SubsequenceOf(r, files)
    decreases |files|
  {
    if files == [] then []
    else
      assert files == [files[0]] + files[1..];
      var rest := CsvFiles(files[1..]);
      if IsCsv(files[0]) then
        var r := [files[0]] + rest;
        assert r[1..] == rest;
        r
      else
        SubsequenceSkip(rest, files);
        rest
  }

  /** `a` is `b` with some entries left out, the rest kept in order. */
  predicate SubsequenceOf(a: seq<string>, b: seq<string>)
    decreases |b|
  {
    a == [] ||
    (b != [] && ((a[0] == b[0] && SubsequenceOf(a[1..], b[1..])) || SubsequenceOf(a, b[1..])))
  }

  lemma SubsequenceSkip(a: seq<string>, b: seq<string>)
    requires b != [] && SubsequenceOf(a, b[1..])
    ensures SubsequenceOf(a, b)
  {
  }

  /** The stem is the text before the first '.'. */
  lemma StemBeforeFirstDot(name: string, k: nat)
    requires k < |name| && name[k] == '.' && '.' !in name[..k]
    ensures Stem(name) == name[..k]
  {
  }

  /** The list comprehension `[file.split('.')[0] for file in files if file.endswith('.csv')]`. */
  function CsvStems(files: seq<string>): (r: seq<string>)
    ensures |r| <= |files|
    ensures forall y :: y in r ==> '.' !in y
    decreases |files|
  {
    if files == [] then []
    else (if IsCsv(files[0]) then [Stem(files[0])] else []) + CsvStems(files[1..])
  }

  /** `available_years`: the comprehension, sorted. */
  function AvailableYears(files: seq<string>): (r: seq<string>)
    ensures Sorted(r)
    ensures multiset(r) == multiset(CsvStems(files))
    ensures |r| == |CsvFiles(files)|
  {
    CsvStemsShape(files);
    var r := Sort(CsvStems(files));
    assert |multiset(r)| == |multiset(CsvStems(files))|;
    r
  }

  /** The file the dashboard opens for a selected year, `f"{selected_year}.csv"`
      (app.py line 58). */
  function YearFile(year: string): (r: string)
    ensures |r| == |year| + |CsvSuffix| && r[..|year|] == year && IsCsv(r)
  {
    year + CsvSuffix
  }

  // ---------------------------------------------------------------------------
  // The comprehension

  /** One identifier per ".csv" entry, in listing order: entry `i` of the
      comprehension is the stem of the `i`-th ".csv" file. */
  lemma {:induction false} CsvStemsShape(files: seq<string>)
    ensures |CsvStems(files)| == |CsvFiles(files)|
    ensures forall i :: 0 <= i < |CsvFiles(files)| ==> CsvStems(files)[i] == Stem(CsvFiles(files)[i])
    decreases |files|
  {
    if files != [] {
      CsvStemsShape(files[1..]);
      var rest := CsvFiles(files[1..]);
      var restStems := CsvStems(files[1..]);
      if IsCsv(files[0]) {
        CsvStemsShapeStep(files[0], rest, restStems);
        assert CsvFiles(files) == [files[0]] + rest;
        assert CsvStems(files) == [Stem(files[0])] + restStems;
      } else {
        assert CsvFiles(files) == rest && CsvStems(files) == restStems;
      }
    }
  }

  /** Putting one `.csv` name in front keeps stems and files aligned. */
  lemma CsvStemsShapeStep(f: string, rest: seq<string>, restStems: seq<string>)
    requires |restStems| == |rest|
    requires forall i :: 0 <= i < |rest| ==> restStems[i] == Stem(rest[i])
    ensures forall i :: 0 <= i < |rest| + 1 ==> ([Stem(f)] + restStems)[i] == Stem(([f] + rest)[i])
  {
    var cf := [f] + rest;
    var cs := [Stem(f)] + restStems;
    forall i | 0 < i < |cf| ensures cs[i] == Stem(cf[i]) {
      assert cf[i] == rest[i - 1] && cs[i] == restStems[i - 1];
    }
  }

  lemma CsvStemsSingle(f: string)
    ensures CsvStems([f]) == if IsCsv(f) then [Stem(f)] else []
  {
    assert [f][1..] == [];
  }

  lemma {:induction false} CsvStemsAppend(xs: seq<string>, ys: seq<string>)
    ensures CsvStems(xs + ys) == CsvStems(xs) + CsvStems(ys)
    decreases |xs|
  {
    if xs != [] {
      assert (xs + ys)[1..] == xs[1..] + ys;
      CsvStemsAppend(xs[1..], ys);
    } else {
      assert xs + ys == ys;
    }
  }

  /** The comprehension's elements depend only on which names are listed,
      counted with multiplicity, not on the listing order. */
  lemma {:induction false} CsvStemsPermutation(xs: seq<string>, ys: seq<string>)
    requires multiset(xs) == multiset(ys)
    ensures multiset(CsvStems(xs)) == multiset(CsvStems(ys))
    decreases |xs|
  {
    if xs == [] {
      assert |ys| == |multiset(ys)| == 0;
    } else {
      var x := xs[0];
      assert x in multiset(ys);
      var i :| 0 <= i < |ys| && ys[i] == x;
      var rest := ys[..i] + ys[i + 1..];
      assert ys == ys[..i] + [x] + ys[i + 1..];
      assert xs == [x] + xs[1..];
      assert multiset(xs[1..]) == multiset(xs) - multiset{x};
      assert multiset(rest) == multiset(ys) - multiset{x};
      CsvStemsPermutation(xs[1..], rest);
      CsvStemsAppend([x], xs[1..]);
      CsvStemsAppend(ys[..i] + [x], ys[i + 1..]);
      CsvStemsAppend(ys[..i], [x]);
      CsvStemsAppend(ys[..i], ys[i + 1..]);
    }
  }

  // ---------------------------------------------------------------------------
  // Properties of the discovered year list

  /** When the listing already yields its identifiers in ascending order,
      `sorted` keeps them exactly as the comprehension produced them. */
  lemma AvailableYearsOfOrderedListing(files: seq<string>)
    requires Sorted(CsvStems(files))
    ensures AvailableYears(files) == CsvStems(files)
  {
    SortedUnique(AvailableYears(files), CsvStems(files));
  }

  /** Every identifier is the stem of a listed ".csv" file and contains no
      '.'; every listed ".csv" file contributes its stem. */
  lemma {:induction false} AvailableYearsOrigin(files: seq<string>)
    ensures forall y :: y in AvailableYears(files) ==> '.' !in y
    ensures forall y :: y in AvailableYears(files) <==>
              exists f :: f in files && IsCsv(f) && Stem(f) == y
  {
    var ys := AvailableYears(files);
    forall y ensures y in ys <==> exists f :: f in files && IsCsv(f) && Stem(f) == y {
      if y in ys {
        ListedYearHasFile(files, y);
      }
      if f :| f in files && IsCsv(f) && Stem(f) == y {
        ListedFileHasYear(files, f);
      }
    }
  }

  /** A listed identifier is the stem of some listed ".csv" file. */
  lemma ListedYearHasFile(files: seq<string>, y: string)
    requires y in AvailableYears(files)
    ensures exists f :: f in files && IsCsv(f) && Stem(f) == y
  {
    CsvStemsShape(files);
    var cs := CsvStems(files);
    var cf := CsvFiles(files);
    assert y in multiset(AvailableYears(files));
    assert y in multiset(cs);
    var i :| 0 <= i < |cs| && cs[i] == y;
    assert cf[i] in cf;
  }

  /** Every listed ".csv" file's stem is a listed identifier. */
  lemma ListedFileHasYear(files: seq<string>, f: string)
    requires f in files && IsCsv(f)
    ensures Stem(f) in AvailableYears(files)
  {
    CsvStemsShape(files);
    var cs := CsvStems(files);
    var cf := CsvFiles(files);
    var i :| 0 <= i < |cf| && cf[i] == f;
    assert cs[i] == Stem(f);
    assert Stem(f) in multiset(cs);
    assert Stem(f) in multiset(AvailableYears(files));
  }

  /** Entries not ending in ".csv" contribute nothing: only the filtered
      listing matters. */
  lemma {:induction false} NonCsvIgnored(files: seq<string>)
    ensures AvailableYears(files) == AvailableYears(CsvFiles(files))
    decreases |files|
  {
    CsvStemsUnfiltered(files);
  }

  lemma {:induction false} CsvStemsUnfiltered(files: seq<string>)
    ensures CsvStems(CsvFiles(files)) == CsvStems(files)
    decreases |files|
  {
    if files != [] {
      CsvStemsUnfiltered(files[1..]);
      var rest := CsvFiles(files[1..]);
      if IsCsv(files[0]) {
        var cf := [files[0]] + rest;
        assert CsvFiles(files) == cf;
        assert cf[0] == files[0] && cf[1..] == rest;
        assert CsvStems(cf) == [Stem(files[0])] + CsvStems(rest);
      } else {
        assert CsvFiles(files) == rest;
      }
    }
  }

  /** Appending a non-".csv" entry to the listing leaves the year list as it was. */
  lemma ExtraNonCsvFile(files: seq<string>, other: string)
    requires !IsCsv(other)
    ensures AvailableYears(files + [other]) == AvailableYears(files)
  {
    CsvStemsAppend(files, [other]);
    CsvStemsSingle(other);
    assert CsvStems(files) + [] == CsvStems(files);
  }

  /** The year list does not depend on the order os.listdir returns. */
  lemma ListingOrderIrrelevant(files: seq<string>, shuffled: seq<string>)
    requires multiset(files) == multiset(shuffled)
    ensures AvailableYears(files) == AvailableYears(shuffled)
  {
    CsvStemsPermutation(files, shuffled);
    SortPermutationInvariant(CsvStems(files), CsvStems(shuffled));
  }

  /** A directory with two yearly files and a note lists the two years. */
  lemma TwoYearsAndANote()
    ensures AvailableYears(["2017.csv", "2019.csv", "notes.txt"]) == ["2017", "2019"]
  {
    TwoYearsAndANoteStems(["2017.csv", "2019.csv", "notes.txt"]);
    var years := ["2017", "2019"];
    YearsInOrder(years[0], years[1]);
    SortOfSorted(years);
  }

  lemma TwoYearsAndANoteStems(files: seq<string>)
    requires files == ["2017.csv", "2019.csv", "notes.txt"]
    ensures CsvStems(files) == ["2017", "2019"]
  {
    assert files[0] == YearFile("2017") && files[1] == YearFile("2019");
    StemOfYearFile("2017");
    StemOfYearFile("2019");
    NotCsv(files[2]);
    CsvStemsOfThree(files[0], files[1], files[2]);
    assert files == [files[0], files[1], files[2]];
  }

  lemma NotCsv(name: string)
    requires name == "notes.txt"
    ensures !IsCsv(name)
  {
    assert name[|name| - 1] != CsvSuffix[3];
  }

  lemma CsvStemsOfThree(a: string, b: string, c: string)
    requires IsCsv(a) && IsCsv(b) && !IsCsv(c)
    ensures CsvStems([a, b, c]) == [Stem(a), Stem(b)]
  {
    CsvStemsSingle(a);
    CsvStemsSingle(b);
    CsvStemsSingle(c);
    assert [a, b, c] == [a] + [b] + [c];
    CsvStemsAppend([a] + [b], [c]);
    CsvStemsAppend([a], [b]);
  }

  lemma YearsInOrder(a: string, b: string)
    requires a == "2017" && b == "2019"
    ensures Sorted([a, b])
  {
    assert a[1..][1..][1..] == "7" && b[1..][1..][1..] == "9";
    assert LessEq(a[1..][1..][1..], b[1..][1..][1..]);
    assert LessEq(a, b);
  }

  /** Two files with the same stem give the same year twice: the list is
      not deduplicated. */
  lemma DuplicateStemsKept()
    ensures AvailableYears(["2017.csv", "2017.old.csv"]) == ["2017", "2017"]
  {
    DuplicateStems(["2017.csv", "2017.old.csv"]);
    LessEqReflexive("2017");
    SortOfSorted(["2017", "2017"]);
  }

  lemma DuplicateStems(files: seq<string>)
    requires files == ["2017.csv", "2017.old.csv"]
    ensures CsvStems(files) == ["2017", "2017"]
  {
    assert IsCsv(files[0]) && IsCsv(files[1]);
    StemBeforeFirstDot(files[0], 4);
    StemBeforeFirstDot(files[1], 4);
    assert Stem(files[0]) == "2017" && Stem(files[1]) == "2017";
    CsvStemsSingle(files[0]);
    CsvStemsSingle(files[1]);
    assert files == [files[0]] + [files[1]];
    CsvStemsAppend([files[0]], [files[1]]);
  }

  // ---------------------------------------------------------------------------
  // Listing versus loading

  /** As written, a listed year need not name a file that exists: the only
      ".csv" entry "2017.v2.csv" lists the year "2017", and selecting it
      opens "2017.csv", which is not in the directory. */
  lemma ListedYearFileMissing()
    ensures AvailableYears(["2017.v2.csv"]) == ["2017"]
    ensures YearFile("2017") !in ["2017.v2.csv"]
  {
    assert IsCsv("2017.v2.csv");
    StemBeforeFirstDot("2017.v2.csv", 4);
    assert Stem("2017.v2.csv") == "2017";
    CsvStemsSingle("2017.v2.csv");
    assert CsvStems(["2017.v2.csv"]) == ["2017"];
    assert |YearFile("2017")| == 8;
  }

  /** The name without its ".csv" extension. */
  function StripCsv(name: string): (r: string)
    requires IsCsv(name)
    ensures YearFile(r) == name
  {
    name[..|name| - |CsvSuffix|]
  }

  function StrippedNames(names: seq<string>): (r: seq<string>)
    requires forall f :: f in names ==> IsCsv(f)
    ensures |r| == |names|
    ensures forall i :: 0 <= i < |names| ==> YearFile(r[i]) == names[i]
    decreases |names|
  {
    if names == [] then [] else [StripCsv(names[0])] + StrippedNames(names[1..])
  }

  /** Discovery that removes only the ".csv" extension, so that every listed
      year opens a file of the listing. */
  function LoadableYears(files: seq<string>): (r: seq<string>)
    ensures Sorted(r)
    ensures |r| == |CsvFiles(files)|
  {
    var sn := StrippedNames(CsvFiles(files));
    assert |multiset(Sort(sn))| == |multiset(sn)|;
    Sort(sn)
  }

  /** Every year of the corrected list names a file that is in the listing,
      and every listed ".csv" file's year is offered. */
  lemma LoadableYearsOpenListedFiles(files: seq<string>)
    ensures forall y :: y in LoadableYears(files) ==> YearFile(y) in files
    ensures forall f :: f in files && IsCsv(f) ==> StripCsv(f) in LoadableYears(files)
  {
    var ys := LoadableYears(files);
    var cf := CsvFiles(files);
    var sn := StrippedNames(cf);
    assert multiset(ys) == multiset(sn);
    forall y | y in ys ensures YearFile(y) in files {
      assert y in multiset(ys);
      assert y in multiset(sn);
      var i :| 0 <= i < |sn| && sn[i] == y;
      assert cf[i] in cf;
    }
    forall f | f in files && IsCsv(f) ensures StripCsv(f) in ys {
      assert f in cf;
      var i :| 0 <= i < |cf| && cf[i] == f;
      assert YearFile(sn[i]) == f == YearFile(StripCsv(f));
      assert sn[i] == StripCsv(f);
      assert sn[i] in multiset(sn);
    }
  }

  /** On a directory whose ".csv" files are all named "<year>.csv" with no
      other '.', the corrected discovery and the source's agree. */
  lemma {:induction false} LoadableYearsAgree(files: seq<string>)
    requires forall f :: f in files && IsCsv(f) ==> '.' !in StripCsv(f)
    ensures LoadableYears(files) == AvailableYears(files)
  {
    var cf := CsvFiles(files);
    var sn := StrippedNames(cf);
    CsvStemsShape(files);
    forall i | 0 <= i < |cf| ensures sn[i] == CsvStems(files)[i] {
      assert cf[i] in cf;
      StemOfYearFile(sn[i]);
    }
    assert sn == CsvStems(files);
  }

  /** Cutting "<year>.csv" at its first '.' gives back the year when the
      year has no '.' of its own. */
  lemma {:induction false} StemOfYearFile(year: string)
    requires '.' !in year
    ensures Stem(YearFile(year)) == year
  {
    var n := YearFile(year);
    assert n[|year|] == '.' && n[..|year|] == year;
    StemBeforeFirstDot(n, |year|);
  }
}
