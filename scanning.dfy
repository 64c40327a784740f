/**
 * `iter_text_files` of rag_chatbot/utils.py over an abstract file system.
 *
 * A path is its list of components (`PurePosixPath` orders paths by that list,
 * comparing components by code point). What `Path.exists`, `Path.is_file`,
 * `Path.suffix` and `Path.rglob("*")` report is given: a root is missing, a
 * file with its suffix, or a directory with the listing `rglob` produces.
 */
module Scanning {
  import opened Wrappers
  import opened Text

  type Path = seq<string>

  /** One path `rglob("*")` reports: whether `is_file()` holds for it, and its `suffix`. */
  datatype Entry = Entry(path: Path, isFile: bool, suffix: string)

  datatype Root =
    | Missing
    | FileRoot(path: Path, suffix: string)
    | DirectoryRoot(listing: seq<Entry>)

  /** `FileNotFoundError("Document path does not exist: ...")`. */
  datatype ScanError = NotFound

  const SupportedExtensions: set<string> := {".txt", ".md", ".markdown"}

  /** `suffix.lower() in SUPPORTED_EXTENSIONS`. */
  predicate Supported(suffix: string) {
    Lower(suffix) in SupportedExtensions
  }

  predicate Selected(e: Entry) {
    e.isFile && Supported(e.suffix)
  }

  // ---------------------------------------------------------------------------
  // The order `sorted` uses on paths

  /** `a <= b` on strings: code-point lexicographic order. */
  predicate StrLe(a: string, b: string) {
    a == [] || (b != [] && if a[0] == b[0] then StrLe(a[1..], b[1..]) else a[0] < b[0])
  }

  /** `a <= b` on paths: lexicographic over components, each compared with `StrLe`. */
  predicate PathLe(a: Path, b: Path) {
    a == [] || (b != [] && if a[0] == b[0] then PathLe(a[1..], b[1..]) else StrLe(a[0], b[0]))
  }

  lemma {:induction false} StrLeTotal(a: string, b: string)
    ensures StrLe(a, b) || StrLe(b, a)
  {
    if a != [] && b != [] && a[0] == b[0] {
      StrLeTotal(a[1..], b[1..]);
    }
  }

  lemma {:induction false} StrLeTransitive(a: string, b: string, c: string)
    requires StrLe(a, b) && StrLe(b, c)
    ensures StrLe(a, c)
  {
    if a != [] && a[0] == b[0] && b[0] == c[0] {
      StrLeTransitive(a[1..], b[1..], c[1..]);
    }
  }

  lemma {:induction false} StrLeAntisymmetric(a: string, b: string)
    requires StrLe(a, b) && StrLe(b, a)
    ensures a == b
  {
    if a != [] {
      StrLeAntisymmetric(a[1..], b[1..]);
      assert a == [a[0]] + a[1..] && b == [b[0]] + b[1..];
    }
  }

  lemma {:induction false} PathLeTotal(a: Path, b: Path)
    ensures PathLe(a, b) || PathLe(b, a)
  {
    if a != [] && b != [] {
      if a[0] == b[0] {
        PathLeTotal(a[1..], b[1..]);
      } else {
        StrLeTotal(a[0], b[0]);
      }
    }
  }

  lemma {:induction false} PathLeTransitive(a: Path, b: Path, c: Path)
    requires PathLe(a, b) && PathLe(b, c)
    ensures PathLe(a, c)
  {
    if a != [] {
      if a[0] == b[0] && b[0] == c[0] {
        PathLeTransitive(a[1..], b[1..], c[1..]);
      } else if a[0] != b[0] && b[0] != c[0] {
        StrLeTransitive(a[0], b[0], c[0]);
        if a[0] == c[0] {
          StrLeAntisymmetric(a[0], b[0]);
        }
      }
    }
  }

  lemma {:induction false} PathLeAntisymmetric(a: Path, b: Path)
    requires PathLe(a, b) && PathLe(b, a)
    ensures a == b
  {
    if a != [] {
      if a[0] == b[0] {
        PathLeAntisymmetric(a[1..], b[1..]);
        assert a == [a[0]] + a[1..] && b == [b[0]] + b[1..];
      } else {
        StrLeAntisymmetric(a[0], b[0]);
      }
    }
  }

  // ---------------------------------------------------------------------------
  // `sorted(root.rglob("*"))`

  predicate SortedPaths(ps: seq<Path>) {
    forall i, j :: 0 <= i < j < |ps| ==> PathLe(ps[i], ps[j])
  }

  predicate SortedEntries(es: seq<Entry>) {
    forall i, j :: 0 <= i < j < |es| ==> PathLe(es[i].path, es[j].path)
  }

  /** Insert `e` before the first entry it does not follow; equal paths keep their order. */
  function Insert(e: Entry, es: seq<Entry>): seq<Entry> {
    if es == [] then [e]
    else if PathLe(e.path, es[0].path) then [e] + es
    else [es[0]] + Insert(e, es[1..])
  }

  /** `sorted` on the listing: a stable sort by path. */
  function SortByPath(es: seq<Entry>): seq<Entry> {
    if es == [] then [] else Insert(es[0], SortByPath(es[1..]))
  }

  lemma {:induction false} InsertPermutes(e: Entry, es: seq<Entry>)
    ensures multiset(Insert(e, es)) == multiset(es) + multiset{e}
  {
    if es != [] && !PathLe(e.path, es[0].path) {
      InsertPermutes(e, es[1..]);
      assert es == [es[0]] + es[1..];
    }
  }

  /** An entry that precedes every entry of a sorted list can go in front of it. */
  lemma ConsSorted(x: Entry, es: seq<Entry>)
    requires SortedEntries(es)
    requires forall k :: 0 <= k < |es| ==> PathLe(x.path, es[k].path)
    ensures SortedEntries([x] + es)
  {
    var r := [x] + es;
    forall i, j | 0 <= i < j < |r|
      ensures PathLe(r[i].path, r[j].path)
    {
      assert r[j] == es[j - 1];
      if i > 0 {
        assert r[i] == es[i - 1];
      }
    }
  }

  /** The next entry of a sorted list precedes everything after it. */
  lemma HeadPrecedes(x: Entry, es: seq<Entry>)
    requires SortedEntries(es) && es != [] && PathLe(x.path, es[0].path)
    ensures forall k :: 0 <= k < |es| ==> PathLe(x.path, es[k].path)
  {
    forall k | 0 < k < |es|
      ensures PathLe(x.path, es[k].path)
    {
      PathLeTransitive(x.path, es[0].path, es[k].path);
    }
  }

  lemma {:induction false} InsertSorted(e: Entry, es: seq<Entry>)
    requires SortedEntries(es)
    ensures SortedEntries(Insert(e, es))
  {
    if es == [] {
    } else if PathLe(e.path, es[0].path) {
      HeadPrecedes(e, es);
      ConsSorted(e, es);
    } else {
      var rest := es[1..];
      assert SortedEntries(rest) by {
        assert forall i :: 0 <= i < |rest| ==> rest[i] == es[i + 1];
      }
      InsertSorted(e, rest);
      PathLeTotal(e.path, es[0].path);
      InsertFollows(es[0], e, rest);
      ConsSorted(es[0], Insert(e, rest));
    }
  }

  /** An entry that precedes `e` and the whole of `rest` precedes everything in `Insert(e, rest)`. */
  lemma InsertFollows(x: Entry, e: Entry, rest: seq<Entry>)
    requires PathLe(x.path, e.path)
    requires forall k :: 0 <= k < |rest| ==> PathLe(x.path, rest[k].path)
    ensures forall k :: 0 <= k < |Insert(e, rest)| ==> PathLe(x.path, Insert(e, rest)[k].path)
  {
    InsertPermutes(e, rest);
    var ins := Insert(e, rest);
    forall k | 0 <= k < |ins|
      ensures PathLe(x.path, ins[k].path)
    {
      assert ins[k] in multiset(rest) + multiset{e};
      if ins[k] != e {
        assert ins[k] in rest;
      }
    }
  }

  /** `sorted` returns the listing reordered by path. */
  lemma {:induction false} SortByPathSortsAndPermutes(es: seq<Entry>)
    ensures SortedEntries(SortByPath(es))
    ensures multiset(SortByPath(es)) == multiset(es)
  {
    if es != [] {
      SortByPathSortsAndPermutes(es[1..]);
      InsertSorted(es[0], SortByPath(es[1..]));
      InsertPermutes(es[0], SortByPath(es[1..]));
      assert es == [es[0]] + es[1..];
    }
  }

  // ---------------------------------------------------------------------------
  // The generator

  /** The paths of the selected entries, in the order given. */
  function SelectedPaths(es: seq<Entry>): seq<Path> {
    if es == [] then []
    else SelectedPaths(es[..|es| - 1]) + (if Selected(es[|es| - 1]) then [es[|es| - 1].path] else [])
  }

  /** Everything `iter_text_files(root)` yields, or the error it raises. */
  function TextFiles(root: Root): Result<seq<Path>, ScanError> {
    match root
    case Missing => Failure(NotFound)
    case FileRoot(path, suffix) => Success(if Supported(suffix) then [path] else [])
    case DirectoryRoot(listing) => Success(SelectedPaths(SortByPath(listing)))
  }

  method IterTextFiles(root: Root) returns (r: Result<seq<Path>, ScanError>)
    ensures r == TextFiles(root)
  {
    if root.Missing? {
      return Failure(NotFound);
    }
    if root.FileRoot? {
      if Supported(root.suffix) {
        return Success([root.path]);
      }
      return Success([]);
    }
    var ordered := SortByPath(root.listing);
    var files: seq<Path> := [];
    for i := 0 to |ordered|
      invariant files == SelectedPaths(ordered[..i])
    {
      if ordered[i].isFile && Supported(ordered[i].suffix) {
        files := files + [ordered[i].path];
      }
      assert ordered[..i + 1][..i] == ordered[..i];
    }
    assert ordered[..|ordered|] == ordered;
    return Success(files);
  }

  // ---------------------------------------------------------------------------
  // Properties

  lemma {:induction false} SelectedPathsMembers(es: seq<Entry>, p: Path)
    ensures p in SelectedPaths(es) <==> exists i :: 0 <= i < |es| && Selected(es[i]) && es[i].path == p
  {
    if es != [] {
      var init := es[..|es| - 1];
      SelectedPathsMembers(init, p);
      if exists i :: 0 <= i < |init| && Selected(init[i]) && init[i].path == p {
        var i :| 0 <= i < |init| && Selected(init[i]) && init[i].path == p;
        assert es[i] == init[i];
      }
      if exists i :: 0 <= i < |es| && Selected(es[i]) && es[i].path == p {
        var i :| 0 <= i < |es| && Selected(es[i]) && es[i].path == p;
        if i < |init| {
          assert init[i] == es[i];
        }
      }
    }
  }

  /** Selecting keeps the entries' relative order, so sorted entries give sorted paths. */
  lemma {:induction false} SelectedPathsSorted(es: seq<Entry>)
    requires SortedEntries(es)
    ensures SortedPaths(SelectedPaths(es))
  {
    if es != [] {
      var init := es[..|es| - 1];
      var last := es[|es| - 1];
      assert SortedEntries(init) by {
        assert forall i :: 0 <= i < |init| ==> init[i] == es[i];
      }
      SelectedPathsSorted(init);
      var ps := SelectedPaths(init);
      if Selected(last) {
        forall k | 0 <= k < |ps|
          ensures PathLe(ps[k], last.path)
        {
          SelectedPathsMembers(init, ps[k]);
          var i :| 0 <= i < |init| && Selected(init[i]) && init[i].path == ps[k];
          assert init[i] == es[i];
        }
      }
    }
  }

  /** A missing root raises, and nothing else does. */
  lemma MissingRootFails(root: Root)
    ensures TextFiles(root).Failure? <==> root.Missing?
  {
  }

  /** A file root yields itself exactly when its lowercased suffix is supported, and nothing otherwise. */
  lemma FileRootSelf(path: Path, suffix: string)
    ensures TextFiles(FileRoot(path, suffix)) == Success([path]) <==>
      Lower(suffix) in {".txt", ".md", ".markdown"}
    ensures !Supported(suffix) ==> TextFiles(FileRoot(path, suffix)) == Success([])
  {
  }

  /** A directory root yields, in sorted order, exactly the paths of listed regular files with a supported suffix. */
  lemma DirectoryRootSelection(listing: seq<Entry>, p: Path)
    ensures TextFiles(DirectoryRoot(listing)).Success?
    ensures SortedPaths(TextFiles(DirectoryRoot(listing)).value)
    ensures p in TextFiles(DirectoryRoot(listing)).value <==>
      exists e :: e in listing && e.isFile && Supported(e.suffix) && e.path == p
  {
    var sorted := SortByPath(listing);
    SortByPathSortsAndPermutes(listing);
    SelectedPathsSorted(sorted);
    SelectedPathsMembers(sorted, p);
    if exists e :: e in listing && Selected(e) && e.path == p {
      var e :| e in listing && Selected(e) && e.path == p;
      assert e in multiset(sorted);
      var i :| 0 <= i < |sorted| && sorted[i] == e;
    }
    if exists i :: 0 <= i < |sorted| && Selected(sorted[i]) && sorted[i].path == p {
      var i :| 0 <= i < |sorted| && Selected(sorted[i]) && sorted[i].path == p;
      assert sorted[i] in multiset(listing);
    }
  }

  /** The suffix test ignores ASCII case: ".MD" and ".Txt" qualify, ".rst" and the empty suffix do not. */
  lemma SuffixExamples()
    ensures Supported(".MD") && Supported(".Txt") && Supported(".MarkDown")
    ensures !Supported(".rst") && !Supported("") && !Supported(".mdx")
  {
    assert Lower(".MD") == ".md";
    assert Lower(".Txt") == ".txt";
    assert Lower(".MarkDown") == ".markdown";
    assert Lower(".rst") == ".rst";
    assert Lower(".mdx") == ".mdx";
  }
}
