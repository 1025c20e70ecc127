/**
 * The order in which a directory of images is played: the `*.jp*` files,
 * or the `*.png` files when there is no `*.jp*` file, sorted by the integer
 * value of their file-name stem with Python's stable `sorted`.
 */
module FrameOrder {
  import opened Wrappers
  import opened Errors
  import Decimal
  import FileNames

  /** A path paired with its sort key. */
  datatype Entry = Entry(key: int, path: string)

  /** The sort key of a path, `int(stem)`; `None` where `int()` raises,
      in particular for every path without a digit. */
  function StemKey(path: string): (r: Option<int>)
    ensures r.Some? ==> exists i :: 0 <= i < |path| && Decimal.IsDigit(path[i])
  {
    StemDigit(path);
    Decimal.ParseInt(FileNames.Stem(path))
  }

  lemma StemDigit(path: string)
    ensures Decimal.ParseInt(FileNames.Stem(path)).Some? ==>
              exists i :: 0 <= i < |path| && Decimal.IsDigit(path[i])
  {
    var a := FileNames.AfterLast(path, '/');
    var st := FileNames.BeforeFirst(a, '.');
    if Decimal.ParseInt(st).Some? {
      InfixDigit(path, a, st);
    }
  }

  /** A digit of a prefix of a suffix is a digit of the whole. */
  lemma InfixDigit(path: string, a: string, st: string)
    requires |a| <= |path| && a == path[|path| - |a|..]
    requires |st| <= |a| && st == a[..|st|]
    requires exists i :: 0 <= i < |st| && Decimal.IsDigit(st[i])
    ensures exists i :: 0 <= i < |path| && Decimal.IsDigit(path[i])
  {
    var i :| 0 <= i < |st| && Decimal.IsDigit(st[i]);
    assert st[i] == a[i] == path[|path| - |a| + i];
  }

  /** A zero-padded numbered image `dir/000n.ext` is keyed `n`. */
  lemma NumberedFileKey(dir: string, k: nat, n: nat, ext: string)
    requires '/' !in ext
    requires ext == [] || ext[0] == '.'
    ensures StemKey(dir + ['/'] + (Decimal.Zeros(k) + Decimal.Show(n)) + ext) == Some(n)
  {
    var name := Decimal.Zeros(k) + Decimal.Show(n);
    DigitsOnly(name);
    FileNames.StemOfPath(dir, name, ext);
    Decimal.LeadingZeroIgnored(k, n);
  }

  lemma DigitsOnly(name: string)
    requires forall i :: 0 <= i < |name| ==> Decimal.IsDigit(name[i])
    ensures '/' !in name && '.' !in name
  {
  }

  /** Keys ascend from each entry to the next. */
  predicate Sorted(s: seq<Entry>) {
    |s| <= 1 || (s[0].key <= s[1].key && Sorted(s[1..]))
  }

  /** In a sorted list every key is at least the first one. */
  lemma {:induction false} SortedHeadIsLeast(s: seq<Entry>, x: Entry)
    requires Sorted(s) && x in s
    ensures s[0].key <= x.key
  {
    if x != s[0] {
      assert x in s[1..];
      SortedHeadIsLeast(s[1..], x);
    }
  }

  /** Sorted by neighbours means sorted by every pair. */
  lemma {:induction false} SortedPairs(s: seq<Entry>, i: int, j: int)
    requires Sorted(s) && 0 <= i < j < |s|
    ensures s[i].key <= s[j].key
  {
    if i == 0 {
      SortedHeadIsLeast(s, s[j]);
    } else {
      SortedPairs(s[1..], i - 1, j - 1);
    }
  }

  /** The entries of `s` whose key is `k`, in their order in `s`. */
  function WithKey(s: seq<Entry>, k: int): seq<Entry> {
    if s == [] then []
    else (if s[0].key == k then [s[0]] else []) + WithKey(s[1..], k)
  }

  /** `r` is what a stable sort by key makes of `s`: ascending keys, and
      the entries sharing any one key in the order they had in `s`. */
  ghost predicate IsStableSortOf(r: seq<Entry>, s: seq<Entry>) {
    Sorted(r) && forall k :: WithKey(r, k) == WithKey(s, k)
  }

  /** Puts `e` in front of the first entry whose key is not smaller. */
  function Insert(e: Entry, s: seq<Entry>): (r: seq<Entry>)
    requires Sorted(s)
    ensures Sorted(r)
    ensures r != [] && (r[0] == e || (s != [] && r[0] == s[0]))
  {
    if s == [] || e.key <= s[0].key then [e] + s
    else [s[0]] + Insert(e, s[1..])
  }

  lemma {:induction false} InsertPermutes(e: Entry, s: seq<Entry>)
    requires Sorted(s)
    ensures multiset(Insert(e, s)) == multiset(s) + multiset{e}
  {
    if s != [] && e.key > s[0].key {
      InsertPermutes(e, s[1..]);
      assert s == [s[0]] + s[1..];
    }
  }

  /** Insertion sort by key. */
  function SortByKey(s: seq<Entry>): (r: seq<Entry>)
    ensures Sorted(r)
  {
    if s == [] then [] else Insert(s[0], SortByKey(s[1..]))
  }

  /** Sorting neither loses nor duplicates an entry. */
  lemma {:induction false} SortByKeyPermutes(s: seq<Entry>)
    ensures multiset(SortByKey(s)) == multiset(s)
  {
    if s != [] {
      SortByKeyPermutes(s[1..]);
      InsertPermutes(s[0], SortByKey(s[1..]));
      assert s == [s[0]] + s[1..];
    }
  }

  lemma {:induction false} WithKeyInsert(e: Entry, s: seq<Entry>, k: int)
    requires Sorted(s)
    ensures WithKey(Insert(e, s), k) == (if e.key == k then [e] else []) + WithKey(s, k)
  {
    if s == [] || e.key <= s[0].key {
      assert ([e] + s)[1..] == s;
    } else {
      var t := Insert(e, s[1..]);
      assert Insert(e, s) == [s[0]] + t;
      assert ([s[0]] + t)[1..] == t;
      WithKeyInsert(e, s[1..], k);
      assert WithKey(s, k) == (if s[0].key == k then [s[0]] else []) + WithKey(s[1..], k);
    }
  }

  /** `SortByKey` is a stable sort. */
  lemma {:induction false} SortByKeyIsStable(s: seq<Entry>)
    ensures IsStableSortOf(SortByKey(s), s)
  {
    if s != [] {
      SortByKeyIsStable(s[1..]);
      forall k ensures WithKey(SortByKey(s), k) == WithKey(s, k) {
        WithKeyInsert(s[0], SortByKey(s[1..]), k);
      }
    }
  }

  lemma {:induction false} WithKeyMember(s: seq<Entry>, k: int, x: Entry)
    requires x in WithKey(s, k)
    ensures x in s && x.key == k
  {
    if s != [] {
      if s[0].key == k && x == s[0] {
      } else {
        WithKeyMember(s[1..], k, x);
      }
    }
  }

  /** A stable sort has only one possible result, so `SortByKey` computes
      exactly what Python's `sorted(..., key=...)` returns. */
  lemma {:induction false} StableSortUnique(a: seq<Entry>, b: seq<Entry>, s: seq<Entry>)
    requires IsStableSortOf(a, s) && IsStableSortOf(b, s)
    ensures a == b
    decreases |a| + |b|
  {
    if a != [] {
      assert WithKey(a, a[0].key) == WithKey(s, a[0].key) == WithKey(b, a[0].key) != [];
    }
    if b != [] {
      assert WithKey(b, b[0].key) == WithKey(s, b[0].key) == WithKey(a, b[0].key) != [];
    }
    if a != [] && b != [] {
      var m := a[0].key;
      var n := b[0].key;
      assert b[0] in WithKey(a, n) by {
        assert WithKey(a, n) == WithKey(s, n) == WithKey(b, n);
      }
      WithKeyMember(a, n, b[0]);
      SortedHeadIsLeast(a, b[0]);
      assert a[0] in WithKey(b, m) by {
        assert WithKey(b, m) == WithKey(s, m) == WithKey(a, m);
      }
      WithKeyMember(b, m, a[0]);
      SortedHeadIsLeast(b, a[0]);
      assert m == n;
      assert a[0] == WithKey(a, m)[0] == WithKey(b, m)[0] == b[0] by {
        assert WithKey(a, m) == WithKey(s, m) == WithKey(b, m);
      }
      forall k ensures WithKey(a[1..], k) == WithKey(b[1..], k) {
        var p := if a[0].key == k then [a[0]] else [];
        assert WithKey(a, k) == p + WithKey(a[1..], k);
        assert WithKey(b, k) == p + WithKey(b[1..], k);
        assert WithKey(a, k) == WithKey(s, k) == WithKey(b, k);
        assert (p + WithKey(a[1..], k))[|p|..] == WithKey(a[1..], k);
        assert (p + WithKey(b[1..], k))[|p|..] == WithKey(b[1..], k);
      }
      StableSortUnique(a[1..], b[1..], a[1..]);
      assert a == [a[0]] + a[1..] && b == [b[0]] + b[1..];
    }
  }

  /** Computes the sort key of every path; raises on the first path, in
      list order, whose key cannot be computed, as `sorted` does when it
      evaluates its key function before comparing anything. */
  function KeyAll(paths: seq<string>, key: string -> Option<int>): (r: Result<seq<Entry>, Error>)
    ensures r.Ok? <==> forall i :: 0 <= i < |paths| ==> key(paths[i]).Some?
    ensures r.Ok? ==> |r.value| == |paths|
    ensures r.Ok? ==> forall i :: 0 <= i < |paths| ==>
              r.value[i].path == paths[i] && key(paths[i]) == Some(r.value[i].key)
    ensures r.Err? ==> exists i ::
              && 0 <= i < |paths|
              && r.error == NotAnInteger(paths[i])
              && key(paths[i]).None?
              && forall j :: 0 <= j < i ==> key(paths[j]).Some?
  {
    if paths == [] then Ok([])
    else
      match key(paths[0])
      case None => Err(NotAnInteger(paths[0]))
      case Some(k) =>
        var rest :- KeyAll(paths[1..], key);
        Ok([Entry(k, paths[0])] + rest)
  }

  /** The glob result that is played: the `*.jp*` matches, else the
      `*.png` matches; an assertion fails when both are empty. */
  function SelectImages(dir: string, jpgs: seq<string>, pngs: seq<string>): (r: Result<seq<string>, Error>)
    ensures |jpgs| > 0 ==> r == Ok(jpgs)
    ensures |jpgs| == 0 && |pngs| > 0 ==> r == Ok(pngs)
    ensures r.Err? <==> |jpgs| == 0 && |pngs| == 0
    ensures r.Err? ==> r.error == NoImages(dir)
  {
    if |jpgs| > 0 then Ok(jpgs)
    else if |pngs| > 0 then Ok(pngs)
    else Err(NoImages(dir))
  }

  function PathsOf(s: seq<Entry>): (r: seq<string>)
    ensures |r| == |s| && forall i :: 0 <= i < |s| ==> r[i] == s[i].path
  {
    if s == [] then [] else [s[0].path] + PathsOf(s[1..])
  }

  lemma {:induction false} InsertKeepsPaths(e: Entry, s: seq<Entry>)
    requires Sorted(s)
    ensures multiset(PathsOf(Insert(e, s))) == multiset(PathsOf(s)) + multiset{e.path}
  {
    if s == [] || e.key <= s[0].key {
      assert ([e] + s)[1..] == s;
    } else {
      var t := Insert(e, s[1..]);
      assert ([s[0]] + t)[1..] == t;
      InsertKeepsPaths(e, s[1..]);
    }
  }

  lemma {:induction false} SortKeepsPaths(s: seq<Entry>)
    ensures multiset(PathsOf(SortByKey(s))) == multiset(PathsOf(s))
  {
    if s != [] {
      SortKeepsPaths(s[1..]);
      InsertKeepsPaths(s[0], SortByKey(s[1..]));
    }
  }

  /** Sorts paths ascending by `key`, stably. */
  function SortPaths(paths: seq<string>, key: string -> Option<int>): (r: Result<seq<string>, Error>)
    ensures r.Ok? <==> KeyAll(paths, key).Ok?
    ensures r.Err? ==> r.error == KeyAll(paths, key).error
    ensures r.Ok? ==> multiset(r.value) == multiset(paths)
  {
    var entries :- KeyAll(paths, key);
    SortKeepsPaths(entries);
    assert PathsOf(entries) == paths;
    Ok(PathsOf(SortByKey(entries)))
  }

  /** Every entry carries the key `key` computes for its path. */
  predicate KeyedBy(s: seq<Entry>, key: string -> Option<int>) {
    forall i :: 0 <= i < |s| ==> key(s[i].path) == Some(s[i].key)
  }

  lemma {:induction false} InsertKeyed(e: Entry, s: seq<Entry>, key: string -> Option<int>)
    requires Sorted(s) && KeyedBy(s, key) && key(e.path) == Some(e.key)
    ensures KeyedBy(Insert(e, s), key)
  {
    if s != [] && e.key > s[0].key {
      InsertKeyed(e, s[1..], key);
    }
  }

  lemma {:induction false} SortKeyed(s: seq<Entry>, key: string -> Option<int>)
    requires KeyedBy(s, key)
    ensures KeyedBy(SortByKey(s), key)
  {
    if s != [] {
      SortKeyed(s[1..], key);
      InsertKeyed(s[0], SortByKey(s[1..]), key);
    }
  }

  /** The sorted paths ascend by their keys. */
  lemma SortPathsAscend(paths: seq<string>, key: string -> Option<int>)
    requires SortPaths(paths, key).Ok?
    ensures var r := SortPaths(paths, key).value;
            forall i, j :: 0 <= i < j < |r| ==>
              && key(r[i]).Some? && key(r[j]).Some?
              && key(r[i]).value <= key(r[j]).value
  {
    var entries := KeyAll(paths, key).value;
    var es := SortByKey(entries);
    SortKeyed(entries, key);
    var r := PathsOf(es);
    forall i, j | 0 <= i < j < |r|
      ensures key(r[i]).Some? && key(r[j]).Some? && key(r[i]).value <= key(r[j]).value
    {
      SortedPairs(es, i, j);
    }
  }

  /** `sorted(paths, key=key)`: every path kept exactly once, keys
      ascending, equal keys in their original order; an error, and no list,
      when some key cannot be computed. */
  lemma SortPathsSpec(paths: seq<string>, key: string -> Option<int>)
    ensures var r := SortPaths(paths, key);
            && (r.Ok? <==> KeyAll(paths, key).Ok?)
            && (r.Ok? ==>
                  && multiset(r.value) == multiset(paths)
                  && (forall i, j :: 0 <= i < j < |r.value| ==>
                        && key(r.value[i]).Some? && key(r.value[j]).Some?
                        && key(r.value[i]).value <= key(r.value[j]).value)
                  && exists es :: IsStableSortOf(es, KeyAll(paths, key).value) && r.value == PathsOf(es))
  {
    if KeyAll(paths, key).Ok? {
      var entries := KeyAll(paths, key).value;
      SortByKeyIsStable(entries);
      SortKeepsPaths(entries);
      assert PathsOf(entries) == paths;
      SortPathsAscend(paths, key);
    }
  }

  /** The list of image paths `get_frame` reads, in reading order. */
  function OrderedPaths(dir: string, jpgs: seq<string>, pngs: seq<string>): (r: Result<seq<string>, Error>)
    ensures r.Ok? ==> |r.value| > 0
    ensures SelectImages(dir, jpgs, pngs).Err? ==> r == Err(NoImages(dir))
    ensures SelectImages(dir, jpgs, pngs).Ok? ==> r == SortPaths(SelectImages(dir, jpgs, pngs).value, StemKey)
  {
    var images :- SelectImages(dir, jpgs, pngs);
    SortPaths(images, StemKey)
  }
}
