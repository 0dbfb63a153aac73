/** What `SerialParse` (main.go:30-69) does over the whole walk: directories
    are skipped, the first callback error ends the walk and is returned
    with the map built so far, keys are the paths of files whose reads hit,
    and every value is the size of the file at that path. */
module WalkProps {
  import opened Prelude
  import opened Bytes
  import opened OsFile
  import opened Parse
  import opened ScanProps

  /** The entries that are not directories, in walk order. */
  function FilesOf(es: seq<Entry>): (fs: seq<Entry>)
    ensures forall i :: 0 <= i < |fs| ==> fs[i].File? && fs[i] in es
    ensures forall e :: e in es && e.File? ==> e in fs
  {
    if es == [] then [] else (if es[0].File? then [es[0]] else []) + FilesOf(es[1..])
  }

  /** No two of the entries share a path. The walk passes every file path
      to the callback once; a directory whose listing fails is passed a
      second time, so this is asked of the files only. */
  predicate UniquePaths(es: seq<Entry>)
  {
    forall i, j :: 0 <= i < j < |es| ==> es[i].path != es[j].path
  }

  /** Every value stored for a path is the size of a file of `es` at that
      path. */
  predicate SizesOf(m: Found, es: seq<Entry>)
  {
    forall p, j :: p in m && 0 <= j < |m[p]| ==> SizeAt(m[p][j], p, es)
  }

  /** `v` is the size of a file of `es` at path `p`. */
  predicate SizeAt(v: int, p: Path, es: seq<Entry>)
  {
    exists i :: 0 <= i < |es| && es[i].File? && es[i].path == p && v == |es[i].contents|
  }

  /** Walking two lists of entries one after the other is walking the
      first and, when it ends without error, the second from its map. */
  lemma {:induction false} WalkConcat(a: seq<Entry>, b: seq<Entry>, term: seq<byte>, bufSize: nat, out: Found)
    requires bufSize > 0
    ensures Walk(a + b, term, bufSize, out) ==
            var r := Walk(a, term, bufSize, out);
            if r.err.Some? then r else Walk(b, term, bufSize, r.out)
    decreases |a|
  {
    if a == [] {
      assert a + b == b;
    } else {
      assert (a + b)[0] == a[0] && (a + b)[1..] == a[1..] + b;
      var r := VisitSpec(a[0], term, bufSize, out);
      if r.err.None? {
        WalkConcat(a[1..], b, term, bufSize, r.out);
      }
    }
  }

  /** Directory entries neither change `out` nor stop the walk. */
  lemma {:induction false} WalkSkipsDirs(es: seq<Entry>, term: seq<byte>, bufSize: nat, out: Found)
    requires bufSize > 0
    ensures Walk(es, term, bufSize, out) == Walk(FilesOf(es), term, bufSize, out)
    decreases |es|
  {
    if es != [] {
      if es[0].Dir? {
        assert VisitSpec(es[0], term, bufSize, out) == Outcome(out, None);
        assert FilesOf(es) == FilesOf(es[1..]);
        WalkSkipsDirs(es[1..], term, bufSize, out);
      } else {
        var fs := FilesOf(es);
        assert fs == [es[0]] + FilesOf(es[1..]);
        assert fs[0] == es[0] && fs[1..] == FilesOf(es[1..]);
        var r := VisitSpec(es[0], term, bufSize, out);
        if r.err.None? {
          WalkSkipsDirs(es[1..], term, bufSize, r.out);
        }
      }
    }
  }

  /** The walk ends without error exactly when no callback fails. */
  lemma {:induction false} WalkNoErrorIff(es: seq<Entry>, term: seq<byte>, bufSize: nat, out: Found)
    requires bufSize > 0
    ensures Walk(es, term, bufSize, out).err.None? <==>
            forall i :: 0 <= i < |es| ==> EntryError(es[i], term, bufSize).None?
    decreases |es|
  {
    if es != [] {
      var r := VisitSpec(es[0], term, bufSize, out);
      if r.err.None? {
        WalkNoErrorIff(es[1..], term, bufSize, r.out);
        forall i | 0 < i < |es| ensures es[i] == es[1..][i - 1] { }
      }
    }
  }

  /** When the k-th callback is the first to fail, the walk returns its
      error together with the map built by the callbacks before it, plus
      whatever that callback appended before failing; the entries after it
      are not visited. */
  lemma {:induction false} WalkStopsAtFirstError(es: seq<Entry>, k: nat, term: seq<byte>, bufSize: nat, out: Found)
    requires bufSize > 0 && k < |es|
    requires forall j :: 0 <= j < k ==> EntryError(es[j], term, bufSize).None?
    requires EntryError(es[k], term, bufSize).Some?
    ensures Walk(es[..k], term, bufSize, out).err.None?
    ensures Walk(es, term, bufSize, out) == VisitSpec(es[k], term, bufSize, Walk(es[..k], term, bufSize, out).out)
  {
    assert es == es[..k] + ([es[k]] + es[k + 1..]);
    WalkNoErrorIff(es[..k], term, bufSize, out);
    WalkConcat(es[..k], [es[k]] + es[k + 1..], term, bufSize, out);
  }

  /** Keys are only ever added, and a key that was not there before is the
      path of a file that appended; when the walk ends without error every
      such path is a key. */
  lemma {:induction false} WalkKeys(es: seq<Entry>, term: seq<byte>, bufSize: nat, out: Found)
    requires bufSize > 0
    ensures out.Keys <= Walk(es, term, bufSize, out).out.Keys
    ensures forall p :: p in Walk(es, term, bufSize, out).out ==>
              p in out || exists i :: 0 <= i < |es| && es[i].path == p && Appended(es[i], term, bufSize) > 0
    ensures Walk(es, term, bufSize, out).err.None? ==>
              forall i :: 0 <= i < |es| && Appended(es[i], term, bufSize) > 0 ==>
                es[i].path in Walk(es, term, bufSize, out).out
    decreases |es|
  {
    if es != [] {
      var r := VisitSpec(es[0], term, bufSize, out);
      if r.err.None? {
        WalkKeys(es[1..], term, bufSize, r.out);
        forall i | 0 < i < |es| ensures es[i] == es[1..][i - 1] { }
      }
    }
  }

  /** The values already stored for a path stay a prefix of what is
      stored after a callback: the callback only appends. */
  lemma VisitExtends(e: Entry, term: seq<byte>, bufSize: nat, out: Found)
    requires bufSize > 0
    ensures forall p :: p in out ==>
              p in VisitSpec(e, term, bufSize, out).out && out[p] <= VisitSpec(e, term, bufSize, out).out[p]
  {
    var m := VisitSpec(e, term, bufSize, out).out;
    forall p | p in out ensures p in m && out[p] <= m[p] {
      if p == e.path && Appended(e, term, bufSize) > 0 {
        assert m[p] == out[p] + Repeat(Size(e), Appended(e, term, bufSize));
      }
    }
  }

  /** What the walk had stored before it ends, with or without an error, is
      still there when it ends: `SerialParse` returns the map together with
      the error, so files visited before a failure keep their values. */
  lemma {:induction false} WalkExtends(es: seq<Entry>, term: seq<byte>, bufSize: nat, out: Found)
    requires bufSize > 0
    ensures forall p :: p in out ==>
              p in Walk(es, term, bufSize, out).out && out[p] <= Walk(es, term, bufSize, out).out[p]
    decreases |es|
  {
    if es != [] {
      var r := VisitSpec(es[0], term, bufSize, out);
      VisitExtends(es[0], term, bufSize, out);
      if r.err.None? {
        WalkExtends(es[1..], term, bufSize, r.out);
        var w := Walk(es, term, bufSize, out).out;
        forall p | p in out ensures p in w && out[p] <= w[p] {
          assert out[p] <= r.out[p] <= w[p];
        }
      }
    }
  }

  /** A callback appends only the size of the file it visits. */
  lemma VisitStoresSizes(e: Entry, seen: seq<Entry>, term: seq<byte>, bufSize: nat, out: Found)
    requires bufSize > 0 && SizesOf(out, seen)
    ensures SizesOf(VisitSpec(e, term, bufSize, out).out, seen + [e])
  {
    var m := VisitSpec(e, term, bufSize, out).out;
    var seen' := seen + [e];
    var k := Appended(e, term, bufSize);
    forall p, j | p in m && 0 <= j < |m[p]| ensures SizeAt(m[p][j], p, seen') {
      if p == e.path && k > 0 && j >= |Lookup(out, p)| {
        assert e.File? && m[p] == Lookup(out, p) + Repeat(|e.contents|, k);
        assert m[p][j] == |e.contents| && seen'[|seen|] == e;
        assert SizeAt(m[p][j], p, seen');
      } else {
        assert p in out && j < |out[p]| && m[p][j] == out[p][j];
        var i :| 0 <= i < |seen| && seen[i].File? && seen[i].path == p && out[p][j] == |seen[i].contents|;
        assert seen'[i] == seen[i];
        assert SizeAt(m[p][j], p, seen');
      }
    }
  }

  lemma SizesOfMore(m: Found, seen: seq<Entry>, more: seq<Entry>)
    requires SizesOf(m, seen)
    ensures SizesOf(m, seen + more)
  {
    forall p, j | p in m && 0 <= j < |m[p]| ensures SizeAt(m[p][j], p, seen + more) {
      assert SizeAt(m[p][j], p, seen);
      var i :| 0 <= i < |seen| && seen[i].File? && seen[i].path == p && m[p][j] == |seen[i].contents|;
      assert (seen + more)[i] == seen[i];
    }
  }

  /** Every value appended is the size of a file at that path. */
  lemma {:induction false} WalkStoresSizes(es: seq<Entry>, seen: seq<Entry>, term: seq<byte>, bufSize: nat, out: Found)
    requires bufSize > 0 && SizesOf(out, seen)
    ensures SizesOf(Walk(es, term, bufSize, out).out, seen + es)
    decreases |es|
  {
    if es == [] {
      assert seen + es == seen;
    } else {
      var r := VisitSpec(es[0], term, bufSize, out);
      VisitStoresSizes(es[0], seen, term, bufSize, out);
      assert seen + [es[0]] + es[1..] == seen + es;
      if r.err.None? {
        WalkStoresSizes(es[1..], seen + [es[0]], term, bufSize, r.out);
      } else {
        SizesOfMore(r.out, seen + [es[0]], es[1..]);
      }
    }
  }

  /** With one entry per path there is one size per path. */
  lemma SizeAtUnique(v: int, w: int, p: Path, es: seq<Entry>)
    requires UniquePaths(es) && SizeAt(v, p, es) && SizeAt(w, p, es)
    ensures v == w
  {
    var i1 :| 0 <= i1 < |es| && es[i1].File? && es[i1].path == p && v == |es[i1].contents|;
    var i2 :| 0 <= i2 < |es| && es[i2].File? && es[i2].path == p && w == |es[i2].contents|;
    assert i1 == i2;
  }

  /** For entries with distinct paths, all values stored for a path are
      the same number, the file's size. */
  lemma OneSizePerDistinctPath(es: seq<Entry>, term: seq<byte>, bufSize: nat)
    requires bufSize > 0 && UniquePaths(es)
    ensures SizesOf(Walk(es, term, bufSize, map[]).out, es)
    ensures var m := Walk(es, term, bufSize, map[]).out;
            forall p, j, k :: p in m && 0 <= j < |m[p]| && 0 <= k < |m[p]| ==> m[p][j] == m[p][k]
  {
    var m := Walk(es, term, bufSize, map[]).out;
    WalkStoresSizes(es, [], term, bufSize, map[]);
    assert [] + es == es;
    forall p, j, k | p in m && 0 <= j < |m[p]| && 0 <= k < |m[p]| ensures m[p][j] == m[p][k] {
      assert SizeAt(m[p][j], p, es) && SizeAt(m[p][k], p, es);
      SizeAtUnique(m[p][j], m[p][k], p, es);
    }
  }

  /** The paths of the entries. */
  function Paths(es: seq<Entry>): set<Path>
  {
    set i | 0 <= i < |es| :: es[i].path
  }

  lemma {:induction false} UniquePathsCount(es: seq<Entry>)
    requires UniquePaths(es)
    ensures |Paths(es)| == |es|
    decreases |es|
  {
    if es != [] {
      var n := |es| - 1;
      var front := es[..n];
      assert UniquePaths(front) by {
        forall i, j | 0 <= i < j < |front| ensures front[i].path != front[j].path {
          assert front[i] == es[i] && front[j] == es[j];
        }
      }
      UniquePathsCount(front);
      assert Paths(es) == Paths(front) + {es[n].path} by {
        forall p | p in Paths(es) ensures p in Paths(front) + {es[n].path} {
          var i :| 0 <= i < |es| && es[i].path == p;
          if i < n {
            assert front[i] == es[i];
          }
        }
        forall p | p in Paths(front) ensures p in Paths(es) {
          var i :| 0 <= i < |front| && front[i].path == p;
          assert es[i] == front[i];
        }
      }
      assert es[n].path !in Paths(front) by {
        forall i | 0 <= i < |front| ensures front[i].path != es[n].path {
          assert front[i] == es[i];
        }
      }
    }
  }

  /** For entries with distinct paths, none in `out` yet, a walk without
      error maps each file that appended to exactly its appends, all of
      them its size, and leaves the other keys as they were. */
  lemma {:induction false} WalkExactDistinct(es: seq<Entry>, term: seq<byte>, bufSize: nat, out: Found)
    requires bufSize > 0 && UniquePaths(es)
    requires forall i :: 0 <= i < |es| ==> es[i].path !in out
    ensures Walk(es, term, bufSize, out).err.None? ==>
              forall i :: 0 <= i < |es| && Appended(es[i], term, bufSize) > 0 ==>
                es[i].path in Walk(es, term, bufSize, out).out &&
                Walk(es, term, bufSize, out).out[es[i].path] == Repeat(Size(es[i]), Appended(es[i], term, bufSize))
    ensures Walk(es, term, bufSize, out).err.None? ==>
              forall p :: p in out ==> p in Walk(es, term, bufSize, out).out && Walk(es, term, bufSize, out).out[p] == out[p]
    decreases |es|
  {
    if es != [] {
      var e := es[0];
      var r := VisitSpec(e, term, bufSize, out);
      if r.err.None? && Walk(es, term, bufSize, out).err.None? {
        var rest := es[1..];
        assert UniquePaths(rest) by {
          forall i, j | 0 <= i < j < |rest| ensures rest[i].path != rest[j].path {
            assert rest[i] == es[i + 1] && rest[j] == es[j + 1];
          }
        }
        forall i | 0 <= i < |rest| ensures rest[i].path !in r.out {
          assert rest[i] == es[i + 1] && es[i + 1].path != e.path;
        }
        WalkExactDistinct(rest, term, bufSize, r.out);
        var w := Walk(es, term, bufSize, out).out;
        assert w == Walk(rest, term, bufSize, r.out).out;
        forall i | 0 <= i < |es| && Appended(es[i], term, bufSize) > 0
          ensures es[i].path in w && w[es[i].path] == Repeat(Size(es[i]), Appended(es[i], term, bufSize))
        {
          if i == 0 {
            assert Lookup(out, e.path) == [];
            assert e.path in r.out && r.out[e.path] == Repeat(Size(e), Appended(e, term, bufSize));
            assert w[e.path] == r.out[e.path];
          } else {
            assert es[i] == rest[i - 1];
          }
        }
      }
    }
  }

  /** Sizes stored for the files of `es` are sizes stored for `es`. */
  lemma SizesOfFiles(m: Found, es: seq<Entry>)
    requires SizesOf(m, FilesOf(es))
    ensures SizesOf(m, es)
  {
    var fs := FilesOf(es);
    forall p, j | p in m && 0 <= j < |m[p]| ensures SizeAt(m[p][j], p, es) {
      assert SizeAt(m[p][j], p, fs);
      var i :| 0 <= i < |fs| && fs[i].File? && fs[i].path == p && m[p][j] == |fs[i].contents|;
      assert fs[i] in es;
      var k :| 0 <= k < |es| && es[k] == fs[i];
    }
  }

  /** When the walk passes every file path once (directory paths may
      repeat), every value stored for a path is the size of the file at
      that path, so all values of one path are the same number. */
  lemma OneSizePerPath(es: seq<Entry>, term: seq<byte>, bufSize: nat)
    requires bufSize > 0 && UniquePaths(FilesOf(es))
    ensures SizesOf(Walk(es, term, bufSize, map[]).out, es)
    ensures var m := Walk(es, term, bufSize, map[]).out;
            forall p, j, k :: p in m && 0 <= j < |m[p]| && 0 <= k < |m[p]| ==> m[p][j] == m[p][k]
  {
    WalkSkipsDirs(es, term, bufSize, map[]);
    OneSizePerDistinctPath(FilesOf(es), term, bufSize);
    SizesOfFiles(Walk(es, term, bufSize, map[]).out, es);
  }

  /** When the walk passes every file path once (directory paths may
      repeat) and no file path is in `out` yet, a walk without error maps
      each file that appended to exactly its appends, all of them its
      size, and leaves the other keys as they were. */
  lemma WalkExact(es: seq<Entry>, term: seq<byte>, bufSize: nat, out: Found)
    requires bufSize > 0 && UniquePaths(FilesOf(es))
    requires forall i :: 0 <= i < |FilesOf(es)| ==> FilesOf(es)[i].path !in out
    ensures Walk(es, term, bufSize, out).err.None? ==>
              forall i :: 0 <= i < |FilesOf(es)| && Appended(FilesOf(es)[i], term, bufSize) > 0 ==>
                FilesOf(es)[i].path in Walk(es, term, bufSize, out).out &&
                Walk(es, term, bufSize, out).out[FilesOf(es)[i].path] ==
                Repeat(Size(FilesOf(es)[i]), Appended(FilesOf(es)[i], term, bufSize))
    ensures Walk(es, term, bufSize, out).err.None? ==>
              forall p :: p in out ==> p in Walk(es, term, bufSize, out).out && Walk(es, term, bufSize, out).out[p] == out[p]
  {
    WalkSkipsDirs(es, term, bufSize, out);
    WalkExactDistinct(FilesOf(es), term, bufSize, out);
  }

  /** A root `r` holding an unreadable directory `r/locked`, which the
      walk passes to the callback twice, and a file `r/a` holding the term:
      the paths of the entries repeat but those of the files do not, the
      walk ends without error and stores the file's size once. */
  lemma LockedDirWalk()
    ensures var es := [Dir("r"), Dir("r/locked"), Dir("r/locked"), File("r/a", [7], None, None, None)];
            !UniquePaths(es) && UniquePaths(FilesOf(es)) &&
            Walk(es, [7], 4, map[]) == Outcome(map["r/a" := [1]], None)
  {
    var es := [Dir("r"), Dir("r/locked"), Dir("r/locked"), File("r/a", [7], None, None, None)];
    var f := es[3];
    assert es[1].path == es[2].path;
    assert FilesOf(es) == [f] by {
      assert es[1..][1..][1..] == [f];
      assert es[1..][1..][1..][1..] == [];
    }
    ContainsSpec(f.contents, [7]);
    assert Contains(f.contents, [7]) by {
      assert f.contents[..1] == [7];
    }
    SingleRead(f, [7], 4);
    assert Scan(f, [7], 4) == ScanResult(1, None);
    assert VisitSpec(f, [7], 4, map[]) == Outcome(map["r/a" := [1]], None) by {
      assert Size(f) == 1 && Appended(f, [7], 4) == 1 && EntryError(f, [7], 4) == None;
      assert Lookup(map[], f.path) + Repeat(1, 1) == [1];
      assert AppendN(map[], f.path, 1, 1) == map["r/a" := [1]];
    }
    assert [f][1..] == [];
    assert Walk([f], [7], 4, map[]) == Outcome(map["r/a" := [1]], None);
    WalkSkipsDirs(es, [7], 4, map[]);
  }

  /** Distinct files, each no larger than the buffer and containing the
      term, nothing failing: the walk ends without error with one key per
      file, each mapped to the single value of its size. */
  lemma SmallFilesOneHit(es: seq<Entry>, term: seq<byte>, bufSize: nat)
    requires bufSize > 0 && UniquePaths(es)
    requires forall i :: 0 <= i < |es| ==>
               es[i].File? && es[i].openErr.None? && es[i].readFault.None? && es[i].infoErr.None? &&
               0 < |es[i].contents| <= bufSize && Contains(es[i].contents, term)
    ensures Walk(es, term, bufSize, map[]).err.None?
    ensures Walk(es, term, bufSize, map[]).out.Keys == Paths(es)
    ensures |Walk(es, term, bufSize, map[]).out| == |es|
    ensures forall i :: 0 <= i < |es| ==> Walk(es, term, bufSize, map[]).out[es[i].path] == [|es[i].contents|]
  {
    forall i | 0 <= i < |es|
      ensures EntryError(es[i], term, bufSize).None? && Appended(es[i], term, bufSize) == 1
    {
      SingleRead(es[i], term, bufSize);
    }
    WalkNoErrorIff(es, term, bufSize, map[]);
    WalkKeys(es, term, bufSize, map[]);
    WalkExactDistinct(es, term, bufSize, map[]);
    var w := Walk(es, term, bufSize, map[]).out;
    forall i | 0 <= i < |es| ensures w[es[i].path] == [|es[i].contents|] {
      assert Repeat(Size(es[i]), 1) == [|es[i].contents|];
    }
    assert w.Keys == Paths(es);
    UniquePathsCount(es);
  }

  /** The scenario of the package's test: a walk of a directory (its own
      entry first, as `filepath.WalkDir` visits the root) holding distinct
      files, each no larger than the buffer and containing the term, with
      nothing failing. The walk ends without error with one key per file,
      each mapped to the single value of its size. */
  lemma OneHitPerSmallFile(es: seq<Entry>, term: seq<byte>, bufSize: nat)
    requires bufSize > 0 && UniquePaths(FilesOf(es))
    requires forall i :: 0 <= i < |FilesOf(es)| ==>
               FilesOf(es)[i].openErr.None? && FilesOf(es)[i].readFault.None? && FilesOf(es)[i].infoErr.None? &&
               0 < |FilesOf(es)[i].contents| <= bufSize && Contains(FilesOf(es)[i].contents, term)
    ensures Walk(es, term, bufSize, map[]).err.None?
    ensures Walk(es, term, bufSize, map[]).out.Keys == Paths(FilesOf(es))
    ensures |Walk(es, term, bufSize, map[]).out| == |FilesOf(es)|
    ensures forall i :: 0 <= i < |FilesOf(es)| ==>
              Walk(es, term, bufSize, map[]).out[FilesOf(es)[i].path] == [|FilesOf(es)[i].contents|]
  {
    WalkSkipsDirs(es, term, bufSize, map[]);
    SmallFilesOneHit(FilesOf(es), term, bufSize);
  }
}
