/** An abstract local folder, for the file-level properties of the rename engine
    (the scenarios of test/test_rename.py): the display names of the files of one
    folder and what each file holds. set_display_name renames a file within its
    folder; its outcome is what the completion callback of `_rename` receives.
    The operations of a batch are taken to complete in the order they were issued. */
module Filesystem {
  import opened Rows
  import opened RenameBatch
  import opened RenameMap
  import Rename
  import Check

  /** A folder by its URI (ending in '/'), and its files: display name -> contents. */
  datatype Folder = Folder(uri: string, files: map<string, string>)

  /** A display name set_display_name accepts: not empty, no path separator. */
  predicate ValidName(name: string)
  {
    name != [] && '/' !in name
  }

  const InvalidFilename := "Invalid filename"
  const NoSuchFile := "No such file or directory"
  const FileExists := "Can't rename file, filename already exists"

  /** The display name of the file of the folder that has the given URI, if any. */
  function NameOf(f: Folder, uri: string): (r: Option<string>)
    ensures r.Some? ==> r.value in f.files && uri == f.uri + r.value
    ensures forall n :: n in f.files && uri == f.uri + n ==> r == Some(n)
  {
    if |f.uri| <= |uri| && uri[..|f.uri|] == f.uri && uri[|f.uri|..] in f.files then
      assert uri == f.uri + uri[|f.uri|..];
      Some(uri[|f.uri|..])
    else
      assert forall n :: uri == f.uri + n ==> uri[..|f.uri|] == f.uri && uri[|f.uri|..] == n;
      None
  }

  /** set_display_name on the file with the given URI: an invalid name, a missing
      file or an existing target fails and changes nothing; otherwise the file's
      contents move to the new name and the renamed file's URI is returned. */
  function SetDisplayName(f: Folder, uri: string, name: string): (r: (Folder, Outcome))
    ensures r.0.uri == f.uri
    ensures r.1.Renamed? <==> ValidName(name) && NameOf(f, uri).Some? && name !in f.files
    ensures !ValidName(name) ==> r == (f, Failed(InvalidFilename))
    ensures ValidName(name) && NameOf(f, uri).None? ==> r == (f, Failed(NoSuchFile))
    ensures ValidName(name) && NameOf(f, uri).Some? && name in f.files ==> r == (f, Failed(FileExists))
    ensures r.1.Renamed? ==>
      var old_ := NameOf(f, uri).value;
      r.1.newGfile == f.uri + name &&
      name in r.0.files && r.0.files[name] == f.files[old_] && old_ !in r.0.files &&
      (forall n :: n in f.files && n != old_ ==> n in r.0.files && r.0.files[n] == f.files[n]) &&
      (forall n :: n in r.0.files ==> n == name || n in f.files)
  {
    if !ValidName(name) then (f, Failed(InvalidFilename))
    else match NameOf(f, uri)
      case None => (f, Failed(NoSuchFile))
      case Some(old_) =>
        if name in f.files then (f, Failed(FileExists))
        else (Folder(f.uri, (f.files - {old_})[name := f.files[old_]]), Renamed(f.uri + name))
  }

  /** Renaming a file to the name it already has never succeeds: the file exists,
      so the target does; or it does not, so there is nothing to rename. */
  lemma RenameToOwnNameFails(f: Folder, name: string)
    ensures SetDisplayName(f, f.uri + name, name).1.Failed?
  {
    var r := NameOf(f, f.uri + name);
    if r.Some? {
      assert (f.uri + name)[|f.uri|..] == name;
      assert (f.uri + r.value)[|f.uri|..] == r.value;
    }
  }

  /** Renaming back is the inverse: after a successful rename, renaming the new
      URI to the old display name restores the folder. This is what undo relies on. */
  lemma RenameBackRestores(f: Folder, uri: string, name: string)
    requires WellFormed(f)
    requires SetDisplayName(f, uri, name).1.Renamed?
    ensures var (g, o) := SetDisplayName(f, uri, name);
      var back := SetDisplayName(g, o.newGfile, NameOf(f, uri).value);
      back.1 == Renamed(uri) && back.0 == f
  {
    var (g, o) := SetDisplayName(f, uri, name);
    var old_ := NameOf(f, uri).value;
    assert NameOf(g, o.newGfile) == Some(name);
    var back := SetDisplayName(g, o.newGfile, old_);
    assert old_ !in g.files;
    assert back.0.files == f.files;
  }

  /** The operations of a rename map, completed in map order: the folder after them
      and the outcome of each. */
  function RunInOrder<D>(f: Folder, reqs: seq<Request<D>>): (r: (Folder, seq<Outcome>))
    ensures |r.1| == |reqs| && r.0.uri == f.uri
    decreases |reqs|
  {
    if reqs == [] then (f, [])
    else
      var c := SetDisplayName(f, reqs[0].gfile, reqs[0].newName);
      var rest := RunInOrder(c.0, reqs[1..]);
      (rest.0, [c.1] + rest.1)
  }

  /** A rename map whose k-th entry moves file srcs[k] of the folder to the fresh
      valid name tgts[k], sources distinct, targets distinct. */
  ghost predicate FreshMoves<D>(f: Folder, reqs: seq<Request<D>>, srcs: seq<string>, tgts: seq<string>)
  {
    |srcs| == |reqs| && |tgts| == |reqs| &&
    (forall k :: 0 <= k < |reqs| ==> reqs[k].gfile == f.uri + srcs[k] && reqs[k].newName == tgts[k]) &&
    (forall k :: 0 <= k < |reqs| ==> srcs[k] in f.files && ValidName(tgts[k]) && tgts[k] !in f.files) &&
    (forall j, k :: 0 <= j < k < |reqs| ==> srcs[j] != srcs[k] && tgts[j] != tgts[k])
  }

  /** The folder after such moves: every operation succeeds with the target's URI,
      each target holds its source's contents, no source is left, every other file
      is kept, and no other file appears. */
  ghost predicate Moved(f: Folder, g: Folder, outs: seq<Outcome>, srcs: seq<string>, tgts: seq<string>)
    requires |srcs| == |outs| && |tgts| == |outs|
  {
    MovedEach(f, g, outs, srcs, tgts) && OthersKept(f, g, srcs) && NothingElse(f, g, srcs, tgts)
  }

  ghost predicate MovedEach(f: Folder, g: Folder, outs: seq<Outcome>, srcs: seq<string>, tgts: seq<string>)
    requires |srcs| == |outs| && |tgts| == |outs|
  {
    Landed(f, g, outs, srcs, tgts) && SourcesGone(g, srcs)
  }

  /** Every operation succeeded with the target's URI and each target holds what its source held. */
  ghost predicate Landed(f: Folder, g: Folder, outs: seq<Outcome>, srcs: seq<string>, tgts: seq<string>)
    requires |srcs| == |outs| && |tgts| == |outs|
  {
    forall k :: 0 <= k < |outs| ==>
      outs[k] == Renamed(f.uri + tgts[k]) &&
      tgts[k] in g.files && srcs[k] in f.files && g.files[tgts[k]] == f.files[srcs[k]]
  }

  ghost predicate SourcesGone(g: Folder, srcs: seq<string>)
  {
    forall k :: 0 <= k < |srcs| ==> srcs[k] !in g.files
  }

  ghost predicate OthersKept(f: Folder, g: Folder, srcs: seq<string>)
  {
    forall n :: n in f.files && n !in srcs ==> n in g.files && g.files[n] == f.files[n]
  }

  ghost predicate NothingElse(f: Folder, g: Folder, srcs: seq<string>, tgts: seq<string>)
  {
    forall n :: n in g.files ==> (n in f.files && n !in srcs) || n in tgts
  }

  lemma FreshMovesTail<D>(f: Folder, reqs: seq<Request<D>>, srcs: seq<string>, tgts: seq<string>)
    requires FreshMoves(f, reqs, srcs, tgts) && reqs != []
    ensures NameOf(f, reqs[0].gfile) == Some(srcs[0])
    ensures FreshMoves(SetDisplayName(f, reqs[0].gfile, reqs[0].newName).0, reqs[1..], srcs[1..], tgts[1..])
  {
    var g := SetDisplayName(f, reqs[0].gfile, reqs[0].newName).0;
    assert g.uri == f.uri;
    forall k | 0 <= k < |reqs| - 1
      ensures srcs[1..][k] in g.files && tgts[1..][k] !in g.files
    {
      assert srcs[0] != srcs[k + 1] && tgts[0] != tgts[k + 1];
    }
  }

  /** Distinct fresh renames in one folder (test_rename_easy): all of them succeed,
      no source is left behind and each target holds its source's contents. */
  lemma {:induction false} FreshMovesRun<D>(f: Folder, reqs: seq<Request<D>>, srcs: seq<string>, tgts: seq<string>)
    requires FreshMoves(f, reqs, srcs, tgts)
    ensures Moved(f, RunInOrder(f, reqs).0, RunInOrder(f, reqs).1, srcs, tgts)
    decreases |reqs|
  {
    if reqs != [] {
      FreshMovesTail(f, reqs, srcs, tgts);
      var c := SetDisplayName(f, reqs[0].gfile, reqs[0].newName);
      FreshMovesRun(c.0, reqs[1..], srcs[1..], tgts[1..]);
      var rest := RunInOrder(c.0, reqs[1..]);
      assert srcs[0] !in srcs[1..] && srcs[0] !in tgts[1..] && tgts[0] !in srcs[1..] by {
        forall k | 0 < k < |reqs|
          ensures srcs[0] != srcs[k] && srcs[0] != tgts[k] && tgts[0] != srcs[k]
        {
        }
      }
      MovedCons(f, c.0, rest.0, c.1, rest.1, srcs, tgts);
    }
  }

  /** One move followed by moves of the other files is a move of all of them. */
  lemma MovedCons(f: Folder, f1: Folder, g: Folder, o: Outcome, outs: seq<Outcome>, srcs: seq<string>, tgts: seq<string>)
    requires |srcs| == |outs| + 1 && |tgts| == |outs| + 1 && f1.uri == f.uri
    requires o == Renamed(f.uri + tgts[0])
    requires srcs[0] in f.files && tgts[0] !in f.files
    requires tgts[0] in f1.files && f1.files[tgts[0]] == f.files[srcs[0]] && srcs[0] !in f1.files
    requires forall n :: n in f.files && n != srcs[0] ==> n in f1.files && f1.files[n] == f.files[n]
    requires forall n :: n in f1.files ==> n == tgts[0] || n in f.files
    requires srcs[0] !in srcs[1..] && srcs[0] !in tgts[1..] && tgts[0] !in srcs[1..]
    requires Moved(f1, g, outs, srcs[1..], tgts[1..])
    ensures Moved(f, g, [o] + outs, srcs, tgts)
  {
    MovedEachCons(f, f1, g, o, outs, srcs, tgts);
    OthersKeptCons(f, f1, g, srcs);
    NothingElseCons(f, f1, g, srcs, tgts);
  }

  lemma OthersKeptCons(f: Folder, f1: Folder, g: Folder, srcs: seq<string>)
    requires srcs != []
    requires forall n :: n in f.files && n != srcs[0] ==> n in f1.files && f1.files[n] == f.files[n]
    requires OthersKept(f1, g, srcs[1..])
    ensures OthersKept(f, g, srcs)
  {
    assert srcs == [srcs[0]] + srcs[1..];
    forall n | n in f.files && n !in srcs
      ensures n in g.files && g.files[n] == f.files[n]
    {
      assert n != srcs[0] && n !in srcs[1..];
    }
  }

  lemma NothingElseCons(f: Folder, f1: Folder, g: Folder, srcs: seq<string>, tgts: seq<string>)
    requires srcs != [] && tgts != []
    requires srcs[0] !in f1.files
    requires forall n :: n in f1.files ==> n == tgts[0] || n in f.files
    requires NothingElse(f1, g, srcs[1..], tgts[1..])
    ensures NothingElse(f, g, srcs, tgts)
  {
    assert srcs == [srcs[0]] + srcs[1..] && tgts == [tgts[0]] + tgts[1..];
    forall n | n in g.files
      ensures (n in f.files && n !in srcs) || n in tgts
    {
      if n !in tgts[1..] && n != tgts[0] {
        assert n in f1.files && n !in srcs[1..];
        assert n in f.files && n != srcs[0];
      }
    }
  }

  lemma MovedEachCons(f: Folder, f1: Folder, g: Folder, o: Outcome, outs: seq<Outcome>, srcs: seq<string>, tgts: seq<string>)
    requires |srcs| == |outs| + 1 && |tgts| == |outs| + 1 && f1.uri == f.uri
    requires o == Renamed(f.uri + tgts[0])
    requires srcs[0] in f.files && tgts[0] !in f.files
    requires tgts[0] in f1.files && f1.files[tgts[0]] == f.files[srcs[0]] && srcs[0] !in f1.files
    requires forall n :: n in f.files && n != srcs[0] ==> n in f1.files && f1.files[n] == f.files[n]
    requires forall n :: n in f1.files ==> n == tgts[0] || n in f.files
    requires srcs[0] !in tgts[1..] && tgts[0] !in srcs[1..]
    requires MovedEach(f1, g, outs, srcs[1..], tgts[1..])
    requires OthersKept(f1, g, srcs[1..]) && NothingElse(f1, g, srcs[1..], tgts[1..])
    ensures MovedEach(f, g, [o] + outs, srcs, tgts)
  {
    var all := [o] + outs;
    forall k | 0 <= k < |all|
      ensures all[k] == Renamed(f.uri + tgts[k])
      ensures tgts[k] in g.files && srcs[k] in f.files && g.files[tgts[k]] == f.files[srcs[k]]
      ensures srcs[k] !in g.files
    {
      if k > 0 {
        assert all[k] == outs[k - 1] && tgts[k] == tgts[1..][k - 1] && srcs[k] == srcs[1..][k - 1];
      }
    }
  }

  /** Every file of a folder has a valid display name. */
  ghost predicate WellFormed(f: Folder)
  {
    forall n :: n in f.files ==> ValidName(n)
  }

  /** The outcomes recorded when every operation of a map succeeds, in map order. */
  function Recorded<D>(reqs: seq<Request<D>>, outs: seq<Outcome>): (ps: seq<(D, string)>)
    requires |outs| == |reqs| && forall k :: 0 <= k < |outs| ==> outs[k].Renamed?
    ensures |ps| == |reqs|
    ensures forall k :: 0 <= k < |reqs| ==> ps[k] == (reqs[k].data, outs[k].newGfile)
  {
    seq(|reqs|, k requires 0 <= k < |reqs| => (reqs[k].data, outs[k].newGfile))
  }

  /** When the operations of a batch all succeed and complete in map order, the
      successes list the user data and new GFiles in map order and no error is
      recorded. */
  lemma {:induction false} DeliverInOrder<D>(b: Batch<D>, outs: seq<Outcome>)
    requires |outs| == |b.inflight|
    requires forall k :: 0 <= k < |outs| ==> outs[k].Renamed?
    ensures var r := Deliver(b, UriSeq(b.inflight), outs).0;
      r.inflight == [] && r.errors == b.errors &&
      |r.successes| == |b.successes| + |outs| &&
      (forall k :: 0 <= k < |b.successes| ==> r.successes[k] == b.successes[k]) &&
      (forall k :: 0 <= k < |outs| ==> r.successes[|b.successes| + k] == (b.inflight[k].data, outs[k].newGfile))
    decreases |outs|
  {
    if outs != [] {
      var uri := b.inflight[0].gfile;
      var b1 := CompleteFirst(b, outs[0]);
      var rest := Deliver(b1, UriSeq(b1.inflight), outs[1..]).0;
      assert Deliver(b, UriSeq(b.inflight), outs).0 == rest by {
        assert UriSeq(b.inflight)[0] == uri && UriSeq(b.inflight)[1..] == UriSeq(b1.inflight);
      }
      DeliverInOrder(b1, outs[1..]);
      forall k | 0 <= k < |outs|
        ensures rest.successes[|b.successes| + k] == (b.inflight[k].data, outs[k].newGfile)
      {
        if k > 0 {
          assert rest.successes[|b1.successes| + (k - 1)] == (b1.inflight[k - 1].data, outs[1..][k - 1].newGfile);
        } else {
          assert rest.successes[|b.successes|] == b1.successes[|b.successes|];
        }
      }
    }
  }

  lemma FirstWithUriHead<D>(reqs: seq<Request<D>>)
    requires reqs != []
    ensures reqs[0].gfile in UriSeq(reqs) && FirstWithUri(reqs, reqs[0].gfile) == 0
  {
    assert UriSeq(reqs)[0] == reqs[0].gfile;
  }

  /** The completion of the first operation in flight, when it succeeds: it leaves
      the list of operations in flight and is appended to the successes. */
  function CompleteFirst<D>(b: Batch<D>, o: Outcome): (b1: Batch<D>)
    requires b.inflight != [] && o.Renamed?
    ensures b1 == Complete(b, b.inflight[0].gfile, o).0
    ensures b1.inflight == b.inflight[1..] && b1.errors == b.errors
    ensures b1.successes == b.successes + [(b.inflight[0].data, o.newGfile)]
  {
    FirstWithUriHead(b.inflight);
    CompleteFields(b, b.inflight[0].gfile, o);
    assert b.inflight[..0] + b.inflight[1..] == b.inflight[1..];
    Complete(b, b.inflight[0].gfile, o).0
  }

  /** Every row of the model stands for a distinct file of the folder. */
  ghost predicate InFolder(f: Folder, rows: seq<Row>)
  {
    (forall k :: 0 <= k < |rows| ==> rows[k].gfile == f.uri + rows[k].original && rows[k].original in f.files) &&
    (forall j, k :: 0 <= j < k < |rows| ==> rows[j].original != rows[k].original)
  }

  function Originals(rows: seq<Row>): (names: seq<string>)
    ensures |names| == |rows| && forall k :: 0 <= k < |rows| ==> names[k] == rows[k].original
  {
    seq(|rows|, k requires 0 <= k < |rows| => rows[k].original)
  }

  /** The previews, each behind the given prefix: the temporary names of a two-pass rename. */
  function Temporaries(rows: seq<Row>, prefix: string): (names: seq<string>)
    ensures |names| == |rows| && forall k :: 0 <= k < |rows| ==> names[k] == prefix + rows[k].preview
  {
    seq(|rows|, k requires 0 <= k < |rows| => prefix + rows[k].preview)
  }

  /** When every name changes, the rename map has one entry per row, in row order. */
  lemma {:induction false} AllKept<T>(s: seq<T>, p: T -> bool)
    requires forall i :: 0 <= i < |s| ==> p(s[i])
    ensures |Kept(s, p)| == |s| && forall k :: 0 <= k < |s| ==> Kept(s, p)[k] == k
  {
    if s != [] {
      var n := |s| - 1;
      AllKept(s[..n], p);
    }
  }

  /** When every name changes, the maps have one entry per row, in row order. */
  lemma TemporaryMapOfAll(rows: seq<Row>, prefix: string)
    requires forall k :: 0 <= k < |rows| ==> Changes(rows[k])
    ensures var m := TemporaryRenameMap(rows, prefix);
      |m| == |rows| && forall k :: 0 <= k < |rows| ==> m[k] == TemporaryRequest(rows[k], k, prefix)
  {
    AllKept(rows, Changes);
  }

  lemma ModelMapOfAll(rows: seq<Row>)
    requires forall k :: 0 <= k < |rows| ==> Changes(rows[k])
    ensures var m := ModelRenameMap(rows);
      |m| == |rows| && forall k :: 0 <= k < |rows| ==> m[k] == ModelRequest(rows[k], k)
  {
    AllKept(rows, Changes);
  }

  lemma DistinctBehind(p: string, a: string, b: string)
    requires a != b
    ensures p + a != p + b
  {
    assert (p + a)[|p|..] == a && (p + b)[|p|..] == b;
  }

  /** test_rename_easy over the model: when the previews are distinct valid names
      not yet in the folder, the single-pass map renames every row, every operation
      succeeds, each preview then holds what its original held, no original is left,
      and the batch records every row as a success, in row order, and no error. */
  lemma SinglePassMovesFiles(f: Folder, rows: seq<Row>)
    requires InFolder(f, rows)
    requires forall k :: 0 <= k < |rows| ==> ValidName(rows[k].preview) && rows[k].preview !in f.files
    requires forall j, k :: 0 <= j < k < |rows| ==> rows[j].preview != rows[k].preview
    ensures var m := ModelRenameMap(rows);
      var (g, outs) := RunInOrder(f, m);
      |m| == |rows| &&
      Moved(f, g, outs, Originals(rows), Check.Previews(rows)) &&
      var b := Deliver(Started(m), UriSeq(m), outs).0;
      b.inflight == [] && b.cancellables == {} && b.successes == Recorded(m, outs) && b.errors == []
  {
    var m := ModelRenameMap(rows);
    SinglePassFresh(f, rows);
    FreshMovesRun(f, m, Originals(rows), Check.Previews(rows));
    var (g, outs) := RunInOrder(f, m);
    BatchOfSuccesses(m, outs);
  }

  lemma SinglePassFresh(f: Folder, rows: seq<Row>)
    requires InFolder(f, rows)
    requires forall k :: 0 <= k < |rows| ==> ValidName(rows[k].preview) && rows[k].preview !in f.files
    requires forall j, k :: 0 <= j < k < |rows| ==> rows[j].preview != rows[k].preview
    ensures |ModelRenameMap(rows)| == |rows| && DistinctUris(ModelRenameMap(rows))
    ensures FreshMoves(f, ModelRenameMap(rows), Originals(rows), Check.Previews(rows))
  {
    assert forall k :: 0 <= k < |rows| ==> Changes(rows[k]);
    ModelMapOfAll(rows);
    DistinctRowUris(f, rows, ModelRenameMap(rows));
  }

  /** Distinct files of the folder have distinct URIs. */
  lemma DistinctRowUris<D>(f: Folder, rows: seq<Row>, m: seq<Request<D>>)
    requires InFolder(f, rows) && |m| == |rows|
    requires forall k :: 0 <= k < |rows| ==> m[k].gfile == rows[k].gfile
    ensures DistinctUris(m)
  {
    forall i, j | 0 <= i < j < |m|
      ensures m[i].gfile != m[j].gfile
    {
      DistinctBehind(f.uri, rows[i].original, rows[j].original);
    }
  }

  /** A batch on distinct URIs whose operations all succeed, completed in map order:
      the done callback has run, every operation is a success, in map order, and
      there is no error. */
  lemma BatchOfSuccesses<D>(m: seq<Request<D>>, outs: seq<Outcome>)
    requires DistinctUris(m) && |outs| == |m|
    requires forall k :: 0 <= k < |outs| ==> outs[k].Renamed?
    ensures var b := Deliver(Started(m), UriSeq(m), outs).0;
      b.inflight == [] && b.cancellables == {} && b.successes == Recorded(m, outs) && b.errors == []
  {
    StartedValid(m);
    DeliverInOrder(Started(m), outs);
    assert Deliver(Started(m), UriSeq(m), outs).0.successes == Recorded(m, outs);
    AllOperationsAccounted(Started(m), UriSeq(m), outs);
  }

  /** Two rounds of moves through names not in the folder at first: every target
      holds what its first source held, no intermediate name is left, files no move
      touches are kept and no other file appears. */
  lemma MovedTwice(f: Folder, f1: Folder, f2: Folder, o1: seq<Outcome>, o2: seq<Outcome>,
                   srcs: seq<string>, temps: seq<string>, tgts: seq<string>)
    requires |o1| == |o2| && |srcs| == |o1| && |temps| == |o1| && |tgts| == |o1| && f1.uri == f.uri
    requires forall k :: 0 <= k < |temps| ==> temps[k] !in f.files
    requires Moved(f, f1, o1, srcs, temps) && Moved(f1, f2, o2, temps, tgts)
    ensures Landed(f, f2, o2, srcs, tgts) && SourcesGone(f2, temps)
    ensures OthersKept(f, f2, srcs) && NothingElse(f, f2, srcs, tgts)
  {
    forall n | n in f.files && n !in srcs
      ensures n in f2.files && f2.files[n] == f.files[n]
    {
      assert n in f1.files && f1.files[n] == f.files[n];
      assert n !in temps;
    }
  }

  /** test_rename_cycle over the model: a two-pass rename whose previews are distinct
      valid names, each either not in the folder yet or the name of one of the rows
      (a rotation, for one), and whose temporary names are fresh. The first pass
      moves every file to its temporary name and records every row as a success in
      row order; the final pass, built from those successes, then leaves each
      preview holding what its original held and no temporary name behind. */
  lemma TwoPassMovesFiles(f: Folder, rows: seq<Row>, prefix: string)
    requires InFolder(f, rows) && ValidName(prefix)
    requires forall k :: 0 <= k < |rows| ==> Changes(rows[k]) && ValidName(rows[k].preview)
    requires forall j, k :: 0 <= j < k < |rows| ==> rows[j].preview != rows[k].preview
    requires forall k :: 0 <= k < |rows| ==> prefix + rows[k].preview !in f.files
    requires forall k :: 0 <= k < |rows| && rows[k].preview in f.files ==> rows[k].preview in Originals(rows)
    requires forall j, k :: 0 <= j < |rows| && 0 <= k < |rows| ==> rows[j].preview != prefix + rows[k].preview
    ensures var m1 := TemporaryRenameMap(rows, prefix);
      var (f1, o1) := RunInOrder(f, m1);
      var b1 := Deliver(Started(m1), UriSeq(m1), o1).0;
      b1.inflight == [] && b1.errors == [] && Rename.IdsIn(b1.successes, |rows|) &&
      var (f2, o2) := RunInOrder(f1, Rename.FinalMap(rows, b1.successes));
      |o2| == |rows| &&
      Landed(f, f2, o2, Originals(rows), Check.Previews(rows)) &&
      SourcesGone(f2, Temporaries(rows, prefix)) &&
      OthersKept(f, f2, Originals(rows)) && NothingElse(f, f2, Originals(rows), Check.Previews(rows))
  {
    var m1 := TemporaryRenameMap(rows, prefix);
    var temps := Temporaries(rows, prefix);
    TemporaryPassFresh(f, rows, prefix);
    FreshMovesRun(f, m1, Originals(rows), temps);
    var (f1, o1) := RunInOrder(f, m1);
    FirstPassBatch(f, rows, prefix, o1);
    var b1 := Deliver(Started(m1), UriSeq(m1), o1).0;
    var m2 := Rename.FinalMap(rows, b1.successes);
    FinalPassFresh(f, f1, o1, rows, prefix, b1.successes);
    FreshMovesRun(f1, m2, temps, Check.Previews(rows));
    var (f2, o2) := RunInOrder(f1, m2);
    MovedTwice(f, f1, f2, o1, o2, Originals(rows), temps, Check.Previews(rows));
  }

  /** The batch of the first pass of a two-pass rename, when every file moved to its
      temporary name: the done callback has run and row k's success is the k-th,
      with the temporary URI. */
  lemma FirstPassBatch(f: Folder, rows: seq<Row>, prefix: string, o1: seq<Outcome>)
    requires InFolder(f, rows)
    requires forall k :: 0 <= k < |rows| ==> Changes(rows[k])
    requires |o1| == |rows| == |TemporaryRenameMap(rows, prefix)|
    requires forall k :: 0 <= k < |rows| ==> o1[k] == Renamed(f.uri + Temporaries(rows, prefix)[k])
    ensures var m1 := TemporaryRenameMap(rows, prefix);
      var b1 := Deliver(Started(m1), UriSeq(m1), o1).0;
      b1.inflight == [] && b1.errors == [] && |b1.successes| == |rows| &&
      forall k :: 0 <= k < |rows| ==> b1.successes[k] == (k, f.uri + Temporaries(rows, prefix)[k])
  {
    var m1 := TemporaryRenameMap(rows, prefix);
    TemporaryMapOfAll(rows, prefix);
    DistinctRowUris(f, rows, m1);
    BatchOfSuccesses(m1, o1);
  }

  /** The first pass of a two-pass rename moves every row's file to a fresh name. */
  lemma TemporaryPassFresh(f: Folder, rows: seq<Row>, prefix: string)
    requires InFolder(f, rows) && ValidName(prefix)
    requires forall k :: 0 <= k < |rows| ==> Changes(rows[k]) && ValidName(rows[k].preview)
    requires forall j, k :: 0 <= j < k < |rows| ==> rows[j].preview != rows[k].preview
    requires forall k :: 0 <= k < |rows| ==> prefix + rows[k].preview !in f.files
    ensures FreshMoves(f, TemporaryRenameMap(rows, prefix), Originals(rows), Temporaries(rows, prefix))
  {
    TemporaryMapOfAll(rows, prefix);
    var temps := Temporaries(rows, prefix);
    forall j, k | 0 <= j < k < |rows|
      ensures temps[j] != temps[k]
    {
      DistinctBehind(prefix, rows[j].preview, rows[k].preview);
    }
  }

  /** The final pass, built from the successes of the first, moves every temporary
      file to its preview, which is then free. */
  lemma FinalPassFresh(f: Folder, f1: Folder, o1: seq<Outcome>, rows: seq<Row>, prefix: string, successes: seq<(nat, string)>)
    requires |o1| == |rows| && f1.uri == f.uri
    requires forall k :: 0 <= k < |rows| ==> ValidName(rows[k].preview)
    requires forall j, k :: 0 <= j < k < |rows| ==> rows[j].preview != rows[k].preview
    requires forall k :: 0 <= k < |rows| && rows[k].preview in f.files ==> rows[k].preview in Originals(rows)
    requires forall j, k :: 0 <= j < |rows| && 0 <= k < |rows| ==> rows[j].preview != prefix + rows[k].preview
    requires Moved(f, f1, o1, Originals(rows), Temporaries(rows, prefix))
    requires |successes| == |rows|
    requires forall k :: 0 <= k < |rows| ==> successes[k] == (k, f.uri + Temporaries(rows, prefix)[k])
    ensures Rename.IdsIn(successes, |rows|)
    ensures FreshMoves(f1, Rename.FinalMap(rows, successes), Temporaries(rows, prefix), Check.Previews(rows))
  {
    var temps := Temporaries(rows, prefix);
    var m2 := Rename.FinalMap(rows, successes);
    forall k | 0 <= k < |rows|
      ensures m2[k].gfile == f1.uri + temps[k] && m2[k].newName == rows[k].preview
      ensures temps[k] in f1.files && rows[k].preview !in f1.files
    {
      assert rows[k].preview !in temps;
      if rows[k].preview in f.files {
        assert rows[k].preview in Originals(rows);
      }
    }
    forall j, k | 0 <= j < k < |rows|
      ensures temps[j] != temps[k]
    {
      DistinctBehind(prefix, rows[j].preview, rows[k].preview);
    }
  }

  /** A row of a file in the folder with the given URI, as the tests add them. */
  function TestRow(uri: string, original: string, preview: string): Row
  {
    Row(original, preview, "", "", uri + original, None, None, uri)
  }

  /** test_rename_cycle: five files Test0 .. Test4 of one folder, each holding its
      own URI, and each to be renamed to the next name round the cycle. */
  function CycleRows(uri: string): seq<Row>
  {
    [TestRow(uri, "Test0", "Test1"), TestRow(uri, "Test1", "Test2"), TestRow(uri, "Test2", "Test3"),
     TestRow(uri, "Test3", "Test4"), TestRow(uri, "Test4", "Test0")]
  }

  function CycleFolder(uri: string): Folder
  {
    Folder(uri, map["Test0" := uri + "Test0", "Test1" := uri + "Test1", "Test2" := uri + "Test2",
                    "Test3" := uri + "Test3", "Test4" := uri + "Test4"])
  }

  /** The cycle meets the conditions of TwoPassMovesFiles for any two-pass prefix. */
  lemma CycleConditions(uri: string, prefix: string)
    requires ValidName(prefix) && |prefix| >= 16
    ensures var f := CycleFolder(uri);
      var rows := CycleRows(uri);
      InFolder(f, rows) &&
      (forall k :: 0 <= k < |rows| ==> Changes(rows[k]) && ValidName(rows[k].preview)) &&
      (forall j, k :: 0 <= j < k < |rows| ==> rows[j].preview != rows[k].preview) &&
      (forall k :: 0 <= k < |rows| ==> prefix + rows[k].preview !in f.files) &&
      (forall k :: 0 <= k < |rows| && rows[k].preview in f.files ==> rows[k].preview in Originals(rows)) &&
      (forall j, k :: 0 <= j < |rows| && 0 <= k < |rows| ==> rows[j].preview != prefix + rows[k].preview)
  {
    CycleInFolder(uri);
    CycleNamesDistinct(uri);
    var rows := CycleRows(uri);
    assert forall n :: n in CycleFolder(uri).files ==> |n| == 5;
    assert forall k :: 0 <= k < |rows| ==> |rows[k].preview| == 5;
    assert Originals(rows) == ["Test0", "Test1", "Test2", "Test3", "Test4"];
  }

  lemma CycleInFolder(uri: string)
    ensures InFolder(CycleFolder(uri), CycleRows(uri))
  {
    var rows := CycleRows(uri);
    assert forall k :: 0 <= k < 5 ==> rows[k].original == ["Test0", "Test1", "Test2", "Test3", "Test4"][k];
  }

  lemma CycleNamesDistinct(uri: string)
    ensures var rows := CycleRows(uri);
      (forall k :: 0 <= k < |rows| ==> Changes(rows[k]) && ValidName(rows[k].preview)) &&
      forall j, k :: 0 <= j < k < |rows| ==> rows[j].preview != rows[k].preview
  {
    var rows := CycleRows(uri);
    forall j, k | 0 <= j < |rows| && 0 <= k < |rows| && j != k
      ensures rows[j].original != rows[k].original && rows[j].preview != rows[k].preview
    {
      assert rows[j].original[4] != rows[k].original[4];
      assert rows[j].preview[4] != rows[k].preview[4];
    }
  }

  /** The folder the cycle ends in, given what each name holds and that no other name is left. */
  function CycleRotated(uri: string): map<string, string>
  {
    map["Test1" := uri + "Test0", "Test2" := uri + "Test1", "Test3" := uri + "Test2",
        "Test4" := uri + "Test3", "Test0" := uri + "Test4"]
  }

  /** What the two passes leave in the cycle's folder, from the facts TwoPassMovesFiles
      proves about them. */
  lemma CycleOutcome(uri: string, f2: Folder, o2: seq<Outcome>)
    requires |o2| == 5
    requires Landed(CycleFolder(uri), f2, o2, Originals(CycleRows(uri)), Check.Previews(CycleRows(uri)))
    requires NothingElse(CycleFolder(uri), f2, Originals(CycleRows(uri)), Check.Previews(CycleRows(uri)))
    ensures f2.files == CycleRotated(uri)
  {
    CycleLanded(uri, f2, o2);
    CycleOnlyTargets(uri, f2);
    assert f2.files.Keys == CycleRotated(uri).Keys;
  }

  lemma CycleLanded(uri: string, f2: Folder, o2: seq<Outcome>)
    requires |o2| == 5
    requires Landed(CycleFolder(uri), f2, o2, Originals(CycleRows(uri)), Check.Previews(CycleRows(uri)))
    ensures forall n :: n in CycleRotated(uri) ==> n in f2.files && f2.files[n] == CycleRotated(uri)[n]
  {
    var f := CycleFolder(uri);
    var srcs := Originals(CycleRows(uri));
    var tgts := Check.Previews(CycleRows(uri));
    assert srcs == ["Test0", "Test1", "Test2", "Test3", "Test4"];
    assert tgts == ["Test1", "Test2", "Test3", "Test4", "Test0"];
    assert f2.files[tgts[0]] == f.files[srcs[0]];
    assert f2.files[tgts[1]] == f.files[srcs[1]];
    assert f2.files[tgts[2]] == f.files[srcs[2]];
    assert f2.files[tgts[3]] == f.files[srcs[3]];
    assert f2.files[tgts[4]] == f.files[srcs[4]];
  }

  lemma CycleOnlyTargets(uri: string, f2: Folder)
    requires NothingElse(CycleFolder(uri), f2, Originals(CycleRows(uri)), Check.Previews(CycleRows(uri)))
    ensures forall n :: n in f2.files ==> n in CycleRotated(uri)
  {
    var srcs := Originals(CycleRows(uri));
    var tgts := Check.Previews(CycleRows(uri));
    assert srcs == ["Test0", "Test1", "Test2", "Test3", "Test4"];
    assert tgts == ["Test1", "Test2", "Test3", "Test4", "Test0"];
    forall n | n in f2.files
      ensures n in CycleRotated(uri)
    {
      assert n in tgts;
    }
  }

  /** test_rename_cycle: after the two passes over the cycle every name holds the file
      that was before it in the cycle, and nothing else is in the folder. */
  lemma RotationOfFive(uri: string, pid: nat)
    ensures var f := CycleFolder(uri);
      var rows := CycleRows(uri);
      var m1 := TemporaryRenameMap(rows, TwoPassPrefix(pid));
      var (f1, o1) := RunInOrder(f, m1);
      var b1 := Deliver(Started(m1), UriSeq(m1), o1).0;
      b1.errors == [] && Rename.IdsIn(b1.successes, |rows|) &&
      RunInOrder(f1, Rename.FinalMap(rows, b1.successes)).0.files == CycleRotated(uri)
  {
    var f := CycleFolder(uri);
    var rows := CycleRows(uri);
    var prefix := TwoPassPrefix(pid);
    CycleConditions(uri, prefix);
    TwoPassMovesFiles(f, rows, prefix);
    var m1 := TemporaryRenameMap(rows, prefix);
    var (f1, o1) := RunInOrder(f, m1);
    var b1 := Deliver(Started(m1), UriSeq(m1), o1).0;
    var (f2, o2) := RunInOrder(f1, Rename.FinalMap(rows, b1.successes));
    CycleOutcome(uri, f2, o2);
  }
}
