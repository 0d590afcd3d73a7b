/** `_rename` of gnome-bulk-rename/rename.py: it starts one asynchronous
    set_display_name per entry of a rename map, keeps a cancellable per file
    URI in a dict, and when the completion of an operation has removed the
    last cancellable it calls the done callback once with the successes and
    the errors collected so far. The asynchronous completions are modelled as
    calls of Complete with the outcome of the operation. */
module RenameBatch {
  import opened Rows

  /** One entry of a rename map: (GFile, new display name, user data). */
  datatype Request<D> = Request(gfile: string, newName: string, data: D)

  /** What set_display_name_finish gives: the renamed GFile, or the gio.Error message. */
  datatype Outcome = Renamed(newGfile: string) | Failed(message: string)

  /** The state `_rename` shares with its completion callback: the URIs of the
      cancellables dict, the operations started and not yet completed, and the
      successful_renames and errors lists. */
  datatype Batch<D> = Batch(
    cancellables: set<string>,
    inflight: seq<Request<D>>,
    successes: seq<(D, string)>,
    errors: seq<(D, string)>)

  /** What the completion callback did after recording its outcome: called the done
      callback, left other operations pending, or raised KeyError in `del` because
      it found no cancellable for its URI. NoSuchOperation: no operation for that
      URI was in flight, so no such callback can happen and nothing changes. */
  datatype Signal = Notified | Pending | KeyError | NoSuchOperation

  function UriSeq<D>(reqs: seq<Request<D>>): (uris: seq<string>)
    ensures |uris| == |reqs|
    ensures forall i :: 0 <= i < |reqs| ==> uris[i] == reqs[i].gfile
  {
    seq(|reqs|, i requires 0 <= i < |reqs| => reqs[i].gfile)
  }

  function Uris<D>(reqs: seq<Request<D>>): set<string>
  {
    set i | 0 <= i < |reqs| :: reqs[i].gfile
  }

  ghost predicate DistinctUris<D>(reqs: seq<Request<D>>)
  {
    forall i, j :: 0 <= i < j < |reqs| ==> reqs[i].gfile != reqs[j].gfile
  }

  /** The batch `_rename` has set up once its loop is done. */
  function Started<D>(requests: seq<Request<D>>): Batch<D>
  {
    Batch(Uris(requests), requests, [], [])
  }

  /** `_rename`'s loop: one cancellable per entry, stored under the GFile's URI
      (a later entry for the same URI replaces the earlier one), and one started
      operation per entry, in map order. */
  method Issue<D>(requests: seq<Request<D>>) returns (b: Batch<D>)
    ensures b == Started(requests)
    ensures |b.cancellables| <= |requests|
  {
    var cancellables: set<string> := {};
    var inflight: seq<Request<D>> := [];
    var n := 0;
    while n < |requests|
      invariant 0 <= n <= |requests|
      invariant inflight == requests[..n]
      invariant cancellables == Uris(requests[..n])
    {
      assert requests[..n + 1] == requests[..n] + [requests[n]];
      assert Uris(requests[..n + 1]) == Uris(requests[..n]) + {requests[n].gfile} by {
        forall u ensures u in Uris(requests[..n + 1]) <==> u in Uris(requests[..n]) + {requests[n].gfile} {
          if u in Uris(requests[..n + 1]) {
            var i :| 0 <= i < n + 1 && requests[..n + 1][i].gfile == u;
            if i < n {
              assert requests[..n][i].gfile == u;
            }
          }
          if u in Uris(requests[..n]) {
            var i :| 0 <= i < n && requests[..n][i].gfile == u;
            assert requests[..n + 1][i].gfile == u;
          }
          if u == requests[n].gfile {
            assert requests[..n + 1][n].gfile == u;
          }
        }
      }
      cancellables := cancellables + {requests[n].gfile};
      inflight := inflight + [requests[n]];
      n := n + 1;
    }
    assert requests[..n] == requests;
    b := Batch(cancellables, inflight, [], []);
    UrisCard(requests);
  }

  lemma {:induction false} UrisCard<D>(reqs: seq<Request<D>>)
    ensures |Uris(reqs)| <= |reqs|
  {
    if reqs != [] {
      var n := |reqs| - 1;
      UrisCard(reqs[..n]);
      assert Uris(reqs) <= Uris(reqs[..n]) + {reqs[n].gfile} by {
        forall u | u in Uris(reqs) ensures u in Uris(reqs[..n]) + {reqs[n].gfile} {
          var i :| 0 <= i < |reqs| && reqs[i].gfile == u;
          if i < n {
            assert reqs[..n][i].gfile == u;
          }
        }
      }
      assert |Uris(reqs[..n]) + {reqs[n].gfile}| <= |Uris(reqs[..n])| + 1;
      assert |Uris(reqs)| <= |Uris(reqs[..n]) + {reqs[n].gfile}| by {
        SubsetCard(Uris(reqs), Uris(reqs[..n]) + {reqs[n].gfile});
      }
    }
  }

  lemma SubsetCard<T>(a: set<T>, b: set<T>)
    requires a <= b
    ensures |a| <= |b|
  {
    assert b == a + (b - a);
  }

  /** The index of the first in-flight operation on the given URI. */
  function FirstWithUri<D>(reqs: seq<Request<D>>, uri: string): (i: nat)
    requires uri in UriSeq(reqs)
    ensures i < |reqs| && reqs[i].gfile == uri
    ensures forall j :: 0 <= j < i ==> reqs[j].gfile != uri
  {
    if reqs[0].gfile == uri then 0
    else
      assert uri in UriSeq(reqs[1..]) by {
        var k :| 0 <= k < |reqs| && UriSeq(reqs)[k] == uri;
        assert k > 0 && UriSeq(reqs[1..])[k - 1] == uri;
      }
      1 + FirstWithUri(reqs[1..], uri)
  }

  /** The completion callback of the operation on the given URI, for the outcome of
      set_display_name_finish: it records the outcome, deletes the URI's cancellable
      and, if none is left, calls the done callback. */
  function Complete<D>(b: Batch<D>, uri: string, outcome: Outcome): (r: (Batch<D>, Signal))
    ensures uri !in UriSeq(b.inflight) <==> r.1 == NoSuchOperation
    ensures r.1 == NoSuchOperation ==> r.0 == b
    ensures r.1 != NoSuchOperation ==>
      |r.0.inflight| + 1 == |b.inflight| &&
      (outcome.Renamed? ==> r.0.errors == b.errors && |r.0.successes| == |b.successes| + 1) &&
      (outcome.Failed? ==> r.0.successes == b.successes && |r.0.errors| == |b.errors| + 1)
    ensures r.1 == KeyError <==> uri in UriSeq(b.inflight) && uri !in b.cancellables
    ensures r.1 == Notified <==> uri in UriSeq(b.inflight) && b.cancellables == {uri}
  {
    if uri !in UriSeq(b.inflight) then (b, NoSuchOperation)
    else
      var i := FirstWithUri(b.inflight, uri);
      var req := b.inflight[i];
      var inflight := b.inflight[..i] + b.inflight[i + 1..];
      var successes := if outcome.Renamed? then b.successes + [(req.data, outcome.newGfile)] else b.successes;
      var errors := if outcome.Failed? then b.errors + [(req.data, outcome.message)] else b.errors;
      if uri !in b.cancellables then (Batch(b.cancellables, inflight, successes, errors), KeyError)
      else
        var cancellables := b.cancellables - {uri};
        assert cancellables == {} <==> b.cancellables == {uri};
        (Batch(cancellables, inflight, successes, errors), if cancellables == {} then Notified else Pending)
  }

  /** A batch whose in-flight operations have distinct URIs, each with its cancellable. */
  ghost predicate Valid<D>(b: Batch<D>)
  {
    DistinctUris(b.inflight) && b.cancellables == Uris(b.inflight)
  }

  lemma StartedValid<D>(requests: seq<Request<D>>)
    requires DistinctUris(requests)
    ensures Valid(Started(requests))
  {
  }

  /** The user data of the operations still in flight and of the outcomes recorded. */
  function Accounted<D>(b: Batch<D>): multiset<D>
  {
    multiset(DataSeq(b.inflight)) + multiset(PairData(b.successes)) + multiset(PairData(b.errors))
  }

  function DataSeq<D>(reqs: seq<Request<D>>): (ds: seq<D>)
    ensures |ds| == |reqs|
    ensures forall i :: 0 <= i < |reqs| ==> ds[i] == reqs[i].data
  {
    seq(|reqs|, i requires 0 <= i < |reqs| => reqs[i].data)
  }

  function PairData<D>(ps: seq<(D, string)>): (ds: seq<D>)
    ensures |ds| == |ps|
    ensures forall i :: 0 <= i < |ps| ==> ds[i] == ps[i].0
  {
    seq(|ps|, i requires 0 <= i < |ps| => ps[i].0)
  }

  lemma RemoveAt<T>(s: seq<T>, i: nat)
    requires i < |s|
    ensures multiset(s[..i] + s[i + 1..]) == multiset(s) - multiset{s[i]}
    ensures forall x :: x in s[..i] + s[i + 1..] ==> x in s
  {
    assert s == s[..i] + [s[i]] + s[i + 1..];
  }

  /** Removing the operation at index i of a list with distinct URIs keeps them
      distinct and removes exactly its URI. */
  lemma RemovedRequest<D>(s: seq<Request<D>>, i: nat)
    requires DistinctUris(s) && i < |s|
    ensures DistinctUris(s[..i] + s[i + 1..])
    ensures Uris(s[..i] + s[i + 1..]) == Uris(s) - {s[i].gfile}
  {
    var t := s[..i] + s[i + 1..];
    assert forall j :: 0 <= j < |t| ==> t[j] == s[if j < i then j else j + 1];
    forall u ensures u in Uris(t) <==> u in Uris(s) - {s[i].gfile} {
      if u in Uris(t) {
        var j :| 0 <= j < |t| && t[j].gfile == u;
        assert t[j] == s[if j < i then j else j + 1];
      }
      if u in Uris(s) - {s[i].gfile} {
        var j :| 0 <= j < |s| && s[j].gfile == u;
        assert t[if j < i then j else j - 1] == s[j];
      }
    }
  }

  /** ... and removes one copy of its URI from the multiset of in-flight URIs. */
  lemma RemovedUri<D>(s: seq<Request<D>>, i: nat)
    requires i < |s|
    ensures multiset(UriSeq(s[..i] + s[i + 1..])) == multiset(UriSeq(s)) - multiset{s[i].gfile}
  {
    assert UriSeq(s[..i] + s[i + 1..]) == UriSeq(s)[..i] + UriSeq(s)[i + 1..];
    RemoveAt(UriSeq(s), i);
  }

  /** ... and removes one copy of its user data from the multiset of in-flight data. */
  lemma RemovedData<D>(s: seq<Request<D>>, i: nat)
    requires i < |s|
    ensures multiset(DataSeq(s[..i] + s[i + 1..])) == multiset(DataSeq(s)) - multiset{s[i].data}
    ensures (multiset(DataSeq(s)) - multiset{s[i].data}) + multiset{s[i].data} == multiset(DataSeq(s))
  {
    assert DataSeq(s[..i] + s[i + 1..]) == DataSeq(s)[..i] + DataSeq(s)[i + 1..];
    RemoveAt(DataSeq(s), i);
    assert DataSeq(s)[i] == s[i].data;
  }

  /** A completion on a URI in flight removes the first operation on that URI and
      records its outcome under that operation's data. */
  lemma CompleteFields<D>(b: Batch<D>, uri: string, outcome: Outcome)
    requires uri in UriSeq(b.inflight)
    ensures var i := FirstWithUri(b.inflight, uri);
      var r := Complete(b, uri, outcome).0;
      var d := b.inflight[i].data;
      r.inflight == b.inflight[..i] + b.inflight[i + 1..] &&
      r.successes == (if outcome.Renamed? then b.successes + [(d, outcome.newGfile)] else b.successes) &&
      r.errors == (if outcome.Failed? then b.errors + [(d, outcome.message)] else b.errors)
  {
  }

  /** Any completion of an operation in flight moves its user data from the
      in-flight list to the successes or the errors: nothing is lost or duplicated. */
  lemma CompleteAccounts<D>(b: Batch<D>, uri: string, outcome: Outcome)
    ensures Accounted(Complete(b, uri, outcome).0) == Accounted(b)
  {
    if uri in UriSeq(b.inflight) {
      CompleteMoves(b, uri, outcome);
    }
  }

  lemma CompleteMoves<D>(b: Batch<D>, uri: string, outcome: Outcome)
    requires uri in UriSeq(b.inflight)
    ensures Accounted(Complete(b, uri, outcome).0) == Accounted(b)
  {
    var i := FirstWithUri(b.inflight, uri);
    var b' := Complete(b, uri, outcome).0;
    var s := b.inflight;
    var d := s[i].data;
    assert b'.inflight == s[..i] + s[i + 1..];
    RemovedData(s, i);
    if outcome.Renamed? {
      PairDataSnoc(b.successes, (d, outcome.newGfile));
      assert b'.successes == b.successes + [(d, outcome.newGfile)];
      assert b'.errors == b.errors;
    } else {
      PairDataSnoc(b.errors, (d, outcome.message));
      assert b'.errors == b.errors + [(d, outcome.message)];
      assert b'.successes == b.successes;
    }
  }

  lemma PairDataSnoc<D>(ps: seq<(D, string)>, p: (D, string))
    ensures multiset(PairData(ps + [p])) == multiset(PairData(ps)) + multiset{p.0}
  {
    assert PairData(ps + [p]) == PairData(ps) + [p.0];
  }

  /** The user data of the recorded outcomes are accounted for. */
  lemma OutcomesAccounted<D>(b: Batch<D>)
    ensures forall k :: 0 <= k < |b.successes| ==> b.successes[k].0 in Accounted(b)
    ensures forall k :: 0 <= k < |b.errors| ==> b.errors[k].0 in Accounted(b)
  {
    forall k | 0 <= k < |b.successes|
      ensures b.successes[k].0 in Accounted(b)
    {
      assert PairData(b.successes)[k] == b.successes[k].0;
    }
    forall k | 0 <= k < |b.errors|
      ensures b.errors[k].0 in Accounted(b)
    {
      assert PairData(b.errors)[k] == b.errors[k].0;
    }
  }

  /** The user data of a batch just started are those of its rename map. */
  lemma StartedAccounted<D>(requests: seq<Request<D>>, d: D)
    requires d in Accounted(Started(requests))
    ensures exists i :: 0 <= i < |requests| && requests[i].data == d
  {
    assert d in DataSeq(requests);
    var i :| 0 <= i < |DataSeq(requests)| && DataSeq(requests)[i] == d;
  }

  /** When the user data of a batch are distinct, an operation that failed is not
      also among the successes. */
  lemma FailedNotSucceeded<D>(b: Batch<D>, d: D)
    requires Accounted(b)[d] <= 1
    requires d in PairData(b.errors)
    ensures d !in PairData(b.successes)
  {
  }

  /** One completion in a valid batch: the operation leaves the in-flight list and
      its outcome is recorded; no KeyError is raised, the batch stays valid, and the
      done callback is called exactly when the last operation completes. */
  lemma CompleteValid<D>(b: Batch<D>, uri: string, outcome: Outcome)
    requires Valid(b) && uri in UriSeq(b.inflight)
    ensures Valid(Complete(b, uri, outcome).0)
    ensures Complete(b, uri, outcome).1 != KeyError
    ensures Complete(b, uri, outcome).1 == Notified <==> Complete(b, uri, outcome).0.inflight == []
    ensures multiset(UriSeq(Complete(b, uri, outcome).0.inflight)) == multiset(UriSeq(b.inflight)) - multiset{uri}
  {
    var i := FirstWithUri(b.inflight, uri);
    var b' := Complete(b, uri, outcome).0;
    var s := b.inflight;
    assert b'.inflight == s[..i] + s[i + 1..];
    RemovedRequest(s, i);
    RemovedUri(s, i);
    assert uri in b.cancellables by {
      assert s[i].gfile == uri;
    }
    if b'.inflight != [] {
      assert b'.inflight[0].gfile in Uris(b'.inflight);
    }
  }

  /** The completions in the order the main loop delivers them. */
  function Deliver<D>(b: Batch<D>, uris: seq<string>, outcomes: seq<Outcome>): (r: (Batch<D>, seq<Signal>))
    requires |uris| == |outcomes|
    ensures |r.1| == |uris|
    decreases |uris|
  {
    if uris == [] then (b, [])
    else
      var c := Complete(b, uris[0], outcomes[0]);
      var d := Deliver(c.0, uris[1..], outcomes[1..]);
      (d.0, [c.1] + d.1)
  }

  /** When every operation of a valid batch completes once, in any order and with
      any outcomes, each ends up in the successes or the errors, and the in-flight
      list and the cancellables end empty. */
  lemma {:induction false} AllOperationsAccounted<D>(b: Batch<D>, uris: seq<string>, outcomes: seq<Outcome>)
    requires Valid(b) && |uris| == |outcomes|
    requires multiset(uris) == multiset(UriSeq(b.inflight))
    ensures Deliver(b, uris, outcomes).0.inflight == []
    ensures Deliver(b, uris, outcomes).0.cancellables == {}
    ensures Accounted(Deliver(b, uris, outcomes).0) == Accounted(b)
    decreases |uris|
  {
    if uris == [] {
      assert |UriSeq(b.inflight)| == |multiset(UriSeq(b.inflight))| == 0;
    } else {
      assert uris[0] in multiset(uris);
      var b1 := Complete(b, uris[0], outcomes[0]).0;
      CompleteValid(b, uris[0], outcomes[0]);
      CompleteAccounts(b, uris[0], outcomes[0]);
      assert uris == [uris[0]] + uris[1..];
      AllOperationsAccounted(b1, uris[1..], outcomes[1..]);
    }
  }

  /** ... and the done callback is called exactly once, by the last completion. */
  lemma {:induction false} DoneCalledOnce<D>(b: Batch<D>, uris: seq<string>, outcomes: seq<Outcome>)
    requires Valid(b) && |uris| == |outcomes|
    requires multiset(uris) == multiset(UriSeq(b.inflight))
    ensures forall k :: 0 <= k < |uris| - 1 ==> Deliver(b, uris, outcomes).1[k] == Pending
    ensures uris != [] ==> Deliver(b, uris, outcomes).1[|uris| - 1] == Notified
    decreases |uris|
  {
    if uris != [] {
      var c := Complete(b, uris[0], outcomes[0]);
      FirstCompletion(b, uris, outcomes);
      DoneCalledOnce(c.0, uris[1..], outcomes[1..]);
      var rest := Deliver(c.0, uris[1..], outcomes[1..]).1;
      assert Deliver(b, uris, outcomes).1 == [c.1] + rest;
      NotifiedLast(c.1, rest);
    }
  }

  /** A signal before signals that end with the only Notified one: the done callback
      is still called once, last, when the first signal is Pending, or is the only one. */
  lemma NotifiedLast(s: Signal, rest: seq<Signal>)
    requires s == if rest == [] then Notified else Pending
    requires forall k :: 0 <= k < |rest| - 1 ==> rest[k] == Pending
    requires rest != [] ==> rest[|rest| - 1] == Notified
    ensures forall k :: 0 <= k < |rest| ==> ([s] + rest)[k] == Pending
    ensures ([s] + rest)[|rest|] == Notified
  {
    forall k | 0 < k < |rest|
      ensures ([s] + rest)[k] == Pending
    {
      assert ([s] + rest)[k] == rest[k - 1];
    }
  }

  /** The first completion keeps the batch valid, leaves the other URIs in flight,
      and calls the done callback exactly when it is the only one. */
  lemma FirstCompletion<D>(b: Batch<D>, uris: seq<string>, outcomes: seq<Outcome>)
    requires Valid(b) && |uris| == |outcomes| && uris != []
    requires multiset(uris) == multiset(UriSeq(b.inflight))
    ensures Valid(Complete(b, uris[0], outcomes[0]).0)
    ensures multiset(uris[1..]) == multiset(UriSeq(Complete(b, uris[0], outcomes[0]).0.inflight))
    ensures Complete(b, uris[0], outcomes[0]).1 == if |uris| == 1 then Notified else Pending
  {
    assert uris[0] in multiset(uris);
    var b1 := Complete(b, uris[0], outcomes[0]).0;
    CompleteValid(b, uris[0], outcomes[0]);
    assert uris == [uris[0]] + uris[1..];
    assert multiset(uris[1..]) == multiset(uris) - multiset{uris[0]};
    assert |UriSeq(b1.inflight)| == |multiset(UriSeq(b1.inflight))| == |multiset(uris[1..])|;
  }

  /** Starting a batch with no operation calls the done callback never. */
  lemma EmptyMapNeverNotifies<D>(uris: seq<string>, outcomes: seq<Outcome>)
    requires |uris| == |outcomes|
    ensures forall k :: 0 <= k < |uris| ==> Deliver(Started<D>([]), uris, outcomes).1[k] == NoSuchOperation
  {
    var b := Started<D>([]);
    EmptyStaysSilent(b, uris, outcomes);
  }

  lemma {:induction false} EmptyStaysSilent<D>(b: Batch<D>, uris: seq<string>, outcomes: seq<Outcome>)
    requires b.inflight == [] && |uris| == |outcomes|
    ensures Deliver(b, uris, outcomes).0 == b
    ensures forall k :: 0 <= k < |uris| ==> Deliver(b, uris, outcomes).1[k] == NoSuchOperation
    decreases |uris|
  {
    if uris != [] {
      EmptyStaysSilent(b, uris[1..], outcomes[1..]);
    }
  }

  /** With two operations on one URI the dict keeps one cancellable: the first
      completion calls the done callback while the other operation is still in
      flight, and the second completion raises KeyError. */
  lemma DuplicateUriNotifiesEarly<D>(r1: Request<D>, r2: Request<D>, o1: Outcome, o2: Outcome)
    requires r1.gfile == r2.gfile
    ensures var (b1, s1) := Complete(Started([r1, r2]), r1.gfile, o1);
      s1 == Notified && |b1.inflight| == 1 &&
      Complete(b1, r1.gfile, o2).1 == KeyError
  {
    var b := Started([r1, r2]);
    assert Uris([r1, r2]) == {r1.gfile} by {
      assert [r1, r2][0] == r1 && [r1, r2][1] == r2;
    }
    assert r1.gfile in UriSeq(b.inflight) by {
      assert UriSeq(b.inflight)[0] == r1.gfile;
    }
    var (b1, s1) := Complete(b, r1.gfile, o1);
    assert b1.inflight == [r2];
    assert r1.gfile in UriSeq(b1.inflight) by {
      assert UriSeq(b1.inflight)[0] == r1.gfile;
    }
  }
}
