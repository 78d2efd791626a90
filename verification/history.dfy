/**
 Sequences of requests served one after another against one collection:
 issuance and activation, the only two operations of main.py that write to
 it.  Properties here relate many calls: the collection stays well formed,
 each key is won by at most one activation, and every binding was made by a
 request that was told `activated`.
 */
module History {
  import opened Wrappers
  import KeyGen
  import opened Licenses

  /** A request that writes to the collection. */
  datatype Request =
    | IssueRequest(owner: Option<string>, source: KeyGen.Source, now: Timestamp)
    | ActivateRequest(licenseKey: string, hwid: string, now: Timestamp)

  /** What the request was answered. */
  datatype Reply = Created(licenseKey: string) | Answered(outcome: Outcome)

  datatype Served = Served(store: Store, reply: Reply)

  /** Serve one request. */
  function Step(store: Store, req: Request): Served
  {
    match req
    case IssueRequest(owner, source, now) =>
      var issued := Issue(store, owner, source, now);
      Served(issued.store, Created(issued.licenseKey))
    case ActivateRequest(licenseKey, hwid, now) =>
      var r := Activate(store, licenseKey, hwid, now);
      Served(r.store, Answered(r.outcome))
  }

  /** The collection after serving `reqs` in order, and the reply to each. */
  datatype Trace = Trace(store: Store, replies: seq<Reply>)

  function Run(store: Store, reqs: seq<Request>): (t: Trace)
    ensures |t.replies| == |reqs|
    ensures |store| <= |t.store|
  {
    if |reqs| == 0 then Trace(store, [])
    else
      var before := Run(store, reqs[..|reqs| - 1]);
      var served := Step(before.store, reqs[|reqs| - 1]);
      Trace(served.store, before.replies + [served.reply])
  }

  /** A collection in which nothing has been activated yet, such as an empty one. */
  predicate Unactivated(store: Store)
  {
    forall j :: 0 <= j < |store| ==> !store[j].activated
  }

  /** Issuance and activation keep every record well formed: activated exactly when a hwid is stored. */
  lemma {:induction false} RunPreservesValid(store: Store, reqs: seq<Request>)
    requires Valid(store)
    ensures Valid(Run(store, reqs).store)
  {
    if |reqs| > 0 {
      RunPreservesValid(store, reqs[..|reqs| - 1]);
    }
  }

  /** Records already present keep their position and key through any sequence of requests. */
  lemma {:induction false} RunKeepsKeys(store: Store, reqs: seq<Request>)
    ensures forall j :: 0 <= j < |store| ==> Run(store, reqs).store[j].licenseKey == store[j].licenseKey
  {
    if |reqs| > 0 {
      var before := Run(store, reqs[..|reqs| - 1]);
      RunKeepsKeys(store, reqs[..|reqs| - 1]);
      var last := reqs[|reqs| - 1];
      if last.IssueRequest? {
        var issued := Issue(before.store, last.owner, last.source, last.now);
        assert forall j :: 0 <= j < |before.store| ==> issued.store[j] == before.store[j];
      }
    }
  }

  /** The last request is served on the collection the earlier ones left. */
  lemma RunLast(store: Store, reqs: seq<Request>)
    requires |reqs| > 0
    ensures Run(store, reqs).replies ==
              Run(store, reqs[..|reqs| - 1]).replies
              + [Step(Run(store, reqs[..|reqs| - 1]).store, reqs[|reqs| - 1]).reply]
  {
  }

  /** The reply to request k is decided by the collection the first k requests left. */
  lemma {:induction false} ReplyAt(store: Store, reqs: seq<Request>, k: nat)
    requires k < |reqs|
    ensures Run(store, reqs).replies[k] == Step(Run(store, reqs[..k]).store, reqs[k]).reply
  {
    var n := |reqs| - 1;
    var front := reqs[..n];
    RunLast(store, reqs);
    if k < n {
      ReplyAt(store, front, k);
      assert front[..k] == reqs[..k];
      assert front[k] == reqs[k];
      assert Run(store, reqs).replies[k] == Run(store, front).replies[k];
    } else {
      assert front == reqs[..k];
      assert Run(store, reqs).replies[k] == Step(Run(store, front).store, reqs[n]).reply;
    }
  }

  lemma {:induction false} RunOfPrefix(store: Store, reqs: seq<Request>, m: nat)
    requires 0 < m <= |reqs|
    ensures Run(store, reqs[..m]).store == Step(Run(store, reqs[..m - 1]).store, reqs[m - 1]).store
  {
    assert reqs[..m][..m - 1] == reqs[..m - 1];
  }

  /** Appending a record never changes what a lookup by key finds when the key was already present. */
  lemma AppendKeepsLookup(store: Store, doc: License, licenseKey: string)
    requires Lookup(store, licenseKey).Some?
    ensures Lookup(store + [doc], licenseKey) == Lookup(store, licenseKey)
  {
    var i := FindOne(store, licenseKey).value;
    assert (store + [doc])[i] == store[i];
    assert FindOne(store + [doc], licenseKey) == Some(i);
  }

  /** Issuing a key, even a duplicate one, leaves every existing binding as it was. */
  lemma IssueKeepsBinding(store: Store, owner: Option<string>, source: KeyGen.Source, now: Timestamp,
                          licenseKey: string, hwid: string)
    requires BoundTo(store, licenseKey, hwid)
    ensures BoundTo(Issue(store, owner, source, now).store, licenseKey, hwid)
  {
    var issued := Issue(store, owner, source, now);
    assert issued.store == store + [issued.store[|store|]];
    AppendKeepsLookup(store, issued.store[|store|], licenseKey);
  }

  /** No activation, of this key or another, changes an existing binding or wins the bound key again. */
  lemma ActivateKeepsBinding(store: Store, k: string, h: string, now: Timestamp, licenseKey: string, hwid: string)
    requires BoundTo(store, licenseKey, hwid)
    ensures BoundTo(Activate(store, k, h, now).store, licenseKey, hwid)
    ensures k == licenseKey ==> Activate(store, k, h, now).outcome != Activated
  {
    var r := Activate(store, k, h, now);
    var i := FindOne(store, licenseKey).value;
    assert store[i].activated;
    assert r.store[i] == store[i];
    assert forall j :: 0 <= j < i ==> r.store[j].licenseKey == store[j].licenseKey;
    assert FindOne(r.store, licenseKey) == Some(i);
    assert Lookup(r.store, licenseKey) == Lookup(store, licenseKey);
  }

  /** Once a key is bound to a hwid, no request changes that binding. */
  lemma StepKeepsBinding(store: Store, req: Request, licenseKey: string, hwid: string)
    requires BoundTo(store, licenseKey, hwid)
    ensures BoundTo(Step(store, req).store, licenseKey, hwid)
    ensures req.ActivateRequest? && req.licenseKey == licenseKey ==>
              Step(store, req).reply != Answered(Activated)
  {
    match req
    case IssueRequest(owner, source, now) =>
      IssueKeepsBinding(store, owner, source, now, licenseKey, hwid);
    case ActivateRequest(k, h, now) =>
      ActivateKeepsBinding(store, k, h, now, licenseKey, hwid);
  }

  lemma {:induction false} BindingPersists(store: Store, reqs: seq<Request>, lo: nat, hi: nat,
                                           licenseKey: string, hwid: string)
    requires lo <= hi <= |reqs|
    requires BoundTo(Run(store, reqs[..lo]).store, licenseKey, hwid)
    ensures BoundTo(Run(store, reqs[..hi]).store, licenseKey, hwid)
    decreases hi
  {
    if lo < hi {
      BindingPersists(store, reqs, lo, hi - 1, licenseKey, hwid);
      RunOfPrefix(store, reqs, hi);
      StepKeepsBinding(Run(store, reqs[..hi - 1]).store, reqs[hi - 1], licenseKey, hwid);
    }
  }

  /** A winning activation (reply `activated`) leaves its key bound to its hwid at the end of the run. */
  lemma WinnerBoundAtEnd(store: Store, reqs: seq<Request>, k: nat)
    requires k < |reqs|
    requires reqs[k].ActivateRequest? && Run(store, reqs).replies[k] == Answered(Activated)
    ensures BoundTo(Run(store, reqs).store, reqs[k].licenseKey, reqs[k].hwid)
  {
    var key, hwid := reqs[k].licenseKey, reqs[k].hwid;
    ReplyAt(store, reqs, k);
    RunOfPrefix(store, reqs, k + 1);
    BindingPersists(store, reqs, k + 1, |reqs|, key, hwid);
    assert reqs[..|reqs|] == reqs;
  }

  /**
   Sequential exclusive binding: once an activation of a key has won, no
   later activation of the same key wins again.
   */
  lemma WinnerKeepsKey(store: Store, reqs: seq<Request>, k: nat, later: nat)
    requires k < later < |reqs|
    requires reqs[k].ActivateRequest? && Run(store, reqs).replies[k] == Answered(Activated)
    requires reqs[later].ActivateRequest? && reqs[later].licenseKey == reqs[k].licenseKey
    ensures Run(store, reqs).replies[later] != Answered(Activated)
  {
    var key, hwid := reqs[k].licenseKey, reqs[k].hwid;
    ReplyAt(store, reqs, k);
    RunOfPrefix(store, reqs, k + 1);
    BindingPersists(store, reqs, k + 1, later, key, hwid);
    ReplyAt(store, reqs, later);
    StepKeepsBinding(Run(store, reqs[..later]).store, reqs[later], key, hwid);
  }

  /**
   A record preceded by another record with the same key is never the one
   lookups find, so no sequence of requests ever activates it.
   */
  lemma {:induction false} ShadowedNeverActivated(store: Store, reqs: seq<Request>, i: nat, j: nat)
    requires i < j < |store| && store[i].licenseKey == store[j].licenseKey
    requires !store[j].activated
    ensures !Run(store, reqs).store[j].activated
  {
    if |reqs| > 0 {
      var front := reqs[..|reqs| - 1];
      var before := Run(store, front);
      ShadowedNeverActivated(store, front, i, j);
      RunKeepsKeys(store, front);
      assert before.store[i].licenseKey == before.store[j].licenseKey;
      match reqs[|reqs| - 1]
      case IssueRequest(owner, source, now) =>
        assert Issue(before.store, owner, source, now).store[j] == before.store[j];
      case ActivateRequest(licenseKey, hwid, now) =>
        var r := Activate(before.store, licenseKey, hwid, now);
        // a changed record is the first match for the request's key, which j is not
        assert FindOne(before.store, licenseKey) != Some(j);
        assert r.store[j] == before.store[j];
    }
  }

  /**
   When issuance draws a key that the collection already holds, the new
   record is never activated, whatever requests follow.
   */
  lemma DuplicateNeverActivated(store: Store, owner: Option<string>, source: KeyGen.Source, now: Timestamp,
                                reqs: seq<Request>)
    requires Lookup(store, KeyGen.KeyOf(source, true, 16)).Some?
    ensures !Run(Issue(store, owner, source, now).store, reqs).store[|store|].activated
  {
    var issued := Issue(store, owner, source, now);
    var i := FindOne(store, issued.licenseKey).value;
    assert issued.store[i] == store[i];
    ShadowedNeverActivated(issued.store, reqs, i, |store|);
  }

  /**
   Starting from a collection with nothing activated, every activated record
   was bound by an activation request for its key and its hwid that was
   answered `activated`.
   */
  lemma {:induction false} EveryBindingHasWinner(store: Store, reqs: seq<Request>, i: nat)
    requires Unactivated(store)
    requires i < |Run(store, reqs).store| && Run(store, reqs).store[i].activated
    ensures exists k :: 0 <= k < |reqs| && reqs[k].ActivateRequest?
              && reqs[k].licenseKey == Run(store, reqs).store[i].licenseKey
              && Some(reqs[k].hwid) == Run(store, reqs).store[i].hwid
              && Run(store, reqs).replies[k] == Answered(Activated)
  {
    if |reqs| == 0 {
      assert false;
    } else {
      var final := Run(store, reqs);
      var n := |reqs| - 1;
      var front := reqs[..n];
      var before := Run(store, front);
      // Either the record was already activated before the last request, or the last request activated it.
      var earlier: bool;
      match reqs[n] {
        case IssueRequest(owner, source, now) =>
          var issued := Issue(before.store, owner, source, now);
          assert issued.store[..|before.store|] == before.store;
          if i < |before.store| {
            assert issued.store[i] == before.store[i];
          }
          earlier := true;
        case ActivateRequest(licenseKey, hwid, now) =>
          earlier := before.store[i].activated;
      }
      if earlier {
        assert final.store[i] == before.store[i];
        EveryBindingHasWinner(store, front, i);
        var k :| 0 <= k < n && front[k].ActivateRequest?
                 && front[k].licenseKey == before.store[i].licenseKey
                 && Some(front[k].hwid) == before.store[i].hwid
                 && before.replies[k] == Answered(Activated);
        assert final.replies[k] == before.replies[k];
        assert reqs[k] == front[k];
      } else {
        assert final.replies[n] == Answered(Activated);
      }
    }
  }
}
