/**
 The license collection and the two operations of main.py that change it:
 issuance (`admin_add_license`) and device activation (`activate_license`).

 The MongoDB collection is a sequence of records in insertion order.
 `find_one` and `update_one` with the filter `{"license_key": k}` both act on
 the first record whose key is `k`; `insert_one` appends and does not check
 that the key is new.
 */
module Licenses {
  import opened Wrappers
  import KeyGen

  /** `datetime.utcnow()`, supplied by the caller. */
  type Timestamp = int

  /** One document of the `licenses` collection. */
  datatype License = License(
    licenseKey: string,
    owner: Option<string>,
    hwid: Option<string>,
    activated: bool,
    createdAt: Timestamp,
    activatedAt: Option<Timestamp>)

  /** The collection, in insertion order. */
  type Store = seq<License>

  /** A record is activated exactly when a hwid and an activation time were written to it. */
  predicate WellFormed(r: License)
  {
    && (r.activated <==> r.hwid.Some?)
    && (r.activated <==> r.activatedAt.Some?)
  }

  predicate Valid(store: Store)
  {
    forall i :: 0 <= i < |store| ==> WellFormed(store[i])
  }

  /** `find_one({"license_key": k})`: the position of the first record with key `k`. */
  function FindOne(store: Store, licenseKey: string): (r: Option<nat>)
    ensures r.Some? ==> r.value < |store| && store[r.value].licenseKey == licenseKey
    ensures r.Some? ==> forall j :: 0 <= j < r.value ==> store[j].licenseKey != licenseKey
    ensures r.None? <==> forall j :: 0 <= j < |store| ==> store[j].licenseKey != licenseKey
  {
    if |store| == 0 then None
    else if store[0].licenseKey == licenseKey then Some(0)
    else match FindOne(store[1..], licenseKey)
      case None => None
      case Some(i) => Some(i + 1)
  }

  /** The record `find_one` returns for key `k`, if any. */
  function Lookup(store: Store, licenseKey: string): Option<License>
  {
    match FindOne(store, licenseKey)
    case None => None
    case Some(i) => Some(store[i])
  }

  /** The record lookups by `licenseKey` see is activated and bound to `hwid`. */
  predicate BoundTo(store: Store, licenseKey: string, hwid: string)
  {
    Lookup(store, licenseKey).Some? && Lookup(store, licenseKey).value.activated
    && Lookup(store, licenseKey).value.hwid == Some(hwid)
  }

  // ---------------------------------------------------------------------------
  // Issuance
  // ---------------------------------------------------------------------------

  /** `owner or None`: an absent or empty owner is stored as None. */
  function OwnerField(owner: Option<string>): (r: Option<string>)
    ensures r.Some? <==> owner.Some? && owner.value != ""
    ensures r.Some? ==> r == owner
  {
    match owner
    case Some(o) => if o == "" then None else owner
    case None => None
  }

  /** Result of issuance: the generated key and the collection after `insert_one`. */
  datatype Issued = Issued(licenseKey: string, store: Store)

  /**
   `admin_add_license` after the login check: generate a grouped key of
   length 16 and append a fresh, unactivated record for it.
   */
  function Issue(store: Store, owner: Option<string>, source: KeyGen.Source, now: Timestamp): (r: Issued)
    ensures KeyGen.IsGroupedKey(r.licenseKey, 4)
    ensures |r.store| == |store| + 1 && r.store[..|store|] == store
    ensures r.store[|store|].licenseKey == r.licenseKey
    ensures r.store[|store|].hwid.None? && !r.store[|store|].activated
    ensures r.store[|store|].activatedAt.None? && r.store[|store|].createdAt == now
    ensures r.store[|store|].owner.Some? <==> owner.Some? && owner.value != ""
    ensures r.store[|store|].owner.Some? ==> r.store[|store|].owner == owner
    ensures Valid(store) ==> Valid(r.store)
  {
    var licenseKey := KeyGen.KeyOf(source, true, 16);
    KeyGen.GroupedKeyLayout(source, 16);
    var doc := License(licenseKey, OwnerField(owner), None, false, now, None);
    Issued(licenseKey, store + [doc])
  }

  // ---------------------------------------------------------------------------
  // Activation
  // ---------------------------------------------------------------------------

  /** The replies of `activate_license`. */
  datatype Outcome =
    | Activated          // {"status": "activated"}
    | AlreadyActivated   // {"status": "already_activated"}
    | NotFound           // HTTP 404 "Invalid license key"
    | BoundElsewhere     // HTTP 400 "License already activated on another device"
  {
    /** The HTTP status code of the reply. */
    function HttpStatus(): int
    {
      match this
      case Activated => 200
      case AlreadyActivated => 200
      case NotFound => 404
      case BoundElsewhere => 400
    }
  }

  /** Result of one activation request: the reply and the collection afterwards. */
  datatype Activation = Activation(outcome: Outcome, store: Store)

  /**
   `activate_license(key, hwid)` as one sequential step: look up the first
   record with the key; refuse when there is none; when it is activated,
   answer by comparing the stored hwid with the request's; otherwise bind the
   request's hwid to that record.
   */
  function Activate(store: Store, licenseKey: string, hwid: string, now: Timestamp): (r: Activation)
    ensures |r.store| == |store|
    // the outcome is decided by the record find_one returns
    ensures r.outcome == NotFound <==> Lookup(store, licenseKey).None?
    ensures r.outcome == AlreadyActivated <==> BoundTo(store, licenseKey, hwid)
    ensures r.outcome == BoundElsewhere <==>
              Lookup(store, licenseKey).Some? && Lookup(store, licenseKey).value.activated
              && Lookup(store, licenseKey).value.hwid != Some(hwid)
    ensures r.outcome == Activated <==>
              Lookup(store, licenseKey).Some? && !Lookup(store, licenseKey).value.activated
    // only a successful binding changes the collection
    ensures r.outcome != Activated ==> r.store == store
    // afterwards a successful request finds its hwid bound
    ensures r.outcome.HttpStatus() == 200 ==> BoundTo(r.store, licenseKey, hwid)
    // nothing but the matched record changes; an activated record never changes
    ensures forall j :: 0 <= j < |store| && store[j].activated ==> r.store[j] == store[j]
    ensures forall j :: 0 <= j < |store| && r.store[j] != store[j] ==>
              FindOne(store, licenseKey) == Some(j) && r.outcome == Activated
    // a record that becomes activated is the matched one, bound to the request's hwid
    ensures forall j :: 0 <= j < |store| && !store[j].activated && r.store[j].activated ==>
              r.store[j].licenseKey == licenseKey && r.store[j].hwid == Some(hwid)
              && r.store[j].activatedAt == Some(now)
    // key, owner and creation time are never written
    ensures forall j :: 0 <= j < |store| ==>
              r.store[j].licenseKey == store[j].licenseKey && r.store[j].owner == store[j].owner
              && r.store[j].createdAt == store[j].createdAt
    ensures Valid(store) ==> Valid(r.store)
  {
    match FindOne(store, licenseKey)
    case None => Activation(NotFound, store)
    case Some(i) =>
      var doc := store[i];
      if doc.activated then
        if doc.hwid == Some(hwid) then Activation(AlreadyActivated, store)
        else Activation(BoundElsewhere, store)
      else
        var bound := doc.(hwid := Some(hwid), activated := true, activatedAt := Some(now));
        var store' := store[i := bound];
        assert FindOne(store', licenseKey) == Some(i) by {
          assert forall j :: 0 <= j < |store| ==> store'[j].licenseKey == store[j].licenseKey;
        }
        Activation(Activated, store')
  }

  /** A request that succeeded, repeated with the same hwid, answers `already_activated` and changes nothing. */
  lemma ActivateIdempotent(store: Store, licenseKey: string, hwid: string, t1: Timestamp, t2: Timestamp)
    requires Activate(store, licenseKey, hwid, t1).outcome.HttpStatus() == 200
    ensures var s1 := Activate(store, licenseKey, hwid, t1).store;
            Activate(s1, licenseKey, hwid, t2) == Activation(AlreadyActivated, s1)
  {
  }

  /** Once a key is bound, a request from another hwid is refused and the binding stays. */
  lemma ActivateNeverRebinds(store: Store, licenseKey: string, hwid: string, other: string, t1: Timestamp, t2: Timestamp)
    requires Activate(store, licenseKey, hwid, t1).outcome.HttpStatus() == 200
    requires other != hwid
    ensures var s1 := Activate(store, licenseKey, hwid, t1).store;
            Activate(s1, licenseKey, other, t2) == Activation(BoundElsewhere, s1)
            && BoundTo(s1, licenseKey, hwid)
  {
  }

  /**
   The collection does not enforce unique keys: when issuance draws a key that
   is already present, the next activation of that key does not touch the new
   record.  `History.DuplicateNeverActivated` extends this to every later
   request.
   */
  lemma DuplicateKeyIsShadowed(store: Store, owner: Option<string>, source: KeyGen.Source, now: Timestamp,
                               hwid: string, t: Timestamp)
    requires Lookup(store, KeyGen.KeyOf(source, true, 16)).Some?
    ensures var issued := Issue(store, owner, source, now);
            var r := Activate(issued.store, issued.licenseKey, hwid, t);
            r.store[|store|] == issued.store[|store|] && !r.store[|store|].activated
  {
    var issued := Issue(store, owner, source, now);
    var i := FindOne(store, issued.licenseKey).value;
    assert issued.store[i] == store[i];
    assert FindOne(issued.store, issued.licenseKey) == Some(i);
  }

  /**
   Issue a key into a collection that does not hold it yet, then activate it
   from "dev-A" twice and once from "dev-B": "dev-A" activates, "dev-A" again
   is already activated, "dev-B" is refused.
   */
  lemma IssueThenActivateScenario(store: Store, owner: Option<string>, source: KeyGen.Source, t0: Timestamp,
                                  t1: Timestamp, t2: Timestamp, t3: Timestamp)
    requires Lookup(store, KeyGen.KeyOf(source, true, 16)).None?
    ensures var issued := Issue(store, owner, source, t0);
            var a := Activate(issued.store, issued.licenseKey, "dev-A", t1);
            var b := Activate(a.store, issued.licenseKey, "dev-A", t2);
            var c := Activate(b.store, issued.licenseKey, "dev-B", t3);
            && a.outcome == Activated && b.outcome == AlreadyActivated && c.outcome == BoundElsewhere
            && BoundTo(c.store, issued.licenseKey, "dev-A")
  {
    var issued := Issue(store, owner, source, t0);
    assert FindOne(issued.store, issued.licenseKey) == Some(|store|) by {
      assert forall j :: 0 <= j < |store| ==> issued.store[j] == store[j];
    }
    var a := Activate(issued.store, issued.licenseKey, "dev-A", t1);
    ActivateIdempotent(issued.store, issued.licenseKey, "dev-A", t1, t2);
    ActivateNeverRebinds(issued.store, issued.licenseKey, "dev-A", "dev-B", t1, t3);
  }
}
