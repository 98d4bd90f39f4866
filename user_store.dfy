/** The users collection the auth service reads and writes, in memory: the
    documents in insertion order and the next identifier to hand out. Only
    the three operations the service uses are modelled: `findOne({ email })`,
    `findByIdAndUpdate(id, fields)` and `save()` of a new document. */
module UserStore {
  import opened Wrappers
  import opened UserSchema

  /** A partial update in the sense of `findByIdAndUpdate`: `None` leaves a
      field alone; `failedLoginTime: Some(None)` writes `null`. */
  datatype Patch = Patch(
    failedLoginAttempts: Option<int>,
    failedLoginTime: Option<Option<Millis>>,
    locked: Option<bool>)

  const NoChange: Patch := Patch(None, None, None)

  /** The document after the store has applied `p`. */
  function Apply(u: User, p: Patch): (v: User)
    ensures v.id == u.id && v.email == u.email && v.password == u.password
    ensures v.firstName == u.firstName && v.lastName == u.lastName
    ensures p == NoChange ==> v == u
  {
    u.(failedLoginAttempts := if p.failedLoginAttempts.Some? then p.failedLoginAttempts.value else u.failedLoginAttempts,
       failedLoginTime := if p.failedLoginTime.Some? then p.failedLoginTime.value else u.failedLoginTime,
       locked := if p.locked.Some? then Some(p.locked.value) else u.locked)
  }

  /** Index of the first document with this email at or after `from`. */
  function FindFrom(docs: seq<User>, email: string, from: nat): (r: Option<nat>)
    requires from <= |docs|
    ensures r.Some? ==> from <= r.value < |docs| && docs[r.value].email == email
    ensures r.Some? ==> forall j :: from <= j < r.value ==> docs[j].email != email
    ensures r.None? ==> forall j :: from <= j < |docs| ==> docs[j].email != email
    decreases |docs| - from
  {
    if from == |docs| then None
    else if docs[from].email == email then Some(from)
    else FindFrom(docs, email, from + 1)
  }

  /** `findOne({ email })`: the first stored document with that email. */
  function FindByEmail(docs: seq<User>, email: string): (r: Option<User>)
    ensures r.None? <==> forall j :: 0 <= j < |docs| ==> docs[j].email != email
    ensures r.Some? ==> r.value.email == email
    ensures r.Some? ==> exists k :: 0 <= k < |docs| && r.value == docs[k] && forall j :: 0 <= j < k ==> docs[j].email != email
  {
    var k := FindFrom(docs, email, 0);
    if k.Some? then Some(docs[k.value]) else None
  }

  /** `findByIdAndUpdate(id, fields)`: the document with that id receives the
      patch; every other document is left as it was. */
  function UpdateById(docs: seq<User>, id: Id, p: Patch): (r: seq<User>)
    ensures |r| == |docs|
    ensures forall j :: 0 <= j < |docs| ==>
              r[j] == if docs[j].id == id then Apply(docs[j], p) else docs[j]
  {
    seq(|docs|, j requires 0 <= j < |docs| => if docs[j].id == id then Apply(docs[j], p) else docs[j])
  }

  /** What the collection keeps: identifiers below the counter and distinct,
      emails distinct (the unique index on `email`), every document well-formed. */
  ghost predicate ValidDocs(docs: seq<User>, nextId: Id) {
    && (forall j :: 0 <= j < |docs| ==> docs[j].id < nextId && WellFormed(docs[j]))
    && (forall i, j :: 0 <= i < j < |docs| ==> docs[i].id != docs[j].id && docs[i].email != docs[j].email)
  }

  /** With distinct emails, the document found by email is the only one with it. */
  lemma FindByEmailIsUnique(docs: seq<User>, nextId: Id, email: string, k: nat)
    requires ValidDocs(docs, nextId)
    requires k < |docs| && docs[k].email == email
    ensures FindByEmail(docs, email) == Some(docs[k])
  {
    var r := FindFrom(docs, email, 0);
    assert r.Some?;
  }

  /** Updating one document by its id leaves the collection valid when the
      update keeps that document well-formed, and changes only that document. */
  lemma UpdateByIdKeepsValid(docs: seq<User>, nextId: Id, k: nat, p: Patch)
    requires ValidDocs(docs, nextId)
    requires k < |docs|
    requires WellFormed(Apply(docs[k], p))
    ensures UpdateById(docs, docs[k].id, p) == docs[k := Apply(docs[k], p)]
    ensures ValidDocs(UpdateById(docs, docs[k].id, p), nextId)
  {
    var r := UpdateById(docs, docs[k].id, p);
    forall j | 0 <= j < |docs|
      ensures r[j] == docs[k := Apply(docs[k], p)][j]
    {
      if j != k {
        assert docs[j].id != docs[k].id by {
          if j < k { assert docs[j].id != docs[k].id; } else { assert docs[k].id != docs[j].id; }
        }
      }
    }
  }

  /** The in-memory collection. */
  class UserCollection {
    var docs: seq<User>
    var nextId: Id

    ghost predicate Valid()
      reads this
    {
      ValidDocs(docs, nextId)
    }

    constructor ()
      ensures Valid() && docs == []
    {
      docs := [];
      nextId := 0;
    }

    /** `findOne({ email })`: the first stored document with that email, or
        none when no document has it. */
    function FindOne(email: string): (r: Option<User>)
      reads this
      ensures r.None? <==> forall j :: 0 <= j < |docs| ==> docs[j].email != email
      ensures r.Some? ==> r.value.email == email
      ensures r.Some? ==> exists k :: 0 <= k < |docs| && r.value == docs[k] && forall j :: 0 <= j < k ==> docs[j].email != email
      ensures r == FindByEmail(docs, email)
    {
      FindByEmail(docs, email)
    }

    /** `findByIdAndUpdate(id, fields)`. */
    method FindByIdAndUpdate(id: Id, p: Patch)
      modifies this
      ensures docs == UpdateById(old(docs), id, p) && nextId == old(nextId)
    {
      docs := UpdateById(docs, id, p);
    }

    /** `new this.userModel(fields).save()`: the new document gets a fresh id,
        the schema defaults, and is appended. */
    method Save(email: string, password: string, firstName: Option<string>, lastName: Option<string>)
      returns (u: User)
      modifies this
      ensures u == NewUser(old(nextId), email, password, firstName, lastName)
      ensures docs == old(docs) + [u] && nextId == old(nextId) + 1
    {
      u := NewUser(nextId, email, password, firstName, lastName);
      docs := docs + [u];
      nextId := nextId + 1;
    }
  }
}
