/** The `user` collection: the record shape of models/userModel.js and the
    in-memory table that stands for the datastore. Creation and update
    timestamps are not part of this model. */
module UserModel {

  import opened Wrappers
  import opened Bcrypt

  /** A server-generated document identifier. The table hands them out in
      increasing order, so identifier order is insertion (natural) order. */
  type UserId = nat

  /** A document of the `user` collection. */
  datatype User = User(email: string, passwordHash: Digest, userTags: seq<string>)

  /** `findOne({ email })` over the documents with identifiers below `n`,
      scanned in natural order: the first document whose email matches. */
  function FindBelow(records: map<UserId, User>, email: string, n: nat): (r: Option<UserId>)
    ensures r.Some? ==> r.value < n && r.value in records && records[r.value].email == email
    ensures r.Some? ==> forall j :: j < r.value && j in records ==> records[j].email != email
    ensures r.None? ==> forall j :: j < n && j in records ==> records[j].email != email
    decreases n
  {
    if n == 0 then None
    else
      match FindBelow(records, email, n - 1)
      case Some(id) => Some(id)
      case None => if n - 1 in records && records[n - 1].email == email then Some(n - 1) else None
  }

  /** The collection, updated in place by the router's handlers. */
  class Users {
    var records: map<UserId, User>
    var nextId: UserId

    /** Identifiers in use are exactly those below `nextId` (no document is
        ever deleted). */
    ghost predicate Valid()
      reads this
    {
      forall id: UserId :: id in records <==> id < nextId
    }

    constructor ()
      ensures Valid() && records == map[] && nextId == 0
    {
      records := map[];
      nextId := 0;
    }

    /** `User.findOne({ email })`: the earliest document with this email, or
        none when no document has it. */
    function FindOne(email: string): (r: Option<UserId>)
      reads this
      requires Valid()
      ensures r.Some? ==> r.value in records && records[r.value].email == email
      ensures r.Some? ==> forall j :: j in records && records[j].email == email ==> r.value <= j
      ensures r.None? <==> forall j :: j in records ==> records[j].email != email
    {
      FindBelow(records, email, nextId)
    }

    /** `new User(u).save()`: stores `u` under a fresh identifier. */
    method Insert(u: User) returns (id: UserId)
      requires Valid()
      modifies this
      ensures Valid()
      ensures id == old(nextId) && id !in old(records)
      ensures records == old(records)[id := u] && nextId == id + 1
    {
      id := nextId;
      records := records[id := u];
      nextId := nextId + 1;
    }

    /** `document.save()` on a document loaded from the collection. */
    method Replace(id: UserId, u: User)
      requires Valid() && id in records
      modifies this
      ensures Valid()
      ensures records == old(records)[id := u] && nextId == old(nextId)
    {
      records := records[id := u];
    }
  }
}
