/**
 * The patient repository: the table of stored rows and the queries and
 * updates the service uses. The two derived queries are declared in the
 * repository interface; lookup, save, delete and list are the inherited CRUD
 * operations, stated here as operations on the table value.
 */
module Repository {
  import opened Model

  /** The stored rows, keyed by id. Every row is stored under its own id. */
  type Table = t: map<Uuid, Patient> | forall k :: k in t ==> t[k].id == k
    witness map[]

  /** The set of emails held by some row. */
  ghost function Emails(t: Table): set<string> {
    set k | k in t :: t[k].email
  }

  /** No two distinct rows hold the same email. */
  ghost predicate UniqueEmails(t: Table) {
    forall j, k :: j in t && k in t && j != k ==> t[j].email != t[k].email
  }

  /** `existsByEmail`: some stored row has this email. */
  predicate ExistsByEmail(t: Table, email: string)
    ensures ExistsByEmail(t, email) <==> email in Emails(t)
  {
    exists k :: k in t && t[k].email == email
  }

  /** `existsByEmailAndIdNot`: some stored row other than row `id` has this
      email. */
  predicate ExistsByEmailAndIdNot(t: Table, email: string, id: Uuid)
    ensures ExistsByEmailAndIdNot(t, email, id) ==> ExistsByEmail(t, email)
    ensures (id !in t || t[id].email != email) ==>
              (ExistsByEmailAndIdNot(t, email, id) <==> ExistsByEmail(t, email))
  {
    exists k :: k in t && k != id && t[k].email == email
  }

  /** `findById`: the row stored under `id`, if any. */
  function FindById(t: Table, id: Uuid): (r: Option<Patient>)
    ensures r.Some? <==> id in t
    ensures r.Some? ==> r.value == t[id] && r.value.id == id
  {
    if id in t then Some(t[id]) else None
  }

  /** `save`: inserts the row under its id, or overwrites the row already
      there. */
  function Save(t: Table, p: Patient): (r: Table)
    ensures r.Keys == t.Keys + {p.id}
    ensures r[p.id] == p
    ensures forall k :: k in t && k != p.id ==> r[k] == t[k]
    ensures p.id !in t ==> |r| == |t| + 1
    ensures p.id in t ==> |r| == |t|
  {
    t[p.id := p]
  }

  /** `deleteById`: removes row `id`; an absent id leaves the table as it is. */
  function DeleteById(t: Table, id: Uuid): (r: Table)
    ensures r.Keys == t.Keys - {id}
    ensures forall k :: k in r ==> r[k] == t[k]
    ensures id !in t ==> r == t
  {
    t - {id}
  }

  /** Deleting twice is deleting once. */
  lemma DeleteIsIdempotent(t: Table, id: Uuid)
    ensures DeleteById(DeleteById(t, id), id) == DeleteById(t, id)
  {
  }

  /** Excluding row `id` from the email query is the same as asking the
      table without that row. */
  lemma ExistsByEmailAndIdNotIgnoresOnlyThatRow(t: Table, email: string, id: Uuid)
    ensures ExistsByEmailAndIdNot(t, email, id) <==> ExistsByEmail(DeleteById(t, id), email)
  {
  }

  /** `rows` lists every row of `t` exactly once, in some order. */
  ghost predicate Lists(t: Table, rows: seq<Patient>) {
    && |rows| == |t|
    && (forall i :: 0 <= i < |rows| ==> rows[i].id in t && t[rows[i].id] == rows[i])
    && (forall i, j :: 0 <= i < j < |rows| ==> rows[i].id != rows[j].id)
    && (forall k :: k in t ==> exists i :: 0 <= i < |rows| && rows[i].id == k)
  }

  /** `findAll`: the rows in the store's enumeration order. The store does not
      promise an order, so each row is taken from the rows not yet listed by an
      arbitrary choice. */
  method FindAll(t: Table) returns (rows: seq<Patient>)
    ensures Lists(t, rows)
  {
    rows := [];
    var pending := t.Keys;
    while pending != {}
      invariant pending <= t.Keys
      invariant |rows| + |pending| == |t|
      invariant forall i :: 0 <= i < |rows| ==> rows[i].id in t && t[rows[i].id] == rows[i]
      invariant forall i :: 0 <= i < |rows| ==> rows[i].id !in pending
      invariant forall i, j :: 0 <= i < j < |rows| ==> rows[i].id != rows[j].id
      invariant forall k :: k in t && k !in pending ==> exists i :: 0 <= i < |rows| && rows[i].id == k
      decreases pending
    {
      var k :| k in pending;
      ghost var listed := rows;
      rows := rows + [t[k]];
      pending := pending - {k};
      assert rows[|listed|].id == k;
      assert forall i :: 0 <= i < |listed| ==> rows[i] == listed[i];
    }
  }

  /** Every finite set of ids has an upper bound, so the store can always
      generate an id that is not yet in use. */
  lemma {:induction false} UnusedIdAbove(ids: set<Uuid>) returns (bound: Uuid)
    ensures forall k :: k in ids ==> k < bound
  {
    if ids == {} {
      bound := 0;
    } else {
      var x :| x in ids;
      var rest := UnusedIdAbove(ids - {x});
      bound := if x < rest then rest else x + 1;
      assert forall k :: k in ids ==> k == x || k in ids - {x};
    }
  }
}
