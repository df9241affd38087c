/** The document store behind a repository, seen only through the calls the
    repository makes on it: a collection kept in insertion (natural) order,
    each record filed under an identity the store assigns. */
module DocStore {
  import opened Basics

  /** The store-assigned identity of a record. */
  type Id = nat

  datatype Doc<R> = Doc(id: Id, rec: R)

  type Store<R> = seq<Doc<R>>

  /** No two records share an identity. */
  ghost predicate UniqueIds<R>(s: Store<R>) {
    forall i, j :: 0 <= i < j < |s| ==> s[i].id != s[j].id
  }

  predicate HasId<R>(s: Store<R>, id: Id) {
    exists i :: 0 <= i < |s| && s[i].id == id
  }

  /** Position of the first record filed under `id`. */
  function IndexOf<R>(s: Store<R>, id: Id): (k: nat)
    requires HasId(s, id)
    ensures k < |s| && s[k].id == id
    ensures forall i :: 0 <= i < k ==> s[i].id != id
  {
    if s[0].id == id then 0 else 1 + IndexOf(s[1..], id)
  }

  /** `findById`: the record filed under `id`, if any. */
  function FindById<R>(s: Store<R>, id: Id): (r: Option<Doc<R>>)
    ensures r.Some? <==> HasId(s, id)
    ensures r.Some? ==> r.value in s && r.value.id == id
    ensures UniqueIds(s) ==> forall i :: 0 <= i < |s| && s[i].id == id ==> r == Some(s[i])
  {
    if HasId(s, id) then Some(s[IndexOf(s, id)]) else None
  }

  /** One identity above every identity in use. */
  function NextId<R>(s: Store<R>): (id: Id)
    ensures forall i :: 0 <= i < |s| ==> s[i].id < id
  {
    if s == [] then 1 else Max(s[|s| - 1].id + 1, NextId(s[..|s| - 1]))
  }

  /** A collection: its records in natural order, and the last identity
      handed out. Generated identities are never handed out twice, so an
      identity freed by a delete is not given to a later record. */
  datatype Collection<R> = Collection(docs: Store<R>, lastId: Id)

  /** Identities are unique, and every one in use has been handed out. */
  ghost predicate Valid<R>(c: Collection<R>) {
    && UniqueIds(c.docs)
    && forall i :: 0 <= i < |c.docs| ==> c.docs[i].id <= c.lastId
  }

  /** `save` of a new document: it receives an identity never handed out
      before and is appended, so it comes last in natural order. */
  function Insert<R>(c: Collection<R>, rec: R): (r: (Collection<R>, Id))
    ensures !HasId(c.docs, r.1) && c.lastId < r.1 == r.0.lastId
    ensures |r.0.docs| == |c.docs| + 1 && r.0.docs[..|c.docs|] == c.docs && r.0.docs[|c.docs|] == Doc(r.1, rec)
    ensures Valid(c) ==> Valid(r.0)
  {
    var id := Max(c.lastId + 1, NextId(c.docs));
    (Collection(c.docs + [Doc(id, rec)], id), id)
  }

  /** Replace, in place, the record filed under `id`. */
  function ReplaceAt<R>(s: Store<R>, id: Id, rec: R): (t: Store<R>)
    requires HasId(s, id)
    ensures |t| == |s|
    ensures forall i :: 0 <= i < |s| ==> t[i].id == s[i].id
    ensures UniqueIds(s) ==> forall i :: 0 <= i < |s| ==>
      t[i].rec == (if s[i].id == id then rec else s[i].rec)
    ensures UniqueIds(s) ==> UniqueIds(t)
  {
    var k := IndexOf(s, id);
    s[k := Doc(id, rec)]
  }

  /** Drop the record filed under `id`; the others keep their order. */
  function RemoveAt<R(!new)>(s: Store<R>, id: Id): (t: Store<R>)
    requires HasId(s, id)
    ensures |t| == |s| - 1
    ensures forall d :: d in t ==> d in s
    ensures UniqueIds(s) ==> UniqueIds(t) && !HasId(t, id)
    ensures UniqueIds(s) ==> forall d :: d in s && d.id != id ==> d in t
    ensures var k := IndexOf(s, id); t[..k] == s[..k] && t[k..] == s[k + 1..]
  {
    var k := IndexOf(s, id);
    s[..k] + s[k + 1..]
  }

  /** `find(query)` without skip or limit: the records the filter accepts,
      in natural order. */
  function Select<R(!new)>(s: Store<R>, accepts: R -> bool): (r: Store<R>)
    ensures |r| <= |s|
  {
    if s == [] then []
    else if accepts(s[0].rec) then [s[0]] + Select(s[1..], accepts)
    else Select(s[1..], accepts)
  }

  /** The selection holds exactly the documents the filter accepts. */
  lemma {:induction false} SelectMembers<R(!new)>(s: Store<R>, accepts: R -> bool)
    ensures forall d :: d in Select(s, accepts) <==> d in s && accepts(d.rec)
  {
    if s != [] {
      SelectMembers(s[1..], accepts);
      assert s == [s[0]] + s[1..];
    }
  }

  /** A filter that accepts everything selects the whole collection. */
  lemma {:induction false} SelectAll<R(!new)>(s: Store<R>, accepts: R -> bool)
    requires forall r :: accepts(r)
    ensures Select(s, accepts) == s
  {
    if s != [] {
      SelectAll(s[1..], accepts);
      assert s == [s[0]] + s[1..];
    }
  }
}
