/**
 The read side of the templated entity service every reference kind shares:
 find by id, find several existing ids, and list, over the rows of one kind's
 table.
 */
module EntityService {
  import opened Results
  import opened Text
  import opened Entities

  /** The rows of one kind's table, in storage order. */
  type Table = seq<Reference>

  /**
   How a service reports a failed lookup: the code and message for a missing
   id (e.g. "AUD-0006"), and the code and message prefix for an id no row
   carries (e.g. "SYS-0001" with "No such audience id: "); the unknown id is
   appended to that prefix.
   */
  datatype Descriptor = Descriptor(idRequiredCode: string, idRequiredMessage: string,
                                   notFoundCode: string, notFoundPrefix: string)

  /** The error for a missing or blank id. */
  function IdRequired(d: Descriptor): Error {
    Error(d.idRequiredCode, d.idRequiredMessage, Unprocessable)
  }

  /** The error for an id no row carries. */
  function NoSuchId(d: Descriptor, id: Id): Error {
    Error(d.notFoundCode, d.notFoundPrefix + id, NotFound)
  }

  /** No two rows share an id. */
  predicate UniqueIds(t: Table) {
    forall i, j :: 0 <= i < j < |t| ==> t[i].id != t[j].id
  }

  /** Some row carries `id`. */
  predicate Stores(t: Table, id: Id) {
    exists i :: 0 <= i < |t| && t[i].id == Some(id)
  }

  /** The first row carrying `id`, if any. */
  function Find(t: Table, id: Id): (r: Option<Reference>)
    ensures r.Some? ==> r.value in t && r.value.id == Some(id)
    ensures r.None? <==> !Stores(t, id)
  {
    if |t| == 0 then None
    else if t[0].id == Some(id) then Some(t[0])
    else
      var r := Find(t[1..], id);
      assert Stores(t[1..], id) ==> Stores(t, id);
      assert Stores(t, id) ==> Stores(t[1..], id) by {
        if Stores(t, id) {
          var i :| 0 <= i < |t| && t[i].id == Some(id);
          assert t[1..][i - 1] == t[i];
        }
      }
      r
  }

  /** When ids are unique, the row found is the only row with that id. */
  lemma FindUnique(t: Table, id: Id, e: Reference)
    requires UniqueIds(t)
    ensures Find(t, id) == Some(e) <==> e in t && e.id == Some(id)
  {
    if e in t && e.id == Some(id) {
      var r := Find(t, id).value;
      var i :| 0 <= i < |t| && t[i] == e;
      var j :| 0 <= j < |t| && t[j] == r;
      assert t[i].id == t[j].id;
    }
  }

  /**
   Looks an entity up by id: a missing or blank id is unprocessable, an id no
   row carries is not found, otherwise the stored row is accepted.
   */
  function FindById(d: Descriptor, t: Table, id: Option<Id>): (r: Result<Reference>)
    ensures r.Valid()
    ensures IsBlank(id) ==> r == Rejected([IdRequired(d)])
    ensures !IsBlank(id) ==> (r.Accepted? <==> Stores(t, id.value))
    ensures !IsBlank(id) && r.Rejected? ==> r == Rejected([NoSuchId(d, id.value)])
    ensures r.Accepted? ==> r.instance in t && r.instance.id == id
  {
    if IsBlank(id) then Rejected([IdRequired(d)])
    else
      match Find(t, id.value)
      case Some(e) => Accepted(e)
      case None => Rejected([NoSuchId(d, id.value)])
  }

  /** Lists every stored row; never rejected. */
  function List(t: Table): (r: Result<seq<Reference>>)
    ensures r.Accepted?
    ensures |r.instance| == |t|
    ensures forall e :: e in r.instance <==> e in t
  {
    Accepted(t)
  }

  /** `id` is a non-blank member of the requested ids. */
  predicate Requested(ids: Option<seq<Option<Id>>>, id: Option<Id>) {
    ids.Some? && !IsBlank(id) && id in ids.value
  }

  /**
   Resolves the requested ids left to right, skipping blank ids, ids already
   handled (those in `seen`) and ids no row carries.
   */
  function Collect(t: Table, ids: seq<Option<Id>>, seen: set<Id>): (r: seq<Reference>)
    ensures forall e :: e in r ==> e in t && e.id in ids && !IsBlank(e.id) && e.id.value !in seen
    ensures UniqueIds(r)
    ensures forall k :: 0 <= k < |ids| && !IsBlank(ids[k]) && ids[k].value !in seen && Find(t, ids[k].value).Some?
                ==> Find(t, ids[k].value).value in r
  {
    if |ids| == 0 then []
    else if IsBlank(ids[0]) || ids[0].value in seen then
      var r := Collect(t, ids[1..], seen);
      assert forall k :: 1 <= k < |ids| ==> ids[k] == ids[1..][k - 1];
      r
    else
      var id := ids[0].value;
      var rest := Collect(t, ids[1..], seen + {id});
      assert forall k :: 1 <= k < |ids| ==> ids[k] == ids[1..][k - 1];
      match Find(t, id)
      case None => rest
      case Some(e) => [e] + rest
  }

  /**
   Finds the entities whose ids are requested: a missing list, blank ids and
   unknown ids are dropped silently, repeated ids yield one entity, and the
   result is always accepted.
   */
  function FindExistingById(t: Table, ids: Option<seq<Option<Id>>>): (r: Result<seq<Reference>>)
    ensures r.Accepted?
    ensures ids.None? ==> r.instance == []
    ensures forall e :: e in r.instance ==> e in t && Requested(ids, e.id)
    ensures UniqueIds(t) ==> forall e :: e in t && Requested(ids, e.id) ==> e in r.instance
    ensures UniqueIds(r.instance)
  {
    if ids.None? then Accepted([])
    else
      var r := Collect(t, ids.value, {});
      assert UniqueIds(t) ==> forall e :: e in t && Requested(ids, e.id) ==> e in r by {
        if UniqueIds(t) {
          forall e | e in t && Requested(ids, e.id)
            ensures e in r
          {
            var k :| 0 <= k < |ids.value| && ids.value[k] == e.id;
            FindUnique(t, e.id.value, e);
          }
        }
      }
      Accepted(r)
  }
}
