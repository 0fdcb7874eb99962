/**
 The grant type service of the JWT server: a delete guarded by validation and
 by a count of the clients still linked to the grant type, plus the read-only
 find and list operations, over a store holding the grant type table and the
 client-to-grant-type join table.
 */
module GrantTypeService {
  import opened Results
  import opened Text
  import opened Entities
  import EntityService

  /** One row of the ClientGrantTypes join table. */
  datatype ClientGrantType = ClientGrantType(clientId: Id, grantTypeId: Id)

  datatype Store = Store(grantTypes: EntityService.Table, clientGrantTypes: seq<ClientGrantType>)

  /** A validation for the Delete marker, as the validation service applies it. */
  type Validation = Reference -> Result<Reference>

  /** The row links a client to the grant type with this id; a null id matches no row, as in SQL. */
  predicate Links(row: ClientGrantType, id: Option<Id>) {
    id == Some(row.grantTypeId)
  }

  /** The number of join rows whose grant_type_id equals `id`: the count query's answer. */
  function LinkCount(rows: seq<ClientGrantType>, id: Option<Id>): (n: nat)
    ensures n <= |rows|
    ensures n == 0 <==> forall i :: 0 <= i < |rows| ==> !Links(rows[i], id)
  {
    if |rows| == 0 then 0
    else
      var last := rows[|rows| - 1];
      var front := rows[..|rows| - 1];
      assert forall i :: 0 <= i < |front| ==> front[i] == rows[i];
      LinkCount(front, id) + (if Links(last, id) then 1 else 0)
  }

  /** Counting distributes over concatenating join rows. */
  lemma {:induction false} LinkCountAppend(a: seq<ClientGrantType>, b: seq<ClientGrantType>, id: Option<Id>)
    ensures LinkCount(a + b, id) == LinkCount(a, id) + LinkCount(b, id)
    decreases |b|
  {
    if |b| > 0 {
      var b' := b[..|b| - 1];
      assert (a + b)[..|a + b| - 1] == a + b';
      LinkCountAppend(a, b', id);
    } else {
      assert a + b == a;
    }
  }

  /** Join rows for other grant types never change the count, so they never block a delete. */
  lemma OtherLinksDoNotCount(rows: seq<ClientGrantType>, other: seq<ClientGrantType>, id: Option<Id>)
    requires forall i :: 0 <= i < |other| ==> !Links(other[i], id)
    ensures LinkCount(rows + other, id) == LinkCount(rows, id)
    ensures LinkCount(other + rows, id) == LinkCount(rows, id)
  {
    LinkCountAppend(rows, other, id);
    LinkCountAppend(other, rows, id);
  }

  /** The code of the conflict a blocked delete reports. */
  const ConflictCode := "grantType.delete.conflict"

  /**
   The fixed text around the count. The text after the count is kept in two
   pieces so the phrase "<count> client" can be located in the message.
   */
  const ConflictPrefix := "This grant type cannot be deleted as there are "
  const ClientWord := " client"
  const ConflictTail := "s currently linked to this grant type."
  const ConflictSuffix := ClientWord + ConflictTail

  /** The message of a delete blocked by `count` linked clients. */
  function ConflictMessage(count: nat): (m: string)
    ensures |m| == |ConflictPrefix| + |NatToString(count)| + |ConflictSuffix|
  {
    ConflictPrefix + NatToString(count) + ConflictSuffix
  }

  /** The count embedded in a conflict message, read back from between its fixed prefix and suffix. */
  lemma ConflictMessageEmbedsCount(count: nat)
    ensures var m := ConflictMessage(count);
      && m[..|ConflictPrefix|] == ConflictPrefix
      && m[|m| - |ConflictSuffix|..] == ConflictSuffix
      && AllDigits(m[|ConflictPrefix|..|m| - |ConflictSuffix|])
      && ParseNat(m[|ConflictPrefix|..|m| - |ConflictSuffix|]) == count
  {
    var m := ConflictMessage(count);
    assert m[|ConflictPrefix|..|m| - |ConflictSuffix|] == NatToString(count);
    ParseNatToString(count);
  }

  /** The rendered count is followed by the word "client". */
  lemma CountReadsAsClients(count: nat)
    ensures OccursAt(NatToString(count) + ClientWord, ConflictMessage(count), |ConflictPrefix|)
  {
    var n := NatToString(count);
    assert ConflictMessage(count) == ConflictPrefix + (n + ClientWord) + ConflictTail;
    MiddleOccurs(ConflictPrefix, n + ClientWord, ConflictTail);
  }

  /** A delete blocked by one client says "1 client". */
  lemma OneClientMessage()
    ensures IsSubstring("1 client", ConflictMessage(1))
  {
    CountReadsAsClients(1);
    assert NatToString(1) == "1";
    assert NatToString(1) + ClientWord == "1 client";
    assert OccursAt("1 client", ConflictMessage(1), |ConflictPrefix|);
  }

  /** The single-error conflict result for `count` linked clients. */
  function DeleteConflict(count: nat): (r: Result<Reference>)
    ensures r.Valid() && r.HasKind(Conflict)
    ensures |r.errors| == 1
    ensures r.errors[0].code == ConflictCode && r.errors[0].message == ConflictMessage(count)
  {
    var r := Rejected([Error(ConflictCode, ConflictMessage(count), Conflict)]);
    assert r.errors[0].kind == Conflict;
    r
  }

  /** The rows of `t` that do not carry `id`. */
  function Without(t: EntityService.Table, id: Id): (r: EntityService.Table)
    ensures forall e :: e in r <==> e in t && e.id != Some(id)
    ensures |r| <= |t|
  {
    if |t| == 0 then []
    else
      var rest := Without(t[1..], id);
      assert forall e :: e in t <==> e == t[0] || e in t[1..];
      if t[0].id == Some(id) then rest else [t[0]] + rest
  }

  /**
   The repository delete: the grant type's row leaves the table (an entity
   without an id removes nothing), the join table is untouched, and the
   deleted entity is accepted.
   */
  function RepositoryDelete(s: Store, g: Reference): (out: (Result<Reference>, Store))
    ensures out.0 == Accepted(g)
    ensures out.1.clientGrantTypes == s.clientGrantTypes
    ensures g.id.Some? ==> forall e :: e in out.1.grantTypes <==> e in s.grantTypes && e.id != g.id
    ensures g.id.None? ==> out.1 == s
  {
    if g.id.None? then (Accepted(g), s)
    else (Accepted(g), s.(grantTypes := Without(s.grantTypes, g.id.value)))
  }

  /** After a repository delete, looking the grant type up by its id finds nothing. */
  lemma DeletedIsNotFound(d: EntityService.Descriptor, s: Store, g: Reference)
    requires !IsBlank(g.id)
    ensures EntityService.FindById(d, RepositoryDelete(s, g).1.grantTypes, g.id) == Rejected([EntityService.NoSuchId(d, g.id.value)])
  {
    var t := RepositoryDelete(s, g).1.grantTypes;
    forall i | 0 <= i < |t|
      ensures t[i].id != g.id
    {
      assert t[i] in t;
    }
  }

  /**
   Deletes a grant type: a rejected validation is returned as it is; a grant
   type some client still links to is refused with a conflict naming the
   number of links; otherwise the repository delete's outcome is returned.
   Only the last case changes the store.
   */
  method Delete(s: Store, g: Reference, validate: Validation) returns (r: Result<Reference>, s': Store)
    ensures validate(g).Rejected? ==> r == validate(g) && s' == s
    ensures (validate(g).Accepted? && LinkCount(s.clientGrantTypes, g.id) > 0)
              ==> r == DeleteConflict(LinkCount(s.clientGrantTypes, g.id)) && s' == s
    ensures (validate(g).Accepted? && LinkCount(s.clientGrantTypes, g.id) == 0)
              ==> (r, s') == RepositoryDelete(s, g)
  {
    var verdict := validate(g);
    if verdict.Rejected? {
      return verdict, s;
    }

    var rows := s.clientGrantTypes;
    var count := 0;
    var i := 0;
    while i < |rows|
      invariant 0 <= i <= |rows|
      invariant count == LinkCount(rows[..i], g.id)
    {
      assert rows[..i + 1][..i] == rows[..i];
      if Links(rows[i], g.id) {
        count := count + 1;
      }
      i := i + 1;
    }
    assert rows[..i] == rows;

    if count != 0 {
      return DeleteConflict(count), s;
    }
    var out := RepositoryDelete(s, g);
    r, s' := out.0, out.1;
  }

  /** Finding a grant type by id reads the store and leaves it as it was. */
  function FindById(d: EntityService.Descriptor, s: Store, id: Option<Id>): (out: (Result<Reference>, Store))
    ensures out.1 == s
    ensures out.0.Accepted? ==> out.0.instance in s.grantTypes && out.0.instance.id == id
    ensures out.0.Accepted? <==> !IsBlank(id) && EntityService.Stores(s.grantTypes, id.value)
  {
    (EntityService.FindById(d, s.grantTypes, id), s)
  }

  /** Listing the grant types reads the store and leaves it as it was. */
  function List(s: Store): (out: (Result<seq<Reference>>, Store))
    ensures out.1 == s
    ensures out.0.Accepted? && forall e :: e in out.0.instance <==> e in s.grantTypes
  {
    (EntityService.List(s.grantTypes), s)
  }
}
