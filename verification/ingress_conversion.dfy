/**
 Conversion of API representations into domain entities. Embedded reference
 sets are built by looking each representation's id up through the kind's
 `findById`; references whose lookup is rejected are dropped without error,
 and a missing list becomes the empty set.
 */
module IngressConversion {
  import opened Results
  import opened Text
  import opened Entities
  import EntityService

  /** A kind's `findById`, seen from the converter. */
  type Lookup = Option<Id> -> Result<Reference>

  /** The five lookups the converter is wired with. */
  datatype Lookups = Lookups(roles: Lookup, scopes: Lookup, grantTypes: Lookup, authorities: Lookup, audiences: Lookup)

  /** The entity a representation refers to, or None when its lookup is rejected. */
  function Resolve(find: Lookup, rep: ReferenceRepresentation): (r: Option<Reference>)
    ensures r.Some? <==> find(rep.id).Accepted?
    ensures r.Some? ==> find(rep.id) == Accepted(r.value)
  {
    var result := find(rep.id);
    if result.Accepted? then Some(result.instance) else None
  }

  /** Some reference in `reps` is accepted by `find` as `e`. */
  predicate ResolvesTo(find: Lookup, reps: seq<ReferenceRepresentation>, e: Reference) {
    exists i :: 0 <= i < |reps| && find(reps[i].id) == Accepted(e)
  }

  /** The set of entities the references resolve to, with unresolvable references dropped. */
  function ResolveAll(find: Lookup, reps: seq<ReferenceRepresentation>): (r: set<Reference>)
    ensures |r| <= |reps|
    ensures forall e :: e in r <==> ResolvesTo(find, reps, e)
  {
    if |reps| == 0 then {}
    else
      var rest := ResolveAll(find, reps[1..]);
      assert forall e :: ResolvesTo(find, reps, e) <==> find(reps[0].id) == Accepted(e) || ResolvesTo(find, reps[1..], e) by {
        forall e | ResolvesTo(find, reps, e) && find(reps[0].id) != Accepted(e)
          ensures ResolvesTo(find, reps[1..], e)
        {
          var i :| 0 <= i < |reps| && find(reps[i].id) == Accepted(e);
          assert reps[1..][i - 1] == reps[i];
        }
        forall e | ResolvesTo(find, reps[1..], e)
          ensures ResolvesTo(find, reps, e)
        {
          var i :| 0 <= i < |reps[1..]| && find(reps[1..][i].id) == Accepted(e);
          assert reps[i + 1] == reps[1..][i];
        }
      }
      match Resolve(find, reps[0])
      case None => rest
      case Some(e) => {e} + rest
  }

  /** An embedded reference set: empty for a missing list, else the resolvable references. */
  function ResolveSet(find: Lookup, reps: Option<seq<ReferenceRepresentation>>): (r: set<Reference>)
    ensures reps.None? ==> r == {}
    ensures reps.Some? ==> |r| <= |reps.value|
    ensures forall e :: e in r <==> reps.Some? && ResolvesTo(find, reps.value, e)
  {
    if reps.None? then {} else ResolveAll(find, reps.value)
  }

  /** A new account: credentials copied, roles resolved, not locked. */
  function ConvertAccount(rep: AccountRepresentation, roles: Lookup): (r: Account)
    ensures r.id.None?
    ensures r.username == rep.username && r.password == rep.password
    ensures r.locked == DefaultLocked
    ensures rep.roles.None? ==> r.roles == {}
    ensures forall e :: e in r.roles <==> rep.roles.Some? && ResolvesTo(roles, rep.roles.value, e)
  {
    Account(None, rep.username, rep.password, DefaultLocked, ResolveSet(roles, rep.roles))
  }

  /** A new client: credentials and all four reference sets from the representation; a lifetime only where one is given. */
  function ConvertClient(rep: ClientRepresentation, lookups: Lookups): (r: Client)
    ensures r.id.None?
    ensures r.clientId == rep.clientId && r.clientSecret == rep.clientSecret
    ensures forall e :: e in r.scopes <==> rep.scopes.Some? && ResolvesTo(lookups.scopes, rep.scopes.value, e)
    ensures forall e :: e in r.grantTypes <==> rep.grantTypes.Some? && ResolvesTo(lookups.grantTypes, rep.grantTypes.value, e)
    ensures forall e :: e in r.authorities <==> rep.authorities.Some? && ResolvesTo(lookups.authorities, rep.authorities.value, e)
    ensures forall e :: e in r.audiences <==> rep.audiences.Some? && ResolvesTo(lookups.audiences, rep.audiences.value, e)
    ensures rep.accessTokenValiditySeconds.Some? ==> r.accessTokenValiditySeconds == rep.accessTokenValiditySeconds
    ensures rep.accessTokenValiditySeconds.None? ==> r.accessTokenValiditySeconds == DefaultValiditySeconds
    ensures rep.refreshTokenValiditySeconds.Some? ==> r.refreshTokenValiditySeconds == rep.refreshTokenValiditySeconds
    ensures rep.refreshTokenValiditySeconds.None? ==> r.refreshTokenValiditySeconds == DefaultValiditySeconds
  {
    var initial := Client(
      None, rep.clientId, rep.clientSecret,
      ResolveSet(lookups.scopes, rep.scopes),
      ResolveSet(lookups.grantTypes, rep.grantTypes),
      ResolveSet(lookups.authorities, rep.authorities),
      ResolveSet(lookups.audiences, rep.audiences),
      DefaultValiditySeconds, DefaultValiditySeconds);
    var withAccess :=
      if rep.accessTokenValiditySeconds.Some?
      then initial.(accessTokenValiditySeconds := rep.accessTokenValiditySeconds)
      else initial;
    if rep.refreshTokenValiditySeconds.Some?
    then withAccess.(refreshTokenValiditySeconds := rep.refreshTokenValiditySeconds)
    else withAccess
  }

  /** A new reference entity of the given kind with the representation's name and description. */
  function ConvertReference(kind: Kind, rep: ReferenceRepresentation): (r: Reference)
    ensures r.kind == kind && r.id.None?
    ensures r.name == rep.name && r.description == rep.description
  {
    Reference(kind, None, rep.name, rep.description)
  }

  /** Applies an account representation to an existing account: only roles and the locked flag change. */
  function UpdateAccount(rep: AccountRepresentation, account: Account, roles: Lookup): (r: Account)
    ensures r.id == account.id
    ensures r.username == account.username && r.password == account.password
    ensures r.locked == rep.locked
    ensures rep.roles.None? ==> r.roles == {}
    ensures forall e :: e in r.roles <==> rep.roles.Some? && ResolvesTo(roles, rep.roles.value, e)
  {
    account.(roles := ResolveSet(roles, rep.roles), locked := rep.locked)
  }

  /**
   Applies a client representation to an existing client: scopes, grant
   types, authorities and both lifetimes are overwritten (a missing lifetime
   clears it); id, credentials and audiences are kept.
   */
  function UpdateClient(rep: ClientRepresentation, client: Client, lookups: Lookups): (r: Client)
    ensures r.id == client.id
    ensures r.clientId == client.clientId && r.clientSecret == client.clientSecret
    ensures r.audiences == client.audiences
    ensures forall e :: e in r.scopes <==> rep.scopes.Some? && ResolvesTo(lookups.scopes, rep.scopes.value, e)
    ensures forall e :: e in r.grantTypes <==> rep.grantTypes.Some? && ResolvesTo(lookups.grantTypes, rep.grantTypes.value, e)
    ensures forall e :: e in r.authorities <==> rep.authorities.Some? && ResolvesTo(lookups.authorities, rep.authorities.value, e)
    ensures r.accessTokenValiditySeconds == rep.accessTokenValiditySeconds
    ensures r.refreshTokenValiditySeconds == rep.refreshTokenValiditySeconds
  {
    client.(
      scopes := ResolveSet(lookups.scopes, rep.scopes),
      grantTypes := ResolveSet(lookups.grantTypes, rep.grantTypes),
      authorities := ResolveSet(lookups.authorities, rep.authorities),
      accessTokenValiditySeconds := rep.accessTokenValiditySeconds,
      refreshTokenValiditySeconds := rep.refreshTokenValiditySeconds)
  }

  /** Applies a representation to an existing reference entity: name and description change, nothing else. */
  function UpdateReference(rep: ReferenceRepresentation, e: Reference): (r: Reference)
    ensures r.kind == e.kind && r.id == e.id
    ensures r.name == rep.name && r.description == rep.description
  {
    e.(name := rep.name, description := rep.description)
  }

  /** A reference whose lookup is rejected leaves the converted set as it was. */
  lemma {:induction false} DroppedReference(find: Lookup, reps: seq<ReferenceRepresentation>, rep: ReferenceRepresentation)
    requires find(rep.id).Rejected?
    ensures ResolveAll(find, reps + [rep]) == ResolveAll(find, reps)
  {
    var longer := reps + [rep];
    forall e | ResolvesTo(find, longer, e)
      ensures ResolvesTo(find, reps, e)
    {
      var i :| 0 <= i < |longer| && find(longer[i].id) == Accepted(e);
      assert i < |reps| && longer[i] == reps[i];
    }
    forall e | ResolvesTo(find, reps, e)
      ensures ResolvesTo(find, longer, e)
    {
      var i :| 0 <= i < |reps| && find(reps[i].id) == Accepted(e);
      assert longer[i] == reps[i];
    }
  }

  /**
   With the lookups backed by a table of unique ids, the converted set holds
   exactly the stored rows some non-blank reference names: every member
   exists, and dangling references are gone.
   */
  lemma ResolveAgainstStore(d: EntityService.Descriptor, t: EntityService.Table, reps: seq<ReferenceRepresentation>, e: Reference)
    requires EntityService.UniqueIds(t)
    ensures e in ResolveAll((id: Option<Id>) => EntityService.FindById(d, t, id), reps)
        <==> e in t && !IsBlank(e.id) && exists i :: 0 <= i < |reps| && reps[i].id == e.id
  {
    var find := (id: Option<Id>) => EntityService.FindById(d, t, id);
    if ResolvesTo(find, reps, e) {
      var i :| 0 <= i < |reps| && find(reps[i].id) == Accepted(e);
      assert reps[i].id == e.id;
    }
    if e in t && !IsBlank(e.id) && exists i :: 0 <= i < |reps| && reps[i].id == e.id {
      var i :| 0 <= i < |reps| && reps[i].id == e.id;
      EntityService.FindUnique(t, e.id.value, e);
      assert find(reps[i].id) == Accepted(e);
    }
  }

  /** Applying the same client representation twice is the same as applying it once. */
  lemma UpdateClientIdempotent(rep: ClientRepresentation, client: Client, lookups: Lookups)
    ensures UpdateClient(rep, UpdateClient(rep, client, lookups), lookups) == UpdateClient(rep, client, lookups)
  {
  }

  /**
   Updating a freshly converted client with the representation it came from
   changes nothing: the create-time rule (copy a lifetime only when given) and
   the update-time rule (always overwrite) agree because a new client has no
   lifetimes.
   */
  lemma UpdateAfterConvert(rep: ClientRepresentation, lookups: Lookups)
    ensures UpdateClient(rep, ConvertClient(rep, lookups), lookups) == ConvertClient(rep, lookups)
  {
  }
}
