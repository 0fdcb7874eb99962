/**
 Domain entities and their API representations. The five reference kinds
 (audience, scope, grant type, authority, role) share one shape and are one
 datatype tagged with their kind; accounts and clients embed sets of them.
 Every nullable Java field is an `Option`.
 */
module Entities {
  import opened Results

  type Id = string

  datatype Kind = Audience | Scope | GrantType | Authority | Role

  /** A named reference entity of some kind. */
  datatype Reference = Reference(kind: Kind, id: Option<Id>, name: Option<string>, description: Option<string>)

  /** A user account and the roles granted to it. */
  datatype Account = Account(
    id: Option<Id>,
    username: Option<string>,
    password: Option<string>,
    locked: bool,
    roles: set<Reference>)

  /** The client aggregate: credentials, the reference entities it embeds, and token lifetimes. */
  datatype Client = Client(
    id: Option<Id>,
    clientId: Option<string>,
    clientSecret: Option<string>,
    scopes: set<Reference>,
    grantTypes: set<Reference>,
    authorities: set<Reference>,
    audiences: set<Reference>,
    accessTokenValiditySeconds: Option<int>,
    refreshTokenValiditySeconds: Option<int>)

  /** The API form of any reference entity; inside an account or client only `id` is consulted. */
  datatype ReferenceRepresentation = ReferenceRepresentation(id: Option<Id>, name: Option<string>, description: Option<string>)

  datatype AccountRepresentation = AccountRepresentation(
    username: Option<string>,
    password: Option<string>,
    locked: bool,
    roles: Option<seq<ReferenceRepresentation>>)

  datatype ClientRepresentation = ClientRepresentation(
    clientId: Option<string>,
    clientSecret: Option<string>,
    scopes: Option<seq<ReferenceRepresentation>>,
    grantTypes: Option<seq<ReferenceRepresentation>>,
    authorities: Option<seq<ReferenceRepresentation>>,
    audiences: Option<seq<ReferenceRepresentation>>,
    accessTokenValiditySeconds: Option<int>,
    refreshTokenValiditySeconds: Option<int>)

  /** A new account is unlocked. */
  const DefaultLocked := false

  /** A new client has no token lifetimes of its own. */
  const DefaultValiditySeconds: Option<int> := None
}
