# Tokamak administration core in Dafny

A model of three small pieces of the Tokamak identity and authorization
server, with proofs of what each one promises.

- **Ingress conversion** (`IngressConversionServiceImpl`) turns API
  representations into domain entities.
  - Embedded reference sets (roles, scopes, grant types, authorities,
    audiences) are built by looking each reference id up through the kind's
    `findById`.
  - A reference whose lookup is rejected is dropped silently.
  - A missing list becomes the empty set.
  - On create, a token lifetime is copied only when the representation gives
    one. On update, both lifetimes are always overwritten.
  - Each `update` overload overwrites a fixed set of fields and keeps the rest.
- **Grant type service** (`GrantTypeServiceImpl` of the JWT server).
  - `delete` first applies the Delete-marker validation, and returns a
    rejection as it is.
  - It then counts the rows of the client-to-grant-type join table that name
    the grant type. A non-zero count gives a conflict whose message embeds the
    count.
  - Otherwise the repository delete's outcome is returned.
  - `findById` and `list` are read-only delegations to the JWT server's own
    entity-service template. That template is not part of this model. Its read
    side (find by id, find several existing ids, list) is modelled on the
    tokamak-server template, as that server's integration tests describe it.
    The codes and messages of a failed lookup are parameters (`Descriptor`),
    so no server's error codes are built in.
- **Scope-string tokenizer** (`StringTokenizer.tokenize`).
  - A blank input has no tokens.
  - Otherwise the input is trimmed, split with `String.split("\\s*,\\s*")` and
    collected into a set.
  - The split is modelled as the Java matcher runs it: leftmost match, greedy
    whitespace, and the limit-zero removal of trailing empty pieces.
  - The split is proved equal to a plain reference: split at every comma, then
    trim every piece.

Modules:

| module | file | contents |
|---|---|---|
| `Results` | `results.dfy` | `Option` (Java `null`), `Error`, `ErrorKind`, `Result` |
| `Entities` | `entities.dfy` | reference entities (one datatype tagged with its kind), accounts, clients, their representations |
| `Text` | `text.dfy` | one whitespace class, blank test, trimming, substrings, decimal rendering of counts |
| `EntityService` | `entity_service.dfy` | the read side of the entity-service template over one kind's table |
| `IngressConversion` | `ingress_conversion.dfy` | lookups, embedded-set resolution, the `convert` and `update` overloads |
| `GrantTypeService` | `grant_type_service.dfy` | the store, the link count, the conflict message, the guarded delete, find and list |
| `Tokenizer` | `tokenizer.dfy` | the reference comma split, the model of `String.split`, `Tokenize`, its properties |
| `TokenizerExamples` | `tokenizer_examples.dfy` | repeated tokens, order, and the empty pieces the split keeps or drops |

What the model takes as parameters:
- A kind's `findById`, as the converter calls it, is a function `Option<Id> -> Result<Reference>`.
- The validation service's Delete check is a function `Reference -> Result<Reference>`.
- The repository is a value: the grant type table plus the join-table rows.

How the source behaves at the edges, as the model shows:
- `","` has no tokens: both pieces are empty, and trailing empty pieces are dropped.
- `",a"` has the tokens `""` and `"a"`: an empty piece before a non-empty one is kept.

The two servers word a blocked delete differently. The JWT server's grant
type service reports it with the code `grantType.delete.conflict` and the
message "This grant type cannot be deleted as there are N clients currently
linked to this grant type.". The tokamak-server services use a
`<PREFIX>-0005` code and the wording "N client is linked". The model follows
the JWT server's grant type service.

## Model

| member | source | states |
|---|---|---|
| IngressConversion.Resolve | tokamak-server/src/main/java/fm/pattern/tokamak/server/conversion/IngressConversionServiceImpl.java:171-194 | a reference resolves exactly when its kind's `findById` accepts its id, and then to the accepted instance |
| IngressConversion.ResolveAll | tokamak-server/src/main/java/fm/pattern/tokamak/server/conversion/IngressConversionServiceImpl.java:66 | the converted set holds exactly the entities some reference's lookup accepted, and has no more members than there were references |
| IngressConversion.ResolveSet | tokamak-server/src/main/java/fm/pattern/tokamak/server/conversion/IngressConversionServiceImpl.java:71-74 | a missing list converts to the empty set, never to an error; otherwise to the resolvable references |
| IngressConversion.DroppedReference | tokamak-server/src/main/java/fm/pattern/tokamak/server/conversion/IngressConversionServiceImpl.java:171-194 | adding a reference whose lookup is rejected leaves the converted set unchanged |
| IngressConversion.ResolveAgainstStore | tokamak-server/src/main/java/fm/pattern/tokamak/server/conversion/IngressConversionServiceImpl.java:171-194 | with lookups backed by a table of unique ids, the converted set is exactly the stored rows that some non-blank reference names: no dangling member, no resolvable reference lost |
| IngressConversion.ConvertAccount | tokamak-server/src/main/java/fm/pattern/tokamak/server/conversion/IngressConversionServiceImpl.java:65-68 | a new account has no id, the representation's username and password, is unlocked, and its roles are exactly the resolvable roles (none for a missing list) |
| IngressConversion.ConvertClient | tokamak-server/src/main/java/fm/pattern/tokamak/server/conversion/IngressConversionServiceImpl.java:70-87 | a new client copies the credentials, holds exactly the resolvable references of each of the four kinds, and takes a lifetime only where the representation gives one (otherwise none) |
| IngressConversion.ConvertReference | tokamak-server/src/main/java/fm/pattern/tokamak/server/conversion/IngressConversionServiceImpl.java:89-117 | a new reference entity has the requested kind, no id, and the representation's name and description |
| IngressConversion.UpdateAccount | tokamak-server/src/main/java/fm/pattern/tokamak/server/conversion/IngressConversionServiceImpl.java:119-124 | updating an account replaces only the roles (with the resolvable ones) and the locked flag; id, username and password are kept |
| IngressConversion.UpdateClient | tokamak-server/src/main/java/fm/pattern/tokamak/server/conversion/IngressConversionServiceImpl.java:126-139 | updating a client replaces scopes, grant types and authorities, always overwrites both lifetimes (a missing one clears it), and keeps id, credentials and audiences |
| IngressConversion.UpdateReference | tokamak-server/src/main/java/fm/pattern/tokamak/server/conversion/IngressConversionServiceImpl.java:141-169 | updating a reference entity sets exactly name and description; kind and id are kept |
| IngressConversion.UpdateClientIdempotent | tokamak-server/src/main/java/fm/pattern/tokamak/server/conversion/IngressConversionServiceImpl.java:126-139 | applying the same client representation twice gives what applying it once gives |
| IngressConversion.UpdateAfterConvert | tokamak-server/src/main/java/fm/pattern/tokamak/server/conversion/IngressConversionServiceImpl.java:78-136 | the create-time lifetime rule and the update-time rule agree on a new client: updating it with its own representation changes nothing |
| EntityService.Find | tokamak-server/src/test/java/fm/pattern/tokamak/server/service/AudienceServiceIntegrationTest.java:109-128 | the row found carries the id and is stored; nothing is found exactly when no row carries the id |
| EntityService.FindUnique | tokamak-server/src/test/java/fm/pattern/tokamak/server/service/AudienceServiceIntegrationTest.java:109-116 | when ids are unique, the row found for an id is the one stored row carrying it |
| EntityService.FindById | tokamak-server/src/test/java/fm/pattern/tokamak/server/service/AudienceServiceIntegrationTest.java:109-128 | a missing or blank id is rejected as unprocessable; a non-blank id is accepted exactly when stored, with the stored row, and otherwise rejected as not found with one error whose message is the service's prefix (here "No such audience id: ") followed by the id |
| EntityService.List | tokamak-server/src/test/java/fm/pattern/tokamak/server/service/AudienceServiceIntegrationTest.java:151-158 | listing is accepted and returns exactly the stored rows |
| EntityService.Collect | tokamak-server/src/test/java/fm/pattern/tokamak/server/service/AudienceServiceIntegrationTest.java:160-215 | resolving ids left to right yields only stored rows with requested, non-blank, not-yet-seen ids, no id twice, and every such row that exists |
| EntityService.FindExistingById | tokamak-server/src/test/java/fm/pattern/tokamak/server/service/AudienceServiceIntegrationTest.java:177-215 | always accepted; empty for a missing list; blank and unknown ids are dropped; with unique ids, exactly the stored rows whose ids are requested, each once |
| GrantTypeService.LinkCount | pattern-jwt-server/src/main/java/fm/pattern/jwt/server/service/GrantTypeServiceImpl.java:52 | the count is zero exactly when no join row names the grant type, and never exceeds the number of rows |
| GrantTypeService.LinkCountAppend | pattern-jwt-server/src/main/java/fm/pattern/jwt/server/service/GrantTypeServiceImpl.java:52 | counting join rows distributes over concatenation |
| GrantTypeService.OtherLinksDoNotCount | pattern-jwt-server/src/main/java/fm/pattern/jwt/server/service/GrantTypeServiceImpl.java:52 | rows linking clients to other grant types never change the count, so they never block the delete |
| GrantTypeService.ConflictMessageEmbedsCount | pattern-jwt-server/src/main/java/fm/pattern/jwt/server/service/GrantTypeServiceImpl.java:54 | the conflict message is the fixed prefix, the decimal count, and the fixed suffix, and reading the digits back gives exactly the count |
| GrantTypeService.CountReadsAsClients | pattern-jwt-server/src/main/java/fm/pattern/jwt/server/service/GrantTypeServiceImpl.java:54 | the rendered count is followed by the word "client" in the message |
| GrantTypeService.OneClientMessage | pattern-jwt-server/src/main/java/fm/pattern/jwt/server/service/GrantTypeServiceImpl.java:54 | a delete blocked by one link says "1 client" |
| GrantTypeService.DeleteConflict | pattern-jwt-server/src/main/java/fm/pattern/jwt/server/service/GrantTypeServiceImpl.java:53-55 | a blocked delete is one rejection of kind Conflict, with the code `grantType.delete.conflict` and the message that embeds the count |
| GrantTypeService.RepositoryDelete | pattern-jwt-server/src/main/java/fm/pattern/jwt/server/service/GrantTypeServiceImpl.java:57 | the repository delete accepts the entity, removes exactly the rows carrying its id, and leaves the join table alone |
| GrantTypeService.DeletedIsNotFound | pattern-jwt-server/src/main/java/fm/pattern/jwt/server/service/GrantTypeServiceImpl.java:57 | after the repository delete, finding the grant type by its id is rejected as not found |
| GrantTypeService.Delete | pattern-jwt-server/src/main/java/fm/pattern/jwt/server/service/GrantTypeServiceImpl.java:46-58 | a rejected validation is returned as it is and the store is unchanged; a non-zero link count gives the conflict for that count and the store is unchanged; otherwise the result and store are the repository delete's |
| GrantTypeService.FindById | pattern-jwt-server/src/main/java/fm/pattern/jwt/server/service/GrantTypeServiceImpl.java:60-63 | finding by id never changes the store, and accepts exactly a stored grant type with that non-blank id |
| GrantTypeService.List | pattern-jwt-server/src/main/java/fm/pattern/jwt/server/service/GrantTypeServiceImpl.java:65-68 | listing never changes the store and returns exactly the stored grant types |
| Text.Trim | tokamak-authorization/src/main/java/fm/pattern/tokamak/authorization/StringTokenizer.java:32 | the trimmed string neither begins nor ends with whitespace, and is empty exactly when the input is all whitespace |
| Text.TrimOfStrip | tokamak-authorization/src/main/java/fm/pattern/tokamak/authorization/StringTokenizer.java:32 | any whitespace-padded occurrence of a trimmed string is what trimming yields |
| Text.TrimIdempotent | tokamak-authorization/src/main/java/fm/pattern/tokamak/authorization/StringTokenizer.java:32 | trimming twice is trimming once |
| Text.ParseNatToString | pattern-jwt-server/src/main/java/fm/pattern/jwt/server/service/GrantTypeServiceImpl.java:54 | the decimal rendering of a count reads back as the count |
| Tokenizer.JoinSegments | tokamak-authorization/src/main/java/fm/pattern/tokamak/authorization/StringTokenizer.java:32 | gluing the comma-separated pieces back with commas gives the string |
| Tokenizer.SegmentsJoin | tokamak-authorization/src/main/java/fm/pattern/tokamak/authorization/StringTokenizer.java:32 | splitting comma-free pieces glued with commas gives the pieces back |
| Tokenizer.FindSeparatorNone | tokamak-authorization/src/main/java/fm/pattern/tokamak/authorization/StringTokenizer.java:32 | the separator search fails exactly when no comma follows the search position |
| Tokenizer.FindSeparatorMatches | tokamak-authorization/src/main/java/fm/pattern/tokamak/authorization/StringTokenizer.java:32 | what the search reports matches `\s*,\s*` |
| Tokenizer.FindSeparatorLeftmost | tokamak-authorization/src/main/java/fm/pattern/tokamak/authorization/StringTokenizer.java:32 | no match of the pattern starts before the reported one |
| Tokenizer.FindSeparatorGreedy | tokamak-authorization/src/main/java/fm/pattern/tokamak/authorization/StringTokenizer.java:32 | no match at the reported start ends later: whitespace after the comma is taken greedily |
| Tokenizer.DropTrailingEmpty | tokamak-authorization/src/main/java/fm/pattern/tokamak/authorization/StringTokenizer.java:32 | the limit-zero clean-up keeps a prefix that does not end with an empty piece, and drops only empty pieces |
| Tokenizer.DropTrailingEmptyKeeps | tokamak-authorization/src/main/java/fm/pattern/tokamak/authorization/StringTokenizer.java:32 | a non-empty piece survives the clean-up exactly when it was there |
| Tokenizer.DropTrailingEmptyKeepsEmpty | tokamak-authorization/src/main/java/fm/pattern/tokamak/authorization/StringTokenizer.java:32 | an empty piece survives exactly when a non-empty piece follows some empty one |
| Tokenizer.SplitIsTrimmedCommaSplit | tokamak-authorization/src/main/java/fm/pattern/tokamak/authorization/StringTokenizer.java:32 | on a trimmed, non-empty string, splitting at `\s*,\s*` gives the comma-separated pieces, each trimmed, with trailing empty pieces dropped |
| Tokenizer.TrimAllOfTrimmed | tokamak-authorization/src/main/java/fm/pattern/tokamak/authorization/StringTokenizer.java:32 | trimming the whole input first does not change the trimmed pieces |
| Tokenizer.Tokenize | tokamak-authorization/src/main/java/fm/pattern/tokamak/authorization/StringTokenizer.java:31-33 | a missing, empty or all-whitespace input has no tokens; otherwise the tokens are the elements of the reference split of the raw input |
| Tokenizer.TokenShape | tokamak-authorization/src/main/java/fm/pattern/tokamak/authorization/StringTokenizer.java:31-33 | every token is free of commas, neither begins nor ends with whitespace, and occurs contiguously in the trimmed input |
| Tokenizer.TokenizeWithoutComma | tokamak-authorization/src/main/java/fm/pattern/tokamak/authorization/StringTokenizer.java:32 | a non-blank input without commas has exactly one token, the trimmed input |
| Tokenizer.TokenMembership | tokamak-authorization/src/main/java/fm/pattern/tokamak/authorization/StringTokenizer.java:32 | a non-empty string is a token exactly when some comma-separated piece of the input trims to it |
| Tokenizer.EmptyTokenMembership | tokamak-authorization/src/main/java/fm/pattern/tokamak/authorization/StringTokenizer.java:32 | the empty string is a token exactly when a piece trimming to nothing precedes one that does not |
| Tokenizer.TokensFromPieces | tokamak-authorization/src/main/java/fm/pattern/tokamak/authorization/StringTokenizer.java:32 | an input glued from comma-free pieces has as tokens what the clean-up keeps of those pieces, trimmed |
| TokenizerExamples.RepeatedTokensCollapse | tokamak-authorization/src/main/java/fm/pattern/tokamak/authorization/StringTokenizer.java:32 | "a, b, a" has exactly the tokens a and b: repeats collapse and the space after a comma is not part of a token |
| TokenizerExamples.TokenOrderIrrelevant | tokamak-authorization/src/main/java/fm/pattern/tokamak/authorization/StringTokenizer.java:32 | "b,a" and "a, b, a" have the same tokens |
| TokenizerExamples.LoneCommaHasNoTokens | tokamak-authorization/src/main/java/fm/pattern/tokamak/authorization/StringTokenizer.java:32 | "," has no tokens |
| TokenizerExamples.LeadingCommaGivesEmptyToken | tokamak-authorization/src/main/java/fm/pattern/tokamak/authorization/StringTokenizer.java:32 | ",a" has the tokens "" and a |

## Left out

- HTTP endpoints, status mapping and serialization: they route and translate and hold no logic of this core.
- The client cache and the client authentication lookup: their implementations are not part of this model.
- Password hashing: the password is carried as an opaque value.
- Transactions and concurrency: each operation is one atomic step on an immutable store.
- Id generation and timestamps: a new entity carries no id, and timestamps are not represented.
- Repository failures (`SystemError`): the repository delete is modelled as always succeeding.
- The validation rules behind the Delete marker (`DataServiceImpl` and the rule set are not part of this model): the validation is a parameter of `Delete`.
- The entity-service template's write side (create, update) and `findByName`: only the reads the grant type service delegates to, plus `findExistingById`, are modelled.
- Text.IsWhitespace: the class is exactly Java's default `\s` (space, tab, newline, vertical tab, form feed, carriage return). `String.trim` strips every character up to `' '`, and `StringUtils.isBlank` uses `Character.isWhitespace`, which also admits the file, group, record and unit separators and Unicode spaces. Inputs with other control characters or such separators may trim or test blank differently from the model.
- Entities.Client: validity seconds are unbounded integers; the 32-bit range of Java's `Integer` is not modelled, because the converter only copies these values.
- IngressConversion.ResolveAll: entity equality is structural on all fields, in every converted set (`ResolveAll`, `ResolveSet`, `ConvertAccount`, `ConvertClient`, `UpdateAccount`, `UpdateClient`). Java sets compare entities with their own `equals`, which is not part of this model.
- IngressConversion.ResolveSet: a reference list cannot hold a `null` element. In the source, a `null` element reaches `lookup`, whose `representation.getId()` throws a `NullPointerException`, so the whole conversion fails. The model has no such element and no such failure.
- GrantTypeService.FindById: assumes the JWT server's template rejects a blank id as unprocessable and an unknown id as not found with one error, as the tokamak-server template does. The error codes and messages are left as parameters. `GrantTypeService.DeletedIsNotFound` rests on the same assumption.
- EntityService.FindExistingById: states which entities are returned, not their order, although the model keeps the first-occurrence order of the ids.
- GrantTypeService.Delete: the count query's `Long` is not modelled as a 64-bit value, because a count cannot exceed the number of join rows.
