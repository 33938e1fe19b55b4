# Workline backend: the multi-tenant authorization core, in Dafny

Workline is a NestJS backend. Organizations, members and sessions live in
the better-auth identity library, and outlines live in a Prisma-backed
table. This project models the logic the backend adds around those
libraries and proves properties of that model:

- **Memberships service**: `getMemberId`, `findAllByOrganization`,
  `removeMember`, `updateRole` and the two-write `transferOwnership`.
  These run over a membership table class (member id ↦ user, organization,
  role) whose ghost history records the table after every library write.
- **Request pipeline**: the session middleware fills `req.user` and
  `req.session`. `OrgMemberGuard` takes either the session fast path or a
  directory lookup, and writes the organization context onto the request.
  `OrgAdminGuard` always looks the member up. The HTTP exception filter
  maps an exception to an error body.
- **Organizations**: `generateSlug`, the slug and description defaults of
  `create`, and the validation rules of `CreateOrganizationDto`.
- **Outlines service**: `create`, `findAll`, `findOne`, `update` and
  `remove`, all over an outline table class. Every lookup is scoped to the
  organization, and the reviewer must be an owner or admin.
- **Auth configuration**: the `{{KEY}}` substitution loop of `getTemplate`,
  the invitation link and the trusted-origin list.

The model does not implement any library call. Each one becomes a declared
answer instead:

- `getFullOrganization` is a `Lookup`: a member list, `null` or a thrown
  error. `OrgMemberGuard` reads it through the `OrgDirectory` class, which
  records every query. `OrgAdminGuard` is modelled as a function of the
  `Lookup` itself, with no directory object.
- `getSession` is a `ProviderReply`.
- The identity library's writes succeed or fail according to a boolean
  parameter.
- The outline table's ids come from a counter.
- Creation times are supplied by the caller.

One file holds each module: `wrappers`, `sequences`, `js_values`, `exceptions`,
`directory`, `requests`, `session_middleware`, `org_member_guard`,
`org_admin_guard`, `exception_filter`, `slugs`, `organization_dto`,
`memberships`, `outlines`, `auth_config`.

The model follows the code as written, including where it does less than an
organization-management design would lead one to expect:

- `removeMember` does not refuse to remove an owner.
- `updateRole` does not refuse to grant `owner`.
- `transferOwnership` is not atomic. It promotes first and then demotes, and
  nothing is undone when the demotion fails.
- A transfer to oneself leaves the caller as a plain `member` (see
  `Memberships.SelfTransferDemotes`).
- The organization creation DTO rejects `_` in a supplied slug, although
  `generateSlug` keeps `_`. Generated slugs never pass through the DTO (see
  `OrganizationDto.GeneratedSlugAgainstPattern`).

## Model

| member | source | states |
|---|---|---|
| Directory.FindMember | src/memberships/memberships.service.ts:89 | `members.find(m => m.userId === userId)`: a row is found exactly when some row belongs to the user, and the one found is the first such row |
| Directory.FirstMatchUnique | src/memberships/memberships.service.ts:89 | the first matching row's position is unique |
| Directory.FindIn | src/common/guards/org-member.guard.ts:37 | `org?.members.find(...)`: for a member list, the row `find` gives; for `null` or a failed call, nothing, and a found row belongs to the user |
| Directory.OrgDirectory.GetFullOrganization | src/common/guards/org-member.guard.ts:30-35 | returns the configured answer for the organization (`null` for an unknown one) and appends the organization to the query log |
| Memberships.FindAllByOrganization | src/memberships/memberships.service.ts:9-17 | `result?.members \|\| []`: the member list unchanged, `[]` for `null`, and a thrown error propagated |
| Memberships.MemberId | src/memberships/memberships.service.ts:81-95 | the id of the first member of the user; NotFound "Member not found" exactly when no member row belongs to the user (also for `null`); a directory error propagates |
| Memberships.MemberIdDependsOnIdentities | src/memberships/memberships.service.ts:89-94 | the resolved member id depends only on the ids and user ids of the listed rows, not on their roles |
| Memberships.Resolve | src/memberships/memberships.service.ts:81-95 | `getMemberId` over the table: it succeeds exactly when some listed row belongs to the user in that organization, and then returns the id of the first such row in listing order (`FirstListed`); failure is NotFound "Member not found" |
| Memberships.MembersOfRows | src/memberships/memberships.service.ts:82-89 | every listed member of an organization is a table row of that organization with its own user and role |
| Memberships.MembersOf | src/memberships/memberships.service.ts:82-89 | the `members` list `getFullOrganization` returns for the table: one entry per listed row of the organization, in listing order, never more entries than listed ids |
| Memberships.MembersOfComplete | src/memberships/memberships.service.ts:82-89 | every listed row of the organization appears in its members list, with its user and role |
| Memberships.FirstListed | src/memberships/memberships.service.ts:89 | the first listed id whose row belongs to the user in the organization; none exactly when no listed row does |
| Memberships.FindFirstListed | src/memberships/memberships.service.ts:89-94 | `members.find` over the organization's list finds exactly the row `FirstListed` names, and nothing when it names none |
| Memberships.SetRole | src/memberships/memberships.service.ts:68-74 | one role write: the named row gets the new role and every other row is unchanged |
| Memberships.Without | src/memberships/memberships.service.ts:25-30 | the listing after a removal holds exactly the other ids |
| Memberships.WithoutDistinct | src/memberships/memberships.service.ts:25-30 | a removal keeps the listing free of duplicates |
| Memberships.MembersOfSetRole | src/memberships/memberships.service.ts:65-75 | a role change keeps every listed member's id and user in place |
| Memberships.ResolveStableUnderRoleChange | src/memberships/memberships.service.ts:65-75 | after any role change every user resolves to the same member as before |
| Memberships.UpdateRoleIdempotent | src/memberships/memberships.service.ts:65-75 | calling `updateRole` a second time with the same role resolves the same member and leaves the table unchanged |
| Memberships.MembersOfRemove | src/memberships/memberships.service.ts:22-31 | removing a row removes exactly that member, and only that member, from the organization's list |
| Memberships.DropIdFind | src/memberships/memberships.service.ts:89 | dropping the rows of one member id does not change `find` for a user who owns none of those rows |
| Memberships.RemoveKeepsOthers | src/memberships/memberships.service.ts:22-31 | after one user's member is removed, every other user resolves exactly as before |
| Memberships.RemovedUserGone | src/memberships/memberships.service.ts:22-31 | when each user has at most one row per organization, the removed user no longer resolves |
| Memberships.TransferFromSoleOwner | src/memberships/memberships.service.ts:37-60 | if the caller is the sole owner and the two users differ, the state between the writes has exactly two owners, and after both writes the new owner is the only owner, the old owner is a member and every other row is unchanged |
| Memberships.HandOver | src/memberships/memberships.service.ts:41-57 | promoting a row and then demoting the sole owner row of the same organization gives two owners in between and exactly the promoted row as owner at the end, with every other row unchanged |
| Memberships.SelfTransferDemotes | src/memberships/memberships.service.ts:37-57 | on a transfer to oneself the second write wins: the caller ends as `member`, and a sole owner leaves the organization with no owner |
| Memberships.MembershipTable.GetMemberId | src/memberships/memberships.service.ts:81-95 | resolves against the table's current rows and listing |
| Memberships.MembershipTable.WriteRole | src/memberships/memberships.service.ts:42-48 | `updateMemberRole`: an accepted write sets the role and appends the new table to the history; a refused one changes nothing and fails |
| Memberships.MembershipTable.RemoveMember | src/memberships/memberships.service.ts:22-32 | resolves before any write; an unknown user fails with NotFound and the table is unchanged; otherwise exactly the resolved row is removed from the table and the listing |
| Memberships.MembershipTable.UpdateRole | src/memberships/memberships.service.ts:65-76 | resolves before any write; sets exactly the resolved row's role to the given one, `owner` included |
| Memberships.MembershipTable.TransferOwnership | src/memberships/memberships.service.ts:37-60 | both users are resolved before any write, and a missing one fails with NotFound and no role change; the promotion is written before the demotion; a refused demotion leaves the promotion in place (history ends in the two-owner state); success records both states and returns "Ownership transferred successfully" |
| Memberships.MembershipTable.PromoteThenDemote | src/memberships/memberships.service.ts:41-59 | the two `updateMemberRole` writes in order: a refused promotion changes nothing; a refused demotion keeps the promotion; success records both table states and returns "Ownership transferred successfully" |
| Requests.Request.Param | src/common/guards/org-member.guard.ts:8 | a missing path parameter reads as the empty (falsy) string |
| SessionMiddleware.Identity | src/auth/middleware/session.middleware.ts:31-50 | a user is set exactly when the provider returned one; then user and session are that reply's; otherwise both are `null` |
| SessionMiddleware.FailClosed | src/auth/middleware/session.middleware.ts:39-50 | a thrown provider call or a `null` reply leaves no identity |
| SessionMiddleware.Use | src/auth/middleware/session.middleware.ts:30-53 | `req.user`/`req.session` are set together from the reply, and then `next()` is called exactly once; cookies are not an input |
| OrgMemberGuard.SessionContext | src/common/guards/org-member.guard.ts:20-23 | fast-path context: role `session.role \|\| 'member'`, owner flag iff role is `owner`, admin flag iff role is `admin` or `owner` |
| OrgMemberGuard.RowContext | src/common/guards/org-member.guard.ts:43-46 | lookup-path context: the role is the row's role, and the flags agree with it |
| OrgMemberGuard.TryLookup | src/common/guards/org-member.guard.ts:28-48 | the `try` block succeeds exactly when the directory lists the user, with that row's role |
| OrgMemberGuard.Decide | src/common/guards/org-member.guard.ts:8-55 | missing user or organization → Forbidden "Authentication required"; on the session fast path, admission with the session's role; otherwise admission exactly when the directory lists the user, with the row's role, and every failure becomes Forbidden "Access denied"; on admission the organization is the path parameter and the flags agree with the role |
| OrgMemberGuard.OwnerIsAdmin | src/common/guards/org-member.guard.ts:22-23 | on admission the owner flag implies the admin flag |
| OrgMemberGuard.CachedRoleOnlyForActiveOrganization | src/common/guards/org-member.guard.ts:18-46 | for an organization other than the session's active one, the role always comes from the directory row |
| OrgMemberGuard.CanActivate | src/common/guards/org-member.guard.ts:6-56 | follows `Decide`; on admission writes the four context fields and returns true; on denial throws and writes none of them; consults the directory exactly off the fast path |
| OrgAdminGuard.TargetOrganization | src/common/guards/org-admin.guard.ts:8 | `params.id \|\| params.organizationId` |
| OrgAdminGuard.Rethrow | src/common/guards/org-admin.guard.ts:36-41 | a Forbidden error propagates unchanged; any other error becomes Forbidden "Access denied" |
| OrgAdminGuard.TryCheck | src/common/guards/org-admin.guard.ts:15-35 | the `try` block: succeeds (with `true`) exactly when the directory lists the user as admin or owner; a thrown lookup propagates; otherwise "You are not a member…" for a non-member and "You must be an admin or owner…" for a plain member |
| OrgAdminGuard.CanActivate | src/common/guards/org-admin.guard.ts:6-42 | missing user or organization → `false` without an exception; admission exactly when the directory lists the user as admin or owner; non-member → "You are not a member…"; plain member → "You must be an admin or owner…"; an error never admits |
| OrgAdminGuard.AdminImpliesMember | src/common/guards/org-admin.guard.ts:24-35 | whenever the admin guard admits, the member guard admits for the same user, organization and directory answer (with the admin flag set off the fast path) |
| ExceptionFilter.Catch | src/common/filters/http-exception.filter.ts:16-52 | a non-error → 500 and "Internal server error" and `errors: null`; HttpException → its status, a string response as the message, an object response's truthy `message`/`errors` or the defaults; a plain Error → 500 with its message; the path is the request URL |
| ExceptionFilter.CoreExceptionRendering | src/common/filters/http-exception.filter.ts:24-33 | a NotFound/Forbidden/BadRequest thrown by the core renders as its status (404/403/400) and its message, with `errors: null` |
| ExceptionFilter.MessagelessObjectKeepsStatus | src/common/filters/http-exception.filter.ts:28-30 | an object response without `message` keeps its status and shows the default message |
| ExceptionFilter.ThrownOf | src/common/filters/http-exception.filter.ts:24-33 | the core's NotFound/Forbidden/BadRequest reach the filter as framework HTTP exceptions carrying the status of `StatusOf` and an object response whose `message` is the exception's message and which has no `errors`; a library error reaches it as a plain `Error` with its message |
| Sequences.FilterAppend | src/config/auth.config.ts:148 | `filter` keeps the order: the filter of a concatenation is the concatenation of the filters |
| Sequences.FilterMembers | src/config/auth.config.ts:148 | an element survives `filter` exactly when it is in the input and satisfies the predicate |
| Slugs.Lower | src/organizations/organizations.service.ts:85 | `toLowerCase()` on ASCII: same length, each character lowered |
| Slugs.StripDisallowed | src/organizations/organizations.service.ts:86 | `/[^\w\s-]/g` removal: only word, space and hyphen characters remain, all taken from the input |
| Slugs.StripKeepsKept | src/organizations/organizations.service.ts:86 | every word, whitespace and hyphen character of the input survives the removal |
| Slugs.StripSingle | src/organizations/organizations.service.ts:86 | one character is kept exactly when it is a word character, whitespace or `-`, and dropped otherwise |
| Slugs.StripAppend | src/organizations/organizations.service.ts:86 | the removal of a concatenation is the concatenation of the removals, so the kept characters stay in order |
| Slugs.SkipRun | src/organizations/organizations.service.ts:87-88 | drops exactly the leading run of the class |
| Slugs.CollapseRuns | src/organizations/organizations.service.ts:87-88 | `/\s+/g` → `-` and `/-+/g` → `-`: never longer than the input; every character of the result is `-` or a character of the input outside the run class (`CollapseChars`); a run inside the string becomes one hyphen (`CollapseInterior`) |
| Slugs.SkipRunDrops | src/organizations/organizations.service.ts:87-88 | what a run skip drops is a prefix of class characters, and what it keeps is the rest of the string |
| Slugs.CollapseInterior | src/organizations/organizations.service.ts:87-88 | a maximal run between text that does not end in, and text that does not start with, a class character becomes exactly one `-`, and each side collapses on its own |
| Slugs.SpacedTwoWords | src/organizations/organizations.service.ts:87 | whitespace between two runs of word characters becomes one `-` |
| Slugs.HyphenatedFixed | src/organizations/organizations.service.ts:88-89 | hyphen squashing and trimming leave two runs of word characters joined by one `-` unchanged |
| Slugs.SlugOfTwoWords | src/organizations/organizations.service.ts:84-89 | two plain words separated by whitespace slug to their lower-cased word characters joined by one `-` ("Acme Corporation" → "acme-corporation") |
| Slugs.CollapseChars | src/organizations/organizations.service.ts:87-88 | after collapsing, every character is `-` or an input character not in the collapsed class |
| Slugs.Trim | src/organizations/organizations.service.ts:89 | `trim()`: the result neither starts nor ends with whitespace and is never longer than the input; it changes nothing in a string without whitespace (`TrimNoSpace`) |
| Slugs.TrimNoSpace | src/organizations/organizations.service.ts:89 | `trim()` leaves a string without whitespace unchanged |
| Slugs.GenerateSlug | src/organizations/organizations.service.ts:83-91 | the output is in slug form: only `[a-z0-9_-]`, never `--` |
| Slugs.CollapseNoDoubleHyphen | src/organizations/organizations.service.ts:88 | after `/-+/g` → `-` no two hyphens are adjacent |
| Slugs.SlugCharset | src/organizations/organizations.service.ts:84-89 | no whitespace, no upper case, only `[a-z0-9_-]`, no `--` |
| Slugs.SlugKeepsWords | src/organizations/organizations.service.ts:85-86 | the letters, digits and underscores of the name are kept, lower-cased and in order |
| Slugs.SlugIdempotent | src/organizations/organizations.service.ts:83-90 | `generateSlug(generateSlug(x)) == generateSlug(x)` |
| Slugs.SlugOfSlugForm | src/organizations/organizations.service.ts:83-90 | a string already in slug form is returned unchanged |
| Slugs.SlugLeadingSpace | src/organizations/organizations.service.ts:87-89 | a name starting with whitespace gives a slug starting with `-` (`trim` no longer sees the space) |
| Slugs.SlugTrailingSpace | src/organizations/organizations.service.ts:87-89 | a name ending with whitespace gives a slug ending with `-` |
| Slugs.WordsMembers | src/organizations/organizations.service.ts:86 | a character survives as a word character exactly when it is a word character of the input |
| Slugs.LowerUnderscore | src/organizations/organizations.service.ts:85 | lower-casing neither removes nor creates `_` |
| Slugs.SlugUnderscore | src/organizations/organizations.service.ts:84-89 | the slug has `_` exactly when the name has |
| Slugs.SlugOfPlainName | src/organizations/organizations.service.ts:84-89 | a name without whitespace and `-` slugs to exactly its lower-cased letters, digits and underscores, in order: every other character is dropped |
| Slugs.CreateBody | src/organizations/organizations.service.ts:10-24 | the supplied slug when truthy, else `generateSlug(name)` (in slug form); the description defaults to `''` |
| OrganizationDto.Violations | src/organizations/dto/create-organization.dto.ts:10-34 | the body is accepted exactly when the name is a string of at least 3 characters, the slug is absent or a non-empty `[a-z0-9-]` string, and the description is absent or a string; the absent optional fields raise nothing |
| OrganizationDto.SlugRejects | src/organizations/dto/create-organization.dto.ts:21-24 | a slug with an upper-case letter, a space or `_` fails `@Matches` |
| OrganizationDto.GeneratedSlugAgainstPattern | src/organizations/dto/create-organization.dto.ts:22 | a generated slug satisfies the DTO's pattern exactly when it is non-empty and the name had no `_` |
| Outlines.ReviewerCheck | src/outlines/outlines.service.ts:12-27 | no membership → BadRequest "Reviewer must be a member of this organization"; a plain member → BadRequest "Reviewer must be an owner or admin"; passes exactly for owner or admin |
| Outlines.NewOutline | src/outlines/outlines.service.ts:29-33 | the created row carries the body's fields, status `PENDING` by default, and the path organization whatever the body holds |
| Outlines.Patch | src/outlines/outlines.service.ts:107-109 | the given fields replace the row's; id, organization and creation time never change |
| Outlines.EmptyPatch | src/outlines/outlines.service.ts:107-109 | an empty update body leaves the row as it was |
| Outlines.Insert | src/outlines/outlines.service.ts:49 | insertion into a newest-first list adds exactly that row |
| Outlines.InsertNewestFirst | src/outlines/outlines.service.ts:49 | insertion keeps the list ordered by `createdAt`, newest first |
| Outlines.InsertDistinct | src/outlines/outlines.service.ts:47-49 | insertion of a new id keeps the ids distinct |
| Outlines.Collect | src/outlines/outlines.service.ts:46-60 | lists exactly the organization's rows with ids below the bound, newest first, each once |
| Outlines.OutlineStore.FindOne | src/outlines/outlines.service.ts:62-81 | found exactly when the id exists in this organization; otherwise NotFound "Outline not found" |
| Outlines.OutlineStore.FindAll | src/outlines/outlines.service.ts:46-60 | exactly the organization's rows, ordered by `createdAt` descending, each once |
| Outlines.OutlineStore.Create | src/outlines/outlines.service.ts:10-44 | a failed reviewer check is returned and nothing is created; otherwise one new row under a fresh id, for the path organization |
| Outlines.OutlineStore.Update | src/outlines/outlines.service.ts:83-120 | NotFound before any reviewer check; the reviewer is checked only when a non-empty one is given; then exactly that row is patched |
| Outlines.OutlineStore.Remove | src/outlines/outlines.service.ts:122-129 | NotFound leaves the table unchanged; otherwise exactly that row is deleted |
| Outlines.FindAllAgreesWithFindOne | src/outlines/outlines.service.ts:46-81 | a row is listed for an organization exactly when `findOne` finds it there |
| Outlines.RemoveIsScoped | src/outlines/outlines.service.ts:122-128 | removing a row of one organization leaves every row of another organization in place |
| AuthConfig.ReplaceAll | src/config/auth.config.ts:17 | `replace(new RegExp(placeholder, 'g'), value)` on a literal pattern: an occurrence at the start becomes the value; a value as long as the pattern keeps the length; with the lemmas below, the text is unchanged without an occurrence and every non-overlapping occurrence is replaced |
| AuthConfig.ReplaceAllAbsent | src/config/auth.config.ts:17 | a text without the placeholder comes back unchanged |
| AuthConfig.ReplaceAllSplit | src/config/auth.config.ts:17 | the first occurrence of a non-overlapping placeholder is replaced, and replacement continues after it |
| AuthConfig.ReplaceAllEveryOccurrence | src/config/auth.config.ts:17 | the `g` flag: every occurrence of the placeholder is replaced, not only the first |
| AuthConfig.ReplaceWhole | src/config/auth.config.ts:17 | a text that is the placeholder becomes the value |
| AuthConfig.Placeholder | src/config/auth.config.ts:17 | `{{KEY}}`: `{{`, then the key, then `}}` |
| AuthConfig.PlaceholderBorderFree | src/config/auth.config.ts:17 | the placeholders of brace-free keys never overlap themselves |
| AuthConfig.ApplyAllAppend | src/config/auth.config.ts:16-18 | the entry-order fold `ApplyAll`: the later replacements act on the result of the earlier ones |
| AuthConfig.GetTemplate | src/config/auth.config.ts:12-21 | the loop applies the replacements in entry order, each to the previous result |
| AuthConfig.TemplateWithoutPlaceholdersUnchanged | src/config/auth.config.ts:16-20 | a template with no placeholder of any key is returned unchanged |
| AuthConfig.LaterPlaceholderSubstituted | src/config/auth.config.ts:16-18 | when the value of an earlier key holds the placeholder of a later key, anywhere and any number of times, every one of those occurrences is filled in with the later value |
| AuthConfig.AppUrl | src/config/auth.config.ts:114 | `APP_URL`, or `http://localhost:3001` when it is empty |
| AuthConfig.InviteLink | src/config/auth.config.ts:114 | the link is the application URL (or its default), then exactly `/accept-invitation/`, then the invitation id |
| AuthConfig.InvitationIdOf | src/config/auth.config.ts:114 | a link read back as an invitation id was built from that id |
| AuthConfig.InviteLinkRoundTrip | src/config/auth.config.ts:114 | the invitation link determines the invitation id |
| AuthConfig.FilterTruthy | src/config/auth.config.ts:148 | `.filter(Boolean)` keeps exactly the non-empty strings, and a list without empty strings unchanged |
| AuthConfig.FilterTruthyAppend | src/config/auth.config.ts:148 | the filter of a concatenation is the concatenation of the filters: the kept entries stay in order |
| AuthConfig.FilterTruthySingle | src/config/auth.config.ts:148 | a single entry is kept exactly when it is non-empty |
| AuthConfig.TrustedOrigins | src/config/auth.config.ts:144-148 | the two fixed origins first, in order, then `APP_URL` only when it is non-empty |
| JsValues.Or | src/common/filters/http-exception.filter.ts:29-30 | `a \|\| b`: the left operand when truthy, else the right one |
| Directory.RoleName | src/memberships/memberships.service.ts:71 | the three role names `member`, `admin`, `owner`, one per role |

## Left out

- The identity library and Prisma are not modelled. Their answers are parameters: a `Lookup`, a `ProviderReply`, a write-accepted flag. So are their internal permission checks, for example the organization limit in `src/config/auth.config.ts`.
- User details that Outline queries join in through `include: { reviewer }`: the join is a database read with no logic of its own.
- The membership table class resolves members against its own rows, so its reads never fail. `getMemberId`'s handling of `null` and of a thrown lookup is stated on `Memberships.MemberId`, never on the class.
- `removeMember` and all three `updateMemberRole` calls (in `transferOwnership` and `updateRole`) send only the member id, and the role for the role writes. The library then decides which organization the write applies to. The model applies each write to the resolved row.
- `OrgOwnerGuard` and `AuthGuard` are not part of this model. At most they establish that the caller is an owner. `Memberships.TransferFromSoleOwner` instead assumes that the caller is the sole owner, which is a stronger premise than the guard gives.
- Memberships.MembershipTable.UpdateRole: the role is one of the three roles. The source casts any string to a role and leaves the rest to the library.
- The sequence is strictly ordered: no concurrency, no interleaved requests, no racing transfers.
- File reading in `getTemplate`, e-mail sending, console logging and the filter's `Logger` are out. So are the response write of the filter and the `timestamp` field of its body.
- AuthConfig.GetTemplate: the replacements are supplied as a sequence in `Object.entries` order, meaning integer-like keys first in ascending order, then the other keys in insertion order. Deriving that order from an object is not modelled.
- AuthConfig.ReplaceAll: the `$` patterns of `String.replace` are not modelled. Neither are regex metacharacters in keys: keys are plain text.
- Slugs.GenerateSlug: ASCII only. Unicode `toLowerCase`, Unicode `\s` and the Unicode whitespace of `trim()` are not modelled.
- Strings count Dafny characters. class-validator's `@MinLength(3)` counts with validator.js `isLength`, which counts a surrogate pair as one character and ignores the variation selectors U+FE0E and U+FE0F. That counting is not modelled.
- OrganizationDto.Violations: `enableImplicitConversion` (src/main.ts) is not modelled. Values are validated as the body gives them, and only the declared properties remain (whitelisting).
- Outlines: ids are natural numbers from a counter, since the database generates real ids. `createdAt` is an integer supplied by the caller. Rows with equal `createdAt` may appear in any order. The enum validation of `sectionType`/`status` is not modelled: the enum files are not part of this model.
- Outlines.OutlineStore.Update: an empty `reviewerId` is falsy, so it is written without a check. The foreign-key failure that follows in the database is not modelled.
- Bootstrap, modules, controllers, `src/auth/auth.controller.ts`, the e-mail utilities and `scripts/postinstall.cjs` are wiring or I/O and are not modelled.
