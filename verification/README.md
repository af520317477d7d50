# Klynt: a Dafny model of its state machines

This project models the parts of the Klynt platform that keep state or compute something
subtle, and proves what they promise. It covers:

- the frontend's **desktop window manager**, with layout saving and loading;
- the backend's **fixed-window rate limiter** and its **client address resolution**;
- **sessions**: the in-memory store, the service and the membership coordinator;
- **host and subdomain routing**, together with the backend's tenant slugs;
- the in-memory **user and role repositories**, **pagination**, the **cleanup job**, the
  **pricing calculator**, **one-time tokens** and **etag-guarded layouts**.

`dafny verify dfyconfig.toml` checks everything.

## How the models are built

Where the source changes an object step by step, the model has a class whose methods do the
same steps on the same fields, and a function from the old state to the new one that each method
is proved equal to. The theorems are about those functions and about whole runs of them. Where
the source is an expression the model is a function. Random ids, tokens and etags, clock
readings, viewport sizes, map iteration orders and the parser of one IP address are arguments.

| module | what it holds |
|---|---|
| `WindowState`, `WindowInvariants` | the window store, its actions and what every reachable store satisfies |
| `RecencyStack`, `StackRefinement` | the zIndex machine refines a stack that knows no zIndex and no compaction |
| `WindowRows`, `MaximizeRestore`, `DesktopLayout` | each action on the lists of windows; geometry regained on restore; saving and replaying a layout |
| `WindowManagerStore` | the store in place: sorting, renumbering, every action, loading a layout |
| `RateLimiter`, `ClientIp` | counters over traces; CIDR arithmetic and the header scan |
| `SessionModel`, `SessionHistory`, `SessionStore` | calls on sessions; history without a store; the classes |
| `HostRouting`, `UrlRoundTrip`, `TenantSlug` | classifier, builder, browsing sessions, slugs and paths |
| `UserRepository`, `RoleRepository`, `Pagination`, `CleanupJob`, `Pricing`, `TokenStore`, `TenantLayouts` | one component each |
| `Wrappers`, `Numbers`, `Sequences` | optional values and results; minima and maxima; a fact about lists |

## What the proofs found

Each of these is a theorem below, with the exact condition under which the code does what one
would expect.

- Focusing an id that is not on the desktop leaves the active id pointing nowhere; nothing else
  can separate the active window from the topmost one (`ActiveExact`).
- Closing an id on the wrong desktop, or reopening a maximized window's app and maximizing it
  again, loses the geometry that restoring should bring back (`RemembersExact`, `ReopenLoses`).
- A saved layout survives loading exactly when it names no app twice; otherwise the first entry
  of each app is left (`LoadThenSave`, `LoadExact`).
- A window of time can see 2 * limit - 1 requests admitted, not `limit`; only limits of one or
  less are kept in every window (`WindowBound`, `LimitExact`, `ConfiguredLimitExact`).
- A caller denied in the last half second of a window is told to wait the whole window, and one
  whose remaining time is rounded down to at least a second comes back too early (`RetryAfterExact`).
- The URL builder loses the base domain on the apex host, and there alone, if that domain itself
  begins like a platform subdomain; without a configured domain it also doubles prefixes on tenant
  hosts and on profile hosts whose name has a dot (`BaseHostRecovered`, `MissingDomainExact`).
- `update` may take over an email another user owns, and the role repository's two maps part
  ways when the tenant passed is not the role's own (`UpdateExact`, `DeleteExact`, `RunExact`).
- The price jumps at the free threshold unless the tiers below it are free, as they are for every
  product on the page (`GrowthExact`).
- The layout service trusts its caller to address the layout: filed elsewhere, an update does not
  spend the etag it presented (`EtagSpentExact`).

In two places the code and its documentation differ, and the model follows the code. The comment
on `client_ip` says a malformed header falls back to the peer; the code skips a malformed entry
and goes on to the left. The session port speaks of updating *active* sessions; the in-memory
store updates expired ones too.

## Model

| member | source | states |
|---|---|---|
| WindowInvariants.StepKeepsInv | frontend/src/features/desktop/window-manager/window-module.ts:112-249 | Every action keeps, with only the assumption that a generated id is not in use: ids and zIndexes unique across all desktops, zIndexes between 100 and the next one, one window per app and desktop, saved geometries only for open windows, and `nextZIndex` at most the larger of 10000 and 101 + the number of windows |
| WindowInvariants.ReachableInv | frontend/src/features/desktop/window-manager/window-module.ts:99-249 | The whole invariant holds after any run of actions from the initial store |
| WindowInvariants.CompactKeepsCore | frontend/src/features/desktop/window-manager/window-module.ts:52-59 | Compaction keeps uniqueness and the number of windows and resets `nextZIndex` to 101 + that number |
| WindowInvariants.RenumberKeepsOrder | frontend/src/features/desktop/window-manager/window-module.ts:52-59 | Compaction keeps the strict order of every pair of windows, in both directions |
| WindowInvariants.RemoveEffect | frontend/src/features/desktop/window-manager/window-module.ts:149-152 | Closing removes exactly the named window of the named desktop, whatever else is open |
| WindowRows.OpenedWindow | frontend/src/features/desktop/window-manager/window-module.ts:75-145 | Opening an app that is not on the desktop appends one window with the given id and app; given fields are taken as they are, the size defaults to 680 by 520, and a missing position centres it in the viewport if that leaves at least 16 on the left and 72 at the top, and is 16 or 72 if it does not |
| WindowRows.ClosedRow | frontend/src/features/desktop/window-manager/window-module.ts:147-163 | Closing cuts the window out of its desktop's list, keeps the others in order, and leaves every other list alone |
| WindowRows.OtherRows | frontend/src/features/desktop/window-manager/window-module.ts:112-237 | Every other action keeps all windows in their places; only the window it names changes, and how |
| WindowRows.NextIndexExact | frontend/src/features/desktop/window-manager/window-module.ts:61-174 | An action hands out one zIndex or none, and renumbers exactly when an open, a close or a successful focus would leave the next one above 10000 |
| WindowRows.ViewExact | frontend/src/features/desktop/window-manager/window-module.ts:239-249 | The shown desktop and the view mode change only by their own actions and a reset |
| RecencyStack.SortUnique | frontend/src/features/desktop/window-manager/window-module.ts:53-54 | There is only one way to list the open windows by ascending zIndex |
| RecencyStack.RaiseMovesToTop | frontend/src/features/desktop/window-manager/window-module.ts:169-170 | Taking the next zIndex moves a window's key to the top of the sorted list and leaves the rest in order |
| RecencyStack.CompactInvisible | frontend/src/features/desktop/window-manager/window-module.ts:52-65 | Compaction leaves the stack as it was, gives the k-th window from the bottom exactly 100 + k, and changes nothing but zIndexes and `nextZIndex` |
| StackRefinement.OpenRefines | frontend/src/features/desktop/window-manager/window-module.ts:112-145 | Opening lifts the app's window to the top of the stack or pushes a new one, and makes it active |
| StackRefinement.CloseRefines | frontend/src/features/desktop/window-manager/window-module.ts:147-163 | Closing drops the window from the stack and, if it was active, lifts the desktop's next window and makes it active |
| StackRefinement.FocusRefines | frontend/src/features/desktop/window-manager/window-module.ts:165-174 | Focusing lifts the window if it is there and sets the active id in any case |
| StackRefinement.QuietRefines | frontend/src/features/desktop/window-manager/window-module.ts:176-237 | Moving, minimizing, maximizing and restoring leave stack and active ids alone |
| StackRefinement.StepRefines | frontend/src/features/desktop/window-manager/window-module.ts:112-249 | One action on the store is one step of the abstract recency stack, compaction included |
| StackRefinement.RunRefines | frontend/src/features/desktop/window-manager/window-module.ts:99-249 | After any run, sorting all windows by zIndex gives the stack the abstract machine reaches |
| StackRefinement.ActiveExact | frontend/src/features/desktop/window-manager/window-module.ts:165-174 | From a good store, every active id stays on its desktop's topmost window if and only if the action does not focus an id that is not there |
| StackRefinement.RunActive | frontend/src/features/desktop/window-manager/window-module.ts:112-249 | After any run of well-targeted actions each active id is the topmost window's, and null or absent without windows |
| MaximizeRestore.StepEffect | frontend/src/features/desktop/window-manager/window-module.ts:112-249 | What any action makes of any open window, zIndex aside: only the window it names changes, and how |
| MaximizeRestore.RemembersExact | frontend/src/features/desktop/window-manager/window-module.ts:147-237 | A remembered geometry survives an action if and only if it is not a reset, a close of that id on any desktop, its restore, or a maximize that overwrites it with another geometry |
| MaximizeRestore.RemembersThroughout | frontend/src/features/desktop/window-manager/window-module.ts:147-237 | Over any run it stays remembered if and only if no step is one of those in the store where it is taken |
| MaximizeRestore.MaximizedFills | frontend/src/features/desktop/window-manager/window-module.ts:213-217 | A maximized window covers the viewport below the menu bar |
| MaximizeRestore.RestoreRegains | frontend/src/features/desktop/window-manager/window-module.ts:197-237 | Maximize, any run without such a step, whatever else happens to this window or to others, then restore: exactly the first geometry |
| MaximizeRestore.QuietIsUndisturbed | frontend/src/features/desktop/window-manager/window-module.ts:176-218 | A run in which the maximized window is only focused, moved or maximized again has no such step |
| MaximizeRestore.ReopenLoses | frontend/src/features/desktop/window-manager/window-module.ts:117-124 | Reopening a maximized window's app and maximizing again makes the first geometry unrecoverable |
| DesktopLayout.SaveExact | frontend/src/features/desktop/components/DesktopEnvironment.tsx:70-83 | A saved layout is exactly the apps, geometries and states of the windows, in order |
| DesktopLayout.OpenEntry | frontend/src/features/desktop/components/DesktopEnvironment.tsx:55-63 | Replaying one entry appends exactly that entry if its app is not there; if it is, its window becomes normal and keeps its geometry and place; other desktops' layouts stay |
| DesktopLayout.LoadExact | frontend/src/features/desktop/components/DesktopEnvironment.tsx:53-63 | Loading any layout into any desktop leaves, of the windows there and the entries together, the first of each app in order, normal if the app is named again |
| DesktopLayout.LoadThenSave | frontend/src/features/desktop/components/DesktopEnvironment.tsx:53-98 | Loading any layout into an empty desktop and saving gives it back if and only if it names no app twice; other desktops are unaffected |
| DesktopLayout.SaveLoadRoundTrip | frontend/src/features/desktop/components/DesktopEnvironment.tsx:53-98 | The layout of any reachable desktop is restored exactly, apps, geometries and states in order |
| WindowManagerStore.SortByZ | frontend/src/features/desktop/window-manager/window-module.ts:54 | Sorting yields exactly the given windows by strictly ascending zIndex |
| WindowManagerStore.WindowManager.Flatten | frontend/src/features/desktop/window-manager/window-module.ts:53 | The flattened list holds every window of every desktop once |
| WindowManagerStore.WindowManager.CompactZIndexes | frontend/src/features/desktop/window-manager/window-module.ts:52-59 | The renumbering loop gives each window 100 plus the number of windows below it |
| WindowManagerStore.WindowManager.MaybeCompactZIndexes | frontend/src/features/desktop/window-manager/window-module.ts:61-65 | Compaction happens exactly above the threshold and restores the bound |
| WindowManagerStore.WindowManager.OpenApp | frontend/src/features/desktop/window-manager/window-module.ts:112-145 | The statements of `openApp` perform its step and keep the invariant |
| WindowManagerStore.WindowManager.CloseWindow | frontend/src/features/desktop/window-manager/window-module.ts:147-163 | The statements of `closeWindow` perform its step and keep the invariant, for any id |
| WindowManagerStore.WindowManager.FocusWindow | frontend/src/features/desktop/window-manager/window-module.ts:165-174 | The statements of `focusWindow` perform its step and keep the invariant, for any id |
| WindowManagerStore.WindowManager.MoveWindow | frontend/src/features/desktop/window-manager/window-module.ts:176-187 | A missing or maximized window is not moved; otherwise only its geometry changes |
| WindowManagerStore.WindowManager.MinimizeWindow | frontend/src/features/desktop/window-manager/window-module.ts:189-195 | Only the window's state changes |
| WindowManagerStore.WindowManager.MaximizeWindow | frontend/src/features/desktop/window-manager/window-module.ts:197-218 | The geometry is saved unless the window was maximized already, then filled to the viewport below the menu bar |
| WindowManagerStore.WindowManager.RestoreWindow | frontend/src/features/desktop/window-manager/window-module.ts:220-237 | The saved geometry, if any, comes back and is forgotten |
| WindowManagerStore.WindowManager.ResetStore | frontend/src/features/desktop/window-manager/window-module.ts:249 | The store is the initial one again |
| WindowManagerStore.WindowManager.LoadLayout | frontend/src/features/desktop/components/DesktopEnvironment.tsx:53-63 | The load loop replays every entry in order |
| RateLimiter.KeyInjective | backend/crates/infra/persistence/src/rate_limiter.rs:59-61 | The key is the literal text of the format with the action's name, and two scopes share one only if address and action are equal, although IPv6 text has colons |
| RateLimiter.LifeAdmits | backend/crates/infra/persistence/src/rate_limiter.rs:36-49 | A counter lives exactly one window, counts every request of its life and no other, and admits exactly min(count, limit) of them |
| RateLimiter.CheckExact | backend/crates/infra/persistence/src/rate_limiter.rs:66-91 | A check is allowed if and only if the running window has seen fewer requests than the configured maximum, or, when none is running, the maximum is at least 1 |
| RateLimiter.LivesApart | backend/crates/infra/persistence/src/rate_limiter.rs:40-43 | Consecutive lives of a key start at least one window apart |
| RateLimiter.WindowBound | backend/crates/infra/persistence/src/rate_limiter.rs:35-49 | In every trace any window of time admits at most 2 * limit - 1 requests for a key, and at most the limit if it lasts one unit of the clock |
| RateLimiter.BoundAttained | backend/crates/infra/persistence/src/rate_limiter.rs:35-49 | For every limit and every window of at least two units a trace attains the larger bound |
| RateLimiter.LimitExact | backend/crates/infra/persistence/src/rate_limiter.rs:35-49 | In every trace every window of time admits at most the limit if and only if the limit is at most 1 or the window at most one unit |
| RateLimiter.ConfiguredLimitExact | backend/crates/infra/persistence/src/rate_limiter.rs:70-78 | With the configured window of whole seconds, if and only if the limit is at most 1 |
| RateLimiter.KeysIndependent | backend/crates/infra/persistence/src/rate_limiter.rs:37-49 | What happens to a key depends on that key's own requests alone |
| RateLimiter.DeniedUntilExpiry | backend/crates/infra/persistence/src/rate_limiter.rs:37-49 | Whatever is called meanwhile, a denied key is refused until its counter expires and admitted from then on |
| RateLimiter.RetryAfterExact | backend/crates/infra/persistence/src/rate_limiter.rs:80-89 | The wait a denied caller is told is within half a second of the time left, or the whole window when less than half a second is left; waiting exactly that long suffices if and only if the time left is a whole number of seconds, in the upper half of its second, or below half a second |
| RateLimiter.Limiter.Script | backend/crates/infra/persistence/src/rate_limiter.rs:37-48 | INCR, EXPIRE and TTL as one step on the stored counter |
| RateLimiter.Limiter.Check | backend/crates/infra/persistence/src/rate_limiter.rs:66-101 | Decision and stored counter of a check; when disabled everything is allowed and nothing is stored |
| ClientIp.ContainsExact | backend/crates/gateways/src/middleware/rate_limit.rs:106-114 | A net contains exactly the addresses of its own family whose leading bits, as many as the prefix says, are its own |
| ClientIp.MatchesExact | backend/crates/gateways/src/middleware/rate_limit.rs:106-128 | What every net matches in numbers, across the two families |
| ClientIp.NormalizeExact | backend/crates/gateways/src/middleware/rate_limit.rs:93-100 | Exactly the addresses from ::ffff:0.0.0.0 to ::ffff:255.255.255.255 are read as IPv4 |
| ClientIp.MappedContains | backend/crates/gateways/src/middleware/rate_limit.rs:108-120 | a.b.c.d/p holds v if and only if ::ffff:a.b.c.d/(96+p) holds the mapped v |
| ClientIp.MatchMappedAddress | backend/crates/gateways/src/middleware/rate_limit.rs:95-128 | An IPv4 address and its mapped IPv6 form match exactly the same nets |
| ClientIp.MatchMappedNet | backend/crates/gateways/src/middleware/rate_limit.rs:106-128 | Every address matches an IPv4 net exactly when it matches the net's mapped form |
| ClientIp.NetFormIrrelevant | backend/crates/gateways/src/middleware/rate_limit.rs:66-128 | The attributed address is the same whether trusted nets are written as IPv4 or as mapped IPv6 |
| ClientIp.PeerFormIrrelevant | backend/crates/gateways/src/middleware/rate_limit.rs:66-100 | And whichever form of the peer's address the socket reports |
| ClientIp.ResultNormalized | backend/crates/gateways/src/middleware/rate_limit.rs:66-100 | The attributed address is never an IPv4-mapped one and is the peer's own or an untrusted one vouched for by a trusted peer |
| ClientIp.RightmostExact | backend/crates/gateways/src/middleware/rate_limit.rs:79-86 | The scan finds the entry of largest index that parses and is untrusted, and none exactly when there is none |
| ClientIp.AttributionExact | backend/crates/gateways/src/middleware/rate_limit.rs:66-91 | If some net matches the peer and some trimmed entry parses to an address that no net matches, the rightmost such address, normalized, is the attributed one; in every other case it is the peer's own |
| ClientIp.PrependIgnored | backend/crates/gateways/src/middleware/rate_limit.rs:61-62 | Text prepended to a header holding an untrusted address never changes the attribution |
| ClientIp.SplitExact | backend/crates/gateways/src/middleware/rate_limit.rs:79 | Splitting at commas loses nothing and leaves no comma |
| ClientIp.TrimExact | backend/crates/gateways/src/middleware/rate_limit.rs:79 | Trimming removes exactly the blanks around an entry |
| ClientIp.ResolveClientIp | backend/crates/gateways/src/middleware/rate_limit.rs:66-91 | The right-to-left loop with its early returns computes that attribution |
| ClientIp.AnyMatches | backend/crates/gateways/src/middleware/rate_limit.rs:102-104 | The loop over the nets finds a matching one exactly when there is one |
| SessionHistory.StoreIsHistory | backend/crates/base/src/testkit/session.rs:49-148 | A session is stored exactly while no later call has revoked it, with the user, kind, pair, expiry and public id it was issued with |
| SessionHistory.PairRevoked | backend/crates/services/session_service/src/lib.rs:159-176 | `invalidate_pair` removes a session exactly when history says its token was valid and is this session or paired with it |
| SessionHistory.AccessExact | backend/crates/services/session_service/src/lib.rs:96-144 | A token authorizes a request if and only if an access session was issued under it less than the access duration ago, or a long-lived one less than the long duration ago, and no call since has revoked it; the session returned is that one, and every other answer is an invalid token |
| SessionHistory.ValidExact | backend/crates/services/session_service/src/lib.rs:118-127 | The same for validation, which also finds refresh sessions within their duration |
| SessionHistory.NeverAgain | backend/crates/services/session_service/src/lib.rs:118-176 | Once an issued token has stopped validating it never validates again |
| SessionHistory.EventOnList | backend/crates/base/src/testkit/session.rs:154-201 | A membership change on the list is the put, put-if-present or delete on the map it stands for, and keeps one entry per tenant |
| SessionHistory.EventInPlace | backend/crates/base/src/testkit/session.rs:154-201 | A role changes in place, a new membership goes to the end, a removed one is cut out, and the rest of the list stays as it was |
| SessionHistory.MembershipsAreReplay | backend/crates/services/session_coordinator/src/coordinator.rs:37-75 | Every stored session's memberships are the replay of its user's events since it was issued |
| SessionHistory.InvalidatePairExact | backend/crates/services/session_service/src/lib.rs:159-176 | The token and its whole pair go, everything else stays as it was, and an invalid token removes nothing |
| SessionHistory.ReachableUniqueIds | backend/crates/base/src/testkit/session.rs:57-70 | Fresh public ids stay unique in every reachable store |
| SessionStore.Store.CreateWithKind | backend/crates/base/src/testkit/session.rs:49-71 | A new session starts without memberships |
| SessionStore.Store.RevokePair | backend/crates/base/src/testkit/session.rs:97-108 | The retain loop drops the pair but for the exempted token |
| SessionStore.Store.RevokeById | backend/crates/base/src/testkit/session.rs:130-148 | The owner's unexpired session with that public id goes; otherwise the call is forbidden and nothing changes |
| SessionStore.Store.MutateMemberships | backend/crates/base/src/testkit/session.rs:34-44 | The loop over all sessions changes exactly the user's |
| SessionStore.Service.IssueSession | backend/crates/services/session_service/src/lib.rs:96-115 | The expiry is now plus the kind's configured duration |
| SessionStore.Service.Validate | backend/crates/services/session_service/src/lib.rs:118-127 | Exactly stored, unexpired tokens validate |
| SessionStore.Service.CheckAccess | backend/crates/services/session_service/src/lib.rs:133-144 | Validation and the test of the kind, whose answer `AccessExact` describes |
| SessionStore.Service.InvalidateWithPair | backend/crates/services/session_service/src/lib.rs:159-176 | The ordered store calls perform the pair invalidation, and an invalid token is an error |
| SessionStore.Service.HandleMembershipEvent | backend/crates/services/session_coordinator/src/coordinator.rs:37-75 | An event reaches the store only when synchronization is enabled |
| HostRouting.Classified | frontend/src/core/routing/host-context.ts:30-80 | Apex, www, login, admin, tenant and profile hostnames are classified as meant, if and only if the host is not the apex of a domain that itself begins like a login, admin or profile host |
| HostRouting.PrefixedContext | frontend/src/core/routing/host-context.ts:44-62 | What any host under the domain with something other than www in front is: login, admin, profile, tenant, one of seven reserved words or unknown, each with its exact condition |
| HostRouting.PlainContext | frontend/src/core/routing/host-context.ts:64-79 | Every other host is login, admin, profile or apex by how it begins |
| HostRouting.CaseIgnored | frontend/src/core/routing/host-context.ts:34-35 | Hostnames and base domains that differ only in the case of ASCII letters get the same context |
| HostRouting.BaseHostRecovered | frontend/src/core/routing/subdomain-router.ts:34-54 | On each of those hosts the base host is the base domain with the current port, if and only if the host is not the apex of a domain that begins like a platform subdomain |
| HostRouting.AnyHostRecovered | frontend/src/core/routing/subdomain-router.ts:34-54 | On every other host under the domain too, but on a reserved or unknown one it is the domain alone if that has a port of its own |
| UrlRoundTrip.BuiltUrl | frontend/src/core/routing/subdomain-router.ts:56-86 | The URL built on any site for any site names exactly the target's hostname, the port and a rooted path, if and only if the base domain is recovered there |
| UrlRoundTrip.FollowReads | frontend/src/core/routing/subdomain-router.ts:56-60 | Protocol, hostname, port and path can be read back from a built URL |
| UrlRoundTrip.NavigationRoundTrip | frontend/src/core/routing/subdomain-router.ts:34-86 | Following it reaches the hostname meant, on the same port, and the classifier gives back the context meant, if and only if the target is not a misread apex |
| UrlRoundTrip.BrowsingNeverDrifts | frontend/src/core/routing/subdomain-router.ts:34-86 | Over any number of navigations among sites that recover the domain no prefix is doubled or lost |
| UrlRoundTrip.MissingDomainExact | frontend/src/core/routing/host-context.ts:64-79 | Without a configured domain it is recovered on a site if and only if that is no tenant's, no profile whose name has a dot and no apex of a domain that begins like a platform subdomain |
| UrlRoundTrip.MisconfiguredIsMissing | frontend/src/core/routing/host-context.ts:64-79 | A configured domain that the host is not under acts as a missing one |
| TenantSlug.ParseExact | backend/crates/shared/domain/src/tenant.rs:64-85 | What parsing makes of every text, by its lower case: the slug, or the error of the first of four tests it fails |
| TenantSlug.AcceptsExact | backend/crates/shared/domain/src/tenant.rs:64-85 | It accepts exactly the texts whose lower case is a well-formed slug outside the ten reserved words, the Kelvin sign for a k included, and returns that |
| TenantSlug.ParseFixed | backend/crates/shared/domain/src/tenant.rs:64-85 | An accepted slug is a fixed point of the parser |
| TenantSlug.SlugIsTenant | backend/crates/shared/domain/src/tenant.rs:57-85 | A text is a stored slug if and only if it is well formed and the frontend classifies its host as that tenant, so the two reserved lists agree |
| TenantSlug.SlugRecovered | backend/crates/gateways/src/middleware/tenant_context.rs:105-116 | An accepted slug is recovered from the full and the nested path, whatever follows |
| TenantSlug.SegmentRecovered | backend/crates/gateways/src/middleware/tenant_context.rs:105-116 | From the full path any first segment is, and nothing from an empty one |
| TenantSlug.OtherApiPaths | backend/crates/gateways/src/middleware/tenant_context.rs:105-116 | Every other path under /api/ yields the reserved word, which the parser rejects |
| UserRepository.FindIsScan | backend/crates/base/src/testkit/repository.rs:48-60 | With an exact index the lookup by email finds exactly the live user a scan would |
| UserRepository.LookupExact | backend/crates/base/src/testkit/repository.rs:37-182 | What a lookup by any email finds after every call: the user as created, inserted, updated or changed, nobody after a delete, and for other emails what it found before |
| UserRepository.RefusedExact | backend/crates/base/src/testkit/repository.rs:70-182 | Calls on missing or deleted users and creates with a taken email or username change nothing |
| UserRepository.InsertExact | backend/crates/base/src/testkit/repository.rs:37-43 | Inserting keeps the index the inverse of the users if and only if nobody else owns the email and a taken id keeps its email |
| UserRepository.UpdateExact | backend/crates/base/src/testkit/repository.rs:150-167 | Updating keeps it if and only if nobody else owns the new email |
| UserRepository.CreateExact | backend/crates/base/src/testkit/repository.rs:70-117 | Creating keeps it if and only if the call reports a conflict or the id is new |
| UserRepository.RunExact | backend/crates/base/src/testkit/repository.rs:36-182 | The index is exact after every call of a run if and only if no call takes over another user's id or email |
| UserRepository.RunKeepsUsernames | backend/crates/base/src/testkit/repository.rs:87-91 | Usernames stay unique over every run of creates, activations, password changes and deletes |
| UserRepository.DeletedStaysGone | backend/crates/base/src/testkit/repository.rs:169-182 | A deleted user is never found again under any email unless a new record is written under the same id |
| UserRepository.PagesListEachOnce | backend/crates/base/src/testkit/repository.rs:184-203 | All pages of an unchanged repository together list every live user exactly once, in any iteration order |
| UserRepository.FakeUserRepository.InsertUser | backend/crates/base/src/testkit/repository.rs:37-43 | Both maps are written |
| UserRepository.FakeUserRepository.LookUpEmail | backend/crates/base/src/testkit/repository.rs:48-60 | The lookup through the index, deleted users filtered out |
| UserRepository.FakeUserRepository.CreatePendingUser | backend/crates/base/src/testkit/repository.rs:70-117 | A taken email or username is a conflict that changes nothing |
| UserRepository.FakeUserRepository.UpdateUser | backend/crates/base/src/testkit/repository.rs:150-167 | The old email leaves the index when the email changes; an unknown id changes nothing |
| UserRepository.FakeUserRepository.DeleteUser | backend/crates/base/src/testkit/repository.rs:169-182 | Deleting marks a live user once and is not found afterwards |
| RoleRepository.InsertExact | backend/crates/base/src/testkit/authorization.rs:263-274 | The two maps keep holding the same roles if and only if neither the id nor the (tenant, name) belongs to another role |
| RoleRepository.UpdateExact | backend/crates/base/src/testkit/authorization.rs:276-296 | They do after an update if and only if the tenant is the role's own or no permission actually changes |
| RoleRepository.DeleteExact | backend/crates/base/src/testkit/authorization.rs:298-309 | They do after a delete if and only if the tenant is the role's own |
| RoleRepository.LookupExact | backend/crates/base/src/testkit/authorization.rs:263-309 | What both maps hold after a call that respects the roles there: the created role, the new permissions, nothing after a delete, and every other role as it was |
| RoleRepository.RunExact | backend/crates/base/src/testkit/authorization.rs:207-309 | The maps agree after every call of a run if and only if each call takes over no other role's id or name and names the role's own tenant, or changes nothing |
| RoleRepository.FakeRoleRepository.UpdateRolePermissions | backend/crates/base/src/testkit/authorization.rs:276-296 | The statements on both maps perform that update |
| RoleRepository.FakeRoleRepository.DeleteRole | backend/crates/base/src/testkit/authorization.rs:298-309 | The statements on both maps perform that delete |
| Pagination.LeastPages | backend/crates/shared/domain/src/user.rs:293-302 | For totals that fit in 32 bits the number of pages is the least one, at least 1, that holds the listing |
| Pagination.PagesSaturate | backend/crates/shared/domain/src/user.rs:293-302 | Larger totals saturate at 2^32 - 1 pages, and so does a page size of zero unless there is nothing to list |
| Pagination.OffsetFits | backend/crates/shared/domain/src/user.rs:276-278 | The offset of every page up to the last fits in 32 bits and lies inside the listing |
| Pagination.RequestExact | backend/crates/shared/domain/src/user.rs:265-278 | What any request lists: page 0 is page 1, sizes are clamped to 1 to 100, a page beyond the end is empty, and an offset beyond 32 bits has no answer |
| Pagination.PagesCover | backend/crates/base/src/testkit/repository.rs:197-202 | Requesting the pages 1 to the last never overflows and, concatenated, gives exactly the listing |
| CleanupJob.RemainingExact | backend/crates/services/cleanup_job/src/lib.rs:44-52 | A row survives a batch if and only if it expires at the cutoff or later, or at least a batch of rows with lower ids that expired before the cutoff precedes it |
| CleanupJob.BatchesCompose | backend/crates/services/cleanup_job/src/lib.rs:133-139 | Two batches delete what one batch of their sizes together would |
| CleanupJob.Table.PurgeBatched | backend/crates/services/cleanup_job/src/lib.rs:119-148 | The loop deletes exactly min(E, 1000 * B) of E expired rows, lowest ids first, returns that number, keeps every other row, and leaves an expired one only when E exceeds 1000 * B |
| Pricing.CalculateCost | frontend/src/features/marketing/lib/pricing-helpers.ts:3-20 | The loop computes the cost, malformed tiers included |
| Pricing.CostExact | frontend/src/features/marketing/lib/pricing-helpers.ts:3-20 | For any tiers, malformed ones included, the cost is nothing up to the free threshold and above it the graduated sum over the tiers that count |
| Pricing.CostIsGraduated | frontend/src/features/marketing/lib/pricing-helpers.ts:3-20 | On ascending tiers the cost above the free threshold is the sum of each price times the usage falling in its tier |
| Pricing.GraduatedGrows | frontend/src/features/marketing/lib/pricing-helpers.ts:9-17 | Between two usages that sum grows by at least nothing and at most the largest price times the difference |
| Pricing.CostMonotone | frontend/src/features/marketing/lib/pricing-helpers.ts:3-20 | Using more never costs less |
| Pricing.GrowthExact | frontend/src/features/marketing/lib/pricing-helpers.ts:4-13 | The cost never grows faster than the largest price if and only if the tiers up to the free threshold cost nothing |
| TokenStore.ConsumeExact | backend/crates/base/src/testkit/token.rs:46-63 | A consume succeeds with a user if and only if the key's latest save was for that user, has not expired and has not been consumed since |
| TokenStore.RecordExact | backend/crates/base/src/testkit/token.rs:31-63 | A saved token stays on record with its user and expiry, marked used exactly if it has been redeemed since its latest save |
| TokenStore.NoDoubleSpending | backend/crates/base/src/testkit/token.rs:31-63 | Over any run successful consumes of a key never outnumber its saves |
| TokenStore.FakeTokenStore.ConsumeToken | backend/crates/base/src/testkit/token.rs:46-63 | A used or expired token is invalid; otherwise it is marked used |
| TenantLayouts.OneSuccessPerEtag | backend/crates/services/tenant_service/src/desktop_layout.rs:36-58 | With the gateway's addressing and fresh etags, at most one update of a tenant's shared layout succeeds per presented etag |
| TenantLayouts.FiledExact | backend/crates/services/tenant_service/src/desktop_layout.rs:36-85 | What is filed under every key after a shared update, accepted or not, and after an override |
| TenantLayouts.EtagSpentExact | backend/crates/services/tenant_service/src/desktop_layout.rs:36-58 | An update spends its etag if and only if it files the layout, under a new etag, as the tenant's shared one |
| TenantLayouts.LayoutService.UpdateSharedLayout | backend/crates/services/tenant_service/src/desktop_layout.rs:36-58 | A mismatch is a conflict that changes nothing; a missing layout accepts any etag |

## Left out

- Real user interface: components, stories, pages, forms, translations, toasts, media queries and animation.
- The middleware around the store that the window manager is created with, and the freezing of its state.
- Geometry is over real numbers, so floating-point rounding of positions and prices is not modelled.
- Compaction of windows with equal zIndexes: no reachable store has any, and the model's sort assumes none.
- Layout loading when persistence fails or returns nothing, and the default app opened then.
- Redis failures and the fail-open branches, and `NoOpRateLimiter`: the limiter theorems are about runs without errors.
- Limits and windows of 2^63 and more, which the casts to signed 64 bits would turn negative, and counters that reach 2^63.
- Parsing one IP address from text, and header values beyond the first or not made of printable ASCII.
- Hashing and entropy of tokens; ids and tokens are assumed to be generated afresh.
- The Postgres and Redis repositories, the cached session store and the use cases: their sources are not part of this model.
- Session durations that do not fit in 64 bits, which make the service panic.
- HostRouting.CaseIgnored: lower-casing is modelled where it yields one ASCII character, for the capitals and the Kelvin sign; other letters keep their case.
- TenantSlug.ParseExact: likewise, and it counts characters where the parser counts bytes; both differ only for texts that are rejected anyway, and then only in the error.
- RateLimiter.RetryAfterExact: a counter expires at its exact millisecond and `TTL` rounds to the nearest second, as Redis documents and implements them; Redis is not part of this model, nor are windows of 2^32 seconds and more, which the cast to 32 bits would shorten.
- Normalization of the login URL by the browser's URL type, and its `from` parameter.
- User fields that no call inspects (role, institution, terms, timestamps), and the username rule on updates.
- Pagination.LeastPages: the quotient is exact instead of a 64-bit float, which is the same for totals up to 2^32 - 1 because a quotient of two such numbers that is not whole differs from the next whole number by more than the float's rounding.
- SQL execution: a batch delete is one atomic step and no rows are written meanwhile.
- CleanupJob.Table.PurgeBatched: negative batch sizes, which the constructor never sets.
- Infinite or not-a-number usages and limits other than an infinite last tier in the pricing calculator.
- Interleaving of two layout updates between reading and writing: a call is one atomic step.
- Routing, cookies, metrics and error-to-status tables of the gateway.
