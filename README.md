# Traefik maintenance middleware, modelled in Dafny

This project models the Traefik plugin in `maintenance.go`. The plugin puts a
service behind a maintenance page. For each request it checks three gates, in
order:

1. maintenance mode is enabled, through a trigger URL or the existence of a file;
2. a GET of the trigger URL answers 200;
3. the client address (from X-Forwarded-For, then X-Real-IP, then the peer
   address) is not in a whitelist of CIDR networks.

When all three gates hold, the page is written instead of, or in front of, the
next handler's answer. The page comes either from a URL the plugin fetches or
from a local file.

Modules:

- `Maintenance` (maintenance.dfy) models the plugin. It has:
  - the `Config` and `MaintenancePage` records;
  - `CreateConfig` and `New`;
  - `MaintenanceEnabled`, `IsURL`, `TriggerMaintenance`, `IsWhiteListed` and `GetRealIP`;
  - `ServeHTTP`, specified by a pure decision `Decide` and its effect `Apply` on the response writer.
- `MaintenanceProperties` (properties.dfy) states what a request does in each case, over `Decide` and `Apply`.
- `Http` (http.dfy) models the parts of `net/http` the plugin touches:
  - canonical header keys and `Header.Get`;
  - the request's headers and peer address;
  - the outcome of an outbound GET;
  - a `ResponseWriter` class that records the Content-Type header, the status, the body and the calls to the next handler.
- `GoNet` (gonet.dfy) models the `net` functions the plugin calls, for IPv4 only: `ParseIP`, `ParseCIDR`, `IPNet.Contains` and `SplitHostPort`.
- `GoUrl` (gourl.dfy) models `url.Parse`, reduced to whether it reports both a scheme and a host.
- `GoStrings` (gostrings.dfy) models `strings.Split` with a one-character separator, `strings.TrimSpace` and `unicode.IsSpace`.
- `Wrappers` (wrappers.dfy) holds `Option` and `Result`.

Outside effects are inputs, not actions. A `World` value carries what
`os.Stat(fileName)`, `http.Get(triggerUrl)`, `http.Get(fileName)` and
`os.ReadFile(fileName)` return during a request.

`MaintenancePage` is an immutable datatype, because nothing changes it after
`New`. The response writer is a class with fields, and `ServeHTTP` changes it
in place.

Points of the code that the model keeps as written:

- After the file branch writes the page, the request falls through to the next
  handler: nothing returns between `maintenance.go:99` and the call at
  `maintenance.go:102`. Only the URL branch returns, at `maintenance.go:88`.
- The trigger GET is made even when no trigger URL is configured
  (`maintenance.go:76`, `maintenance.go:129-137`). Go's `http.Get("")` fails, so
  such a page never intercepts. This holds even when the file exists, although
  `maintenanceEnabled` reports the mode as on.
- An empty whitelist still runs the whitelist check, which then answers "not listed".

## Model

| member | source | states |
|---|---|---|
| Maintenance.CreateConfig | maintenance.go:37-46 | The defaults: disabled, empty file name and trigger URL, status 200, Content-Type "text/html; charset=utf-8", empty whitelist. |
| Maintenance.New | maintenance.go:48-73 | Fails exactly when the file name is empty or some whitelist entry is not a CIDR. An empty file name gives the file-name error. Otherwise the error names the first bad entry. On success the page copies every setting and holds, in order, the network each entry parses to. |
| Maintenance.MaintenanceEnabled | maintenance.go:105-119 | Off when disabled. On when enabled with a non-empty trigger URL. With an empty trigger URL it is on exactly when the file exists. |
| Maintenance.TriggerMaintenance | maintenance.go:129-137 | True exactly when the GET succeeded with status 200. A transport error or any other status gives false. |
| Maintenance.IsWhiteListed | maintenance.go:139-148 | True exactly when some whitelist network contains the address parsed from the text before the first ':'. The loop stops at the first match. |
| Maintenance.NotWhiteListed | maintenance.go:139-148 | With an empty whitelist, or an address that does not parse, nobody is whitelisted. |
| Maintenance.WhiteListedOrderFree | maintenance.go:141-146 | Reordering or repeating networks does not change the verdict. |
| Maintenance.AnyContainsOrderFree | maintenance.go:141-146 | Containment in some network of a list depends only on the set of networks in the list. |
| Maintenance.WhiteListedIgnoresPort | maintenance.go:140-142 | "host:port" is whitelisted exactly when "host" is, for a host without ':'. |
| Maintenance.ForwardedForWins | maintenance.go:152-158 | When the first comma-separated X-Forwarded-For entry holds more than white space, the client address is that entry trimmed. |
| Maintenance.ForwardedForSlice | maintenance.go:152-158 | That address is a slice of the first entry with only white space cut on either side. |
| Maintenance.ForwardedForClean | maintenance.go:152-158 | That address is non-empty, holds no comma, and has no white space at either end. |
| Maintenance.FallbackOrder | maintenance.go:160-170 | When the first X-Forwarded-For entry is blank or missing: X-Real-IP verbatim if non-empty. Otherwise the host SplitHostPort finds in RemoteAddr. Otherwise RemoteAddr unchanged. |
| Maintenance.PeerAddressHost | maintenance.go:165-169 | With neither header set, "host:port" in RemoteAddr resolves to the host. |
| Maintenance.EvaluateGates | maintenance.go:76 | Intercepts exactly when the mode is on, the trigger answers 200, and the resolved client is not whitelisted. Later gates are evaluated only when earlier ones hold. |
| Maintenance.WriteResponse | maintenance.go:85-87 | Sets the Content-Type, writes the configured status and appends the body when the final status allows one. A status written earlier is kept. An informational code gives way to the 200 that Write fixes. |
| Maintenance.GetRealIP | maintenance.go:150-171 | No contract of its own. Its properties are proved by ForwardedForWins, ForwardedForSlice, ForwardedForClean, FallbackOrder and PeerAddressHost. |
| Maintenance.IsURL | maintenance.go:121-127 | No contract of its own; it is GoUrl.HasSchemeAndHost. Its properties are proved by GoUrl.URLShape, GoUrl.PathsAreNotURLs, GoUrl.ColonlessIsNotURL and GoUrl.BuiltURL. |
| Maintenance.Decide | maintenance.go:75-103 | No contract of its own: the decision is Outcome applied to the verdict of the three gates. The MaintenanceProperties lemmas prove what it does in each case. |
| Maintenance.Outcome | maintenance.go:77-102 | No contract of its own: the branch ServeHTTP takes once the gates are evaluated. Its properties are proved by MaintenanceProperties.FreshOutcome and the other MaintenanceProperties lemmas. |
| Maintenance.Apply | maintenance.go:85-102 | Nothing written before is lost: the earlier body is a prefix of the new one, and a status already written stays. The next handler is called at most once more. A page body is added only under a status that allows a body. |
| Maintenance.ClientRefusesNonURL | maintenance.go:130-134 | No contract: this predicate states, as a fact about the World input, that Go's client fails a trigger GET that is not an absolute URL with a host. |
| Maintenance.ServeHTTP | maintenance.go:75-103 | The writer's new state is the old state with the decided action applied: forward, abandon, respond, or respond then forward. |
| Maintenance.Dispatch | maintenance.go:77-102 | After the gates: fetch and write the URL source on 200, stop on a transport error, forward on another status; write the file source and then forward; forward when not intercepting. |
| MaintenanceProperties.ModeOffForwards | maintenance.go:76 | With the mode off, the request goes to the next handler once and nothing is written. |
| MaintenanceProperties.TriggerDownForwards | maintenance.go:76 | With the trigger down (error or non-200), the request goes to the next handler once and nothing is written. |
| MaintenanceProperties.WhiteListedForwards | maintenance.go:76 | A whitelisted client goes to the next handler once and nothing is written. |
| MaintenanceProperties.TriggerNotConsultedWhenOff | maintenance.go:76 | Short-circuit: with the mode off, the trigger's answer does not affect the decision. |
| MaintenanceProperties.WhiteListNotConsultedWhenTriggerDown | maintenance.go:76 | Short-circuit: with the trigger down, neither the client nor the whitelist affects the decision. |
| MaintenanceProperties.URLSourceErrorAbandons | maintenance.go:78-82 | When fetching the URL source fails, nothing is written and the next handler is not called. |
| MaintenanceProperties.URLSourceOkResponds | maintenance.go:84-88 | When the URL source answers 200, the response gets the configured Content-Type and status. It gets the fetched body when that status allows a body, and no body for 1xx, 204 or 304. The next handler is not called. |
| MaintenanceProperties.URLSourceOtherForwards | maintenance.go:89-91 | When the URL source answers anything other than 200, nothing is written and the next handler is called once. |
| MaintenanceProperties.FileSourceRespondsThenForwards | maintenance.go:92-102 | The file source writes the configured Content-Type and status, and the bytes read when that status allows a body. Then the next handler is called as well. |
| MaintenanceProperties.FileReadErrorIgnored | maintenance.go:93-99 | A read error does not change what the file branch writes. |
| MaintenanceProperties.FreshWriterOutcome | maintenance.go:75-103 | On a fresh writer, the next handler is called at most once. A header, status or body appears only when the request was intercepted. They are then the configured ones, except that an informational code ends as 200. A body appears only when the configured code's final status allows one. The next handler is skipped only for an intercepted URL source. |
| MaintenanceProperties.DefaultsForward | maintenance.go:37-46 | A page built from the defaults forwards every request. |
| MaintenanceProperties.NonURLTriggerNeverIntercepts | maintenance.go:129-134 | Since Go's client refuses a trigger that is not an absolute URL with a host, a page configured with such a trigger forwards every request. |
| MaintenanceProperties.EmptyTriggerNeverIntercepts | maintenance.go:76 | With no trigger URL configured, the page still fetches the trigger. The empty text is not a URL, so the fetch fails and the page never intercepts, file or no file. |
| GoUrl.HasSchemeAndHost | maintenance.go:122-126 | No contract of its own: it holds when url.Parse succeeds with a non-empty scheme and host (the check of maintenance.go:126). Its properties are proved by GoUrl.URLShape, GoUrl.PathsAreNotURLs, GoUrl.ColonlessIsNotURL and GoUrl.BuiltURL. |
| GoUrl.GetScheme | maintenance.go:122 | A scheme that is found is a letter followed by scheme characters, and the text is scheme ":" rest. |
| GoUrl.URLShape | maintenance.go:121-127 | Everything isURL accepts starts with a scheme followed by "://". |
| GoUrl.PathsAreNotURLs | maintenance.go:121-127 | An empty name, or one starting with '/' or '.', is not a URL, so it is read as a file. |
| GoUrl.ColonlessIsNotURL | maintenance.go:121-127 | A name without ':' is not a URL. |
| GoUrl.SchemeFromColon | maintenance.go:122 | getScheme stops at the first ':' after a run of scheme characters. |
| GoUrl.BuiltURL | maintenance.go:121-127 | "scheme://host" followed by nothing, a path, a query or a fragment is a URL, for a non-empty host without '/', '?', '#' or '@'. |
| GoNet.ParseIP | maintenance.go:142 | A parsed address has exactly four dot-separated decimal octet fields. |
| GoNet.ParseFormatIP | maintenance.go:142 | ParseIP reads back every dotted-decimal address. |
| GoNet.ParseCIDR | maintenance.go:55 | A parsed network keeps only its masked bits. |
| GoNet.ParseFormatCIDR | maintenance.go:55 | ParseCIDR reads back "a.b.c.d/n" as the network of that address with its host bits cleared. |
| GoNet.ParseCIDRContainsOwnAddress | maintenance.go:55-59 | A parsed network contains the address it was written with. |
| GoNet.MaskIdempotent | maintenance.go:55 | Masking twice is masking once. |
| GoNet.Contains | maintenance.go:143 | No contract of its own: this predicate compares the masked address with the masked network. Its properties are proved by GoNet.ZeroPrefixContainsAll, GoNet.HostPrefixContainsOnlyItself and GoNet.ParseCIDRContainsOwnAddress. |
| GoNet.ZeroPrefixContainsAll | maintenance.go:143 | A /0 network contains every address. |
| GoNet.HostPrefixContainsOnlyItself | maintenance.go:143 | A /32 network contains exactly its own address. |
| GoNet.SplitHostPort | maintenance.go:166 | A split port holds no ':' or bracket. For an unbracketed input, host ":" port rebuilds the input. |
| GoNet.SplitJoinHostPort | maintenance.go:166 | SplitHostPort undoes JoinHostPort for bracket-free hosts and ports without ':'. |
| GoStrings.Split | maintenance.go:154 | The list of pieces is never empty, and the first piece is the text before the first separator. |
| GoStrings.SplitRejoin | maintenance.go:154 | No piece holds the separator, and joining the pieces with it rebuilds the input. |
| GoStrings.SplitJoin | maintenance.go:140 | Splitting a join of separator-free pieces gives the pieces back. |
| GoStrings.IndexOf | maintenance.go:140 | The first occurrence, or the length when there is none. |
| GoStrings.TrimSpace | maintenance.go:155 | The result has no white space at either end. |
| GoStrings.TrimSpaceSlice | maintenance.go:155 | The result is a slice of the input with only white space cut on either side. |
| GoStrings.TrimSpaceEmpty | maintenance.go:155-156 | The result is empty exactly when the input is all white space. |
| GoStrings.TrimSpaceIdempotent | maintenance.go:155 | Trimming twice is trimming once. |
| Http.HeaderGet | maintenance.go:152 | When the canonical key holds values, the result is the first of them. A non-empty result always comes from there. A key that is absent gives "". |
| Http.CanonicalHeaderKey | maintenance.go:152 | Keeps the length of the key. Its idempotence is proved by Http.CanonicalHeaderKeyIdempotent. |
| Http.CanonicalHeaderKeyIdempotent | maintenance.go:161 | Canonicalising a canonical key changes nothing. |
| Http.ResponseWriter.SetContentType | maintenance.go:85 | Records the Content-Type, and nothing else changes. |
| Http.ResponseWriter.WriteHeader | maintenance.go:86 | Only the first non-informational status written is kept. An informational code (100-199 other than 101) leaves the status open. |
| Http.SentStatus | maintenance.go:98-99 | Once WriteHeader(code) and a Write have run, the status is the code itself, or 200 when the code is informational. It is never informational. |
| Http.ResponseWriter.Write | maintenance.go:99 | Writes status 200 first if no status was written yet. Then it appends the bytes, unless that status is 1xx, 204 or 304, where Go refuses the body and nothing is written. |
| Http.ResponseWriter.CallNext | maintenance.go:102 | The next handler is called once more; nothing else changes. |

## Left out

- HTTP, file-system and network I/O are not performed. Their answers for one request are the `World` input.
- `log.Printf` calls are not modelled, because they do not affect the response.
- The `context`, the `next` handler value and the unused `template` field of `MaintenancePage` are not modelled. They have no effect on any decision.
- Concurrency is not modelled. Requests share only the immutable page.
- What the next handler itself writes is not modelled. The model counts its calls, and later writes by `next` are not followed.
- GoNet.ParseIP: IPv6 text and IPv4-in-IPv6 forms do not parse. For whitelist entries this differs from Go: such entries make `New` fail, where Go accepts them. For client addresses nothing differs, because `isWhiteListed` cuts the text at its first ':' (maintenance.go:140-142), so neither Go nor the model ever whitelists such a client.
- GoNet.ParseCIDR: IPv6 networks are not modelled, for the same reason.
- GoUrl.HasSchemeAndHost: url.Parse errors inside the authority and escapes are not modelled. These include bad ports, bad percent-escapes and bad IPv6 literals. Such names count as URLs here.
- Http.ResponseWriter.WriteHeader: Go panics on a status outside 100-999. This is not modelled, and any other integer is recorded.
- Http.ResponseWriter.WriteHeader: the informational 1xx lines Go sends ahead of the response are not recorded. Only their effect, that the status stays open, is.
- Http.ResponseWriter.Write: the error it returns (ErrBodyNotAllowed on a 1xx, 204 or 304 status) is not modelled, because `maintenance.go` ignores it. A HEAD request, whose body Go writes but never sends, is not distinguished.
- Http.ResponseWriter.SetContentType: it records only Content-Type. Other headers, and setting headers after the status is written (which Go ignores), are not tracked.
- Strings: Go strings are byte strings. Here header values and addresses are `seq<char>`, and only bodies are bytes.
- MaintenanceProperties.NonURLTriggerNeverIntercepts: the Go client is not modelled. Its refusal of a non-URL trigger is a precondition on the `World` input (`Maintenance.ClientRefusesNonURL`), and MaintenanceProperties.EmptyTriggerNeverIntercepts is derived from that precondition.
- Canonical header keys are modelled for keys of token characters only. Other keys are returned unchanged, as in Go.
