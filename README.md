# semserv rules aggregator, modelled in Dafny

semserv serves one merged YAML rule document per registered project. For a
request `GET /c/p/{project}` it looks the project up in a static registry,
asks GitHub for the repository's first matching reference, lists that
revision's tree recursively, fetches every `.yaml` blob, base64-decodes it,
removes the first `rules:\n` from each file and concatenates what remains
under one `rules:\n` of its own. This project models that pipeline from
`main.go` and proves what it does with each entry, failed fetch and
lookup.

Modules, one per part of `main.go`:

- `Wrappers` (`wrappers.dfy`): `Option` for Go's `nil`, `Error`, and `Result`
  for Go's `(value, error)` pairs.
- `GoStd` (`gostd.dfy`): the standard-library calls the code depends on.
  These are `strings.HasSuffix`, `bytes.Index` and `bytes.Replace(s, old, new, 1)`.
  The model of `bytes.Replace` includes its `nil` result when the input is
  empty and has no match.
- `GitHub` (`github.dfy`): the go-github types the code reads
  (`Reference`, `GitObject`, `TreeEntry`, `Tree`) with their `nil`-safe
  getters, the `blob` envelope, and `Remote`. `Remote` holds the remote calls
  as function-valued inputs: `ListMatchingRefs`, `GetTree`, `http.Get`, the
  JSON envelope decoder and the base64 decoder.
- `Blob` (`blob.dfy`): `getBlob`, made of the eligibility test, the download
  chain and the header strip.
- `Rules` (`rules.dfy`): the `ruleset` record, `getLatestSHA`, and `getRules`
  as a method whose loop grows the byte buffer. The method is proved equal to
  the specification function `RulesOf`. Lemmas cover order, skipped entries and
  failure isolation.
- `Server` (`server.dfy`): the registry and the project lookup loop of
  `getRulesetByProjectID`, as a method proved against `FindProject`.

Four behaviours of the code are easy to misread, and the model follows the
code in each:

- The strip removes the first `rules:\n` wherever it occurs, not only at the
  start of the file (`StripInsideDocument`).
- The error from `getLatestSHA` is discarded. When the reference listing fails,
  the tree is requested with revision `""`, and only a tree error aborts the
  request (`RulesOf`).
- Per-entry fetch and decode failures do not stop the loop. The error that
  `getBlob` returns is dropped, so a failed entry simply contributes nothing
  (`FailureIsolated`).
- The JSON decoder's error on the blob body is ignored. `Remote.decodeEnvelope`
  therefore returns the envelope exactly as that decoder leaves it.

"No fetch happens" cannot be observed in a pure model. It is stated instead
as independence: the answer is the same for every `Remote`
(`IneligibleTouchesNoRemote`, and the not-found case of
`GetRulesetByProjectId`, whose contract does not mention the remote).

## Model

| member | source | states |
|---|---|---|
| `GoStd.HasSuffixIffConcat` | main.go:57 | `HasSuffix(s, t)` holds exactly when `s` is some prefix followed by `t` |
| `GoStd.IndexFrom` | main.go:82 | the scan returns -1 only if no occurrence lies at or after the start, and otherwise the leftmost occurrence at or after it |
| `GoStd.Index` | main.go:82 | -1 exactly when the pattern occurs nowhere, otherwise the leftmost occurrence |
| `GoStd.ReplaceFirst` | main.go:82 | with no occurrence the input comes back unchanged, and `nil` exactly when it is empty; otherwise only the leftmost occurrence is replaced |
| `GoStd.ReplaceFirstRemovesOne` | main.go:82 | replacing the first occurrence with nothing shortens the input by the pattern's length, and putting the pattern back at that index restores the input |
| `Blob.GetBlob` | main.go:56-84 | ineligible entries give no content and no error; eligible entries fail exactly when the download fails, carrying its error; returned content is the decoded payload with its first `rules:\n` removed; an empty payload gives no content |
| `Blob.HttpFailureIsReported` | main.go:62-68 | when the HTTP request for an eligible entry fails, `getBlob` returns no content and that error |
| `Blob.EnvelopeContentOnly` | main.go:70-76 | only the envelope's `content` field is read: any JSON decoder giving the same `content`, whatever the `encoding` and other fields, gives the same reply |
| `Blob.DecodeFailureIsReported` | main.go:76-80 | when base64 decoding fails, `getBlob` returns no content and that error |
| `Blob.IneligibleTouchesNoRemote` | main.go:57-59 | a non-blob or non-`.yaml` entry is answered with "no content, no error" whatever the remote would return |
| `Blob.StripHeaderUnchanged` | main.go:82 | a payload without `rules:\n` passes through byte for byte |
| `Blob.StripHeaderRemovesFirst` | main.go:82 | a payload whose first `rules:\n` is at `j` loses exactly those 7 bytes; the result is 7 bytes shorter and the bytes on both sides are kept |
| `Blob.StripLeadingHeader` | main.go:82 | a file beginning with `rules:\n` keeps everything after it |
| `Blob.StripInsideDocument` | main.go:82 | the header is removed from the middle when text precedes it |
| `Blob.StripOnlyOnce` | main.go:82 | only one copy is removed: `rules:\nrules:\n` becomes `rules:\n` |
| `Rules.GetLatestSha` | main.go:42-54 | a failed listing gives `""` with its error; an empty listing gives `""` with a nil error; otherwise the first reference's commit SHA with a nil error |
| `Rules.LatestShaIsListed` | main.go:49-53 | a non-empty revision comes from a successful listing and is the SHA of its first reference |
| `Rules.Contribution` | main.go:100-104 | an ineligible entry or a failed download adds nothing; otherwise the entry adds its decoded payload with the first `rules:\n` removed (nothing for an empty payload) |
| `Rules.Aggregate` | main.go:99-106 | the document always begins with `rules:\n` |
| `Rules.RulesOf` | main.go:86-107 | the tree is requested at the revision `getLatestSHA` chose, with its error ignored; a tree error is returned as is; otherwise the result is the aggregate of the tree's entries, which begins with `rules:\n` |
| `Rules.GetRules` | main.go:86-107 | the buffer-building loop returns exactly `RulesOf`: `rules:\n` followed by every non-nil payload in tree order |
| `Rules.AggregateSnoc` | main.go:100-105 | each loop step appends exactly that entry's contribution |
| `Rules.ContributionsAppend` | main.go:100-105 | contributions of consecutive runs of entries concatenate in order |
| `Rules.AggregateOfNothing` | main.go:99-106 | when no entry contributes bytes the document is exactly `rules:\n` |
| `Rules.SkipEntry` | main.go:101-104 | an entry that yields no payload (ineligible, failed or empty) can be removed without changing the document |
| `Rules.FailureIsolated` | main.go:100-105 | if one entry fails and all others answer as before, the document is the others' contributions in order, with only the failed entry missing |
| `Rules.SameAnswersSameContributions` | main.go:100-105 | entries that `getBlob` answers alike under two remotes contribute alike |
| `Rules.WellFormedFilesMerge` | main.go:99-105 | when every entry is a `.yaml` blob containing `rules:\n` followed by a body, the document is one `rules:\n` followed by all bodies in tree order |
| `Server.FindProject` | main.go:117-118 | the index of the first ruleset whose `Project` matches, or none exactly when no ruleset matches |
| `Server.FirstMatchWins` | main.go:117-118 | of several rulesets with the same name, the first is the one served |
| `Server.GetRulesetByProjectId` | main.go:114-131 | an unknown project gets 404 "project not found" without regard to the remote; a known one gets 404 "Repo information could not be retrieved" when its rules fail, else 200 with the aggregate |
| `Server.RegistryLookup` | main.go:38-40 | the registry knows exactly the project `rhps` |

## Left out

- Network I/O is not modelled. `ListMatchingRefs`, `GetTree` and `http.Get` are inputs, the fields of `Remote`. Their answers may be anything, but each is a fixed function of the request.
- Each remote answer depends on the request alone, not on when it is made. `main.go:62` issues its own `http.Get` per tree entry, and entries with identical file content share one blob SHA and so one URL. In the model such entries always get the same answer: one cannot fail transiently while the other succeeds. `Rules.FailureIsolated` therefore does not apply when the failed entry shares its URL with another eligible entry that succeeded before, because that entry then fails too.
- The JSON decoding of the blob envelope is an input too (`Remote.decodeEnvelope`). Its ignored error is modelled by its having no error result.
- Base64 decoding (RFC 4648, section 4) is an input function returning bytes or an error. It is not re-implemented.
- `yaml.Unmarshal`, `c.YAML` and `c.JSON` are left out because they are a foreign library and the wire format. A response carries the raw aggregate bytes or the message that would be serialised.
- The Gin router, the redirect handler `forwardRulesetByProjectID` and `main` are left out. They are HTTP plumbing with no logic of their own.
- Logging is left out because it has no effect on results.
- The closing of the response body (`defer response.Body.Close()`) is left out because it changes no result.
- Paths and revision strings are Dafny strings rather than Go byte strings. The `.yaml` suffix test is the same for such strings.
- `GoStd.ReplaceFirst` decides "no occurrence" with `bytes.Index`, not with `bytes.Count` as Go does. For any pattern the two agree on whether a match exists.
