# Image loading in kind: a Dafny model

This project models the sequential logic around kind's image-loading path.
kind runs Kubernetes nodes as containers. It can load images from the host
straight into those containers, with no registry involved. The model covers
three pieces of that logic:

- **Image names** (`images.go`). The canonicaliser `sanitizeImage` does three
  things in order: it adds the implicit `library/` namespace, it adds the
  default `docker.io/` domain unless the first path segment is a registry
  host, and it adds `:latest` unless the name contains a `:`. The retag check
  `CheckIfImageReTagRequired` uses the canonical name to decide whether an
  image already on a node only lacks a tag. `RemoveDuplicates` is a stable
  deduplication that keeps first occurrences. `RequiredNodeImages` gives the
  set of node images in a configuration.
- **Node selection for `kind load docker-image`** (`docker-image.go`).
  `runE` lists the cluster's nodes and indexes them by name. It then loads
  into every node, or into exactly the nodes named with `--nodes`, in the
  order they were named. It fails when the cluster has no nodes or when a
  named node does not exist.
- **The load-image create action** (`loadimage.go`). `Execute` builds one
  load task per configured node whose deduplicated image list is not empty
  and whose generated name is a live node. It then hands the tasks to a
  concurrent runner.

Modules, one per source file plus shared types:

- `Errors` (errors.dfy): `Option`, `Result`, and the error values.
- `Config` (config.dfy): the configuration records the path reads.
- `Nodes` (nodes.dfy): the live node handle and the name index. Both command
  paths build this index with the same loop.
- `Images` (images.dfy), `LoadDockerImage` (docker_image.dfy) and
  `LoadImageAction` (loadimage.dfy): the three source files.

Inputs stand in for the provider and other external calls:

- the outcome of listing nodes is a `Result<seq<Node>>`;
- the tag fetcher's answer is a `TagFetch` value;
- the names generated by the node namer are a sequence with one entry per
  configured node;
- the errors returned by the provider's loader and by the concurrent runner
  are `Option<Error>` values.

The model records what would be handed to the loader (`RunE`'s `loadCall`)
and to the runner (`Execute`'s `dispatched`), so that "nothing is loaded on
this path" can be stated.

Four behaviours of the code that are easy to misread:

- The tag rule. `:latest` is added only when the name has no `:` anywhere
  (images.go:103-105). It is not enough that no `:` follows the last `/`,
  as the registry reference grammar would have it. So `host:5000/foo` stays
  unchanged, which `SanitizeHostWithPort` proves.
- The tag lookup. The existing tags are a `map[string]bool`
  (images.go:42, 54), not a set, and a missing key reads as false.
  `TagBound` models that lookup.
- The "absent" result. When the fetch fails or finds no tags, the other two
  results are the zero values `false` and `""` (images.go:48-50), and the
  model states that.
- Duplicate node names. The index is filled by a loop of map assignments
  (docker-image.go:93-98), so the last listed node of each name wins
  (`NodesByNameLastWins`, `DuplicateNameExample`).

## Model

| member | source | states |
|---|---|---|
| `Nodes.NodesByName` | pkg/cmd/kind/load/docker-image/docker-image.go:93-98 | the name index built by inserting the listed nodes in order; its keys are exactly the listed names |
| `Nodes.NodesByNameLastWins` | pkg/cmd/kind/load/docker-image/docker-image.go:92-98 | each indexed name maps to the last listed node with that name (handles with equal names are told apart by their identity) |
| `Nodes.DuplicateNameExample` | pkg/cmd/kind/load/docker-image/docker-image.go:94-97 | of two distinct handles with the same name, the index keeps the one listed later |
| `Nodes.IndexByName` | pkg/cluster/internal/create/actions/loadimage/loadimage.go:48-54 | the loop that fills `nodesByName` builds exactly the name index of the listed nodes |
| `Images.IndexRune` | pkg/cluster/internal/providers/common/images.go:98 | returns -1 exactly when the rune is absent, and otherwise the index of its first occurrence |
| `Images.ContainsAny` | pkg/cluster/internal/providers/common/images.go:99 | `strings.ContainsAny`: true exactly when some character of the set occurs in the string |
| `Images.WithOfficialRepoSpec` | pkg/cluster/internal/providers/common/images.go:94-96 | step one (`WithOfficialRepo`) always leaves a `/` in the name; a name without `/` then has `library` as its first segment; it adds a `:` only if the name had one |
| `Images.WithDefaultDomainSpec` | pkg/cluster/internal/providers/common/images.go:98-101 | step two (`WithDefaultDomain`) leaves a name whose first segment is a registry host unchanged, and puts `docker.io/` in front of any other name with a `/` |
| `Images.WithLatestTagSpec` | pkg/cluster/internal/providers/common/images.go:103-106 | step three (`WithLatestTag`) appends `:latest` exactly when the name has no `:` anywhere |
| `Images.SanitizeImage` | pkg/cluster/internal/providers/common/images.go:87-109 | the canonical name always contains both `/` and `:` |
| `Images.SanitizeImageShape` | pkg/cluster/internal/providers/common/images.go:92-106 | the result is P + image + S, with P one of `""`, `docker.io/`, `docker.io/library/` and S one of `""`, `:latest`. P is `docker.io/library/` exactly when the name has no `/`. P is empty exactly when the segment before the first `/` contains `.` or `:` or is `localhost`. S is `:latest` exactly when the name has no `:` anywhere |
| `Images.SanitizeImageFixes` | pkg/cluster/internal/providers/common/images.go:98-105 | a name that has a `/` and a `:` and whose first segment is a registry host comes back unchanged |
| `Images.SanitizeImageIdempotent` | pkg/cluster/internal/providers/common/images.go:87-109 | canonicalising a canonical name gives the same name back |
| `Images.SanitizeBareName` | pkg/cluster/internal/providers/common/images.go:94-106 | `nginx` becomes `docker.io/library/nginx:latest` |
| `Images.SanitizeTaggedName` | pkg/cluster/internal/providers/common/images.go:94-105 | `nginx:1.19` and `nginx:latest` get only the `docker.io/library/` prefix |
| `Images.SanitizeLocalhost` | pkg/cluster/internal/providers/common/images.go:98-105 | `localhost/foo` gets no domain, only `:latest` |
| `Images.SanitizeDottedHost` | pkg/cluster/internal/providers/common/images.go:98-105 | `myregistry.example.com/foo` keeps its host and gets `:latest` |
| `Images.SanitizeHostWithPort` | pkg/cluster/internal/providers/common/images.go:103-105 | `host:5000/foo` is returned unchanged, because the port's `:` suppresses `:latest` |
| `Images.TagBound` | pkg/cluster/internal/providers/common/images.go:54 | Go's map lookup: a missing key reads as false, and a present key reads as its value |
| `Images.CheckIfImageReTagRequired` | pkg/cluster/internal/providers/common/images.go:46-60 | exists is false exactly when the fetch failed or found no tags, and then the other results are false and `""`. Otherwise the sanitized name is `SanitizeImage(imageName)`, and a retag is required exactly when that name is not mapped to true (a missing key or `false` both require one) |
| `Images.ReTagCheckCanonicalInvariant` | pkg/cluster/internal/providers/common/images.go:53-59 | checking a name or its canonical form gives the same decision |
| `Images.ReTagCheckExamples` | pkg/cluster/internal/providers/common/images.go:52-59 | when the canonical `nginx:1.19` tag is bound, `nginx:1.19` needs no retag and `nginx:latest` needs one |
| `Images.FirstOccurrencesSpec` | pkg/cluster/internal/providers/common/images.go:73-83 | the deduplicated list has no duplicates, holds exactly the input's elements, is no longer than the input, and is ordered by first occurrence in the input |
| `Images.FirstOccurrencesOfDistinct` | pkg/cluster/internal/providers/common/images.go:76-81 | a list without duplicates comes back unchanged |
| `Images.FirstOccurrencesIdempotent` | pkg/cluster/internal/providers/common/images.go:73-83 | deduplicating twice gives the same result as deduplicating once |
| `Images.FirstOccurrencesExample` | pkg/cluster/internal/providers/common/images.go:73-83 | `[a, b, a, c, b]` becomes `[a, b, c]` |
| `Images.RemoveDuplicates` | pkg/cluster/internal/providers/common/images.go:73-83 | the loop over the slice with a set of seen keys returns the first-occurrence deduplication: no duplicates, the same elements, and no longer than the input |
| `Images.RequiredNodeImages` | pkg/cluster/internal/providers/common/images.go:33-39 | the result is exactly the set of the configured nodes' images |
| `LoadDockerImage.NodeSelection` | pkg/cmd/kind/load/docker-image/docker-image.go:84-103 | a listing error is returned unchanged. An empty node list yields `NoNodesFound` with the cluster name. With no requested names, the full node list is returned unchanged |
| `LoadDockerImage.Resolve` | pkg/cmd/kind/load/docker-image/docker-image.go:103-111 | a successful lookup has one node per requested name; a failure is `UnknownNode` of a requested name that is not indexed |
| `LoadDockerImage.ResolveAllKnown` | pkg/cmd/kind/load/docker-image/docker-image.go:103-111 | when every requested name is indexed, the result has one indexed node per requested name, position by position |
| `LoadDockerImage.ResolveFirstUnknown` | pkg/cmd/kind/load/docker-image/docker-image.go:105-109 | the first requested name that is not indexed is the one reported as `UnknownNode` |
| `LoadDockerImage.SelectionFollowsRequest` | pkg/cmd/kind/load/docker-image/docker-image.go:93-111 | when all requested names are listed, the selection has the request's length, keeps repeats, and its k-th node is the last listed node named by the k-th request |
| `LoadDockerImage.SelectionRejectsUnknown` | pkg/cmd/kind/load/docker-image/docker-image.go:105-109 | a name no listed node carries fails the selection with `UnknownNode` of the first such name in request order |
| `LoadDockerImage.SelectionSucceedsIff` | pkg/cmd/kind/load/docker-image/docker-image.go:84-112 | the selection succeeds exactly when the listing succeeded, found at least one node, and every requested name is a listed name |
| `LoadDockerImage.SelectionExample` | pkg/cmd/kind/load/docker-image/docker-image.go:102-111 | with three distinctly named nodes, asking for the second gives just it, asking for another name fails with that name, and asking for nothing gives all three |
| `LoadDockerImage.SelectNodes` | pkg/cmd/kind/load/docker-image/docker-image.go:84-112 | the two loops with their early returns compute `NodeSelection` |
| `LoadDockerImage.RunE` | pkg/cmd/kind/load/docker-image/docker-image.go:78-115 | on a failed selection its error is returned and the loader is never called. Otherwise the loader is called with the images and the selected nodes, and its error is returned |
| `LoadImageAction.Survives` | pkg/cluster/internal/create/actions/loadimage/loadimage.go:64-70 | a configured node yields a task exactly when its image list is not empty and its generated name is a live node |
| `LoadImageAction.TaskFor` | pkg/cluster/internal/create/actions/loadimage/loadimage.go:65-71 | a node's task loads each of its configured images exactly once, into the single live node indexed under its generated name |
| `LoadImageAction.PlanTasks` | pkg/cluster/internal/create/actions/loadimage/loadimage.go:64-73 | there is at most one task per configured node |
| `LoadImageAction.SurvivorsSpec` | pkg/cluster/internal/create/actions/loadimage/loadimage.go:64-72 | the entries that yield tasks are listed in increasing configuration order. An entry yields a task exactly when its deduplicated image list is not empty and its generated name is a live node. So entries with empty lists and unknown names are skipped without error |
| `LoadImageAction.PlanTasksFromSurvivors` | pkg/cluster/internal/create/actions/loadimage/loadimage.go:63-73 | task k belongs to the k-th surviving entry i. It loads that entry's deduplicated images into the live node named by the i-th generated name. Names are generated for skipped entries too |
| `LoadImageAction.TasksWellFormed` | pkg/cluster/internal/create/actions/loadimage/loadimage.go:66-71 | every task has a non-empty, duplicate-free image list and targets exactly one live node: the last listed node carrying its entry's generated name |
| `LoadImageAction.Execute` | pkg/cluster/internal/create/actions/loadimage/loadimage.go:41-81 | a listing error is returned unchanged, and an empty node list yields `NoNodesFound`. In both cases no task is built. Otherwise the tasks handed to the runner are exactly `PlanTasks` over the live name index, and the runner's error, or nil, is returned |

## Left out

- `LoadImage` (images.go:63-70): it opens a host file and streams it into a node. That is I/O and outside the model.
- `errors.UntilErrorConcurrent` (loadimage.go:74): it is concurrent and its source is not part of this model. Its result is an opaque input, and the model says nothing about which error it reports or how tasks interleave.
- `provider.ListNodes`, `provider.ListInternalNodes`, `provider.LoadImage` and `cluster.NewProvider`: these are external provider calls. Their results are inputs, and the arguments of a load call are recorded as values.
- `NewCommand` (docker-image.go:45-76): cobra wiring, flag registration, `cli.OverrideDefaultName` and the argument-count validator are command-line plumbing.
- `common.MakeNodeNamer`: it is a stateful closure whose source is not part of this model. The generated names are an input with one entry per configured node.
- Status and logging calls (loadimage.go:39-40, 79-80) produce output only.
- `nodes.Node` is an interface. It is modelled as a datatype carrying its name, which is taken to equal `node.String()`, and an identity `id` that stands for the handle itself, so that distinct handles with the same name stay distinct values. The handle's methods are not modelled.
- Error messages are structured values (`NoNodesFound(cluster)`, `UnknownNode(name)`) rather than `fmt.Errorf` strings with Go's `%q` quoting.
- Go strings are byte sequences. They are modelled as `seq<char>`. The only characters the canonicaliser looks for (`/`, `:` and `.`) are single-byte, so the first-index and prefix computations agree.
