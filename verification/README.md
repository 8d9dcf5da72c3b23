# goldmark-wikilink: the default wikilink resolver

goldmark-wikilink adds `[[Page]]` wikilinks to the goldmark Markdown engine.
The recogniser, the `Node` type and the HTML renderer are type aliases of an
external package. The one piece of logic this repository implements itself is
in `resolver.go`:

- the `Resolver` interface, which maps a wikilink node to the destination the
  link should point at, or to an error that halts rendering;
- `DefaultResolver`, which makes the destination by writing the node's target
  bytes and then the fixed suffix `.html`.

This project models both in Dafny and proves what the default resolver
promises:

- the destination is the target, unchanged and unescaped, followed by exactly
  the five bytes `.html`;
- it never reports an error;
- it looks at nothing but the target;
- it is injective on targets;
- it has a left inverse (strip `.html`);
- it appends the suffix without checking for an extension;
- the examples in its documentation and its table test hold.

Modules:

- `GoSlices` (`go_slices.dfy`): Go's `byte` type and the built-ins the
  resolver body calls. These are `make([]byte, n)`, `copy(dst, src)` and
  `copy(dst[off:], src)`, modelled on immutable sequences.
- `Resolver` (`resolver.dfy`): the `Node` record (`Target`, `Fragment`,
  `Embed`) and the `Resolution` datatype (`Destination` or `Halt`). It also
  holds the reading of Go's `(destination, err)` pair and the default resolver.
  The resolver body is modelled step by step: allocate, copy the target, copy
  the suffix, return a nil error.
- `ResolverProperties` (`resolver_properties.dfy`): lemmas about the default
  resolver.

Two default resolvers are easy to confuse. The external package has its own
default resolver, which the renderer tests exercise. It appends `.html` only
when the target has no file extension, and it appends `#fragment` when the
node has a fragment (for example, `foo.png` stays `foo.png` in
`renderer_test.go`). The resolver in `resolver.go` does neither. It appends
`.html` unconditionally and ignores `Fragment` and `Embed`. This model follows
`resolver.go`. `PngTargetGainsHtml`, `HtmlTargetGainsHtml` and
`NoExtensionCheck` record the difference.

## Model

| member | source | states |
|---|---|---|
| GoSlices.FromString | resolver.go:24 | `[]byte(".html")`: for ASCII text the byte slice has one byte per character, each equal to the character's code |
| GoSlices.Make | resolver.go:29 | `make([]byte, n)` has length `n` and holds only zero bytes |
| GoSlices.Copy | resolver.go:30 | `copy(dst, src)` keeps the length of `dst`, overwrites its first min(len dst, len src) bytes with the front of `src`, and leaves the remaining bytes of `dst` as they were |
| GoSlices.CopyAt | resolver.go:31 | `copy(dest[off:], src)` writes through the sub-slice: the bytes before `off` are unchanged, the front of `src` lands at `off`, and the bytes after the copied part are unchanged |
| Resolver.FromReturn | resolver.go:19-21 | a non-nil error halts rendering whatever destination came with it, and carries that error; with a nil error the returned destination is used as is |
| Resolver.DefaultReturn | resolver.go:28-32 | the Go method's own `(dest, err)` pair: `make`, `copy`, `copy` leave the buffer equal to Target ++ ".html", and the error returned is always nil |
| Resolver.ResolveWikilink | resolver.go:28-32 | the default resolver never halts, and the zero-filled buffer it fills with two copies ends up equal to Target ++ ".html" |
| ResolverProperties.DestinationShape | resolver.go:29-31 | the destination is len(Target)+5 bytes long, begins with the target bytes unchanged and unescaped, and ends with `.html` |
| ResolverProperties.HtmlBytes | resolver.go:24 | the suffix is exactly the five bytes `.`, `h`, `t`, `m`, `l` |
| ResolverProperties.DestinationCharacterisation | resolver.go:29-31 | a byte sequence is the default resolver's destination for a node if and only if it is the node's target followed by `.html` with nothing in between |
| ResolverProperties.DefaultNeverHalts | resolver.go:32 | `DefaultResolver` returns a destination for every node, never an error |
| ResolverProperties.SameTargetSameDestination | resolver.go:28-32 | two nodes with equal targets get equal destinations, whatever their fragments and embed flags |
| ResolverProperties.DefaultReadsOnlyTarget | resolver.go:28-32 | `DefaultResolver`, taken as a value, depends on the target alone |
| ResolverProperties.ResolveInjective | resolver.go:29-31 | two nodes get the same destination if and only if their targets are equal, so distinct targets never collide |
| ResolverProperties.PageName | resolver.go:29-31 | the inverse of the default resolver: a destination ending in `.html` is some page name followed by `.html`, and that page name is what PageName returns; any other sequence has no page name |
| ResolverProperties.PageNameOfResolve | resolver.go:29-31 | stripping `.html` from any default destination gives back the node's target |
| ResolverProperties.ResolveOfPageName | resolver.go:29-31 | every sequence ending in `.html` is the default destination of the page it names, for any fragment and embed flag |
| ResolverProperties.NoExtensionCheck | resolver.go:29-31 | a target that already ends in `.html` still gains the suffix, so its destination ends in `.html.html` |
| ResolverProperties.LiteralTarget | resolver.go:29-31 | for an ASCII target written as text, the destination is that text with `.html` written after it |
| ResolverProperties.PngTargetGainsHtml | resolver.go:29-31 | an embedded `foo.png` resolves to `foo.png.html`: the default resolver keeps other extensions and looks at neither the extension nor the embed flag |
| ResolverProperties.HtmlTargetGainsHtml | resolver.go:29-31 | `foo.html` resolves to `foo.html.html` |
| ResolverProperties.DocExampleFoo | resolver.go:8 | `[[Foo]]` resolves to `Foo.html` |
| ResolverProperties.DocExampleFooBar | resolver.go:9 | `[[Foo bar]]` resolves to `Foo bar.html`, keeping the space unescaped |
| ResolverProperties.DocExampleDirectory | resolver.go:10 | `[[foo/Bar]]` resolves to `foo/Bar.html`, keeping the slash |
| ResolverProperties.TableTestFoo | resolver_test.go:23 | target `foo` resolves to `foo.html` without an error |
| ResolverProperties.TableTestFooBar | resolver_test.go:24 | target `foo bar` resolves to `foo bar.html` without an error |
| ResolverProperties.TableTestDirectory | resolver_test.go:25 | target `foo/bar` resolves to `foo/bar.html` without an error |

## Left out

- The wikilink recogniser, the `Node` type and the HTML renderer (parser.go,
  ast.go, renderer.go). They are aliases of an external package whose source
  is not part of this model. `Node` is reduced to the three fields a resolver
  reads.
- Rendering behaviour checked in renderer_test.go: extension-aware suffixes,
  `#fragment`, image versus link, alt text, and URL-escaping of the
  destination. The external package's renderer and resolver do this, not
  resolver.go. The interface documentation says the caller URL-escapes the
  destination.
- `Kind` (ast.go) is a package variable that re-exports the external package's
  node kind. It has no logic.
- demo/main.go: WebAssembly and JavaScript glue around the goldmark engine. It
  does I/O and blocks forever.
- integration_test.go: it reads YAML fixtures from disk and drives the whole
  goldmark engine.
- The test adapter `resolverFunc` and the renderer tests' `noopResolver`. They
  are test scaffolding.
- Resolvers in general: a resolver here is a function value `Node ->
  Resolution` (`Resolver.ResolverFunc`), a pure function of the node's value.
  A Go `Resolver` receives a `*Node`, so it may mutate the node, and it may
  keep state of its own; the renderer tests' resolver records that it was
  called. Such resolvers are not represented. Only the default resolver, which
  does neither, is reasoned about.
- `DefaultResolver` is a package variable that callers can reassign. The model
  makes it a constant, so `ResolverProperties.DefaultNeverHalts` and
  `ResolverProperties.DefaultReadsOnlyTarget` speak of its initial value,
  `defaultResolver{}`. It is also not the resolver an unconfigured renderer
  uses: that renderer falls back on the external package's own default.
- GoSlices.Copy: the element count that Go's `copy` returns is not modelled,
  because the resolver discards it. Overlapping source and destination are
  not modelled either, because the resolver's copies never overlap.
- Memory allocation and pointer identity: `Node` is passed by pointer in Go.
  Here it is an immutable value, because the default resolver neither mutates
  it nor retains it. Other resolvers may do both (see above).
- Fresh allocation of the destination: the Go method returns a newly made
  slice that shares no backing array with `n.Target`. So writing to the
  destination later never changes the caller's target, unlike
  `append(n.Target, ".html"...)`, which could write into the target's spare
  capacity. Sequences here are immutable values, so the model cannot tell the
  two apart and states nothing about aliasing.
- A nil `*Node`: reading `n.Target` at resolver.go:29 panics. A panic is
  neither a destination nor an error. Nodes here are values, never nil, so
  `ResolverProperties.DefaultNeverHalts` speaks only of actual nodes and says
  nothing about this panic.
- Go's `error` is an interface. Here it is reduced to a message string.
