/** The wikilink resolver: the contract every resolver meets and the default
    resolver, which names the HTML page a wikilink points to. */
module Resolver {
  import opened GoSlices

  /** A recognised wikilink. Only the fields a resolver can see are modelled:
      the page it points to, the in-page anchor after `#` (empty when there is
      none), and whether it used the embedding `![[...]]` form. The label is a
      child node and is not visible here. */
  datatype Node = Node(Target: seq<byte>, Fragment: seq<byte>, Embed: bool)

  /** The failure a resolver may report; Go's `error` carries a message. */
  datatype Error = Error(message: string)

  /** What a resolver tells the renderer: the destination of the link, or an
      error that halts rendering. */
  datatype Resolution = Destination(dest: seq<byte>) | Halt(err: Error)

  /** Go's `error` result: `nil` or an error value. */
  datatype MaybeError = Nil | NonNil(err: Error)

  /** A resolver as a value: a pure function from a node's value to a
      resolution. */
  type ResolverFunc = Node -> Resolution

  /** How a caller reads the `(destination, err)` pair a Go resolver returns:
      a non-nil error halts rendering whatever destination came with it; only
      with a nil error is the destination used. */
  function FromReturn(destination: seq<byte>, err: MaybeError): (r: Resolution)
    ensures r.Halt? <==> err.NonNil?
    ensures r.Halt? ==> r.err == err.err
    ensures r.Destination? ==> r.dest == destination
  {
    match err
    case Nil => Destination(destination)
    case NonNil(e) => Halt(e)
  }

  /** The suffix the default resolver appends, `[]byte(".html")`. */
  const Html: seq<byte> := FromString(".html")

  /** The Go return pair of `defaultResolver.ResolveWikilink`: allocate
      len(Target) + len(".html") bytes, copy the target to the front, copy
      ".html" behind it, and report no error. The buffer ends up holding the
      target followed by the suffix, and the error is always nil. */
  function DefaultReturn(n: Node): (r: (seq<byte>, MaybeError))
    ensures r.1 == Nil
    ensures r.0 == n.Target + Html
  {
    var dest := Make(|n.Target| + |Html|);
    var dest := Copy(dest, n.Target);
    var dest := CopyAt(dest, |n.Target|, Html);
    (dest, Nil)
  }

  /** The default resolver. Its destination is the target, byte for byte
      and unescaped, followed by ".html"; it never halts rendering. */
  function ResolveWikilink(n: Node): (r: Resolution)
    ensures r.Destination?
    ensures r.dest == n.Target + Html
  {
    var (destination, err) := DefaultReturn(n);
    FromReturn(destination, err)
  }

  /** `DefaultResolver`, the exported default resolver value, initially
      `defaultResolver{}`. */
  const DefaultResolver: ResolverFunc := ResolveWikilink

  /** A resolver that never reports an error. */
  ghost predicate NeverHalts(res: ResolverFunc) {
    forall n :: res(n).Destination?
  }

  /** A resolver whose answer depends on the target alone, not on the
      fragment or the embed flag. */
  ghost predicate ReadsOnlyTarget(res: ResolverFunc) {
    forall a: Node, b: Node :: a.Target == b.Target ==> res(a) == res(b)
  }
}
