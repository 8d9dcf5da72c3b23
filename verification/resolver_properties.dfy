/** What the default resolver promises, proved about the model: the shape of
    the destination, its independence from everything but the target, its
    inverse, and the worked examples of its documentation and tests. */
module ResolverProperties {
  import opened GoSlices
  import opened Resolver

  /** The five bytes of the suffix, spelled out. */
  lemma HtmlBytes()
    ensures Html == [46, 104, 116, 109, 108]
  {
  }

  /** The destination is the target's length plus five bytes long, starts
      with the target unchanged and unescaped, and ends with ".html". */
  lemma DestinationShape(n: Node)
    ensures |ResolveWikilink(n).dest| == |n.Target| + 5
    ensures ResolveWikilink(n).dest[..|n.Target|] == n.Target
    ensures ResolveWikilink(n).dest[|n.Target|..] == Html
  {
  }

  /** The destination is exactly the target followed by ".html": a sequence
      is the default resolver's answer for a node if and only if it starts
      with the node's target, unchanged, and ends with the five suffix bytes,
      with nothing in between. */
  lemma DestinationCharacterisation(n: Node, d: seq<byte>)
    ensures ResolveWikilink(n) == Destination(d) <==>
      |d| == |n.Target| + 5 && d[..|n.Target|] == n.Target && d[|n.Target|..] == Html
  {
  }

  /** The default resolver never returns an error. */
  lemma DefaultNeverHalts()
    ensures NeverHalts(DefaultResolver)
  {
  }

  /** Two nodes with the same target get the same destination, whatever
      their fragments and embed flags. */
  lemma SameTargetSameDestination(a: Node, b: Node)
    requires a.Target == b.Target
    ensures ResolveWikilink(a) == ResolveWikilink(b)
  {
  }

  /** `DefaultResolver`, taken as a value, reads only the target. */
  lemma DefaultReadsOnlyTarget()
    ensures ReadsOnlyTarget(DefaultResolver)
  {
    forall a: Node, b: Node | a.Target == b.Target
      ensures DefaultResolver(a) == DefaultResolver(b)
    {
      SameTargetSameDestination(a, b);
    }
  }

  /** Distinct targets give distinct destinations, and equal targets equal
      ones: the default resolver is injective on the target. */
  lemma ResolveInjective(a: Node, b: Node)
    ensures ResolveWikilink(a) == ResolveWikilink(b) <==> a.Target == b.Target
  {
  }

  /** A value that may be absent. */
  datatype Option<T> = None | Some(value: T)

  /** The page name a default-resolver destination refers to: the
      destination without its trailing ".html", or None when it does not end
      that way. */
  function PageName(d: seq<byte>): (r: Option<seq<byte>>)
    ensures r.Some? <==> |d| >= 5 && d[|d| - 5..] == Html
    ensures r.Some? ==> d == r.value + Html
  {
    if |d| >= 5 && d[|d| - 5..] == Html then
      assert d == d[..|d| - 5] + d[|d| - 5..];
      Some(d[..|d| - 5])
    else None
  }

  /** Stripping the suffix recovers the target from any destination. */
  lemma PageNameOfResolve(n: Node)
    ensures PageName(ResolveWikilink(n).dest) == Some(n.Target)
  {
  }

  /** Conversely, every sequence that ends in ".html" is the destination the
      default resolver gives for the page it names, whatever the fragment and
      embed flag of the node. */
  lemma ResolveOfPageName(d: seq<byte>, fragment: seq<byte>, embed: bool)
    requires PageName(d).Some?
    ensures ResolveWikilink(Node(PageName(d).value, fragment, embed)) == Destination(d)
  {
  }

  /** The suffix is appended without looking at the target: a target that
      already ends in ".html" ends in ".html.html" once resolved. */
  lemma NoExtensionCheck(n: Node)
    requires |n.Target| >= 5 && n.Target[|n.Target| - 5..] == Html
    ensures |ResolveWikilink(n).dest| >= 10
    ensures ResolveWikilink(n).dest[|n.Target| - 5..] == Html + Html
  {
  }

  /** For a target written as ASCII text, the destination is that text with
      ".html" written after it. */
  lemma LiteralTarget(t: string, expected: string, fragment: seq<byte>, embed: bool)
    requires forall i :: 0 <= i < |t| ==> t[i] as int < 128
    requires expected == t + ".html"
    ensures ResolveWikilink(Node(FromString(t), fragment, embed)) == Destination(FromString(expected))
  {
    assert FromString(expected) == FromString(t) + Html;
  }

  /** An embedded image target keeps its extension and still gains ".html":
      the default resolver looks at no extension. */
  lemma PngTargetGainsHtml()
    ensures ResolveWikilink(Node(FromString("foo.png"), [], true)) == Destination(FromString("foo.png.html"))
  {
  }

  /** A target that already ends in ".html" gains a second one. */
  lemma HtmlTargetGainsHtml()
    ensures ResolveWikilink(Node(FromString("foo.html"), [], false)) == Destination(FromString("foo.html.html"))
  {
  }

  /** Documented example: `[[Foo]]` resolves to "Foo.html". */
  lemma DocExampleFoo()
    ensures ResolveWikilink(Node(FromString("Foo"), [], false)) == Destination(FromString("Foo.html"))
  {
  }

  /** Documented example: `[[Foo bar]]` resolves to "Foo bar.html"; the space is
      kept as is. */
  lemma DocExampleFooBar()
    ensures ResolveWikilink(Node(FromString("Foo bar"), [], false)) == Destination(FromString("Foo bar.html"))
  {
  }

  /** Documented example: `[[foo/Bar]]` resolves to "foo/Bar.html"; the slash
      is kept as is. */
  lemma DocExampleDirectory()
    ensures ResolveWikilink(Node(FromString("foo/Bar"), [], false)) == Destination(FromString("foo/Bar.html"))
  {
  }

  /** Table test case: target "foo" resolves to "foo.html" without an error. */
  lemma TableTestFoo()
    ensures ResolveWikilink(Node(FromString("foo"), [], false)) == Destination(FromString("foo.html"))
  {
  }

  /** Table test case: target "foo bar" resolves to "foo bar.html" without an
      error. */
  lemma TableTestFooBar()
    ensures ResolveWikilink(Node(FromString("foo bar"), [], false)) == Destination(FromString("foo bar.html"))
  {
  }

  /** Table test case: target "foo/bar" resolves to "foo/bar.html" without an
      error. */
  lemma TableTestDirectory()
    ensures ResolveWikilink(Node(FromString("foo/bar"), [], false)) == Destination(FromString("foo/bar.html"))
  {
  }
}
