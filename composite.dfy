/** Composites: the container contract and its storage adapters, the declared
    initial state of a composite, and the upward search for the nearest
    composite ancestor of a traversal context. */
module Composite {
  import opened Elements

  // ---------------------------------------------------------------------------
  // Containers
  // ---------------------------------------------------------------------------

  /** One more than the largest value of the 64-bit unsigned `size_t`. */
  const SizeLimit: nat := 0x1_0000_0000_0000_0000

  type SizeT = n: int | 0 <= n < 0x1_0000_0000_0000_0000

  /** An ordered collection of elements. `Owned` is a composite backed by a
      fixed-size array or a growable vector of owned handles (both answer
      `size` and `at` the same way); `Range` is a non-owning window
      `[first, last)` onto another container. */
  datatype Container =
    | Owned(handles: seq<Element>)
    | Range(backing: Container, first: SizeT, last: SizeT)

  /** `size()`: the handles held, or for a window `last - first` computed in
      `size_t`, which wraps around when `first > last`. */
  function Size(c: Container): (n: nat)
    ensures c.Range? ==> n < SizeLimit
    ensures c.Range? ==> (n == c.last - c.first <==> c.first <= c.last)
    ensures c.Range? && c.first > c.last ==> n == SizeLimit - (c.first - c.last)
  {
    match c
    case Owned(handles) => |handles|
    case Range(_, first, last) => (last - first) % SizeLimit
  }

  /** The handles of the array or vector that finally holds a container's
      elements, found by following windows to what they look through. */
  function Storage(c: Container): seq<Element>
  {
    match c
    case Owned(handles) => handles
    case Range(backing, _, _) => Storage(backing)
  }

  /** `empty()`, derived from `size()`: an array or vector composite is empty
      when it holds no handle, a window when its two bounds coincide, whether
      or not they are ordered (the wrapped difference of two distinct
      `size_t` values is never zero). */
  function Empty(c: Container): (r: bool)
    ensures c.Owned? ==> (r <==> c.handles == [])
    ensures c.Range? ==> (r <==> c.first == c.last)
  {
    Size(c) == 0
  }

  /** What `at(ix)` demands of its caller: `ix < size()`, and for a window
      that the index it forwards, `first + ix` in `size_t`, is one the
      backing container can answer in turn. */
  predicate Addressable(c: Container, ix: nat)
  {
    match c
    case Owned(handles) => ix < |handles|
    case Range(backing, first, _) => ix < Size(c) && Addressable(backing, (first + ix) % SizeLimit)
  }

  /** A container whose windows are ordered and lie inside the containers
      they look through: the container contract's own invariant, under which
      every index below `size()` can be passed to `at`. */
  predicate Valid(c: Container): (r: bool)
    ensures r ==> forall ix :: 0 <= ix < Size(c) ==> Addressable(c, ix)
  {
    match c
    case Owned(_) => true
    case Range(backing, first, last) => Valid(backing) && first <= last <= Size(backing)
  }

  /** `at(ix)`: the element held by the `ix`-th handle, or for a window the
      backing container's element at `first + ix` computed in `size_t`. It
      never makes up an element: what it returns is held by the underlying
      array or vector. */
  function At(c: Container, ix: nat): (e: Element)
    requires Addressable(c, ix)
    ensures e in Storage(c)
  {
    match c
    case Owned(handles) => handles[ix]
    case Range(backing, first, _) => At(backing, (first + ix) % SizeLimit)
  }

  /** The elements a container exposes, in index order. */
  function Contents(c: Container): (s: seq<Element>)
    requires Valid(c)
    ensures |s| == Size(c)
    ensures forall ix :: 0 <= ix < |s| ==> s[ix] == At(c, ix)
  {
    seq(Size(c), ix requires 0 <= ix < Size(c) => At(c, ix))
  }

  /** An array or vector composite exposes exactly the elements its handles
      hold, in order. */
  lemma OwnedContents(handles: seq<Element>)
    ensures Valid(Owned(handles))
    ensures Size(Owned(handles)) == |handles|
    ensures Contents(Owned(handles)) == handles
  {
  }

  /** A composite is empty exactly when it exposes no element. */
  lemma EmptyIffNoElements(c: Container)
    requires Valid(c)
    ensures Empty(c) <==> Contents(c) == []
  {
  }

  /** A window whose bounds are reversed reports a size just short of 2^64,
      and the index that brings `first + ix` to 2^64 wraps around to the
      front of the backing container. */
  lemma InvertedWindowWrapsToFront(backing: Container, first: SizeT, last: SizeT)
    requires last < first && 0 < last
    requires Addressable(backing, 0)
    ensures Addressable(Range(backing, first, last), SizeLimit - first)
    ensures At(Range(backing, first, last), SizeLimit - first) == At(backing, 0)
  {
  }

  /** For an index below a valid window's size, the index it forwards lies
      inside the backing container and does not wrap around. */
  lemma RangeForwardsInBounds(c: Container, ix: nat)
    requires Valid(c) && c.Range? && ix < Size(c)
    ensures c.first + ix < c.last <= Size(c.backing)
    ensures c.first + ix < SizeLimit
  {
  }

  /** A valid window exposes exactly the slice `[first, last)` of its
      backing container's elements. */
  lemma RangeContents(c: Container)
    requires Valid(c) && c.Range?
    ensures Contents(c) == Contents(c.backing)[c.first..c.last]
  {
  }

  /** Two windows onto the same container refer to the same element for the
      same absolute index, the `size_t` sum `first + ix`. */
  lemma RangesAgree(r1: Container, r2: Container, ix1: nat, ix2: nat)
    requires r1.Range? && r2.Range? && r1.backing == r2.backing
    requires Addressable(r1, ix1) && Addressable(r2, ix2)
    requires (r1.first + ix1) % SizeLimit == (r2.first + ix2) % SizeLimit
    ensures At(r1, ix1) == At(r2, ix2)
  {
  }

  /** A window onto a window is a window onto the underlying container,
      shifted by the start of the window it is laid over. */
  lemma {:induction false} NestedRange(backing: Container, f1: SizeT, l1: SizeT, f2: SizeT, l2: SizeT)
    requires Valid(Range(Range(backing, f1, l1), f2, l2))
    ensures f1 + l2 < SizeLimit
    ensures Valid(Range(backing, f1 + f2, f1 + l2))
    ensures Contents(Range(Range(backing, f1, l1), f2, l2)) == Contents(Range(backing, f1 + f2, f1 + l2))
  {
    var inner := Range(backing, f1, l1);
    var outer := Range(inner, f2, l2);
    var flat := Range(backing, f1 + f2, f1 + l2);
    RangeContents(outer);
    RangeContents(inner);
    RangeContents(flat);
    assert Contents(inner)[f2..l2] == Contents(backing)[f1 + f2..f1 + l2];
  }

  // ---------------------------------------------------------------------------
  // The composite's declared state
  // ---------------------------------------------------------------------------

  /** The "no index" sentinel for focus, saved focus, drag tracking and hits. */
  const NoIndex: int := -1

  /** The result of a point-containment query over a composite's children. */
  datatype HitInfo = HitInfo(element: Option<Element>, bounds: Rect, index: int)

  /** A default-constructed hit record: no element, empty bounds, no index. */
  const NoHit: HitInfo := HitInfo(None, EmptyRect, NoIndex)

  /** The dispatch state every composite keeps. Only its declared initial
      values and the default of `reverse_index` are modelled; the operations
      that update it are defined outside this core. */
  class CompositeBase {
    var focus: int
    var savedFocus: int
    var dragTracking: int
    var clickInfo: HitInfo
    var cursorInfo: HitInfo

    /** A fresh composite: nothing focused, nothing remembered, nothing
        tracked, no cached hits, and hit-testing in storage order. */
    constructor ()
      ensures focus == NoIndex && savedFocus == NoIndex && dragTracking == NoIndex
      ensures clickInfo == NoHit && cursorInfo == NoHit
      ensures !ReverseIndex()
    {
      focus, savedFocus, dragTracking := NoIndex, NoIndex, NoIndex;
      clickInfo, cursorInfo := NoHit, NoHit;
    }

    /** Whether hit-testing visits children last to first; false unless a
        concrete composite says otherwise. */
    function ReverseIndex(): (r: bool)
      ensures !r
    {
      false
    }
  }

  // ---------------------------------------------------------------------------
  // Finding the composite ancestor of a context
  // ---------------------------------------------------------------------------

  /** The subject left once every proxy layer around `e` is removed. */
  function Innermost(e: Element): (r: Element)
    ensures !r.Proxy?
  {
    if e.Proxy? then Innermost(e.subject) else e
  }

  /** The composite that `e` is, or that `e` wraps through proxies: `e` itself
      is tested first, then each subject in turn. */
  function CompositeOf(e: Element): (r: Option<Element>)
    ensures r.Some? <==> Innermost(e).Composite?
    ensures r.Some? ==> r.value == Innermost(e)
  {
    if e.Composite? then Some(e)
    else if e.Proxy? then CompositeOf(e.subject)
    else None
  }

  /** `e` wrapped in `n` proxy layers. */
  function Wrap(e: Element, n: nat): Element
  {
    if n == 0 then e else Proxy(Wrap(e, n - 1))
  }

  /** A composite is found through any number of proxies around it. */
  lemma {:induction false} CompositeThroughProxies(c: Element, n: nat)
    requires c.Composite?
    ensures CompositeOf(Wrap(c, n)) == Some(c)
  {
    if n > 0 {
      CompositeThroughProxies(c, n - 1);
    }
  }

  /** Conversely, an element yields a composite only if it is that composite
      wrapped in as many proxies as it has layers. */
  lemma {:induction false} CompositeOfIsWrapped(e: Element)
    requires CompositeOf(e).Some?
    ensures e == Wrap(CompositeOf(e).value, ProxyDepth(e))
  {
    if e.Proxy? {
      CompositeOfIsWrapped(e.subject);
    }
  }

  /** The pair the search returns: a composite and the context it was found
      at, or neither. */
  datatype Found = Found(composite: Option<Element>, context: Option<Context>)

  const NotFound: Found := Found(None, None)

  /** The contexts met walking up from `p`, nearest first. */
  function Ancestors(p: Option<Context>): seq<Context>
    decreases p
  {
    match p
    case None => []
    case Some(c) => [c] + Ancestors(c.parent)
  }

  /** The search from context `p` upward: the first context whose element is,
      or wraps, a composite, paired with that composite. */
  function FindFrom(p: Option<Context>): (r: Found)
    ensures r.composite.Some? <==> r.context.Some?
    ensures r.composite.Some? ==> r.composite.value.Composite?
    ensures r.context.Some? ==> r.composite == CompositeOf(r.context.value.element)
    ensures r.context.Some? ==> r.context.value in Ancestors(p)
    decreases p
  {
    match p
    case None => NotFound
    case Some(c) =>
      var hit := CompositeOf(c.element);
      if hit.Some? then Found(hit, p) else FindFrom(c.parent)
  }

  /** `find_composite(ctx)`: the search starts at the parent of `ctx`, so a
      context it returns is one of the ancestors reached from there. */
  function FindComposite(ctx: Context): (r: Found)
    ensures r.composite.Some? <==> r.context.Some?
    ensures r.context.Some? ==> r.context.value in Ancestors(ctx.parent)
  {
    FindFrom(ctx.parent)
  }

  /** Index `i` of `a` is the nearest context whose element yields a
      composite. */
  ghost predicate IsNearest(a: seq<Context>, i: int)
  {
    && 0 <= i < |a|
    && CompositeOf(a[i].element).Some?
    && forall j :: 0 <= j < i ==> CompositeOf(a[j].element).None?
  }

  /** The contexts above the first one are the ancestors of its parent. */
  lemma AncestorsTail(c: Context)
    ensures Ancestors(Some(c)) == [c] + Ancestors(c.parent)
    ensures forall j :: 0 <= j < |Ancestors(c.parent)| ==> Ancestors(c.parent)[j] == Ancestors(Some(c))[j + 1]
  {
  }

  /** The search returns the nearest yielding ancestor and its context. */
  lemma {:induction false} FindFromNearest(p: Option<Context>, i: int)
    requires IsNearest(Ancestors(p), i)
    ensures FindFrom(p) == Found(CompositeOf(Ancestors(p)[i].element), Some(Ancestors(p)[i]))
    decreases p
  {
    var c := p.value;
    AncestorsTail(c);
    if i > 0 {
      assert CompositeOf(Ancestors(p)[0].element).None?;
      assert IsNearest(Ancestors(c.parent), i - 1);
      FindFromNearest(c.parent, i - 1);
    }
  }

  /** The search comes back empty exactly when no ancestor yields a composite. */
  lemma {:induction false} FindFromExhausted(p: Option<Context>)
    ensures FindFrom(p) == NotFound <==> forall j :: 0 <= j < |Ancestors(p)| ==> CompositeOf(Ancestors(p)[j].element).None?
    decreases p
  {
    if p.Some? {
      var c := p.value;
      AncestorsTail(c);
      if CompositeOf(c.element).Some? {
        assert CompositeOf(Ancestors(p)[0].element).Some?;
      } else {
        FindFromExhausted(c.parent);
      }
    }
  }

  /** A context the search returns is the nearest yielding ancestor. */
  lemma {:induction false} FindFromFound(p: Option<Context>)
    requires FindFrom(p).context.Some?
    ensures exists i :: IsNearest(Ancestors(p), i) && FindFrom(p).context == Some(Ancestors(p)[i])
    decreases p
  {
    var c := p.value;
    AncestorsTail(c);
    var a, b := Ancestors(p), Ancestors(c.parent);
    if CompositeOf(c.element).Some? {
      assert IsNearest(a, 0);
    } else {
      assert FindFrom(p) == FindFrom(c.parent);
      FindFromFound(c.parent);
      var i :| IsNearest(b, i) && FindFrom(c.parent).context == Some(b[i]);
      assert a[i + 1] == b[i];
      assert IsNearest(a, i + 1);
    }
  }

  /** `find_composite` returns the nearest ancestor context of `ctx` whose
      element is, or wraps, a composite, paired with that composite; it
      returns the outer context itself, not one for the unwrapped subject;
      and it returns two nulls exactly when no ancestor yields a composite. */
  lemma FindCompositeNearest(ctx: Context)
    ensures var r, a := FindComposite(ctx), Ancestors(ctx.parent);
      && (r == NotFound <==> forall j :: 0 <= j < |a| ==> CompositeOf(a[j].element).None?)
      && (r != NotFound ==> exists i :: IsNearest(a, i) && r == Found(CompositeOf(a[i].element), Some(a[i])))
  {
    FindFromExhausted(ctx.parent);
    if FindComposite(ctx) != NotFound {
      FindFromFound(ctx.parent);
    }
  }

  /** The element of the starting context is never inspected. */
  lemma FindCompositeSkipsOwnElement(e1: Element, e2: Element, parent: Option<Context>)
    ensures FindComposite(Context(e1, parent)) == FindComposite(Context(e2, parent))
  {
  }

  /** `find_composite` as the source writes it: an outer loop over the parent
      chain and, at each context, an inner loop unwrapping proxies. */
  method FindCompositeIn(ctx: Context) returns (r: Found)
    ensures r == FindComposite(ctx)
  {
    r := NotFound;
    var p := ctx.parent;
    while p.Some?
      invariant r == NotFound
      invariant FindFrom(p) == FindComposite(ctx)
      decreases p
    {
      var e := p.value.element;
      if e.Composite? {
        r := Found(Some(e), p);
        return;
      }
      var proxy: Option<Element> := if e.Proxy? then Some(e) else None;
      while proxy.Some?
        invariant proxy.Some? ==> proxy.value.Proxy? && CompositeOf(proxy.value) == CompositeOf(e)
        invariant proxy.None? ==> CompositeOf(e).None?
        decreases if proxy.Some? then ProxyDepth(proxy.value) else 0
      {
        var subject := proxy.value.subject;
        if subject.Composite? {
          r := Found(Some(subject), p);
          return;
        }
        proxy := if subject.Proxy? then Some(subject) else None;
      }
      p := p.value.parent;
    }
  }

  /** A leaf under two decorators that wrap plain leaves, under a composite,
      under a root: the search passes both decorators and stops at the
      composite. Then a leaf under two nested decorators around a composite:
      the search returns the wrapped composite with the outer decorator's
      context. */
  lemma TunnelsThroughDecorators()
    ensures var root := Context(Leaf(0), None);
      var comp := Context(Composite(1), Some(root));
      var d2 := Context(Proxy(Leaf(2)), Some(comp));
      var d1 := Context(Proxy(Proxy(Leaf(3))), Some(d2));
      FindComposite(Context(Leaf(4), Some(d1))) == Found(Some(Composite(1)), Some(comp))
    ensures var root := Context(Leaf(0), None);
      var deco := Context(Proxy(Proxy(Composite(5))), Some(root));
      FindComposite(Context(Leaf(6), Some(deco))) == Found(Some(Composite(5)), Some(deco))
  {
  }
}
