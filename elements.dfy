/** The value types the element-tree core reads: elements, the traversal
    contexts linking them upward, rectangles and key events. Only the parts
    the core looks at are modelled. */
module Elements {

  datatype Option<+T> = None | Some(value: T)

  /** An element of the tree, reduced to what the core's run-time type tests
      can tell apart: a leaf, a composite (identified by `id`), or a proxy
      (decorator) that wraps exactly one subject. */
  datatype Element =
    | Leaf(id: nat)
    | Composite(id: nat)
    | Proxy(subject: Element)

  /** Number of proxy layers around the innermost subject of `e`. */
  function ProxyDepth(e: Element): nat
  {
    if e.Proxy? then ProxyDepth(e.subject) + 1 else 0
  }

  /** A traversal context: the element it was built for and the context of
      the enclosing element, if any. Bounds and the drawing surface are not
      read by the core's upward walk and are left out. */
  datatype Context = Context(element: Element, parent: Option<Context>)

  /** An axis-aligned rectangle; the source's single-precision floats are
      taken as reals. */
  datatype Rect = Rect(left: real, top: real, right: real, bottom: real)

  /** The default-constructed rectangle: all four edges at zero. */
  const EmptyRect: Rect := Rect(0.0, 0.0, 0.0, 0.0)

  /** A key event. The core only passes it along, so its fields are not
      modelled. */
  type KeyInfo(!new)
}
