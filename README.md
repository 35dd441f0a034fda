# Element tree core: composites, containers and the key intercept

A model of three structural parts of a retained-mode UI element tree.

- **Containers.** A composite is also a container: it answers `size()` and `at(ix)`. `empty()` is derived from `size()`. There are two storage adapters. A composite backed by a fixed array or a vector of owned element handles reports the handles it holds. A *range composite* is a non-owning window `[first, last)` onto another container: `size()` is `last - first` in 64-bit unsigned arithmetic, and `at(ix)` forwards to `at(first + ix)` on the backing container.
- **Composite state.** A composite keeps a focus index, a saved-focus index and a drag-tracking index, plus two cached hit records (last click and last hover). All three indices start at the sentinel -1. Each hit record starts with no element, an empty rectangle and index -1. Hit-testing runs in storage order (`reverse_index()` is false) unless a concrete composite overrides it.
- **find_composite.** Starting from a traversal context, this walks up the chain of parent contexts. It does not look at the starting context's own element. At each context it tests the context's element for being a composite. If the element is not a composite but is a proxy (a decorator), it unwraps the subjects one after another and tests each of them. It returns the first composite it finds together with the outer context where it was found. If the chain runs out, it returns two nulls.
- **Key intercept.** A decorator whose user predicate `on_key` sees every key event first. If the predicate handles the key, the event stops there: `true` is returned and the subject's handler does not run. Otherwise the subject's own `key` result is returned. The subject's handler may change the subject's state, so the model threads that state through `key`. The decorator always reports `is_control()` and `wants_focus()` as true. The default predicate handles nothing.

Modules: `Elements` (elements.dfy) holds the shared value types: the element variants, traversal contexts, rectangles and key events. `Composite` (composite.dfy) models lib/include/elements/element/composite.hpp. `Misc` (misc.dfy) models the key intercept of lib/include/elements/element/misc.hpp.

The run-time type tests (`dynamic_cast` to a composite or to a proxy) become constructor tests on the datatype `Element = Leaf | Composite | Proxy(subject)`. A traversal context is a value holding its element and an optional parent. `size_t` is taken to be 64 bits wide. `find_composite` appears twice: `FindCompositeIn` is a method with the source's two nested loops, and `FindFrom`/`FindComposite` is the recursive specification. The method is proved equal to the specification, and the lemmas characterise the specification as "the nearest ancestor that is or wraps a composite".

## Model

| member | source | states |
|---|---|---|
| `Composite.Size` | lib/include/elements/element/composite.hpp:128 | A window's size is below 2^64. It equals `last - first` exactly when `first <= last`. Otherwise the unsigned difference wraps to `2^64 - (first - last)`. |
| `Composite.OwnedContents` | lib/include/elements/element/composite.hpp:102-103 | An array- or vector-backed composite is valid. Its size is the number of handles, and the elements it exposes through `at` are exactly the handles' elements, in order. |
| `Composite.EmptyIffNoElements` | lib/include/elements/element/composite.hpp:30 | `empty()` holds exactly when the container exposes no element. |
| `Composite.Empty` | lib/include/elements/element/composite.hpp:30 | `empty()`, derived from `size()`. An array or vector composite is empty exactly when it holds no handle. A window is empty exactly when `first == last`, even for unordered bounds whose difference wraps. |
| `Composite.At` | lib/include/elements/element/composite.hpp:103-129 | `at(ix)` needs only what the source needs: `ix < size()`, and for a window that the forwarded `size_t` index `first + ix` can be answered by the backing container. Its result is always an element held by the underlying array or vector. |
| `Composite.Valid` | lib/include/elements/element/composite.hpp:118-129 | For a container whose windows are ordered and lie inside their backing containers, every index below `size()` can be passed to `at`. |
| `Composite.InvertedWindowWrapsToFront` | lib/include/elements/element/composite.hpp:128-129 | Take a window with `first > last > 0` over a container that has an element 0. The index `2^64 - first` is below its wrapped size, and `at` sends it to the backing container's index 0, because `first + ix` wraps. |
| `Composite.RangeForwardsInBounds` | lib/include/elements/element/composite.hpp:129 | Take a valid window (`first <= last <= size of the backing container`) and `ix < size()`. Then the forwarded index `first + ix` is below `last`, inside the backing container, and never wraps. |
| `Composite.RangeContents` | lib/include/elements/element/composite.hpp:128-129 | A valid window exposes exactly the slice `[first, last)` of the backing container's elements. |
| `Composite.RangesAgree` | lib/include/elements/element/composite.hpp:129 | Two windows onto the same container return the same element for indices whose forwarded `size_t` index `first + ix` is the same. Only the per-index condition of `at` is required. |
| `Composite.NestedRange` | lib/include/elements/element/composite.hpp:115-135 | A window onto a valid window is a valid window onto the underlying container, shifted by the inner window's start, and it exposes the same elements. |
| `Composite.CompositeBase.constructor` | lib/include/elements/element/composite.hpp:69-89 | A fresh composite has focus, saved focus and drag tracking all at -1. Both cached hit records are the default record (no element, empty rectangle, index -1). `reverse_index()` is false. |
| `Composite.CompositeBase.ReverseIndex` | lib/include/elements/element/composite.hpp:78 | By default hit-testing runs in storage order: `reverse_index()` is false. |
| `Composite.CompositeOf` | lib/include/elements/element/composite.hpp:162-173 | The test made at one level: the element itself first, then each proxy subject in turn. It yields a composite exactly when the element, with all proxy layers removed, is a composite, and the composite it yields is that innermost subject. |
| `Composite.CompositeThroughProxies` | lib/include/elements/element/composite.hpp:166-173 | A composite is found through any number of nested proxies. |
| `Composite.CompositeOfIsWrapped` | lib/include/elements/element/composite.hpp:166-173 | Conversely, an element yields a composite only when it is that composite inside exactly as many proxies as it has layers. |
| `Composite.FindFrom` | lib/include/elements/element/composite.hpp:146-176 | The search result has both components null or both non-null. A returned composite is a composite, and it is what the returned context's own element yields (so the context is the outer one, not one for the unwrapped subject). That context is one of the contexts in the chain searched. |
| `Composite.FindComposite` | lib/include/elements/element/composite.hpp:143-147 | `find_composite(ctx)` starts at `ctx.parent`. Both result components are null or both are non-null, and a returned context is one of the ancestors reached from the parent. |
| `Composite.FindFromNearest` | lib/include/elements/element/composite.hpp:148-175 | If the ancestor at position `i` is the first one whose element yields a composite, the search returns that composite paired with that ancestor. |
| `Composite.FindFromExhausted` | lib/include/elements/element/composite.hpp:174-176 | The search returns `(null, null)` exactly when no context in the chain yields a composite. |
| `Composite.FindFromFound` | lib/include/elements/element/composite.hpp:150-164 | A context the search returns is the nearest ancestor that yields a composite. |
| `Composite.FindCompositeNearest` | lib/include/elements/element/composite.hpp:143-177 | `find_composite(ctx)` returns two nulls exactly when no ancestor of `ctx` (starting at its parent) yields a composite. Otherwise it returns the nearest such ancestor and the composite its element yields. |
| `Composite.FindCompositeSkipsOwnElement` | lib/include/elements/element/composite.hpp:147 | The result does not depend on the starting context's own element, only on its parent chain. |
| `Composite.FindCompositeIn` | lib/include/elements/element/composite.hpp:143-177 | The loop version with its two nested loops (parents, then proxy subjects) returns exactly what the recursive specification returns, for every context chain. |
| `Composite.TunnelsThroughDecorators` | lib/include/elements/element/composite.hpp:143-177 | Two concrete chains. In the first, the search passes two decorator levels and finds the composite above them. In the second, it finds a composite wrapped in two proxies and pairs it with the decorator's own context. |
| `Misc.KeyInterceptElement.Key` | lib/include/elements/element/misc.hpp:280-286 | If `on_key(k)` is true, the result is true and the decorator comes back unchanged, including its subject's state. If `on_key(k)` is false, the answer and the subject's new state are exactly those of the subject's `key(ctx, k)`, and the predicate and handler are kept. |
| `Misc.KeyInterceptElement.IsControl` | lib/include/elements/element/misc.hpp:265 | Always true. |
| `Misc.KeyInterceptElement.WantsFocus` | lib/include/elements/element/misc.hpp:266 | Always true. |
| `Misc.IgnoreKey` | lib/include/elements/element/misc.hpp:270 | The default `on_key` handles no key. |
| `Misc.KeyIntercept` | lib/include/elements/element/misc.hpp:270-278 | Wrapping a subject keeps that subject and installs the default `on_key`, which handles no key. |
| `Misc.HandledKeyStops` | lib/include/elements/element/misc.hpp:283-284 | When `on_key(k)` holds, `key` is true and the subject's state is left as it was. This holds whatever the subject's handler would have done to that state, so the handler is not run. |
| `Misc.DeclinedKeyForwards` | lib/include/elements/element/misc.hpp:285 | When `on_key(k)` fails, `key` answers as the subject's handler does for the same context and key, and the subject ends in the state that handler leaves. |
| `Misc.DefaultInterceptIsTransparent` | lib/include/elements/element/misc.hpp:270-285 | With the default `on_key`, the decorator's answer and the subject's resulting state equal the subject's own handling of every key in every context. |

## Left out

- The drawing elements of misc.hpp (boxes, panels, frames, headings, title bars, labels, grid lines, icons): canvas calls, float geometry, fonts and a global theme lookup.
- The behaviour of the composite's dispatch operations (hit-testing, draw, scroll, refresh, click, drag, key, text, cursor, focus, reset, `hit_element`). composite.hpp only declares them and their definitions are not part of this model. Only the fields they share and those fields' declared initial values are modelled.
- `limits`, `layout` and `bounds_of`: abstract layout hooks over rectangle and float geometry.
- The rest of an element's interface, and proxy.hpp, context.hpp and key.hpp. These are not part of this model. An element is reduced to what the run-time type tests can distinguish. A context is reduced to its element and its parent, without bounds or drawing surface. A key event is an opaque value. The subject of a key intercept is reduced to its key handler and the state that handler reads and writes. Its own `is_control`/`wants_focus` answers are not modelled, because the decorator never consults them.
- Object identity. Contexts and elements are values, so "the same context" is structural equality. A null element pointer in a context behaves like a leaf in the search: both type tests fail on it. The model does not distinguish the two.
- An element that is both a composite and a proxy cannot be written down. The source tests the composite case first, and so does `CompositeOf`.
- Null element handles in an array composite. `at` on one would dereference null, and the model's handles are always elements.
- Ownership, virtual destructors, template base composition and `using` declarations: C++ mechanics with no counterpart here. The `std::function` holding `on_key` is a function value.
- The lifetime hazard of a range composite outliving its backing container. The model assumes the backing container is alive. `at` requires only the per-index condition the source needs. The lemmas about a window's whole contents (`Contents`, `RangeContents`, `NestedRange`, `EmptyIffNoElements`) assume `Valid`: the window is ordered and lies inside its backing container.
- The width of `size_t`, which depends on the platform. The model takes it to be 64 bits, so window sizes and forwarded indices wrap modulo 2^64.
- The `on_key` predicate is a pure function. Any effect a user predicate might have is not modelled.
