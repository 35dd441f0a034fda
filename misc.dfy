/** The key-intercept decorator: a proxy that offers every key event to a
    user predicate before its subject sees it. */
module Misc {
  import opened Elements

  /** The decorator's subject, reduced to what `key` involves: its key
      handler and the state that handler reads and updates. Given the
      context, the key and the current state, the handler answers whether it
      handled the key and what the state is afterwards. */
  datatype Subject<!S> = Subject(key: (Context, KeyInfo, S) -> (bool, S), state: S)
  {
    /** The subject after it has handled `k` in `ctx`. */
    function AfterKey(ctx: Context, k: KeyInfo): (s: Subject<S>)
      ensures s.key == key
    {
      this.(state := key(ctx, k, state).1)
    }
  }

  /** The default `on_key`: it never handles a key. */
  function IgnoreKey(k: KeyInfo): (handled: bool)
    ensures !handled
  {
    false
  }

  datatype KeyInterceptElement<!S> = KeyInterceptElement(subject: Subject<S>, onKey: KeyInfo -> bool)
  {
    /** `key`: the predicate is asked first. When it reports the key as
        handled, the event stops here: the answer is true and the subject,
        state included, is left exactly as it was. Otherwise the subject
        handles the key, and both its answer and its new state are the
        decorator's. */
    function Key(ctx: Context, k: KeyInfo): (r: (bool, KeyInterceptElement<S>))
      ensures onKey(k) ==> r.0 && r.1 == this
      ensures !onKey(k) ==> r.1.onKey == onKey && r.1.subject.key == subject.key
      ensures !onKey(k) ==> (r.0, r.1.subject.state) == subject.key(ctx, k, subject.state)
    {
      if onKey(k) then (true, this)
      else (subject.key(ctx, k, subject.state).0, this.(subject := subject.AfterKey(ctx, k)))
    }

    /** Always a control, whatever the subject says. */
    function IsControl(): (r: bool)
      ensures r
    {
      true
    }

    /** Always wants focus, whatever the subject says. */
    function WantsFocus(): (r: bool)
      ensures r
    {
      true
    }
  }

  /** `key_intercept(subject)`: wraps `subject` with the default `on_key`. */
  function KeyIntercept<S>(subject: Subject<S>): (e: KeyInterceptElement<S>)
    ensures e.subject == subject
    ensures forall k :: !e.onKey(k)
  {
    KeyInterceptElement(subject, IgnoreKey)
  }

  /** A key the predicate handles is reported as handled and leaves the
      subject's state untouched, whatever the subject's handler would have
      done with it: the handler is not run. */
  lemma HandledKeyStops<S>(e: KeyInterceptElement<S>, ctx: Context, k: KeyInfo)
    requires e.onKey(k)
    ensures e.Key(ctx, k).0
    ensures e.Key(ctx, k).1.subject.state == e.subject.state
    ensures forall other: (Context, KeyInfo, S) -> (bool, S) ::
      KeyInterceptElement(e.subject.(key := other), e.onKey).Key(ctx, k).1.subject.state == e.subject.state
  {
  }

  /** A key the predicate declines is handled by the subject in the same
      context: the decorator's answer and the subject's new state are
      exactly those of the subject's handler. */
  lemma DeclinedKeyForwards<S>(e: KeyInterceptElement<S>, ctx: Context, k: KeyInfo)
    requires !e.onKey(k)
    ensures e.Key(ctx, k).0 == e.subject.key(ctx, k, e.subject.state).0
    ensures e.Key(ctx, k).1.subject == e.subject.AfterKey(ctx, k)
  {
  }

  /** With the default predicate the decorator is transparent to keys: it
      answers as its subject does and leaves the subject as handling the key
      would. */
  lemma DefaultInterceptIsTransparent<S>(subject: Subject<S>)
    ensures forall ctx, k :: KeyIntercept(subject).Key(ctx, k).0 == subject.key(ctx, k, subject.state).0
    ensures forall ctx, k :: KeyIntercept(subject).Key(ctx, k).1.subject == subject.AfterKey(ctx, k)
  {
  }
}
