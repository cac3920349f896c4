/**
 * The breadcrumb stack kept in the 'breadcrumbs' config entry, and the
 * [prepare, breadcrumbs] handler that tidies it before display.
 */
module Breadcrumbs {
  import opened Common
  import opened PhpValues

  /** ['title' => ..., 'link' => ...]; a link may be any value, null by default. */
  datatype Crumb = Crumb(title: string, link: Value)

  /** The length elgg_prepare_breadcrumbs asks elgg_get_excerpt for. */
  const ExcerptLength: nat := 100

  /** The top of a stack and the stack below it; None stands for pop's [] on an empty stack. */
  datatype PopResult = PopResult(popped: Option<Crumb>, rest: seq<Crumb>)

  /** What popping a stack gives and leaves. */
  function PopOf(crumbs: seq<Crumb>): (r: PopResult)
    ensures crumbs == [] ==> r == PopResult(None, [])
    ensures crumbs != [] ==> r.popped.Some? && r.rest + [r.popped.value] == crumbs
  {
    if crumbs == [] then PopResult(None, [])
    else PopResult(Some(crumbs[|crumbs| - 1]), crumbs[..|crumbs| - 1])
  }

  /** Pushing a crumb and popping it again gives the crumb back and restores the stack. */
  lemma PushThenPop(crumbs: seq<Crumb>, c: Crumb)
    ensures PopOf(crumbs + [c]) == PopResult(Some(c), crumbs)
  {
    var r := PopOf(crumbs + [c]);
    assert r.rest + [r.popped.value] == crumbs + [c];
    assert |r.rest| == |crumbs|;
    assert r.rest == (crumbs + [c])[..|crumbs|];
  }

  class BreadcrumbStack {
    var crumbs: seq<Crumb>

    /** An unset config entry, which (array) turns into []. */
    constructor()
      ensures crumbs == []
    {
      crumbs := [];
    }

    /** elgg_push_breadcrumb */
    method Push(title: string, link: Value)
      modifies this
      ensures crumbs == old(crumbs) + [Crumb(title, link)]
    {
      crumbs := crumbs + [Crumb(title, link)];
    }

    /** elgg_pop_breadcrumb */
    method Pop() returns (popped: Option<Crumb>)
      modifies this
      ensures PopResult(popped, crumbs) == PopOf(old(crumbs))
    {
      if crumbs == [] {
        return None;
      }
      popped := Some(crumbs[|crumbs| - 1]);
      crumbs := crumbs[..|crumbs| - 1];
    }
  }

  /** PHP's empty($crumb['link']). */
  predicate Linkless(c: Crumb) {
    !Truthy(c.link)
  }

  /**
   * elgg_prepare_breadcrumbs: drops the last crumb when it has no link, then
   * replaces every title by its excerpt.  elgg_get_excerpt is a parameter.
   */
  method PrepareBreadcrumbs(breadcrumbs: seq<Crumb>, excerpt: (string, nat) -> string) returns (r: seq<Crumb>)
    ensures |r| == if breadcrumbs != [] && Linkless(breadcrumbs[|breadcrumbs| - 1])
                   then |breadcrumbs| - 1 else |breadcrumbs|
    ensures forall i :: 0 <= i < |r| ==>
      r[i] == Crumb(excerpt(breadcrumbs[i].title, ExcerptLength), breadcrumbs[i].link)
  {
    r := breadcrumbs;
    // end() of an empty array is false, whose 'link' is null: array_pop then has nothing to take
    if r != [] && Linkless(r[|r| - 1]) {
      r := r[..|r| - 1];
    }
    var n := |r|;
    var i := 0;
    while i < n
      invariant 0 <= i <= n == |r|
      invariant forall j :: 0 <= j < i ==>
        r[j] == Crumb(excerpt(breadcrumbs[j].title, ExcerptLength), breadcrumbs[j].link)
      invariant forall j :: i <= j < n ==> r[j] == breadcrumbs[j]
    {
      r := r[i := r[i].(title := excerpt(r[i].title, ExcerptLength))];
      i := i + 1;
    }
  }
}
