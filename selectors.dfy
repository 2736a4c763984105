/** The selector helpers of `src/content/utils/gmailSelectors.ts` and the field
    lookup of `getRecipientsFromField`. A document or element is queried only
    through oracles: `query(sel)` is what `querySelector(sel)` returns on the
    context, `queryAll(sel)` what `querySelectorAll(sel)` returns, `matches(sel)`
    what `element.matches(sel)` answers. The selector lists of the shared
    `GmailSelectors` table are parameters; the lists written inside
    `getRecipientsFromField` are built here from the field name. */
module Selectors {
  import opened Wrappers
  import opened Recipients
  import opened Text

  type Element = nat
  type Selector = string

  // ---------------------------------------------------------------- findElement

  /** The element of the first selector in list order that matches anything. */
  function FirstMatch(selectors: seq<Selector>, query: Selector -> Option<Element>): (r: Option<Element>)
    ensures r.None? <==> forall i :: 0 <= i < |selectors| ==> query(selectors[i]).None?
    ensures r.Some? ==> exists i :: 0 <= i < |selectors| && query(selectors[i]) == r && NoneBefore(selectors, query, i)
  {
    if selectors == [] then None
    else if query(selectors[0]).Some? then
      assert NoneBefore(selectors, query, 0);
      query(selectors[0])
    else
      var r := FirstMatch(selectors[1..], query);
      assert forall i :: 0 <= i < |selectors| - 1 ==> selectors[1..][i] == selectors[i + 1];
      assert forall i :: 0 < i < |selectors| ==> selectors[i] == selectors[1..][i - 1];
      r
  }

  /** No selector before position `i` matches. */
  predicate NoneBefore(selectors: seq<Selector>, query: Selector -> Option<Element>, i: int) {
    forall j :: 0 <= j < i && j < |selectors| ==> query(selectors[j]).None?
  }

  /** The element found is the one of the earliest matching selector: the
      selector that produced it matches and none before it does. */
  lemma {:induction false} FirstMatchEarliest(selectors: seq<Selector>, query: Selector -> Option<Element>, i: int)
    requires 0 <= i < |selectors| && query(selectors[i]).Some? && NoneBefore(selectors, query, i)
    ensures FirstMatch(selectors, query) == query(selectors[i])
    decreases i
  {
    if i > 0 {
      var rest := selectors[1..];
      assert query(selectors[0]).None?;
      assert rest[i - 1] == selectors[i];
      assert NoneBefore(rest, query, i - 1) by {
        forall j | 0 <= j < i - 1 ensures query(rest[j]).None? {
          assert rest[j] == selectors[j + 1];
        }
      }
      FirstMatchEarliest(rest, query, i - 1);
    }
  }

  /** `findElement`: try the selectors in order and return the first hit. */
  method FindElement(selectors: seq<Selector>, query: Selector -> Option<Element>) returns (r: Option<Element>)
    ensures r == FirstMatch(selectors, query)
  {
    for i := 0 to |selectors|
      invariant NoneBefore(selectors, query, i)
    {
      var element := query(selectors[i]);
      if element.Some? {
        FirstMatchEarliest(selectors, query, i);
        return element;
      }
    }
    return None;
  }

  // ---------------------------------------------------------------- findAllElements

  /** `findAllElements`: every selector's matches, pushed in selector order. */
  method FindAllElements(selectors: seq<Selector>, queryAll: Selector -> seq<Element>) returns (r: seq<Element>)
    ensures r == FlatMap(selectors, queryAll)
  {
    r := [];
    for i := 0 to |selectors|
      invariant r == FlatMap(selectors[..i], queryAll)
    {
      assert selectors[..i + 1][..i] == selectors[..i];
      r := r + queryAll(selectors[i]);
    }
    assert selectors[..|selectors|] == selectors;
  }

  /** The number of matches, summed selector by selector from the front. */
  function TotalMatches(selectors: seq<Selector>, queryAll: Selector -> seq<Element>): nat {
    if selectors == [] then 0 else |queryAll(selectors[0])| + TotalMatches(selectors[1..], queryAll)
  }

  /** The results of two selector lists come out one after the other. */
  lemma {:induction false} FlatMapAppend<T, U>(xs: seq<T>, ys: seq<T>, f: T -> seq<U>)
    ensures FlatMap(xs + ys, f) == FlatMap(xs, f) + FlatMap(ys, f)
  {
    if ys == [] {
      assert xs + ys == xs;
    } else {
      var front := ys[..|ys| - 1];
      assert (xs + ys)[..|xs + ys| - 1] == xs + front;
      assert (xs + ys)[|xs + ys| - 1] == ys[|ys| - 1];
      FlatMapAppend(xs, front, f);
    }
  }

  lemma FlatMapSnoc<T, U>(xs: seq<T>, x: T, f: T -> seq<U>)
    ensures FlatMap(xs + [x], f) == FlatMap(xs, f) + f(x)
  {
    assert (xs + [x])[..|xs + [x]| - 1] == xs;
  }

  lemma FlatMapTakeDrop<T, U>(xs: seq<T>, f: T -> seq<U>, n: int)
    requires 0 <= n <= |xs|
    ensures FlatMap(xs, f) == FlatMap(xs[..n], f) + FlatMap(xs[n..], f)
  {
    assert xs == xs[..n] + xs[n..];
    FlatMapAppend(xs[..n], xs[n..], f);
  }

  lemma FlatMapPrefix<T, U>(xs: seq<T>, f: T -> seq<U>, i: int)
    requires 0 <= i < |xs|
    ensures FlatMap(xs[..i + 1], f) == FlatMap(xs[..i], f) + f(xs[i])
  {
    assert xs[..i + 1] == xs[..i] + [xs[i]];
    FlatMapSnoc(xs[..i], xs[i], f);
  }

  lemma FlatMapSplit<T, U>(xs: seq<T>, f: T -> seq<U>, i: int)
    requires 0 <= i < |xs|
    ensures FlatMap(xs, f) == FlatMap(xs[..i], f) + f(xs[i]) + FlatMap(xs[i + 1..], f)
  {
    FlatMapTakeDrop(xs, f, i + 1);
    FlatMapPrefix(xs, f, i);
  }

  /** Nothing is merged or dropped: the length is the sum of the per-selector
      counts, duplicates included. */
  lemma {:induction false} FindAllLength(selectors: seq<Selector>, queryAll: Selector -> seq<Element>)
    ensures |FlatMap(selectors, queryAll)| == TotalMatches(selectors, queryAll)
  {
    if selectors != [] {
      FindAllLength(selectors[1..], queryAll);
      FlatMapAppend([selectors[0]], selectors[1..], queryAll);
      assert [selectors[0]] + selectors[1..] == selectors;
      assert [selectors[0]][..0] == [];
    }
  }

  /** The matches of selector `i` appear intact, after those of every earlier
      selector and before those of every later one. */
  lemma FindAllOrder(selectors: seq<Selector>, queryAll: Selector -> seq<Element>, i: int)
    requires 0 <= i < |selectors|
    ensures FlatMap(selectors, queryAll)
      == FlatMap(selectors[..i], queryAll) + queryAll(selectors[i]) + FlatMap(selectors[i + 1..], queryAll)
  {
    FlatMapSplit(selectors, queryAll, i);
  }

  // ---------------------------------------------------------------- matchesAnySelector

  /** `selectors.some(selector => element.matches(selector))`. */
  function MatchesAny(selectors: seq<Selector>, matches: Selector -> bool): (r: bool)
    ensures r <==> exists i :: 0 <= i < |selectors| && matches(selectors[i])
  {
    if selectors == [] then false
    else if matches(selectors[0]) then true
    else
      assert forall i :: 0 < i < |selectors| ==> selectors[i] == selectors[1..][i - 1];
      MatchesAny(selectors[1..], matches)
  }

  // ---------------------------------------------------------------- GmailUtils

  /** `isInComposeWindow`: the compose selectors find something in the document. */
  method IsInComposeWindow(composeSelectors: seq<Selector>, query: Selector -> Option<Element>) returns (r: bool)
    ensures r <==> exists i :: 0 <= i < |composeSelectors| && query(composeSelectors[i]).Some?
    ensures r <==> FirstMatch(composeSelectors, query).Some?
  {
    var w := FindElement(composeSelectors, query);
    r := w.Some?;
  }

  /** `getComposeWindow`: what the compose selectors find in the document. */
  method GetComposeWindow(composeSelectors: seq<Selector>, query: Selector -> Option<Element>) returns (w: Option<Element>)
    ensures w == FirstMatch(composeSelectors, query)
  {
    w := FindElement(composeSelectors, query);
  }

  // ---------------------------------------------------------------- getRecipientsFromField

  datatype Field = To | Cc | Bcc

  function FieldName(f: Field): string {
    match f
    case To => "To"
    case Cc => "Cc"
    case Bcc => "Bcc"
  }

  function FieldLower(f: Field): string {
    match f
    case To => "to"
    case Cc => "cc"
    case Bcc => "bcc"
  }

  function FieldUpper(f: Field): string {
    match f
    case To => "TO"
    case Cc => "CC"
    case Bcc => "BCC"
  }

  /** Method 1: the field container looked up by its label, in this order. */
  function ContainerSelectors(f: Field): (r: seq<Selector>)
    ensures |r| == 6
  {
    var name := FieldName(f);
    [ "div[aria-label=\"" + name + "\"]",
      "div[aria-label*=\"" + name + "\"]",
      "div[data-tooltip*=\"" + name + "\"]",
      "div[title*=\"" + name + "\"]",
      "div[aria-label=\"" + FieldLower(f) + "\"]",
      "div[aria-label=\"" + FieldUpper(f) + "\"]" ]
  }

  /** Method 2: the field's own input or textarea. */
  function FieldInputSelector(f: Field): Selector {
    "textarea[name=\"" + FieldLower(f) + "\"], input[name=\"" + FieldLower(f) + "\"]"
  }

  /** Method 3: Gmail's recipient-field container classes. */
  const ClassSelectors: seq<Selector> := [".vO", ".aA5", ".aA6"]

  /** The DOM around the compose window: `query(ctx, sel)` is
      `ctx.querySelector(sel)`, `closestDiv(e)` is `e.closest('div')` and
      `parent(e)` is `e.parentElement`. */
  datatype Dom = Dom(
    query: (Element, Selector) -> Option<Element>,
    closestDiv: Element -> Option<Element>,
    parent: Element -> Option<Element>)

  function Within(dom: Dom, ctx: Element): Selector -> Option<Element> {
    sel => dom.query(ctx, sel)
  }

  /** The container of the field input: `closest('div') || parentElement`. */
  function InputContainer(dom: Dom, composeWindow: Element, f: Field): Option<Element> {
    match dom.query(composeWindow, FieldInputSelector(f))
    case None => None
    case Some(input) => if dom.closestDiv(input).Some? then dom.closestDiv(input) else dom.parent(input)
  }

  /** The element whose recipients are read: the first of the three lookups
      that finds something, or the compose window itself. */
  function FieldContainer(dom: Dom, composeWindow: Element, f: Field): (c: Element) {
    var byLabel := FirstMatch(ContainerSelectors(f), Within(dom, composeWindow));
    if byLabel.Some? then byLabel.value
    else
      var byInput := InputContainer(dom, composeWindow, f);
      if byInput.Some? then byInput.value
      else
        var byClass := FirstMatch(ClassSelectors, Within(dom, composeWindow));
        if byClass.Some? then byClass.value else composeWindow
  }

  predicate NoLabelMatch(dom: Dom, composeWindow: Element, f: Field) {
    forall i :: 0 <= i < |ContainerSelectors(f)| ==> dom.query(composeWindow, ContainerSelectors(f)[i]).None?
  }

  predicate NoClassMatch(dom: Dom, composeWindow: Element) {
    forall i :: 0 <= i < |ClassSelectors| ==> dom.query(composeWindow, ClassSelectors[i]).None?
  }

  /** The lookups are tried in order: a labelled container wins over
      everything, the field input's container over the class fallback; when
      nothing is found the whole compose window is searched. */
  lemma FieldContainerRules(dom: Dom, composeWindow: Element, f: Field)
    ensures var c, cs := FieldContainer(dom, composeWindow, f), ContainerSelectors(f);
      && (forall i :: 0 <= i < |cs| && dom.query(composeWindow, cs[i]).Some? && NoneBefore(cs, Within(dom, composeWindow), i)
            ==> c == dom.query(composeWindow, cs[i]).value)
      && ((NoLabelMatch(dom, composeWindow, f) && InputContainer(dom, composeWindow, f).Some?)
            ==> c == InputContainer(dom, composeWindow, f).value)
      && (forall j :: 0 <= j < |ClassSelectors| && NoLabelMatch(dom, composeWindow, f) && InputContainer(dom, composeWindow, f).None?
              && dom.query(composeWindow, ClassSelectors[j]).Some? && NoneBefore(ClassSelectors, Within(dom, composeWindow), j)
            ==> c == dom.query(composeWindow, ClassSelectors[j]).value)
      && ((NoLabelMatch(dom, composeWindow, f) && InputContainer(dom, composeWindow, f).None? && NoClassMatch(dom, composeWindow))
            ==> c == composeWindow)
  {
    var cs := ContainerSelectors(f);
    forall i | 0 <= i < |cs| && dom.query(composeWindow, cs[i]).Some? && NoneBefore(cs, Within(dom, composeWindow), i)
      ensures FieldContainer(dom, composeWindow, f) == dom.query(composeWindow, cs[i]).value
    {
      FirstMatchEarliest(cs, Within(dom, composeWindow), i);
    }
    forall j | 0 <= j < |ClassSelectors| && NoLabelMatch(dom, composeWindow, f) && InputContainer(dom, composeWindow, f).None?
        && dom.query(composeWindow, ClassSelectors[j]).Some? && NoneBefore(ClassSelectors, Within(dom, composeWindow), j)
      ensures FieldContainer(dom, composeWindow, f) == dom.query(composeWindow, ClassSelectors[j]).value
    {
      assert forall i :: 0 <= i < |cs| ==> Within(dom, composeWindow)(cs[i]) == dom.query(composeWindow, cs[i]);
      FirstMatchEarliest(ClassSelectors, Within(dom, composeWindow), j);
    }
    assert forall i :: 0 <= i < |cs| ==> Within(dom, composeWindow)(cs[i]) == dom.query(composeWindow, cs[i]);
    assert forall i :: 0 <= i < |ClassSelectors| ==>
      Within(dom, composeWindow)(ClassSelectors[i]) == dom.query(composeWindow, ClassSelectors[i]);
  }

  /** `getRecipientsFromField`: find the field's container, then extract from
      what `scanOf` reports for it. */
  method GetRecipientsFromField(dom: Dom, scanOf: Element -> ContainerScan, composeWindow: Element, f: Field)
    returns (r: seq<string>)
    ensures r == Keep(Dedup(CollectedFromContainer(scanOf(FieldContainer(dom, composeWindow, f)))), ContainerOk)
    ensures Distinct(r)
    ensures forall x :: x in r ==> HasAt(x) && Text.Contains(x, ".") && !Text.HasWhitespace(x) && |x| > 5
  {
    var c := FindFieldContainer(dom, composeWindow, f);
    r := ExtractRecipientsFromContainer(scanOf(c));
  }

  /** The container lookups of `getRecipientsFromField`, in order. */
  method FindFieldContainer(dom: Dom, composeWindow: Element, f: Field) returns (c: Element)
    ensures c == FieldContainer(dom, composeWindow, f)
  {
    var container := FindElement(ContainerSelectors(f), Within(dom, composeWindow));
    if container.None? {
      container := FindByInput(dom, composeWindow, f);
    }
    if container.None? {
      container := FindElement(ClassSelectors, Within(dom, composeWindow));
    }
    c := if container.Some? then container.value else composeWindow;
  }

  /** The field input's closest `div`, or else its parent. */
  method FindByInput(dom: Dom, composeWindow: Element, f: Field) returns (container: Option<Element>)
    ensures container == InputContainer(dom, composeWindow, f)
  {
    container := None;
    var fieldInput := dom.query(composeWindow, FieldInputSelector(f));
    if fieldInput.Some? {
      container := dom.closestDiv(fieldInput.value);
      if container.None? {
        container := dom.parent(fieldInput.value);
      }
    }
  }
}
