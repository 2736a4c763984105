/** The recipient extraction of `src/content/utils/gmailSelectors.ts`. Each
    extractor walks several kinds of chips and inputs of a compose window,
    pushing trimmed candidate addresses into a working list (always, or only
    when absent), splits typed input on `,`/`;`, and finally removes duplicates
    with a `Set` and filters the survivors.

    The DOM queries are replaced by "scans": for each query, the sequence of
    what the code reads from the matched elements (a child's text or `None`
    when the child is missing, an attribute or `None`, a class test, an input's
    value). */
module Recipients {
  import opened Wrappers
  import opened Text

  // ---------------------------------------------------------------- list operations

  /** The pushes of a `forEach` over `items`, each item contributing `f(item)`. */
  function FlatMap<T, U>(items: seq<T>, f: T -> seq<U>): seq<U> {
    if items == [] then []
    else FlatMap(items[..|items| - 1], f) + f(items[|items| - 1])
  }

  lemma {:induction false} FlatMapMember<T, U>(items: seq<T>, f: T -> seq<U>, x: U)
    ensures x in FlatMap(items, f) <==> exists i :: 0 <= i < |items| && x in f(items[i])
  {
    if items != [] {
      var front, last := items[..|items| - 1], items[|items| - 1];
      FlatMapMember(front, f, x);
      assert FlatMap(items, f) == FlatMap(front, f) + f(last);
      if x in FlatMap(items, f) && x !in f(last) {
        var i :| 0 <= i < |front| && x in f(front[i]);
        assert front[i] == items[i];
      }
      if exists i :: 0 <= i < |items| && x in f(items[i]) {
        var i :| 0 <= i < |items| && x in f(items[i]);
        if i < |front| {
          assert front[i] == items[i];
        }
      }
    }
  }

  lemma FlatMapMembers<T, U>(items: seq<T>, f: T -> seq<U>)
    ensures forall x :: x in FlatMap(items, f) <==> exists i :: 0 <= i < |items| && x in f(items[i])
  {
    forall x ensures x in FlatMap(items, f) <==> exists i :: 0 <= i < |items| && x in f(items[i]) {
      FlatMapMember(items, f, x);
    }
  }

  /** Pushing each of `xs` onto `acc` unless it is already there
      (`if (!recipients.includes(v)) recipients.push(v)`). */
  function AddNew(acc: seq<string>, xs: seq<string>): (r: seq<string>)
    ensures |acc| <= |r| && r[..|acc|] == acc
  {
    if xs == [] then acc
    else
      var a := AddNew(acc, xs[..|xs| - 1]);
      var y := xs[|xs| - 1];
      if y in a then a else a + [y]
  }

  /** Push-if-absent keeps what was there, adds every other candidate exactly
      once, and adds nothing else; so it keeps a duplicate-free list
      duplicate-free. */
  lemma {:induction false} AddNewSpec(acc: seq<string>, xs: seq<string>)
    ensures var r := AddNew(acc, xs);
      && (forall x :: x in r <==> x in acc || x in xs)
      && |acc| <= |r| && r[..|acc|] == acc
      && (forall i :: |acc| <= i < |r| ==> r[i] !in acc)
      && (forall i, j :: |acc| <= i < j < |r| ==> r[i] != r[j])
      && (Distinct(acc) ==> Distinct(r))
  {
    if xs != [] {
      var front := xs[..|xs| - 1];
      var y := xs[|xs| - 1];
      AddNewSpec(acc, front);
      assert xs == front + [y];
      var a := AddNew(acc, front);
      if y !in a {
        var r := a + [y];
        assert r[..|acc|] == a[..|acc|];
        assert forall i :: 0 <= i < |a| ==> r[i] == a[i];
      }
    }
  }

  lemma {:induction false} AddNewAppend(acc: seq<string>, xs: seq<string>, ys: seq<string>)
    ensures AddNew(acc, xs + ys) == AddNew(AddNew(acc, xs), ys)
  {
    if ys == [] {
      assert xs + ys == xs;
    } else {
      var front := ys[..|ys| - 1];
      assert (xs + ys)[..|xs + ys| - 1] == xs + front;
      assert (xs + ys)[|xs + ys| - 1] == ys[|ys| - 1];
      AddNewAppend(acc, xs, front);
    }
  }

  /** `Array.from(new Set(list))`: the first occurrence of every value, in order. */
  function Dedup(s: seq<string>): seq<string> {
    AddNew([], s)
  }

  lemma DedupSpec(s: seq<string>)
    ensures Distinct(Dedup(s))
    ensures forall x :: x in Dedup(s) <==> x in s
    ensures Distinct(s) ==> Dedup(s) == s
  {
    AddNewSpec([], s);
    if Distinct(s) {
      DedupDistinct(s);
    }
  }

  lemma {:induction false} DedupDistinct(s: seq<string>)
    requires Distinct(s)
    ensures AddNew([], s) == s
  {
    if s != [] {
      var front := s[..|s| - 1];
      assert Distinct(front) by {
        forall i, j | 0 <= i < j < |front| ensures front[i] != front[j] {
          assert front[i] == s[i] && front[j] == s[j];
        }
      }
      DedupDistinct(front);
      assert s[|s| - 1] !in front by {
        forall i | 0 <= i < |front| ensures front[i] != s[|s| - 1] {
          assert front[i] == s[i];
        }
      }
      assert front + [s[|s| - 1]] == s;
    }
  }

  /** `list.filter(p)`. */
  function Keep(s: seq<string>, p: string -> bool): seq<string> {
    if s == [] then []
    else (if p(s[0]) then [s[0]] else []) + Keep(s[1..], p)
  }

  lemma {:induction false} KeepSpec(s: seq<string>, p: string -> bool)
    ensures forall x :: x in Keep(s, p) <==> x in s && p(x)
    ensures Distinct(s) ==> Distinct(Keep(s, p))
  {
    if s != [] {
      KeepSpec(s[1..], p);
      if Distinct(s) {
        assert Distinct(s[1..]) by {
          forall i, j | 0 <= i < j < |s| - 1 ensures s[1..][i] != s[1..][j] {
            assert s[1..][i] == s[i + 1] && s[1..][j] == s[j + 1];
          }
        }
        assert s[0] !in s[1..] by {
          forall i | 0 <= i < |s| - 1 ensures s[1..][i] != s[0] {
            assert s[1..][i] == s[i + 1];
          }
        }
      }
      assert s == [s[0]] + s[1..];
    }
  }

  /** The closing `Array.from(new Set(list)).filter(p)` of every extractor: no
      duplicates, and exactly the values of the list that pass `p`. */
  lemma FinalFilterSpec(list: seq<string>, p: string -> bool)
    ensures Distinct(Keep(Dedup(list), p))
    ensures forall x :: x in Keep(Dedup(list), p) <==> x in list && p(x)
  {
    DedupSpec(list);
    KeepSpec(Dedup(list), p);
  }

  // ---------------------------------------------------------------- typed input

  predicate NonEmpty(s: string) {
    s != ""
  }

  predicate HasAt(s: string) {
    Contains(s, "@")
  }

  /** `pieces.map(s => s.trim())`. */
  function TrimAll(pieces: seq<string>): (r: seq<string>)
    ensures |r| == |pieces| && forall i :: 0 <= i < |r| ==> r[i] == Trim(pieces[i])
  {
    seq(|pieces|, i requires 0 <= i < |pieces| => Trim(pieces[i]))
  }

  /** `value.split(/[,;]/)`, each piece trimmed, empty pieces dropped. */
  function SplitAddresses(value: string): seq<string> {
    Keep(TrimAll(Split(value)), NonEmpty)
  }

  /** What a typed address looks like: non-empty, trimmed for good (no
      whitespace at either end) and free of separators. */
  predicate Token(x: string) {
    && x != ""
    && Trim(x) == x
    && !IsWhitespace(x[0]) && !IsWhitespace(x[|x| - 1])
    && NoSeparator(x)
  }

  /** A non-empty trimmed piece of a split is a token. */
  lemma {:induction false} TrimmedPiece(piece: string)
    requires NoSeparator(piece)
    ensures Trim(piece) != "" ==> Token(Trim(piece))
  {
    var x := Trim(piece);
    if x != "" {
      assert Trim(x) == x by { TrimIdempotent(piece); }
      assert Unpadded(x) by { TrimEnds(piece); }
      assert NoSeparator(x) by {
        TrimSlice(piece);
        SliceNoSeparator(piece, |piece| - |TrimStart(piece)|, x);
      }
    }
  }

  /** A slice of a separator-free string is separator-free. */
  lemma SliceNoSeparator(s: string, a: int, r: string)
    requires IsSliceAt(s, a, r) && NoSeparator(s)
    ensures NoSeparator(r)
  {
    forall i | 0 <= i < |r| ensures !IsSeparator(r[i]) {
      assert r[i] == s[a..a + |r|][i] == s[a + i];
    }
  }

  /** `x` is one of `pieces`, trimmed. */
  predicate IsTrimmedPiece(pieces: seq<string>, x: string) {
    exists k :: 0 <= k < |pieces| && Trim(pieces[k]) == x
  }

  lemma TrimAllMembers(pieces: seq<string>)
    ensures forall x :: x in TrimAll(pieces) <==> IsTrimmedPiece(pieces, x)
  {
    var trimmed := TrimAll(pieces);
    forall x | x in trimmed ensures IsTrimmedPiece(pieces, x) {
      var k :| 0 <= k < |trimmed| && trimmed[k] == x;
    }
    forall x | IsTrimmedPiece(pieces, x) ensures x in trimmed {
      var k :| 0 <= k < |pieces| && Trim(pieces[k]) == x;
      assert trimmed[k] == x;
    }
  }

  /** Trimming then dropping empty pieces keeps exactly the non-empty trimmed
      pieces. */
  lemma KeepTrimmedMembers(pieces: seq<string>)
    ensures forall x :: x in Keep(TrimAll(pieces), NonEmpty) <==> x != "" && IsTrimmedPiece(pieces, x)
  {
    var trimmed := TrimAll(pieces);
    KeepSpec(trimmed, NonEmpty);
    TrimAllMembers(pieces);
    forall x ensures x in Keep(trimmed, NonEmpty) <==> x != "" && IsTrimmedPiece(pieces, x) {
      assert NonEmpty(x) <==> x != "";
    }
  }

  /** When no piece holds a separator, every piece kept is a token. */
  lemma KeepTrimmedTokens(pieces: seq<string>)
    requires forall k :: 0 <= k < |pieces| ==> NoSeparator(pieces[k])
    ensures forall x :: x in Keep(TrimAll(pieces), NonEmpty) ==> Token(x)
  {
    KeepTrimmedMembers(pieces);
    forall x | x in Keep(TrimAll(pieces), NonEmpty) ensures Token(x) {
      assert IsTrimmedPiece(pieces, x);
      var k :| 0 <= k < |pieces| && Trim(pieces[k]) == x;
      TrimmedPiece(pieces[k]);
    }
  }

  /** The addresses taken from typed input are exactly the non-empty trimmed
      pieces between separators, and each is a token. */
  lemma SplitAddressesSpec(value: string)
    ensures forall x :: x in SplitAddresses(value) <==> x != "" && IsTrimmedPiece(Split(value), x)
    ensures forall x :: x in SplitAddresses(value) ==> Token(x)
  {
    KeepTrimmedMembers(Split(value));
    KeepTrimmedTokens(Split(value));
  }

  // ---------------------------------------------------------------- scans

  /** A classic chip: the text of its `.g2` child (`None` when there is none)
      and its own text. */
  datatype ClassicChip = ClassicChip(g2Text: Option<string>, text: string)

  /** A `role` chip: whether it carries the class its specific stage already
      covers (`vN` for list items, `afV` for options) and its text. */
  datatype MarkedChip = MarkedChip(marked: bool, text: string)

  /** A candidate leaf: its text and whether it has child elements. */
  datatype TextElement = TextElement(text: string, hasChildElement: bool)

  /** A new-UI chip contributes the trimmed text of its `.akl` child when that
      child exists and has text. */
  function NewChipText(akl: Option<string>): seq<string> {
    if akl.Some? && akl.value != "" then [Trim(akl.value)] else []
  }

  /** A classic chip contributes its `.g2` text, or failing that its own text. */
  function ClassicChipText(c: ClassicChip): seq<string> {
    if c.g2Text.Some? && c.g2Text.value != "" then [Trim(c.g2Text.value)]
    else if c.text != "" then [Trim(c.text)]
    else []
  }

  function UnmarkedText(c: MarkedChip): seq<string> {
    if !c.marked && c.text != "" then [Trim(c.text)] else []
  }

  /** A `data-hovercard-id` is taken when it contains `@` before trimming. */
  function HovercardEmail(id: Option<string>): seq<string> {
    if id.Some? && id.value != "" && HasAt(id.value) then [Trim(id.value)] else []
  }

  /** The value of the input a selector found, split into addresses. */
  function TypedAddresses(value: Option<string>): seq<string> {
    if value.Some? && value.value != "" then SplitAddresses(value.value) else []
  }

  function ElementText(text: string): seq<string> {
    if text != "" then [Trim(text)] else []
  }

  function WithAt(xs: seq<string>): seq<string> {
    Keep(xs, HasAt)
  }

  // ---------------------------------------------------------------- accumulation loops

  /** A `forEach` that pushes every candidate. */
  method PushEach<T>(acc: seq<string>, items: seq<T>, f: T -> seq<string>) returns (r: seq<string>)
    ensures r == acc + FlatMap(items, f)
  {
    r := acc;
    var i := 0;
    while i < |items|
      invariant 0 <= i <= |items|
      invariant r == acc + FlatMap(items[..i], f)
    {
      assert items[..i + 1][..i] == items[..i];
      r := r + f(items[i]);
      i := i + 1;
    }
    assert items[..i] == items;
  }

  /** A `forEach` that pushes each candidate only when it is not yet in the list. */
  method PushEachIfAbsent<T>(acc: seq<string>, items: seq<T>, f: T -> seq<string>) returns (r: seq<string>)
    ensures r == AddNew(acc, FlatMap(items, f))
  {
    r := acc;
    var i := 0;
    while i < |items|
      invariant 0 <= i <= |items|
      invariant r == AddNew(acc, FlatMap(items[..i], f))
    {
      assert items[..i + 1][..i] == items[..i];
      var candidates := f(items[i]);
      ghost var before := r;
      var k := 0;
      while k < |candidates|
        invariant 0 <= k <= |candidates|
        invariant r == AddNew(before, candidates[..k])
      {
        assert candidates[..k + 1][..k] == candidates[..k];
        if candidates[k] !in r {
          r := r + [candidates[k]];
        }
        k := k + 1;
      }
      assert candidates[..k] == candidates;
      AddNewAppend(acc, FlatMap(items[..i], f), candidates);
      i := i + 1;
    }
    assert items[..i] == items;
  }

  // ---------------------------------------------------------------- getAllRecipients

  datatype AllScan = AllScan(
    newChips: seq<Option<string>>,       // `div[role="option"].afV`: text of the `.akl` child
    classicChips: seq<ClassicChip>,      // `.vN[role="listitem"]`
    listitemChips: seq<MarkedChip>,      // `[role="listitem"]`, marked = has class `vN`
    optionChips: seq<MarkedChip>,        // `[role="option"]`, marked = has class `afV`
    hovercardIds: seq<Option<string>>,   // `[data-hovercard-id]`
    inputValues: seq<Option<string>>,    // per recipient-input selector, the value of its match
    aklTexts: seq<string>)               // `.akl[translate="no"]`

  /** The working list of `getAllRecipients`: all seven stages push unconditionally. */
  function CollectedAll(s: AllScan): seq<string> {
    FlatMap(s.newChips, NewChipText) + FlatMap(s.classicChips, ClassicChipText)
    + FlatMap(s.listitemChips, UnmarkedText) + FlatMap(s.optionChips, UnmarkedText)
    + FlatMap(s.hovercardIds, HovercardEmail) + FlatMap(s.inputValues, TypedAddresses)
    + FlatMap(s.aklTexts, ElementText)
  }

  /** `filter(Boolean).filter(r => r.includes('@'))`. */
  predicate AllOk(x: string) {
    x != "" && HasAt(x)
  }

  method GetAllRecipients(s: AllScan) returns (r: seq<string>)
    ensures r == Keep(Dedup(CollectedAll(s)), AllOk)
    ensures Distinct(r)
    ensures forall x :: x in r <==> x in CollectedAll(s) && x != "" && HasAt(x)
  {
    var recipients := [];
    recipients := PushEach(recipients, s.newChips, NewChipText);
    assert recipients == FlatMap(s.newChips, NewChipText);
    recipients := PushEach(recipients, s.classicChips, ClassicChipText);
    recipients := PushEach(recipients, s.listitemChips, UnmarkedText);
    recipients := PushEach(recipients, s.optionChips, UnmarkedText);
    recipients := PushEach(recipients, s.hovercardIds, HovercardEmail);
    recipients := PushEach(recipients, s.inputValues, TypedAddresses);
    recipients := PushEach(recipients, s.aklTexts, ElementText);
    assert recipients == CollectedAll(s);
    r := Keep(Dedup(recipients), AllOk);
    FinalFilterSpec(recipients, AllOk);
  }

  // ---------------------------------------------------------------- getAllRecipientsByField

  /** The chips and inputs of one field (`email-field="to"`, ...). */
  datatype FieldScan = FieldScan(
    hovercardIds: seq<Option<string>>,
    newChips: seq<Option<string>>,
    classicChips: seq<ClassicChip>,
    aklTexts: seq<string>,
    inputValues: seq<Option<string>>)    // per field-input selector, the value of its match

  function NewChipWithAt(akl: Option<string>): seq<string> { WithAt(NewChipText(akl)) }
  function ClassicWithAt(c: ClassicChip): seq<string> { WithAt(ClassicChipText(c)) }
  function TextWithAt(text: string): seq<string> { WithAt(ElementText(text)) }
  function TypedWithAt(value: Option<string>): seq<string> { WithAt(TypedAddresses(value)) }
  function UnmarkedWithAt(c: MarkedChip): seq<string> { WithAt(UnmarkedText(c)) }

  /** The candidates after the first stage, which alone pushes without checking
      for presence. */
  function FieldLater(s: FieldScan): seq<string> {
    FlatMap(s.newChips, NewChipWithAt) + FlatMap(s.classicChips, ClassicWithAt)
    + FlatMap(s.aklTexts, TextWithAt) + FlatMap(s.inputValues, TypedWithAt)
  }

  function CollectedByField(s: FieldScan): seq<string> {
    AddNew(FlatMap(s.hovercardIds, HovercardEmail), FieldLater(s))
  }

  /** `email && email.includes('@') && !/\s/.test(email)`. */
  predicate FieldOk(x: string) {
    x != "" && HasAt(x) && !HasWhitespace(x)
  }

  method GetAllRecipientsByField(s: FieldScan) returns (r: seq<string>)
    ensures r == Keep(Dedup(CollectedByField(s)), FieldOk)
    ensures Distinct(r)
    ensures forall x :: x in r <==> x in CollectedByField(s) && FieldOk(x)
  {
    var recipients := [];
    recipients := PushEach(recipients, s.hovercardIds, HovercardEmail);
    assert recipients == FlatMap(s.hovercardIds, HovercardEmail);
    ghost var first := recipients;
    recipients := PushEachIfAbsent(recipients, s.newChips, NewChipWithAt);
    ghost var l2 := recipients;
    recipients := PushEachIfAbsent(recipients, s.classicChips, ClassicWithAt);
    ghost var l3 := recipients;
    recipients := PushEachIfAbsent(recipients, s.aklTexts, TextWithAt);
    ghost var l4 := recipients;
    recipients := PushEachIfAbsent(recipients, s.inputValues, TypedWithAt);
    ghost var a, b, c, d := FlatMap(s.newChips, NewChipWithAt), FlatMap(s.classicChips, ClassicWithAt),
      FlatMap(s.aklTexts, TextWithAt), FlatMap(s.inputValues, TypedWithAt);
    AddNewAppend(first, a, b);
    AddNewAppend(first, a + b, c);
    AddNewAppend(first, a + b + c, d);
    assert a + b + c + d == FieldLater(s);
    r := Keep(Dedup(recipients), FieldOk);
    FinalFilterSpec(recipients, FieldOk);
  }

  /** Stages two to five only ever add values that are new, so duplicates in the
      working list can come only from the first stage; every value they add
      contains `@`. */
  lemma ByFieldLaterStagesAddOnlyNew(s: FieldScan)
    ensures var first, w := FlatMap(s.hovercardIds, HovercardEmail), CollectedByField(s);
      && w[..|first|] == first
      && (forall i :: |first| <= i < |w| ==> w[i] !in first && HasAt(w[i]))
      && (forall i, j :: |first| <= i < j < |w| ==> w[i] != w[j])
      && (Distinct(first) ==> Distinct(w))
  {
    var first := FlatMap(s.hovercardIds, HovercardEmail);
    AddNewSpec(first, FieldLater(s));
    var w := CollectedByField(s);
    forall i | |first| <= i < |w| ensures HasAt(w[i]) {
      assert w[i] in w;
      assert w[i] in FieldLater(s);
      LaterHaveAt(s, w[i]);
    }
  }

  lemma LaterHaveAt(s: FieldScan, x: string)
    requires x in FieldLater(s)
    ensures HasAt(x)
  {
    FlatMapMembers(s.newChips, NewChipWithAt);
    FlatMapMembers(s.classicChips, ClassicWithAt);
    FlatMapMembers(s.aklTexts, TextWithAt);
    FlatMapMembers(s.inputValues, TypedWithAt);
    if x in FlatMap(s.newChips, NewChipWithAt) {
      var i :| 0 <= i < |s.newChips| && x in NewChipWithAt(s.newChips[i]);
      KeepSpec(NewChipText(s.newChips[i]), HasAt);
    } else if x in FlatMap(s.classicChips, ClassicWithAt) {
      var i :| 0 <= i < |s.classicChips| && x in ClassicWithAt(s.classicChips[i]);
      KeepSpec(ClassicChipText(s.classicChips[i]), HasAt);
    } else if x in FlatMap(s.aklTexts, TextWithAt) {
      var i :| 0 <= i < |s.aklTexts| && x in TextWithAt(s.aklTexts[i]);
      KeepSpec(ElementText(s.aklTexts[i]), HasAt);
    } else {
      var i :| 0 <= i < |s.inputValues| && x in TypedWithAt(s.inputValues[i]);
      KeepSpec(TypedAddresses(s.inputValues[i]), HasAt);
    }
  }

  // ---------------------------------------------------------------- extractRecipientsFromContainer

  datatype ContainerScan = ContainerScan(
    hovercardIds: seq<Option<string>>,   // method 1
    newChips: seq<Option<string>>,       // method 2
    classicChips: seq<ClassicChip>,      // method 3
    listitemChips: seq<MarkedChip>,      // method 4
    optionChips: seq<MarkedChip>,        // method 5
    aklTexts: seq<string>,               // method 6
    g2Texts: seq<string>,                // method 7
    inputValues: seq<Option<string>>,    // method 8, per input selector
    allInputValues: seq<string>,         // method 9, every input and textarea
    elements: seq<TextElement>)          // method 10, every element

  /** Method 9: an input whose whole value contains `@`. */
  function AnyInputAddresses(value: string): seq<string> {
    if value != "" && HasAt(value) then WithAt(SplitAddresses(value)) else []
  }

  /** Method 10: a leaf element whose trimmed text contains `@` and `.`. */
  function LeafText(e: TextElement): seq<string> {
    var t := Trim(e.text);
    if HasAt(t) && Contains(t, ".") && !e.hasChildElement then [t] else []
  }

  function ContainerLater(s: ContainerScan): seq<string> {
    ContainerChips(s) + ContainerTexts(s)
  }

  /** Methods two to five: the chip candidates. */
  function ContainerChips(s: ContainerScan): seq<string> {
    FlatMap(s.newChips, NewChipWithAt) + FlatMap(s.classicChips, ClassicWithAt)
    + FlatMap(s.listitemChips, UnmarkedWithAt) + FlatMap(s.optionChips, UnmarkedWithAt)
  }

  /** Methods six to ten: the text, input and leaf-element candidates. */
  function ContainerTexts(s: ContainerScan): seq<string> {
    FlatMap(s.aklTexts, TextWithAt) + FlatMap(s.g2Texts, TextWithAt)
    + FlatMap(s.inputValues, TypedWithAt) + FlatMap(s.allInputValues, AnyInputAddresses)
    + FlatMap(s.elements, LeafText)
  }

  function CollectedFromContainer(s: ContainerScan): seq<string> {
    AddNew(FlatMap(s.hovercardIds, HovercardEmail), ContainerLater(s))
  }

  /** The final filter: non-empty, contains `@` and `.`, no whitespace, longer
      than five characters. */
  predicate ContainerOk(x: string) {
    x != "" && HasAt(x) && Contains(x, ".") && !HasWhitespace(x) && |x| > 5
  }

  method ExtractRecipientsFromContainer(s: ContainerScan) returns (r: seq<string>)
    ensures r == Keep(Dedup(CollectedFromContainer(s)), ContainerOk)
    ensures Distinct(r)
    ensures forall x :: x in r <==> x in CollectedFromContainer(s) && ContainerOk(x)
    ensures forall x :: x in r ==> HasAt(x) && Contains(x, ".") && !HasWhitespace(x) && |x| > 5
  {
    var recipients := [];
    recipients := PushEach(recipients, s.hovercardIds, HovercardEmail);
    assert recipients == FlatMap(s.hovercardIds, HovercardEmail);
    ghost var first := recipients;
    recipients := PushChipStages(recipients, s);
    recipients := PushTextStages(recipients, s);
    AddNewAppend(first, ContainerChips(s), ContainerTexts(s));
    r := Keep(Dedup(recipients), ContainerOk);
    FinalFilterSpec(recipients, ContainerOk);
  }

  /** Methods two to five, each pushing only what is not there yet. */
  method PushChipStages(acc: seq<string>, s: ContainerScan) returns (r: seq<string>)
    ensures r == AddNew(acc, ContainerChips(s))
  {
    ghost var a, b, c, d := FlatMap(s.newChips, NewChipWithAt), FlatMap(s.classicChips, ClassicWithAt),
      FlatMap(s.listitemChips, UnmarkedWithAt), FlatMap(s.optionChips, UnmarkedWithAt);
    r := PushEachIfAbsent(acc, s.newChips, NewChipWithAt);
    r := PushEachIfAbsent(r, s.classicChips, ClassicWithAt);
    AddNewAppend(acc, a, b);
    r := PushEachIfAbsent(r, s.listitemChips, UnmarkedWithAt);
    AddNewAppend(acc, a + b, c);
    r := PushEachIfAbsent(r, s.optionChips, UnmarkedWithAt);
    AddNewAppend(acc, a + b + c, d);
  }

  /** Methods six to ten, each pushing only what is not there yet. */
  method PushTextStages(acc: seq<string>, s: ContainerScan) returns (r: seq<string>)
    ensures r == AddNew(acc, ContainerTexts(s))
  {
    ghost var a, b, c, d, e := FlatMap(s.aklTexts, TextWithAt), FlatMap(s.g2Texts, TextWithAt),
      FlatMap(s.inputValues, TypedWithAt), FlatMap(s.allInputValues, AnyInputAddresses),
      FlatMap(s.elements, LeafText);
    r := PushEachIfAbsent(acc, s.aklTexts, TextWithAt);
    r := PushEachIfAbsent(r, s.g2Texts, TextWithAt);
    AddNewAppend(acc, a, b);
    r := PushEachIfAbsent(r, s.inputValues, TypedWithAt);
    AddNewAppend(acc, a + b, c);
    r := PushEachIfAbsent(r, s.allInputValues, AnyInputAddresses);
    AddNewAppend(acc, a + b + c, d);
    r := PushEachIfAbsent(r, s.elements, LeafText);
    AddNewAppend(acc, a + b + c + d, e);
  }

  /** Methods two to ten only add values that are new. */
  lemma ContainerLaterStagesAddOnlyNew(s: ContainerScan)
    ensures var first, w := FlatMap(s.hovercardIds, HovercardEmail), CollectedFromContainer(s);
      && w[..|first|] == first
      && (forall i :: |first| <= i < |w| ==> w[i] !in first)
      && (forall i, j :: |first| <= i < j < |w| ==> w[i] != w[j])
      && (Distinct(first) ==> Distinct(w))
  {
    AddNewSpec(FlatMap(s.hovercardIds, HovercardEmail), ContainerLater(s));
  }
}
